/** The city-name search: the loaded (city, nation) entries are filtered
    by a name prefix, and optionally by an exact country code. The first
    qualifying entry of each city is kept, and the results are sorted by
    city name and formatted as `city + "     --" + nation`. */
module CityList {
  import opened Strings
  import opened Wrappers

  /** `pair`: a city and its nation. */
  datatype Pair = Pair(city: string, nation: string)

  /** `pair.compareTo`: the cities' `compareTo`. */
  function ComparePairs(a: Pair, b: Pair): (r: int)
    ensures r == 0 <==> a.city == b.city
  {
    CompareTo(a.city, b.city)
  }

  lemma ComparePairsAntisymmetric(a: Pair, b: Pair)
    ensures ComparePairs(b, a) == -ComparePairs(a, b)
  {
    CompareAntisymmetric(a.city, b.city);
  }

  /** Ascending by city, as `Collections.sort` leaves a list. */
  predicate Sorted(s: seq<Pair>) {
    forall i, j :: 0 <= i < j < |s| ==> ComparePairs(s[i], s[j]) <= 0
  }

  /** Strictly ascending by city: sorted, and no city twice. */
  predicate StrictlySorted(s: seq<Pair>) {
    forall i, j :: 0 <= i < j < |s| ==> ComparePairs(s[i], s[j]) < 0
  }

  /** No city occurs twice in `s`. */
  predicate DistinctCities(s: seq<Pair>) {
    forall i, j :: 0 <= i < j < |s| ==> s[i].city != s[j].city
  }

  function Cities(s: seq<Pair>): (r: seq<string>)
    ensures |r| == |s| && forall i :: 0 <= i < |s| ==> r[i] == s[i].city
  {
    seq(|s|, i requires 0 <= i < |s| => s[i].city)
  }

  /** `name.substring(0, 1).toUpperCase() + name.substring(1)`: the first
      character upper-cased, the rest kept. */
  function Capitalize(name: string): (r: string)
    requires name != []
    ensures |r| == |name| && r[0] == UpperChar(name[0]) && r[1..] == name[1..]
  {
    ToUpper(name[..1]) + name[1..]
  }

  /** One line of the search output. */
  function Format(p: Pair): string {
    p.city + "     --" + p.nation
  }

  function FormatAll(s: seq<Pair>): (r: seq<string>)
    ensures |r| == |s| && forall i :: 0 <= i < |s| ==> r[i] == Format(s[i])
  {
    seq(|s|, i requires 0 <= i < |s| => Format(s[i]))
  }

  // ---------------------------------------------------------------------
  // The selection loop

  /** An entry the search keeps: its city starts with `prefix` and, when a
      country is given, its nation equals it. */
  predicate Qualifies(c: string, n: string, prefix: string, country: Option<string>) {
    StartsWith(c, prefix) && (country.None? || n == country.value)
  }

  /** Entry `k` qualifies and no earlier qualifying entry has its city. */
  predicate FirstQualifying(cs: seq<string>, ns: seq<string>, prefix: string, country: Option<string>, k: int) {
    0 <= k < |cs| && k < |ns| && Qualifies(cs[k], ns[k], prefix, country)
    && forall k' :: 0 <= k' < k ==> Qualifies(cs[k'], ns[k'], prefix, country) ==> cs[k'] != cs[k]
  }

  /** `p` is the pair of an entry before `i` that is the first qualifying
      entry of its city. */
  predicate FirstPairBefore(cs: seq<string>, ns: seq<string>, prefix: string, country: Option<string>, i: int, p: Pair) {
    exists k :: 0 <= k < i && FirstQualifying(cs, ns, prefix, country, k) && p == Pair(cs[k], ns[k])
  }

  /** The pairs the selection loop holds after looking at the first `i`
      entries: a qualifying entry is added unless its city is already
      there. */
  function Gathered(cs: seq<string>, ns: seq<string>, prefix: string, country: Option<string>, i: nat): seq<Pair>
    requires i <= |cs| && i <= |ns|
  {
    if i == 0 then []
    else
      var prev := Gathered(cs, ns, prefix, country, i - 1);
      if Qualifies(cs[i - 1], ns[i - 1], prefix, country) && cs[i - 1] !in Cities(prev)
      then prev + [Pair(cs[i - 1], ns[i - 1])]
      else prev
  }

  /** The gathered pairs have distinct cities. */
  lemma {:induction false} GatheredDistinct(cs: seq<string>, ns: seq<string>, prefix: string, country: Option<string>, i: nat)
    requires i <= |cs| && i <= |ns|
    ensures DistinctCities(Gathered(cs, ns, prefix, country, i))
  {
    if i > 0 {
      GatheredDistinct(cs, ns, prefix, country, i - 1);
      var prev := Gathered(cs, ns, prefix, country, i - 1);
      var c := cs[i - 1];
      if Qualifies(c, ns[i - 1], prefix, country) && c !in Cities(prev) {
        forall j | 0 <= j < |prev| ensures prev[j].city != c {
          assert Cities(prev)[j] == prev[j].city;
        }
      }
    }
  }

  /** Every qualifying city among the first `i` entries is gathered. */
  lemma {:induction false} GatheredComplete(cs: seq<string>, ns: seq<string>, prefix: string, country: Option<string>, i: nat)
    requires i <= |cs| && i <= |ns|
    ensures var g := Gathered(cs, ns, prefix, country, i);
      forall k :: 0 <= k < i && Qualifies(cs[k], ns[k], prefix, country) ==> cs[k] in Cities(g)
  {
    if i > 0 {
      GatheredComplete(cs, ns, prefix, country, i - 1);
      var prev := Gathered(cs, ns, prefix, country, i - 1);
      var g := Gathered(cs, ns, prefix, country, i);
      var c := cs[i - 1];
      if Qualifies(c, ns[i - 1], prefix, country) && c !in Cities(prev) {
        assert g == prev + [Pair(c, ns[i - 1])];
        assert Cities(g)[|prev|] == c;
        forall k | 0 <= k < i - 1 && Qualifies(cs[k], ns[k], prefix, country) ensures cs[k] in Cities(g) {
          var j :| 0 <= j < |prev| && Cities(prev)[j] == cs[k];
          assert Cities(g)[j] == cs[k];
        }
      }
    }
  }

  /** Each gathered pair comes from the first qualifying entry of its
      city. */
  lemma {:induction false} GatheredFirst(cs: seq<string>, ns: seq<string>, prefix: string, country: Option<string>, i: nat, j: int)
    requires i <= |cs| && i <= |ns| && 0 <= j < |Gathered(cs, ns, prefix, country, i)|
    ensures FirstPairBefore(cs, ns, prefix, country, i, Gathered(cs, ns, prefix, country, i)[j])
  {
    var prev := Gathered(cs, ns, prefix, country, i - 1);
    var g := Gathered(cs, ns, prefix, country, i);
    var c, n := cs[i - 1], ns[i - 1];
    if j < |prev| {
      assert g[j] == prev[j];
      GatheredFirst(cs, ns, prefix, country, i - 1, j);
      var k :| 0 <= k < i - 1 && FirstQualifying(cs, ns, prefix, country, k) && prev[j] == Pair(cs[k], ns[k]);
      assert 0 <= k < i && FirstQualifying(cs, ns, prefix, country, k) && g[j] == Pair(cs[k], ns[k]);
    } else {
      assert g == prev + [Pair(c, n)] && g[j] == Pair(c, n);
      GatheredComplete(cs, ns, prefix, country, i - 1);
      assert FirstQualifying(cs, ns, prefix, country, i - 1);
      assert 0 <= i - 1 < i && g[j] == Pair(cs[i - 1], ns[i - 1]);
    }
  }

  // ---------------------------------------------------------------------
  // Collections.sort

  /** Insert `p` after every pair whose city is not above its own. */
  function InsertPair(s: seq<Pair>, p: Pair): seq<Pair> {
    if s == [] then [p]
    else if ComparePairs(p, s[0]) < 0 then [p] + s
    else [s[0]] + InsertPair(s[1..], p)
  }

  /** The stable sort of `s` by city. */
  function SortPairs(s: seq<Pair>): seq<Pair> {
    if s == [] then [] else InsertPair(SortPairs(s[..|s| - 1]), s[|s| - 1])
  }

  /** Insertion adds `p` to the elements and keeps the order. */
  lemma InsertPairFacts(s: seq<Pair>, p: Pair)
    ensures multiset(InsertPair(s, p)) == multiset(s) + multiset{p}
    ensures Sorted(s) ==> Sorted(InsertPair(s, p))
    ensures StrictlySorted(s) && p.city !in Cities(s) ==> StrictlySorted(InsertPair(s, p))
  {
    InsertPairElems(s, p);
    if Sorted(s) {
      InsertPairSorted(s, p);
    }
    if StrictlySorted(s) && p.city !in Cities(s) {
      InsertPairStrict(s, p);
    }
  }

  lemma {:induction false} InsertPairElems(s: seq<Pair>, p: Pair)
    ensures multiset(InsertPair(s, p)) == multiset(s) + multiset{p}
  {
    if s != [] && ComparePairs(p, s[0]) >= 0 {
      InsertPairElems(s[1..], p);
      assert s == [s[0]] + s[1..];
    }
  }

  /** Every element of `InsertPair(s, p)` other than `p` is an element of `s`. */
  lemma InsertPairFrom(s: seq<Pair>, p: Pair, q: Pair)
    requires q in InsertPair(s, p) && q != p
    ensures exists k :: 0 <= k < |s| && s[k] == q
  {
    InsertPairElems(s, p);
    assert q in multiset(InsertPair(s, p));
    assert q in multiset(s);
  }

  lemma {:induction false} InsertPairSorted(s: seq<Pair>, p: Pair)
    requires Sorted(s)
    ensures Sorted(InsertPair(s, p))
  {
    if s == [] {
    } else if ComparePairs(p, s[0]) >= 0 {
      var rest := InsertPair(s[1..], p);
      InsertPairSorted(s[1..], p);
      forall j | 0 <= j < |rest| ensures ComparePairs(s[0], rest[j]) <= 0 {
        HeadBelowRest(s, p, j);
      }
      ConsOrdered(s[0], rest);
    } else {
      forall j | 0 <= j < |s| ensures ComparePairs(p, s[j]) <= 0 {
        NewHeadBelow(s, p, j);
      }
      ConsOrdered(p, s);
    }
  }

  lemma {:induction false} InsertPairStrict(s: seq<Pair>, p: Pair)
    requires StrictlySorted(s) && p.city !in Cities(s)
    ensures StrictlySorted(InsertPair(s, p))
  {
    if s == [] {
    } else if ComparePairs(p, s[0]) >= 0 {
      var rest := InsertPair(s[1..], p);
      assert Cities(s)[0] == s[0].city;
      assert p.city !in Cities(s[1..]) by {
        forall k | 0 <= k < |s[1..]| ensures Cities(s[1..])[k] != p.city {
          assert Cities(s)[k + 1] == s[k + 1].city && s[1..][k] == s[k + 1];
        }
      }
      InsertPairStrict(s[1..], p);
      forall j | 0 <= j < |rest| ensures ComparePairs(s[0], rest[j]) < 0 {
        HeadBelowRest(s, p, j);
      }
      ConsOrdered(s[0], rest);
    } else {
      forall j | 0 <= j < |s| ensures ComparePairs(p, s[j]) < 0 {
        NewHeadBelow(s, p, j);
      }
      ConsOrdered(p, s);
    }
  }

  /** When `p` goes after `s[0]`, `s[0]` stays below everything that
      follows it. */
  lemma HeadBelowRest(s: seq<Pair>, p: Pair, j: int)
    requires s != [] && ComparePairs(p, s[0]) >= 0 && 0 <= j < |InsertPair(s[1..], p)|
    ensures Sorted(s) ==> ComparePairs(s[0], InsertPair(s[1..], p)[j]) <= 0
    ensures StrictlySorted(s) && p.city != s[0].city ==> ComparePairs(s[0], InsertPair(s[1..], p)[j]) < 0
  {
    var rest := InsertPair(s[1..], p);
    if rest[j] == p {
      ComparePairsAntisymmetric(p, s[0]);
    } else {
      InsertPairFrom(s[1..], p, rest[j]);
      var k :| 0 <= k < |s[1..]| && s[1..][k] == rest[j];
      assert s[k + 1] == rest[j];
    }
  }

  /** When `p` goes first, it is below every element of `s`. */
  lemma NewHeadBelow(s: seq<Pair>, p: Pair, j: int)
    requires s != [] && ComparePairs(p, s[0]) < 0 && 0 <= j < |s|
    ensures Sorted(s) ==> ComparePairs(p, s[j]) <= 0
    ensures StrictlySorted(s) ==> ComparePairs(p, s[j]) < 0
  {
    if j > 0 && s[0].city != s[j].city && (Sorted(s) || StrictlySorted(s)) {
      LessTransitive(p.city, s[0].city, s[j].city);
    }
  }

  /** A pair below every element of an ordered sequence can go in front. */
  lemma ConsOrdered(x: Pair, s: seq<Pair>)
    ensures Sorted(s) && (forall j :: 0 <= j < |s| ==> ComparePairs(x, s[j]) <= 0) ==> Sorted([x] + s)
    ensures StrictlySorted(s) && (forall j :: 0 <= j < |s| ==> ComparePairs(x, s[j]) < 0) ==> StrictlySorted([x] + s)
  {
    var r := [x] + s;
    forall i, j | 0 < i < j < |r| ensures r[i] == s[i - 1] && r[j] == s[j - 1] {
    }
  }

  /** Equal multisets have the same cities. */
  lemma SameElementsSameCities(a: seq<Pair>, b: seq<Pair>, c: string)
    requires multiset(a) == multiset(b)
    ensures c in Cities(a) <==> c in Cities(b)
  {
    if c in Cities(a) {
      var i :| 0 <= i < |a| && Cities(a)[i] == c;
      assert a[i] in multiset(b);
      var j :| 0 <= j < |b| && b[j] == a[i];
      assert Cities(b)[j] == c;
    }
    if c in Cities(b) {
      var j :| 0 <= j < |b| && Cities(b)[j] == c;
      assert b[j] in multiset(a);
      var i :| 0 <= i < |a| && a[i] == b[j];
      assert Cities(a)[i] == c;
    }
  }

  /** The sort is a permutation into ascending order, and strictly
      ascending when no city occurs twice. */
  lemma {:induction false} SortPairsCorrect(s: seq<Pair>)
    ensures multiset(SortPairs(s)) == multiset(s)
    ensures Sorted(SortPairs(s))
    ensures DistinctCities(s) ==> StrictlySorted(SortPairs(s))
  {
    if s != [] {
      var init, last := s[..|s| - 1], s[|s| - 1];
      assert s == init + [last];
      SortPairsCorrect(init);
      InsertPairFacts(SortPairs(init), last);
      if DistinctCities(s) {
        DistinctInit(s);
        SameElementsSameCities(SortPairs(init), init, last.city);
      }
    }
  }

  /** Dropping the last pair keeps the cities distinct, and the last city
      is not among the others. */
  lemma DistinctInit(s: seq<Pair>)
    requires s != [] && DistinctCities(s)
    ensures DistinctCities(s[..|s| - 1]) && s[|s| - 1].city !in Cities(s[..|s| - 1])
  {
    var init := s[..|s| - 1];
    forall i, j | 0 <= i < j < |init| ensures init[i].city != init[j].city {
      assert init[i] == s[i] && init[j] == s[j];
    }
    forall i | 0 <= i < |init| ensures Cities(init)[i] != s[|s| - 1].city {
      assert init[i] == s[i];
    }
  }

  // ---------------------------------------------------------------------
  // What a search returns

  /** The sorted result of a search: strictly ascending (so no city
      twice), only qualifying entries, each the first qualifying entry of
      its city, and every qualifying city present. */
  lemma SearchResult(cs: seq<string>, ns: seq<string>, prefix: string, country: Option<string>)
    requires |cs| == |ns|
    ensures StrictlySorted(SortPairs(Gathered(cs, ns, prefix, country, |cs|)))
    ensures var r := SortPairs(Gathered(cs, ns, prefix, country, |cs|));
      forall j :: 0 <= j < |r| ==> Qualifies(r[j].city, r[j].nation, prefix, country)
    ensures var r := SortPairs(Gathered(cs, ns, prefix, country, |cs|));
      forall j :: 0 <= j < |r| ==> FirstPairBefore(cs, ns, prefix, country, |cs|, r[j])
    ensures var r := SortPairs(Gathered(cs, ns, prefix, country, |cs|));
      forall k :: 0 <= k < |cs| && Qualifies(cs[k], ns[k], prefix, country) ==> cs[k] in Cities(r)
  {
    var g := Gathered(cs, ns, prefix, country, |cs|);
    var r := SortPairs(g);
    SortPairsCorrect(g);
    GatheredDistinct(cs, ns, prefix, country, |cs|);
    forall j | 0 <= j < |r|
      ensures Qualifies(r[j].city, r[j].nation, prefix, country)
      ensures FirstPairBefore(cs, ns, prefix, country, |cs|, r[j])
    {
      SearchEntry(cs, ns, prefix, country, r, j);
    }
    GatheredComplete(cs, ns, prefix, country, |cs|);
    forall k | 0 <= k < |cs| && Qualifies(cs[k], ns[k], prefix, country) ensures cs[k] in Cities(r) {
      SameElementsSameCities(r, g, cs[k]);
    }
  }

  /** Entry `j` of a permutation `r` of the selection is the first
      qualifying entry of its city. */
  lemma SearchEntry(cs: seq<string>, ns: seq<string>, prefix: string, country: Option<string>, r: seq<Pair>, j: int)
    requires |cs| == |ns| && multiset(r) == multiset(Gathered(cs, ns, prefix, country, |cs|)) && 0 <= j < |r|
    ensures Qualifies(r[j].city, r[j].nation, prefix, country)
    ensures FirstPairBefore(cs, ns, prefix, country, |cs|, r[j])
  {
    var g := Gathered(cs, ns, prefix, country, |cs|);
    assert r[j] in multiset(g);
    var i :| 0 <= i < |g| && g[i] == r[j];
    GatheredFirst(cs, ns, prefix, country, |cs|, i);
  }

  /** Every output line starts with the city it lists. */
  lemma FormatStartsWith(p: Pair, prefix: string)
    requires StartsWith(p.city, prefix)
    ensures StartsWith(Format(p), prefix)
  {
    StartsWithAppend(p.city, prefix, "     --" + p.nation);
    assert Format(p) == p.city + ("     --" + p.nation);
  }

  // ---------------------------------------------------------------------
  // The list

  class CityNameList {
    var city: seq<string>
    var nation: seq<string>

    /** Entry `i` is the pair (`city[i]`, `nation[i]`). */
    predicate Valid()
      reads this
    {
      |city| == |nation|
    }

    constructor ()
      ensures Valid() && city == [] && nation == []
    {
      city, nation := [], [];
    }

    /** `contains(name)`: exact membership among the cities. */
    predicate Contains(name: string)
      reads this
      ensures Contains(name) <==> exists i :: 0 <= i < |city| && city[i] == name
    {
      name in city
    }

    /** `contains` and `search` agree: every line of `search(name)` is for a
        contained city, and every contained city starting with the
        capitalised name has its line. */
    lemma SearchContained(name: string)
      requires Valid() && name != []
      ensures var r := SortPairs(Gathered(city, nation, Capitalize(name), None, |city|));
        (forall j :: 0 <= j < |r| ==> Contains(r[j].city) && StartsWith(FormatAll(r)[j], r[j].city))
        && (forall c :: Contains(c) && StartsWith(c, Capitalize(name)) ==> c in Cities(r))
    {
      var prefix := Capitalize(name);
      var r := SortPairs(Gathered(city, nation, prefix, None, |city|));
      SearchResult(city, nation, prefix, None);
      forall j | 0 <= j < |r|
        ensures Contains(r[j].city) && StartsWith(FormatAll(r)[j], r[j].city)
      {
        assert FirstPairBefore(city, nation, prefix, None, |city|, r[j]);
        var k :| 0 <= k < |city| && FirstQualifying(city, nation, prefix, None, k) && r[j] == Pair(city[k], nation[k]);
        assert city[k] == r[j].city;
        assert Format(r[j])[..|r[j].city|] == r[j].city;
      }
      forall c | Contains(c) && StartsWith(c, prefix) ensures c in Cities(r) {
        var k :| 0 <= k < |city| && city[k] == c;
        assert Qualifies(city[k], nation[k], prefix, None);
      }
    }

    /** `sortCityByStartWith(name)`: the first entry of each city starting
        with `name`, sorted by city. */
    method SortCityByStartWith(name: string) returns (sortList: seq<Pair>)
      requires Valid()
      ensures sortList == SortPairs(Gathered(city, nation, name, None, |city|))
    {
      var checkList: seq<string> := [];
      sortList := [];
      for i := 0 to |city|
        invariant sortList == Gathered(city, nation, name, None, i)
        invariant checkList == Cities(sortList)
      {
        if StartsWith(city[i], name) && city[i] !in checkList {
          checkList := checkList + [city[i]];
          sortList := sortList + [Pair(city[i], nation[i])];
        }
      }
      sortList := SortPairs(sortList);
    }

    /** `sortCityByNationAndStartWith(name, country)`: as above, among the
        entries whose nation is `country`. */
    method SortCityByNationAndStartWith(name: string, country: string) returns (sortList: seq<Pair>)
      requires Valid()
      ensures sortList == SortPairs(Gathered(city, nation, name, Some(country), |city|))
    {
      var checkList: seq<string> := [];
      sortList := [];
      for i := 0 to |city|
        invariant sortList == Gathered(city, nation, name, Some(country), i)
        invariant checkList == Cities(sortList)
      {
        if StartsWith(city[i], name) && city[i] !in checkList && nation[i] == country {
          checkList := checkList + [city[i]];
          sortList := sortList + [Pair(city[i], nation[i])];
        }
      }
      sortList := SortPairs(sortList);
    }

    /** `search(name)`: `None` for an empty name (the source fails taking
        its first character); otherwise the formatted lines of the sorted
        selection for the capitalised name. */
    method Search(name: string) returns (r: Option<seq<string>>)
      requires Valid()
      ensures r.None? <==> name == []
      ensures r.Some? ==> r.value == FormatAll(SortPairs(Gathered(city, nation, Capitalize(name), None, |city|)))
    {
      if name == [] {
        return None;
      }
      var prefix := Capitalize(name);
      var sortedList := SortCityByStartWith(prefix);
      var finalList: seq<string> := [];
      for i := 0 to |sortedList|
        invariant finalList == FormatAll(sortedList[..i])
      {
        finalList := finalList + [Format(sortedList[i])];
      }
      assert sortedList[..|sortedList|] == sortedList;
      return Some(finalList);
    }

    /** `search(name, country)`: as `Search`, among the entries whose
        nation is the upper-cased `country`. */
    method SearchInCountry(name: string, country: string) returns (r: Option<seq<string>>)
      requires Valid()
      ensures r.None? <==> name == []
      ensures r.Some? ==>
        r.value == FormatAll(SortPairs(Gathered(city, nation, Capitalize(name), Some(ToUpper(country)), |city|)))
    {
      if name == [] {
        return None;
      }
      var prefix := Capitalize(name);
      var code := ToUpper(country);
      var sortedList := SortCityByNationAndStartWith(prefix, code);
      var finalList: seq<string> := [];
      for i := 0 to |sortedList|
        invariant finalList == FormatAll(sortedList[..i])
      {
        finalList := finalList + [Format(sortedList[i])];
      }
      assert sortedList[..|sortedList|] == sortedList;
      return Some(finalList);
    }
  }
}
