/** The weather cache: a red-black tree of weather records ordered by city
    name, read through a lookup that accepts a case-insensitive match, and
    refreshed from the weather service when a record is missing or older
    than an hour. The service is the function `fetch` and the clock the
    integer `now` (seconds); both are parameters. */
module WeatherCache {
  import opened Strings
  import opened RbShape
  import opened RbArena
  import opened RbInsert
  import opened Wrappers
  import opened RedBlackTreeClass

  /** A weather record: the city it is for, when it was last marked, and
      the readings (kept as one opaque text). */
  datatype Weather = Weather(city: string, markedTime: int, readings: string)

  /** What the weather service answers for a city name: the city name it
      reports and the readings, or a failure (an I/O or parse error). */
  datatype Fetch = Fetched(city: string, readings: string) | FetchFailed

  /** A fetched record; a new `Weather` is marked with the current time. */
  function Record(f: Fetch, now: int): (w: Weather)
    requires f.Fetched?
    ensures w.city == f.city && w.markedTime == now
  {
    Weather(f.city, now, f.readings)
  }

  /** What `read` gives back: a record, null, or an exception. */
  datatype Answer = Found(w: Weather) | Null | Thrown

  // ---------------------------------------------------------------------
  // lookup and lookupNode: descent by `compareTo`, match by `equalsIgnoreCase`

  /** Static `lookupNode(current, city)` on the subtree `t`: the node found,
      or -1. */
  function LookupNodeIn(t: Tree, keys: seq<string>, city: string): (r: int)
    ensures r == -1 || (r in Ids(t) && EqualsIgnoreCase(Key(keys, r), city))
  {
    match t
    case Leaf => -1
    case Node(l, x, rt) =>
      if EqualsIgnoreCase(Key(keys, x), city) then x
      else if CompareTo(city, Key(keys, x)) < 0 then LookupNodeIn(l, keys, city)
      else LookupNodeIn(rt, keys, city)
  }

  /** Static `lookup(current, city)` on the subtree `t`: the record found. */
  function LookupIn(t: Tree, keys: seq<string>, records: seq<Weather>, city: string): Option<Weather> {
    match t
    case Leaf => None
    case Node(l, x, rt) =>
      if EqualsIgnoreCase(Key(keys, x), city) then Some(At(records, x))
      else if CompareTo(city, Key(keys, x)) < 0 then LookupIn(l, keys, records, city)
      else LookupIn(rt, keys, records, city)
  }

  /** The record of node `x` (an empty one for a node out of range). */
  function At(records: seq<Weather>, x: int): Weather {
    if 0 <= x < |records| then records[x] else Weather([], 0, [])
  }

  /** `lookup` answers with the record of the node `lookupNode` finds, and
      null exactly when `lookupNode` finds none; a record found names the
      city up to case. */
  lemma {:induction false} LookupAtNode(t: Tree, keys: seq<string>, records: seq<Weather>, city: string)
    requires -1 !in Ids(t)
    ensures var x := LookupNodeIn(t, keys, city);
      LookupIn(t, keys, records, city) == (if x == -1 then None else Some(At(records, x)))
  {
    match t
    case Leaf =>
    case Node(l, x, rt) =>
      LookupAtNode(l, keys, records, city);
      LookupAtNode(rt, keys, records, city);
  }

  lemma EqualsIgnoreCaseReflexive(a: string)
    ensures EqualsIgnoreCase(a, a)
  {
  }

  /** On a search tree, a city stored under exactly the queried name is
      found (the node found may hold another spelling of it). */
  lemma {:induction false} LookupFindsStored(t: Tree, keys: seq<string>, city: string, y: int)
    requires SortedBy(InOrder(t), keys) && -1 !in Ids(t) && y in Ids(t) && Key(keys, y) == city
    ensures LookupNodeIn(t, keys, city) != -1
  {
    match t
    case Node(l, x, rt) =>
      if !EqualsIgnoreCase(Key(keys, x), city) {
        EqualsIgnoreCaseReflexive(city);
        SortedSplit(InOrder(l), x, InOrder(rt), keys);
        InOrderIds(l);
        InOrderIds(rt);
        if y in Ids(l) {
          assert Less(city, Key(keys, x));
          LookupFindsStored(l, keys, city, y);
        } else {
          assert y in Ids(rt);
          assert Less(Key(keys, x), city);
          CompareAntisymmetric(Key(keys, x), city);
          LookupFindsStored(rt, keys, city, y);
        }
      }
  }

  const MissTree: Tree := Node(Leaf, 0, Node(Leaf, 1, Leaf))
  const MissKeys: seq<string> := ["Madison", "boston"]

  /** The descent compares case-sensitively, so a city stored in another
      case can be missed: "Madison" with "boston" to its right (capital
      letters sort first), queried as "Boston", goes left and finds
      nothing. */
  lemma LookupCaseMiss()
    ensures SortedBy(InOrder(MissTree), MissKeys) && EqualsIgnoreCase(Key(MissKeys, 1), "Boston")
      && LookupNodeIn(MissTree, MissKeys, "Boston") == -1
  {
    MissSorted();
    assert Key(MissKeys, 1) == "boston";
    UpperBoston();
    MissDescent();
  }

  lemma MissSorted()
    ensures SortedBy(InOrder(MissTree), MissKeys)
  {
    assert InOrder(MissTree) == [0, 1];
    assert Key(MissKeys, 0) == "Madison" && Key(MissKeys, 1) == "boston";
    assert "Madison"[0] == 'M' && "boston"[0] == 'b';
  }

  lemma MissDescent()
    ensures LookupNodeIn(MissTree, MissKeys, "Boston") == -1
  {
    assert Key(MissKeys, 0) == "Madison";
    InitialsDiffer("Madison", "Boston");
    assert "Boston"[0] == 'B' && "Madison"[0] == 'M';
    assert CompareTo("Boston", "Madison") < 0;
  }

  lemma UpperBoston()
    ensures EqualsIgnoreCase("boston", "Boston")
  {
    var u, v := ToUpper("boston"), ToUpper("Boston");
    assert |u| == |v| == 6;
    forall i | 0 <= i < 6 ensures u[i] == v[i] {
      assert UpperChar("boston"[i]) == UpperChar("Boston"[i]);
    }
  }

  /** Strings whose first letters differ in any case differ ignoring case. */
  lemma InitialsDiffer(a: string, b: string)
    requires a != [] && b != [] && UpperChar(a[0]) != UpperChar(b[0])
    ensures !EqualsIgnoreCase(a, b)
  {
    assert ToUpper(a)[0] != ToUpper(b)[0];
  }

  // ---------------------------------------------------------------------
  // timeBasedUpdate

  /** `LocalDateTime.compareTo` read as a sign: -1, 0 or 1. */
  function Sign(d: int): int {
    if d < 0 then -1 else if d > 0 then 1 else 0
  }

  /** `timeBasedUpdate(w, hours)` at time `now`: the record is due for a
      refresh exactly when at least `hours` hours have passed since it was
      marked (exactly `hours` counts). */
  function TimeBasedUpdate(w: Weather, hours: int, now: int): (stale: bool)
    ensures stale <==> w.markedTime <= now - hours * 3600
  {
    var requiredTime := now - hours * 3600;
    var result := Sign(requiredTime - w.markedTime);
    result != -1
  }

  /** A freshly fetched record falls due exactly `hours` hours after it
      was made, so it is never refreshed again at once (for `hours >= 1`). */
  lemma RecordDue(f: Fetch, now: int, hours: int, t: int)
    requires f.Fetched?
    ensures TimeBasedUpdate(Record(f, now), hours, t) <==> t >= now + hours * 3600
    ensures hours >= 1 ==> !TimeBasedUpdate(Record(f, now), hours, now)
  {
  }

  /** A stale record stays stale as time goes on. */
  lemma StaleStays(w: Weather, hours: int, now: int, later: int)
    requires TimeBasedUpdate(w, hours, now) && now <= later
    ensures TimeBasedUpdate(w, hours, later)
  {
  }

  // ---------------------------------------------------------------------
  // The tree

  /** `read`'s answer from what `lookup` returns. */
  function AnswerOf(w: Option<Weather>): Answer {
    if w.None? then Null else Found(w.value)
  }

  class WeatherTree {
    const tree: RedBlackTree
    /** The record stored at each node of `tree`. */
    var records: seq<Weather>

    /** The links of `tree` describe its shape and every node holds a
        record, keyed by that record's city. */
    ghost predicate Consistent()
      reads this, tree
    {
      Models(tree.shape, tree.Snapshot()) && |tree.keys| == |tree.left| && |records| == |tree.keys|
      && forall i :: 0 <= i < |records| ==> records[i].city == tree.keys[i]
    }

    /** Moreover `tree` is a red-black search tree on those cities. */
    ghost predicate Valid()
      reads this, tree
    {
      Consistent() && tree.Valid()
    }

    /** Everything `read` may change. */
    ghost function Stored(): (seq<Weather>, seq<string>, Rb, Tree)
      reads this, tree
    {
      (records, tree.keys, tree.Snapshot(), tree.shape)
    }

    /** The answer `lookup(city)` gives in the current state. */
    ghost function Current(city: string): Option<Weather>
      reads this, tree
    {
      LookupIn(tree.shape, tree.keys, records, city)
    }

    /** The node `lookupNode(city)` finds in the current state. */
    ghost function CurrentNode(city: string): int
      reads this, tree
    {
      LookupNodeIn(tree.shape, tree.keys, city)
    }

    /** The constructor inserts the record fetched for "Madison"; when the
        fetch fails the tree stays empty. */
    constructor (fetch: string -> Fetch, now: int)
      ensures Valid() && fresh(tree)
      ensures fetch("Madison").Fetched? ==> records == [Record(fetch("Madison"), now)]
      ensures fetch("Madison").FetchFailed? ==> records == []
    {
      tree := new RedBlackTree();
      records := [];
      new;
      var f := fetch("Madison");
      if f.Fetched? {
        var ok := tree.Insert(f.city);
        records := records + [Record(f, now)];
      }
    }

    /** Static `lookupNode(current, city)`, where `sub` is the subtree at
        `current`. */
    method LookupNodeFrom(current: int, city: string, ghost sub: Tree, ghost par: int) returns (x: int)
      requires Consistent() && Represents(sub, par, tree.Snapshot()) && RootId(sub) == current
      decreases sub
      ensures x == LookupNodeIn(sub, tree.keys, city)
      ensures x == -1 || (0 <= x < |records| && EqualsIgnoreCase(records[x].city, city))
    {
      if -1 in Ids(sub) {
        RepresentsIds(sub, par, tree.Snapshot(), -1);
      }
      if current == -1 {
        return -1;
      }
      if EqualsIgnoreCase(tree.keys[current], city) {
        return current;
      }
      if CompareTo(city, tree.keys[current]) < 0 {
        x := LookupNodeFrom(Left(tree.Snapshot(), current), city, sub.left, current);
      } else {
        x := LookupNodeFrom(Right(tree.Snapshot(), current), city, sub.right, current);
      }
      if x != -1 {
        RepresentsIds(sub, par, tree.Snapshot(), x);
      }
    }

    /** Static `lookup(current, city)`. */
    method LookupFrom(current: int, city: string, ghost sub: Tree, ghost par: int) returns (w: Option<Weather>)
      requires Consistent() && Represents(sub, par, tree.Snapshot()) && RootId(sub) == current
      decreases sub
      ensures w == LookupIn(sub, tree.keys, records, city)
      ensures w.Some? ==> EqualsIgnoreCase(w.value.city, city)
    {
      if -1 in Ids(sub) {
        RepresentsIds(sub, par, tree.Snapshot(), -1);
      }
      LookupAtNode(sub, tree.keys, records, city);
      if current == -1 {
        return None;
      }
      if EqualsIgnoreCase(records[current].city, city) {
        return Some(records[current]);
      }
      if CompareTo(city, records[current].city) < 0 {
        w := LookupFrom(Left(tree.Snapshot(), current), city, sub.left, current);
      } else {
        w := LookupFrom(Right(tree.Snapshot(), current), city, sub.right, current);
      }
    }

    /** `lookupNode(city)`: the descent from the root. On a search tree a
        city stored under exactly that name is found. */
    method LookupNode(city: string) returns (x: int)
      requires Consistent()
      ensures x == CurrentNode(city)
      ensures x == -1 || (0 <= x < |records| && EqualsIgnoreCase(records[x].city, city))
      ensures Valid() && (exists y :: 0 <= y < |records| && records[y].city == city) ==> x != -1
    {
      x := LookupNodeFrom(tree.root, city, tree.shape, -1);
      if y :| Valid() && 0 <= y < |records| && records[y].city == city {
        assert y in Ids(tree.shape) && -1 !in Ids(tree.shape);
        LookupFindsStored(tree.shape, tree.keys, city, y);
      }
    }

    /** `lookup(city)`: the descent from the root; it answers with the
        record of the node `lookupNode(city)` finds. */
    method Lookup(city: string) returns (w: Option<Weather>)
      requires Consistent()
      ensures w == Current(city)
      ensures w.Some? ==> EqualsIgnoreCase(w.value.city, city)
      ensures w == (var x := CurrentNode(city); if x == -1 then None else Some(records[x]))
    {
      w := LookupFrom(tree.root, city, tree.shape, -1);
      assert -1 !in Ids(tree.shape);
      LookupAtNode(tree.shape, tree.keys, records, city);
    }

    // -------------------------------------------------------------------
    // update, reset, read

    /** `update(city)`: fetch the city and insert the record. A failed
        fetch is caught and changes nothing; inserting a city already
        stored under the same name throws (`thrown`) and changes nothing. */
    method Update(city: string, fetch: string -> Fetch, now: int) returns (thrown: bool)
      requires Valid()
      modifies this, tree
      ensures Valid()
      ensures thrown <==> fetch(city).Fetched? && fetch(city).city in old(tree.Contents())
      ensures fetch(city).Fetched? && !thrown ==>
        records == old(records) + [Record(fetch(city), now)]
        && tree.Contents() == old(tree.Contents()) + {fetch(city).city}
      ensures fetch(city).FetchFailed? || thrown ==> Stored() == old(Stored())
    {
      var f := fetch(city);
      if f.FetchFailed? {
        return false;
      }
      var ok := tree.Insert(f.city);
      if !ok {
        return true;
      }
      records := records + [Record(f, now)];
      return false;
    }

    /** `reset(targetNode, targetCity)`: the record fetched for the stored
        city replaces the node's record in place; links and colours stay.
        A failed fetch throws before anything is written. The node's key
        becomes the fetched city's name, so the tree stays a search tree
        when the service reports the same name. */
    method Reset(targetNode: int, targetCity: Weather, fetch: string -> Fetch, now: int) returns (thrown: bool)
      requires Valid() && 0 <= targetNode < |records|
      modifies this, tree
      ensures thrown <==> fetch(targetCity.city).FetchFailed?
      ensures thrown ==> Stored() == old(Stored())
      ensures !thrown ==>
        records == old(records)[targetNode := Record(fetch(targetCity.city), now)]
        && tree.keys == old(tree.keys)[targetNode := fetch(targetCity.city).city]
      ensures tree.Snapshot() == old(tree.Snapshot()) && tree.shape == old(tree.shape)
      ensures Consistent()
      ensures thrown || fetch(targetCity.city).city == old(records[targetNode].city) ==> Valid()
    {
      var f := fetch(targetCity.city);
      if f.FetchFailed? {
        return true;
      }
      records := records[targetNode := Record(f, now)];
      tree.keys := tree.keys[targetNode := f.city];
      return false;
    }

    /** `read(city)`. On a miss the city is fetched and inserted (see
        `Update`). On a hit whose record is at least an hour old, the
        stored record is marked with the current time and then replaced by
        the record fetched for its city (see `Reset`). A fresh hit changes
        nothing. The answer is `lookup(city)` afterwards, unless an
        exception escaped. */
    method Read(city: string, fetch: string -> Fetch, now: int) returns (r: Answer)
      requires Valid()
      modifies this, tree
      ensures Consistent()
      ensures r.Found? ==> EqualsIgnoreCase(r.w.city, city)
      ensures old(CurrentNode(city)) == -1 || 0 <= old(CurrentNode(city)) < |old(records)|
      // a miss
      ensures old(CurrentNode(city)) == -1 && fetch(city).FetchFailed? ==>
        r == Null && Stored() == old(Stored())
      ensures old(CurrentNode(city)) == -1 && fetch(city).Fetched? && fetch(city).city in old(tree.Contents()) ==>
        r == Thrown && Stored() == old(Stored())
      ensures old(CurrentNode(city)) == -1 && fetch(city).Fetched? && fetch(city).city !in old(tree.Contents()) ==>
        Valid() && records == old(records) + [Record(fetch(city), now)]
        && tree.Contents() == old(tree.Contents()) + {fetch(city).city}
        && r == AnswerOf(Current(city))
      // a fresh hit
      ensures var x := old(CurrentNode(city));
        x != -1 && !TimeBasedUpdate(old(records)[x], 1, now) ==>
        r == Found(old(records)[x]) && Stored() == old(Stored())
      // a stale hit
      ensures var x := old(CurrentNode(city)); var w := At(old(records), x);
        x != -1 && TimeBasedUpdate(w, 1, now) && fetch(w.city).FetchFailed? ==>
        r == Thrown && Valid() && records == old(records)[x := w.(markedTime := now)]
        && tree.keys == old(tree.keys) && tree.Snapshot() == old(tree.Snapshot()) && tree.shape == old(tree.shape)
      ensures var x := old(CurrentNode(city)); var w := At(old(records), x);
        x != -1 && TimeBasedUpdate(w, 1, now) && fetch(w.city).Fetched? ==>
        records == old(records)[x := Record(fetch(w.city), now)]
        && tree.keys == old(tree.keys)[x := fetch(w.city).city]
        && tree.Snapshot() == old(tree.Snapshot()) && tree.shape == old(tree.shape)
        && r == AnswerOf(Current(city))
        && (fetch(w.city).city == w.city ==> Valid())
    {
      var found := Lookup(city);
      if found.None? {
        var thrown := Update(city, fetch, now);
        if thrown {
          return Thrown;
        }
      } else {
        var targetCity := Lookup(city);
        if TimeBasedUpdate(targetCity.value, 1, now) {
          // the record `lookup` returned is the one held by this node
          var targetNode := LookupNode(city);
          records := records[targetNode := records[targetNode].(markedTime := now)];
          var thrown := Reset(targetNode, records[targetNode], fetch, now);
          if thrown {
            return Thrown;
          }
        }
      }
      var w := Lookup(city);
      r := AnswerOf(w);
    }
  }
}
