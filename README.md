# Weather app core: red-black tree, weather cache, city search

This project models three pieces of a small weather application and proves
properties of them in Dafny.

- **The red-black tree** (`RedBlackTree.java`). It holds the weather
  records. `insert` descends by `compareTo` and hangs a new red node at
  the empty link it reaches. `enforceRBTreePropertiesAfterInsert` then
  repairs the colours with recolouring and `rotate`, and `insert` paints
  the root black.
- **The weather cache** (`WeatherTree.java`). It looks a city up with a
  case-sensitive descent and a case-insensitive match. `read` fetches and
  inserts on a miss, and re-fetches a record that is an hour old or more.
- **The city search** (`CityNameList.java`). It filters the loaded
  (city, nation) entries by a capitalised prefix, and optionally by an
  upper-cased country code. It keeps the first entry of each city, sorts
  by city, and formats each line as `city + "     --" + nation`.

## Layout

| file | module | contents |
|---|---|---|
| `strings.dfy` | `Strings` | `String.compareTo`, `toUpperCase`, `equalsIgnoreCase` and `startsWith` on `seq<char>` |
| `wrappers.dfy` | `Wrappers` | `Option` |
| `rb_shape.dfy` | `RbShape` | the ghost tree shape: node ids, in-order sequence, depth, and the rotated shape |
| `rb_arena.dfy` | `RbArena` | the node links and colours as a value `Rb`, `rotate` and the fix-up as functions, and the colour invariants |
| `rb_fixup.dfy` | `RbFixUp` | each fix-up case keeps the invariants, and the whole fix-up repairs the tree |
| `rb_insert.dfy` | `RbInsert` | the descent, attaching the new node, and correctness of `insert` |
| `red_black_tree.dfy` | `RedBlackTreeClass` | class `RedBlackTree`, whose fields are updated in place; each method is proved equal to the functional model |
| `rb_findings.dfy` | `RbFindings` | inputs where the source's rotation and fix-up go wrong |
| `weather_tree.dfy` | `WeatherCache` | lookup, staleness, and class `WeatherTree` with `update`, `reset` and `read` |
| `city_name_list.dfy` | `CityList` | selection, sorting and formatting, and class `CityNameList` |

### How the tree is represented

A node is an index.
- `left`, `right` and `parent` hold indices, with -1 standing for `null`.
- `black` holds the colours and `keys` holds the data.
- Reading a link of -1 gives -1, and a null node reads as black, as the
  source treats a null uncle.

A ghost `Tree` of node ids gives the shape that the links describe
(`Models`). The colour invariants are stated node by node:
- `BlackHeights`: every node has a black height that is the same through
  both of its children.
- `RedOKExcept`: no red node has a red parent, except possibly the node
  being fixed.

`RbValidShape` turns these into the usual tree-level properties.

## Model

| member | source | states |
|---|---|---|
| Strings.CompareTo | Weather.java:289-292 | The string order on city names: zero exactly on equal strings, and negative for a proper prefix |
| Strings.ToUpper | CityNameList.java:126 | Upper-casing keeps the length and maps each character by itself (ASCII letters only) |
| RbArena.RotateWith | RedBlackTree.java:117-162 | Rotation, as written or corrected, never changes a colour or the number of nodes |
| RbArena.RotatePreservesModel | RedBlackTree.java:117-162 | On a tree, the corrected `rotate` stores the rotated shape, over the same nodes in the same in-order sequence |
| RbArena.RotateFields | RedBlackTree.java:123-160 | The child takes the parent's place (root or the grandparent's same-side link) and the parent becomes its far child. The inner subtree moves under the parent with its parent link updated. No other link changes |
| RbArena.RotatedRight | RedBlackTree.java:124-136 | A right rotation turns the subtree at the parent into its rotated form |
| RbArena.RotatedLeft | RedBlackTree.java:138-150 | A left rotation turns the subtree at the parent into its rotated form |
| RbArena.ModelsLinked | RedBlackTree.java:264-268 | In a stored tree, links are in range, a node's two children differ, and a node is a child of `x` exactly when its parent link is `x` |
| RbArena.RecolourColours | RedBlackTree.java:207-210 | Uncle red: painting parent and uncle black and grandparent red keeps every black height, and only the grandparent may now have a red parent |
| RbArena.OuterColours | RedBlackTree.java:192-206 | Uncle black, outer child: the rotation plus three paints keeps the black heights and leaves no red node under a red parent |
| RbArena.InnerFirstColours | RedBlackTree.java:185-190 | Uncle black, inner child: the first rotation keeps the black heights and moves the violation to the old parent |
| RbFixUp.ModelsParent | RedBlackTree.java:264-266 | Only the root has a null parent; any other node is its parent's child and one level deeper |
| RbFixUp.Family | RedBlackTree.java:180-186 | A red node with a red parent has a black grandparent that holds the parent on the side `isLeftChild` reports |
| RbFixUp.RecolourCase | RedBlackTree.java:207-215 | In the uncle-red case the corrected pass keeps the invariant and continues at the grandparent, strictly higher |
| RbFixUp.OuterCase | RedBlackTree.java:192-206 | In the uncle-black outer case the pass ends with the tree repaired |
| RbFixUp.InnerCase | RedBlackTree.java:182-206 | In the uncle-black inner case the pass ends with the tree repaired |
| RbFixUp.FixStepCorrect | RedBlackTree.java:175-257 | One corrected pass either repairs the tree or moves the single violation strictly closer to the root |
| RbFixUp.FixUpCorrect | RedBlackTree.java:175-257 | The corrected fix-up leaves a tree with uniform black heights, no red-red pair, and the same in-order sequence |
| RbInsert.SlotFor | RedBlackTree.java:59-87 | The descent ends at the root only for an empty tree, and otherwise at a node of the tree |
| RbInsert.SlotPresent | RedBlackTree.java:59-63 | On a search tree the descent meets an equal key exactly when the key is stored (the duplicate error) |
| RbInsert.AttachIds | RedBlackTree.java:66-86 | Hanging the new node adds exactly that node to the shape |
| RbInsert.AttachOrder | RedBlackTree.java:66-86 | Hanging the new key where the descent ends keeps the in-order keys ascending |
| RbInsert.AttachModels | RedBlackTree.java:67-70 | After setting the child and parent links, the arena stores the shape with the new leaf |
| RbInsert.AttachFixInv | RedBlackTree.java:271-274 | The new node starts red: black heights are kept, and it is the only possible red node under a red parent |
| RbInsert.PaintRootBlack | RedBlackTree.java:45 | Painting the root black keeps black heights uniform and no red-red pair, and makes the root black |
| RbInsert.RootRepaired | RedBlackTree.java:39-42 | On an empty tree the new node becomes the root, and the tree is already repaired |
| RbInsert.UnderRepaired | RedBlackTree.java:66-86 | Attaching below a node and running the fix-up repairs the tree, keeping the new in-order sequence |
| RbInsert.InsertCorrect | RedBlackTree.java:34-46 | `insert` fails exactly when the key is stored. Otherwise the result is a red-black search tree over the old keys plus the new one, in the plain search-tree order |
| RbInsert.RbValidShape | RedBlackTree.java:164-173 | A valid tree has a black root, no red child under a red node, equal black heights in both subtrees of every node, and ascending in-order keys |
| RbFindings.RotateAsWrittenAtRoot | RedBlackTree.java:130-160 | As written, rotating into the root leaves the new root's parent at the old root, so the links store no tree |
| RbFindings.RotateAtRoot | RedBlackTree.java:130-160 | The corrected rotation on the same input stores the rotated tree with a null root parent |
| RbFindings.FixUpAsWrittenLeavesRedRed | RedBlackTree.java:207-215 | As written, the uncle-red case stops below a red great-grandparent and leaves a red node under a red parent |
| RbFindings.FixUpRepairsEight | RedBlackTree.java:207-215 | The corrected fix-up on the same input leaves no red-red pair |
| RbFindings.FixUpReachesRedRoot | RedBlackTree.java:178-215 | After inserting 10, 5, 15 and 1, the corrected uncle-red case leaves the root red and goes on at it; the root has a null parent, and the next pass stops there |
| RedBlackTreeClass.RedBlackTree.constructor | RedBlackTree.java:22 | A new tree is empty and valid |
| RedBlackTreeClass.RedBlackTree.Rotate | RedBlackTree.java:117-162 | The in-place rotation reports an unrelated pair and changes nothing for it; otherwise it leaves the state of the functional rotation |
| RedBlackTreeClass.RedBlackTree.FixPass | RedBlackTree.java:178-255 | One in-place fix-up pass leaves the state, and names the next node, that the corrected functional pass gives |
| RedBlackTreeClass.RedBlackTree.FixUp | RedBlackTree.java:175-257 | The in-place fix-up equals the functional one and leaves the tree repaired |
| RedBlackTreeClass.RedBlackTree.Insert | RedBlackTree.java:34-46 | Insert keeps the tree valid and adds the key. It fails, changing nothing, exactly when the key is stored |
| RedBlackTreeClass.RedBlackTree.InsertHelper | RedBlackTree.java:59-87 | The recursive descent stops unchanged on an equal key; otherwise it attaches and fixes up exactly as the functional model |
| RedBlackTreeClass.RedBlackTree.Hang | RedBlackTree.java:67-70 | The new node is appended and linked under the node the descent reached, then the fix-up runs |
| WeatherCache.RecordDue | Weather.java:59-61 | A record made at `now` is marked with `now`, so it falls due exactly `hours` hours later and is never stale when it is made (for `hours >= 1`) |
| WeatherCache.LookupNodeIn | WeatherTree.java:63-76 | The node found is in the tree and its city equals the query ignoring case, or none is found |
| WeatherCache.LookupAtNode | WeatherTree.java:43-76 | `lookup` answers with the record of the node `lookupNode` finds, and null exactly when it finds none |
| WeatherCache.LookupFindsStored | WeatherTree.java:47-54 | On a search tree, a city stored under exactly the queried name is found |
| WeatherCache.LookupCaseMiss | WeatherTree.java:47-54 | A city stored in another case can be missed: "boston" right of "Madison", queried as "Boston" |
| WeatherCache.TimeBasedUpdate | WeatherTree.java:122-130 | A record is stale exactly when it was marked at least `hours` hours ago (the boundary counts) |
| WeatherCache.StaleStays | WeatherTree.java:122-130 | A stale record stays stale as time goes on |
| WeatherCache.WeatherTree.constructor | WeatherTree.java:31-37 | The new cache is valid and holds exactly the fetched "Madison" record, or nothing when the fetch fails |
| WeatherCache.WeatherTree.LookupNodeFrom | WeatherTree.java:63-76 | The static `lookupNode` returns the node of the pure descent; its record names the city ignoring case |
| WeatherCache.WeatherTree.LookupFrom | WeatherTree.java:43-56 | The static `lookup` returns the record of the pure descent, whose city equals the query ignoring case |
| WeatherCache.WeatherTree.LookupNode | WeatherTree.java:108-110 | The public `lookupNode` finds the node of the descent from the root, and on a valid tree always finds an exactly stored city |
| WeatherCache.WeatherTree.Lookup | WeatherTree.java:98-100 | The public `lookup` returns the record of the node `lookupNode` finds, changing nothing |
| WeatherCache.WeatherTree.Update | WeatherTree.java:83-90 | A failed fetch changes nothing. A duplicate city throws and changes nothing. Otherwise exactly one record is added, and the tree stays valid |
| WeatherCache.WeatherTree.Reset | WeatherTree.java:200-202 | A failed fetch throws, changing nothing. Otherwise only the target node's record and key are replaced, and links and colours stay |
| WeatherCache.WeatherTree.Read | WeatherTree.java:177-191 | Covers every case. Miss with failed fetch: null, nothing changes. Miss with duplicate: throws. Miss: inserts one record. Fresh hit: the stored record, nothing changes. Stale hit: marks the record and replaces it in place; a failed fetch throws and keeps the marked old record |
| CityList.ComparePairs | CityNameList.java:49-51 | Pairs compare as their cities, so they tie exactly on equal cities |
| CityList.ComparePairsAntisymmetric | CityNameList.java:49-51 | Swapping the pairs negates the comparison |
| CityList.Capitalize | CityNameList.java:103-104 | Only the first character is upper-cased, and the rest is kept |
| CityList.FormatAll | CityNameList.java:106-111 | One output line per pair, in order, each `city + "     --" + nation` |
| CityList.FormatStartsWith | CityNameList.java:108-109 | Each output line starts with the city it lists, so with the prefix |
| CityList.GatheredDistinct | CityNameList.java:147-152 | The selection loop never keeps a city twice |
| CityList.GatheredFirst | CityNameList.java:147-152 | Each kept pair is the first qualifying entry of its city, with that entry's nation |
| CityList.GatheredComplete | CityNameList.java:147-153 | The selection loop misses no qualifying city |
| CityList.InsertPairFacts | CityNameList.java:154 | One insertion step of the sort keeps the multiset and the order |
| CityList.SortPairsCorrect | CityNameList.java:154 | The sort is a permutation into ascending city order, and strictly ascending when cities are distinct |
| CityList.SearchResult | CityNameList.java:144-179 | A search result is strictly ascending, holds only qualifying entries, each the first of its city, and holds every qualifying city |
| CityList.CityNameList.constructor | CityNameList.java:59-62 | A new list is empty |
| CityList.CityNameList.SearchContained | CityNameList.java:91-113 | `contains` and `search` agree: each line `search(name)` returns begins with a city that `contains` holds of, and each contained city starting with the capitalised name has a line |
| CityList.CityNameList.SortCityByStartWith | CityNameList.java:144-156 | The loop builds the first-entry-per-city selection by prefix, then sorts it |
| CityList.CityNameList.SortCityByNationAndStartWith | CityNameList.java:166-179 | The same selection, restricted to entries whose nation equals the country |
| CityList.CityNameList.Search | CityNameList.java:102-113 | An empty name fails; otherwise the formatted, sorted selection for the capitalised name |
| CityList.CityNameList.SearchInCountry | CityNameList.java:123-135 | The same, for the upper-cased country code |

## Left out

- `Data.java` is not part of this model. The weather service is the parameter `fetch: string -> Fetch`. It gives the reported city name and the readings, or `FetchFailed` for an I/O or parse error.
- `LocalDateTime` becomes an integer `now` in seconds. `compareTo` is read only as its sign.
- The numeric fields of `Weather` and their accessors are one opaque `readings` text. `getDetailInfo` and `getImportantInfo` only format them and are left out.
- `RedBlackTree.toString`, `Node.toString`, `CityNameList.load`, `getCity`, `main`, and Java serialisation are left out. They are debug output, file and JSON input, or a driver. The city list's fields are set directly.
- `null` data, which the source rejects with `NullPointerException`, cannot occur in the model.
- Case mapping (`toUpperCase`, `equalsIgnoreCase`) covers ASCII letters only.
- Node identity and aliasing are not modelled.
  - Nodes are indices into sequences, and new nodes are appended.
  - `WeatherTree` holds a `RedBlackTree` whose keys are the cities, with the records in a parallel sequence. It does not extend the tree class.
  - `setMarkedTime` on the record `lookup` returned is an update of the record at the node `lookupNode` finds. The model proves this is the same node.
- `RedBlackTreeClass.RedBlackTree.Rotate` implements the corrected rotation (see Findings). The as-written one is `RbArena.RotateAsWritten`.
- `RedBlackTreeClass.RedBlackTree.FixUp` implements the corrected recursion test (see Findings). The as-written one is `RbArena.FixUpAsWritten`.
- The corrected fix-up can reach a red root. Inserting 10, 5, 15 and then 1 recolours 5 and 15 black and 10 red, and the pass goes on at the root (`RbFindings.FixUpReachesRedRoot`). The model stops there, because the root's null parent reads as black, and `insert` paints the root black. The source with the corrected test would throw `NullPointerException` there, at RedBlackTree.java:180, on the root's null parent.
- `RedBlackTreeClass.RedBlackTree.FixUp` carries a ghost `fuel` bound on its recursion. It is proved never exhausted: it exceeds the depth of the node, and each pass moves two levels up.
- `Collections.sort` is modelled by the stable insertion sort `CityList.SortPairs`. Its algorithm and its in-place update are not modelled, only its result. That result is the same for any stable sort, and here the cities are distinct anyway.
- `WeatherCache.WeatherTree.Reset`: `Valid()` is promised only when the service reports the same city name as the stored one. Otherwise only `Consistent()` is promised, because the node's key changes without re-insertion. `Read`, `Update` and `insert` require `Valid()`, so the model says nothing about calls after such a key change. The source goes on running on the unsorted tree.
- `WeatherCache.WeatherTree.Read`: same restriction as `Reset` in the stale-hit case, including nothing being said about later calls after a key change.
- `Strings.CompareTo` orders strings by Unicode code point. Java's `String.compareTo` compares UTF-16 code units, so the two can differ in sign for characters above U+FFFF (for example `"\uFFFF"` against an emoji).
- `RedBlackTree<T extends Comparable<T>>` is modelled with string keys only, ordered by `String.compareTo`. That is its only use here: `Weather.compareTo` compares city names. Other `Comparable` types are not modelled.
- Exceptions are collapsed to a flag or to `Thrown`. The kinds (duplicate, bad rotation, fetch failure) are told apart by the case, not by a type.

## Findings

| source | as written | input that shows it | evidently intended | confidence | as-written member | corrected member |
|---|---|---|---|---|---|---|
| RedBlackTree.java:130-160 | Rotating a child into the root position sets `root` to it but sets its `parent` only when there is a grandparent. The new root keeps the old root as its parent, so the links form a cycle. | Root 0 with red left child 1; `rotate(1, 0)` | The new root's parent becomes null | not executed | RbFindings.RotateAsWrittenAtRoot | RbArena.RotatePreservesModel |
| RedBlackTree.java:212-215 | In the uncle-red case the fix-up recurses on the grandparent only when the parent *is* the root. A red parent never is, so a recolouring that makes the grandparent red under a red node is never repaired. The mirrored branch at 248-251 is the same. | Black root 0, red 1 (left of 0), black 2, black 3 and 4 under 1, red 5 and 6 under 3, new red 7 left of 5; fix-up at 7 | Recurse on the grandparent when the parent is not the root, and stop when the node reached is the root | not executed | RbFindings.FixUpAsWrittenLeavesRedRed | RbFixUp.FixUpCorrect |
