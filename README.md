# Correlating OBJ face groups with IFC elements

`application/annotate_safety_barriers.py` finds out which building elements
(IFC elements, such as a stair) each named group of a simplified OBJ mesh
belongs to. It works in five steps:

1. It reads the vertex table (`v ` lines) and the face groups (`g ` and `f `
   lines) of `simplified.obj`.
2. It samples every vertex that each group's faces use, with duplicates kept.
3. It asks a spatial index which elements have geometry meeting the box
   that reaches 0.2 along each axis around each sampled vertex.
4. It lifts each hit one level up its `Decomposes` relation, keeps it only if
   it passes the optional type filter, and counts it in a `Counter` for the
   group's name (`name_mapping`).
5. For each group it keeps the elements counted more than `M // 2` times,
   where `M` is that group's largest count. Then it inverts the result into
   `name_mapping_2`, which maps each element to the group names that kept it.

Before the mesh is converted, two material lines are also put in front of
the OBJ file.

This project models those steps in Dafny and proves what they compute.

- **Modules:**
  - `Obj`: the two line readers and the header insert.
  - `Votes`: sampling, resolution, the filter and the counting loop.
  - `Majority`: the threshold.
  - `Inverse`: the regrouping loop.
  - `Pipeline`: the steps in order.
  - `Dicts`: Python's insertion-ordered `dict` and `Counter`, as values.
  - `Scenarios`: small worked examples.
- **Structure:** every loop of lines 41-100 is a `method` with its loop
  invariants. Each method is proved equal to a specification function, and
  lemmas prove what the script promises about those functions. Four
  expressions and library calls are recursive functions instead:
  - `sum(idxs, ())` on line 70 (`Votes.Flatten`);
  - numpy fancy indexing on line 70 (`Votes.Gather`);
  - `max(insts.values())` on line 98 (`Majority.MaxOver`);
  - the comprehension on line 99 (`Majority.Above`).
  The loops outside lines 41-100 (lines 24, 36 and 106) are not modelled.
- **Building-model inputs:** the parts of the building model the script
  consults are fields of an `Env` value:
  - the box query around a vertex;
  - the first `Decomposes` parent;
  - `is_a`;
  - the element type.

## Model

| member | source | states |
|---|---|---|
| Obj.ParseVertices | application/annotate_safety_barriers.py:41-47 | The reading loop returns `Vertices(ls)`: the points of the `v ` lines in file order. |
| Obj.VertexNumbering | application/annotate_safety_barriers.py:41-47 | A `v ` line at position j has its point at index (number of `v ` lines before j) of the vertex table, so OBJ index i names the i-th `v ` line. |
| Obj.ParseGroups | application/annotate_safety_barriers.py:49-64 | The generator loop, with its `current` list and `name` variable, yields exactly `Groups(ls)`. |
| Obj.GroupsAreNonEmptySegments | application/annotate_safety_barriers.py:49-64 | The yielded groups are, in file order, the file's pieces between `g ` lines that have a face. Faces before the first `g ` line go under `None`; later pieces carry their `g ` line's name; the last piece is yielded at end of input. So a `g ` line after a group without faces replaces its name. |
| Obj.NonEmptyMembers | application/annotate_safety_barriers.py:55-56 | Dropping the empty pieces keeps exactly the groups that have at least one face. |
| Obj.GroupsHaveFaces | application/annotate_safety_barriers.py:55-56 | Every yielded group has at least one face. |
| Obj.GroupsFromFaces | application/annotate_safety_barriers.py:50-63 | From any state (name, collected faces) the faces of the groups still to be yielded are the collected faces followed by those of the remaining `f ` lines. |
| Obj.GroupsKeepAllFaces | application/annotate_safety_barriers.py:54-63 | The face lists of all yielded groups, one after the other, are the faces of the `f ` lines in file order: none is lost, duplicated or reordered. |
| Obj.FaceLinesMembers | application/annotate_safety_barriers.py:59-61 | A face is among the `f ` faces exactly when the file has an `f ` line with it. |
| Obj.AllFacesMembers | application/annotate_safety_barriers.py:56 | A face is among the yielded faces exactly when some yielded group holds it. |
| Obj.Insert | application/annotate_safety_barriers.py:89-90 | `list.insert(i, x)`: one element longer, the prefix up to i (clamped to the length) kept, x at i, the rest shifted by one. |
| Obj.AddMaterialHeader | application/annotate_safety_barriers.py:88-90 | The rewritten lines are `mtllib colours.mtl`, `usemtl red`, then the original lines; neither new line starts with `v `, `g ` or `f `. |
| Obj.IgnoredLinesKeepParse | application/annotate_safety_barriers.py:88-90 | Lines of no kind the readers recognise, put in front, leave both the vertex table and the groups unchanged. |
| Votes.FlattenMembers | application/annotate_safety_barriers.py:70 | `sum(idxs, ())` holds an index exactly when one of the faces holds it. |
| Votes.Gather | application/annotate_safety_barriers.py:70 | Fancy indexing with `idx - 1` succeeds exactly when every `idx[k] - 1` is a valid numpy index, and then yields one row per index, in order. |
| Votes.SampleLaw | application/annotate_safety_barriers.py:70 | Sampling a group succeeds exactly when its faces hold an index and every index is within `1 - |verts| .. |verts|`. It then yields `verts[i - 1]` for positive i and `verts[|verts| + i - 1]` otherwise, one point per index occurrence, duplicates kept. Any other input is an IndexError. |
| Votes.SampleAllLaw | application/annotate_safety_barriers.py:69-70 | Sampling all groups succeeds exactly when each group's sampling does, and then pairs every group, in order, with its own sample. |
| Votes.AggregateSucceeds | application/annotate_safety_barriers.py:69-70 | The aggregation fails exactly when some group's sampling fails. |
| Votes.AggregateFails | application/annotate_safety_barriers.py:70 | A single group whose sampling fails makes the run end with IndexError. |
| Votes.HitVotesCount | application/annotate_safety_barriers.py:77-81 | The votes from one point's hits all carry the group's name and an element that passes the filter. An element that passes gets one vote per hit resolving to it; one that fails gets none. With no filter every hit votes. |
| Votes.PointVotesCount | application/annotate_safety_barriers.py:71-81 | Across all (sampled point, hit) pairs of one group: every vote carries the group's name and a passing element; a passing element gets one vote per pair resolving to it, a failing one none. |
| Votes.AllVotesCount | application/annotate_safety_barriers.py:69-81 | Across all groups, the votes for (n, e) are the pairs of all groups named n that resolve to e, when e passes, and none otherwise. Groups that repeat a name pool their pairs. |
| Votes.HitVotesLength | application/annotate_safety_barriers.py:77-81 | One point casts as many votes as it has hits whose resolved element passes the filter. |
| Votes.AllVotesNamed | application/annotate_safety_barriers.py:69-81 | The votes cast under a name are the surviving (sampled point, hit) pairs of the groups with that name. |
| Votes.TallyWellFormed | application/annotate_safety_barriers.py:67-81 | Counting keeps `name_mapping` a valid two-level dict whose every tally is non-empty with positive counts. |
| Votes.TallyCounts | application/annotate_safety_barriers.py:67-81 | After counting, a name is a key exactly when some vote carries it, and the count of e under n is the number of votes (n, e). |
| Votes.TallyTotal | application/annotate_safety_barriers.py:81 | The counts of a name's tally add up to the number of votes cast under that name. |
| Votes.AggregateCounts | application/annotate_safety_barriers.py:67-81 | For a run that does not fail: the count of e under n is the number of pairs of the groups named n whose hit resolves to e (0 if e fails the filter); n is a key exactly when it has such a pair; and n's counts add up to its surviving pairs. |
| Votes.CountHitStep | application/annotate_safety_barriers.py:77-81 | One more hit either records its resolved element (if it passes) or leaves `name_mapping` alone, as the specification of the hits so far prescribes. |
| Votes.CountHits | application/annotate_safety_barriers.py:77-81 | The `for inst in insts` loop (resolve, filter, update) yields the tally of the earlier votes followed by this point's votes. |
| Votes.CountPoints | application/annotate_safety_barriers.py:71-81 | The `for pt in pts` loop yields the tally of the earlier votes followed by this group's votes. |
| Votes.AggregateVotes | application/annotate_safety_barriers.py:67-81 | The loop over `groups()` returns `Aggregate`: `name_mapping`, or the IndexError raised by the first group whose sampling fails. |
| Dicts.Add | application/annotate_safety_barriers.py:81 | `Counter.update([k])` raises the count of k by one and changes no other count; the keys are the old ones plus k. |
| Dicts.AddTotal | application/annotate_safety_barriers.py:81 | A counter update raises the sum of the counts by exactly one. |
| Dicts.PutKeys | application/annotate_safety_barriers.py:81 | `d[k] = v` on a dict puts a new key last and leaves the old keys in their places. |
| Dicts.AddKeys | application/annotate_safety_barriers.py:81 | `Counter.update([k])` puts a new key last and leaves the old keys in their places. |
| Votes.TallyNameOrder | application/annotate_safety_barriers.py:67-81 | `name_mapping`'s key order is the order in which the group names' first votes are counted. |
| Votes.TallyElemOrder | application/annotate_safety_barriers.py:67-81 | Under each name, the tally's key order is the order in which each element's first vote for that name is counted. |
| Votes.AggregateKeyOrder | application/annotate_safety_barriers.py:67-99 | For a run that does not fail, the key orders that lines 97 and 99 walk come from the file. Group names appear in the order of their first counted vote, and each tally's elements in the order of their first vote for that name. Votes follow the groups in file order, then their sampled points, then each point's hits. |
| Majority.MaxOverIsMax | application/annotate_safety_barriers.py:98 | The maximum bounds every count and, for a non-empty key list, is attained. |
| Majority.MaxCountIsMax | application/annotate_safety_barriers.py:98 | `M = max(insts.values())` is the largest count of a non-empty tally, and some element reaches it. |
| Majority.AboveMembers | application/annotate_safety_barriers.py:99 | The comprehension keeps exactly the keys counted above the bar, and never duplicates one. |
| Majority.AboveKeepsOrder | application/annotate_safety_barriers.py:99 | The keys kept from `a + b` are those kept from `a` followed by those kept from `b`, so the comprehension keeps the tally's key order. |
| Majority.KeptMembers | application/annotate_safety_barriers.py:98-99 | The kept elements are distinct and are exactly the counted ones with count > `M // 2`. |
| Majority.KeptIsStrictHalf | application/annotate_safety_barriers.py:98-99 | For integers, `c > M // 2` keeps the same elements as `2 * c > M`. |
| Majority.KeptHasAllWinners | application/annotate_safety_barriers.py:98-99 | For a non-empty tally with positive counts, every element reaching M is kept, so ties at the top are all kept and the kept list is never empty. |
| Inverse.ListingMembers | application/annotate_safety_barriers.py:97-100 | Reference definition: a name is listed for e exactly when some item with that name keeps e. |
| Inverse.ListingDistinct | application/annotate_safety_barriers.py:97-100 | With distinct group names, no name is listed twice for an element. |
| Inverse.AppendAllEffect | application/annotate_safety_barriers.py:99-100 | Appending a name for a group's distinct kept elements adds it once to the end of each of their lists, creates the missing ones, and changes nothing else. |
| Inverse.RegroupAt | application/annotate_safety_barriers.py:96-100 | When every kept list is distinct, the list the regrouping builds for e is the reference listing for e, and e is a key exactly when that listing is non-empty. |
| Inverse.KeptAtKeeps | application/annotate_safety_barriers.py:97-99 | An element is in the kept list of the i-th name exactly when that name keeps it. |
| Inverse.ItemKeeps | application/annotate_safety_barriers.py:97-99 | Some item of `name_mapping.items()` with name n keeps e exactly when n's tally keeps e. |
| Inverse.InversionLaw | application/annotate_safety_barriers.py:96-100 | `name_mapping_2` is a valid dict. e is a key exactly when some group keeps it. n is in e's list exactly when n keeps e. No name is listed twice. The names follow `name_mapping`'s insertion order. |
| Inverse.FirstsMembers | application/annotate_safety_barriers.py:96-100 | The first occurrences of a sequence's elements list exactly its elements. |
| Inverse.AppendAllKeys | application/annotate_safety_barriers.py:99-100 | Appending a name for a group's kept elements adds, as new keys at the end, the elements not yet keys, in the order they first occur. |
| Inverse.RegroupKeys | application/annotate_safety_barriers.py:96-100 | The keys of the regrouped mapping are the kept elements of the items, item after item, each at its first appearance. |
| Inverse.InvertKeyOrder | application/annotate_safety_barriers.py:96-100 | `name_mapping_2`'s key order, which `enumerate` on line 106 turns into output numbers, is the kept elements of `name_mapping`'s groups, group after group, each element at its first appearance; its keys are exactly the kept elements. |
| Inverse.AppendName | application/annotate_safety_barriers.py:99-100 | The inner loop appends the group's name to the list of each kept element, in order. |
| Inverse.InvertMapping | application/annotate_safety_barriers.py:96-100 | The loop over `name_mapping.items()` computes `M`, the kept list and the appends, and returns `Invert(nm)`. |
| Pipeline.Run | application/annotate_safety_barriers.py:41-100 | `vertices()`, `groups()`, the aggregation and the inversion, in order, return `Correlate`. |
| Pipeline.CorrelateSucceeds | application/annotate_safety_barriers.py:59-70 | When every `f ` line has an index, the run succeeds exactly when every face index is within `1 - |verts| .. |verts|`. |
| Pipeline.KeptByPairs | application/annotate_safety_barriers.py:77-99 | A name in `name_mapping` keeps some element. It keeps e exactly when e passes the filter and twice the pairs of its groups resolving to e exceed its largest count. |
| Pipeline.CorrelateLaw | application/annotate_safety_barriers.py:67-100 | For a run that does not fail: n is listed under e exactly when n is a key, e passes the filter and twice n's pairs resolving to e exceed n's largest count. No list repeats a name. Every group name with a surviving hit is listed under some element. |
| Scenarios.VerticesOfTwoVertexFile | application/annotate_safety_barriers.py:41-47 | The vertex table of the two-vertex example file. |
| Scenarios.GroupsOfTwoVertexFile | application/annotate_safety_barriers.py:49-64 | The example file yields the one group "A" with face (1,). |
| Scenarios.SampleFirstVertex | application/annotate_safety_barriers.py:70 | Index 1 samples the first vertex. |
| Scenarios.SampleTwoVertexFile | application/annotate_safety_barriers.py:70 | Group "A" samples the origin. |
| Scenarios.SingleMatchVotes | application/annotate_safety_barriers.py:71-81 | The origin's one hit, element 7, is one vote for "A". |
| Scenarios.SingleMatchTally | application/annotate_safety_barriers.py:81 | That vote gives `{"A": {7: 1}}`. |
| Scenarios.SingleMatchAggregate | application/annotate_safety_barriers.py:67-81 | The aggregation of the example is `{"A": {7: 1}}`. |
| Scenarios.SingleMatchInvert | application/annotate_safety_barriers.py:96-100 | M = 1, 1 > 0 keeps 7, so `name_mapping_2` is `{7: ["A"]}`. |
| Scenarios.SingleMatch | application/annotate_safety_barriers.py:41-100 | The whole run on the example gives `{7: ["A"]}`. |
| Scenarios.NoMatch | application/annotate_safety_barriers.py:69-100 | When the example's vertex hits nothing, both `name_mapping` and `name_mapping_2` are empty. |
| Scenarios.DecomposesFollowedOnce | application/annotate_safety_barriers.py:78-79 | A hit on a part whose aggregate is itself a part is counted for the first aggregate only. |
| Scenarios.Tie | application/annotate_safety_barriers.py:98-99 | A tally `{1: 4, 2: 4}` keeps both elements. |

## Left out

- The building model: opening the IFC files and building the geometry
  iterators and the spatial tree (lines 24-37). `tree.select_box`, the
  first `Decomposes` parent, `is_a` and the type filter are fields of `Env`.
  `hits` is left unconstrained, so the proofs hold for any list of hits the
  index returns.
- The query box: the ±0.2 box arithmetic on floats (lines 72-74) is folded
  into `Env.hits`. Coordinates are Dafny reals, with no rounding.
- I/O: opening and reading `simplified.obj`; writing `colours.mtl` (lines
  83-85); the seek and write-back of the rewritten file (lines 91-92); the
  blender and COLLADA2GLTF calls; the JSON result (lines 102-121). The header
  insert is modelled on the list of lines.
- Command-line arguments (lines 15-23): the `"IfcStair"` default and `"all"`
  meaning no filter. The filter is the parameter `Env.elementType`.
- Token parsing: `float` and `int` on the split tokens, and `strip()` of the
  group name. Lines arrive already tokenised as `V`, `G`, `F` or `Other`.
  Two inputs on which the script raises are not modelled:
  - a malformed number;
  - a `v ` line with more or fewer than three numbers, such as OBJ's
    optional w or vertex colours. `V` holds exactly one three-coordinate
    point. The script raises on most of these: on a mix of lengths when it
    builds the numpy array (line 47), and on two, four or more numbers in
    the box arithmetic (line 72), once a vertex is sampled. When every `v `
    line holds a single number x, line 72 broadcasts it to the point
    (x, x, x) and the run goes on. A file in which no group has a face never
    reaches line 72, so it raises nothing.
- Generator aliasing: `current[:] = []` (lines 57 and 64) clears the list
  that was just yielded. The consumer at line 70 has finished with that list
  before the generator resumes, so each yield is modelled as a value copy.
- Element identity: elements are natural-number identities, compared as
  `Counter` and `dict` compare entity instances.
- Majority.MaxCount: returns 0 for an empty tally, where `max` raises.
  `name_mapping` never holds an empty tally (Votes.TallyWellFormed), so the
  case is never reached.

Three behaviours of the code worth knowing, all modelled as written:

- The type filter is applied again after resolution (line 80). An aggregate
  of a matching part is therefore dropped unless it matches the filter
  itself.
- A face index out of range is not a parse error. numpy wraps index 0 and
  negative indices down to `1 - |verts|` around to the end of the vertex
  table, and raises IndexError beyond that (Votes.SampleLaw).
- A vertex used by several faces is sampled once per use. Vertices are not
  de-duplicated.
