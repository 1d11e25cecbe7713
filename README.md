# Maya UV overlap and curve pivot helpers, modelled in Dafny

This project models two Maya Python tools.

- **UV overlap** (`python/uv/uwe_overlap_uv.py`): the selected UVs are snapped onto
  the nearest UV of another island. For every target UV, `compare_uv_position`
  scans the candidate UVs. It skips any candidate that is more than the threshold
  away on the u axis or on the v axis. It keeps the candidate nearest to the
  target and records its position on the target's dictionary, in place.
  - `overlap_uv` (direct mode) searches every UV of the shape except the
    selected island. It then moves the selected UVs one by one. At the first UV
    with no match it warns once and stops.
  - `overlap_uv_island` (island mode) turns the `trackSelectionOrder`
    preference on if it is off. It then groups the selected UVs by shell, in
    the order shells are first seen. The last group is the target, and the
    groups before it make up the search list. With exactly two shells, that
    list is not flattened as intended (see "## Findings").
  - Island mode moves the target UVs in order. The first target without a match
    raises `KeyError`, so no later target moves. The preference is switched back
    off only if it was off at the start and the run did not raise.
- **Pivot snapping** (`python/curve/snap_pivot.py`): the geometry of the script.
  - `classify_faces` sorts control points onto the six faces of their bounding
    box.
  - `cross`, `normalize` and `compute_normal` build face normals.
  - `deduplicate` keeps the first point of each rounded position.
  - `get_cube_normal` returns the up, side and front normals.

How the model stands in for the host and for Python:

- Maya calls become parameters. `uvOf` stands for the `polyEditUV` query,
  `shellOf` for `polyEvaluate(uvShellIds=True)`, `sqrt` for `math.sqrt` and
  `round` for `round(_, precision)`. The `polyEditUV` moves become a returned
  list of `Edit`s.
- A UV dictionary is the datatype `UweOverlapUv.UvRecord`. A missing
  `closest_u`/`closest_v` key, and the initial `float('inf')`, are `None`.
- The `dst` list that `compare_uv_position` updates in place is an `array`.
- Python exceptions become `Result` errors or outcome values.
- Floats are modelled as reals. The matcher compares squared distances, which
  orders candidates exactly as the Euclidean distance does.

Files:

- `wrappers.dfy`: `Option` and `Result`.
- `reals.dfy`: `abs` on reals.
- `sequences.dfy`: filtering, first-occurrence deduplication, flattening and `list(set)`.
- `overlap_uv.dfy`: the UV tool.
- `snap_pivot.dfy`: the pivot geometry.

## Model

| member | source | states |
|---|---|---|
| UweOverlapUv.ClosestIndex | python/uv/uwe_overlap_uv.py:70-85 | The chosen candidate is absent exactly when no candidate passes both axis filters. When present, it passes both filters. No passing candidate is nearer, and every earlier passing candidate is strictly farther, because `<` keeps the first of equals. |
| UweOverlapUv.ClosestIsUnique | python/uv/uwe_overlap_uv.py:80-85 | Any candidate with the nearest-and-first property is the one the scan picks, so the match is determined by the inputs. |
| UweOverlapUv.TieKeepsEarlier | python/uv/uwe_overlap_uv.py:82 | Of two passing candidates at the same distance, the later one is never picked. |
| UweOverlapUv.Snap | python/uv/uwe_overlap_uv.py:62-85 | The name and u/v of a target are kept. With a passing candidate, the target records the position of the nearest-and-first one. Without one, the target is left unchanged. |
| UweOverlapUv.MatchAll | python/uv/uwe_overlap_uv.py:62-87 | The returned list has the length and order of `dst`, and every entry keeps its name and coordinates. |
| UweOverlapUv.MatchWithinThreshold | python/uv/uwe_overlap_uv.py:74-78 | A recorded position lies within the threshold of the target on each axis. |
| UweOverlapUv.MatchIsClosest | python/uv/uwe_overlap_uv.py:70-85 | A fresh target gets a match if and only if some candidate passes both filters. The match is the position of a nearest-and-first passing candidate. |
| UweOverlapUv.CompareUvPosition | python/uv/uwe_overlap_uv.py:33-87 | The nested loops update the array in place. Afterwards it holds the snapped version of each original entry. |
| UweOverlapUv.PositionList | python/uv/uwe_overlap_uv.py:19-30 | One record per name, in order. Each record holds the name, the queried u and v, and no match. |
| UweOverlapUv.CreateUvPositionList | python/uv/uwe_overlap_uv.py:4-30 | One record per input name, in order. Each record holds the name, the queried u and v, and no match. |
| UweOverlapUv.MatchPositions | python/uv/uwe_overlap_uv.py:108-115 | The targets come back in selection order, each matched against the references as `compare_uv_position` does. |
| UweOverlapUv.MoveUvs | python/uv/uwe_overlap_uv.py:118-125 | Moves are issued in order, each to its entry's match, up to the first entry without a match. The loop stops there exactly when the moves are fewer than the entries. |
| UweOverlapUv.OverlapUv | python/uv/uwe_overlap_uv.py:90-125 | The search set is every UV of the shape not in the selected island, each once. The selected UVs are matched against it and moved up to the first unmatched one. One warning is issued exactly when that stop happens. |
| UweOverlapUv.GroupByShell | python/uv/uwe_overlap_uv.py:147-154 | Shell ids appear in first-seen order, each once. The map has exactly those ids as keys. Each group is the selected UVs of that shell, in selection order. |
| UweOverlapUv.GroupedKnownShell | python/uv/uwe_overlap_uv.py:151-152 | A UV of a shell already met is appended to that shell's group. The shell order stays the same, and the grouping still matches the UVs seen so far. |
| UweOverlapUv.GroupedNewShell | python/uv/uwe_overlap_uv.py:153-154 | A UV of a new shell opens a one-element group, and its shell id joins the end of the order. The grouping still matches the UVs seen so far. |
| UweOverlapUv.Values | python/uv/uwe_overlap_uv.py:157 | `list(all_uvs.values())` has one entry per key. Every key's group appears in it, and nothing else does. |
| UweOverlapUv.ValuesAreShellGroups | python/uv/uwe_overlap_uv.py:157 | The dictionary's values, taken in key insertion order, are the selected UVs of each shell, with shells in first-seen order. |
| UweOverlapUv.ShellGroups | python/uv/uwe_overlap_uv.py:147-157 | The list of groups is empty exactly when nothing is selected. |
| UweOverlapUv.SearchUvs | python/uv/uwe_overlap_uv.py:157-159 | The corrected search list: a UV is in it exactly when it is in one of the groups before the last. |
| UweOverlapUv.ShellInOrder | python/uv/uwe_overlap_uv.py:148-154 | The shell of every selected UV appears in the shell order. |
| UweOverlapUv.OtherShellSearched | python/uv/uwe_overlap_uv.py:156-159 | Every selected UV whose shell is not the last one met is among the references. |
| UweOverlapUv.SearchedIsOtherShell | python/uv/uwe_overlap_uv.py:156-159 | Every reference is a selected UV whose shell is not the last one met. |
| UweOverlapUv.IslandSplit | python/uv/uwe_overlap_uv.py:156-162 | A UV is searched if and only if it is selected and not in the last-seen shell. It is a target if and only if it is selected and in that shell. |
| UweOverlapUv.SearchUvsAsWritten | python/uv/uwe_overlap_uv.py:157-159 | The search list as written stays nested exactly when at most two groups are selected; then it is the list of groups before the last. Otherwise it is the flattened list. |
| UweOverlapUv.AsWrittenAgreesUnlessTwoShells | python/uv/uwe_overlap_uv.py:157-159 | The code as written and the flattened search list agree unless exactly two shells are selected. |
| UweOverlapUv.TwoShellsSearchNotFlattened | python/uv/uwe_overlap_uv.py:157-159 | With two shells, the code as written keeps the search list nested, while the flattened list holds the first shell's UVs. |
| UweOverlapUv.OverlapUvIsland | python/uv/uwe_overlap_uv.py:127-185 | No selection ends in an IndexError with no moves. Otherwise the targets are matched and moved up to the first unmatched one. That target ends the run in a KeyError, and the model records which target it was. The preference is left on after any error, and otherwise ends as it started. |
| UweOverlapUv.ExampleMatch | python/uv/uwe_overlap_uv.py:74-85 | A candidate 0.02/0.01 away, with threshold 0.025, becomes the match. |
| UweOverlapUv.ExampleNoMatch | python/uv/uwe_overlap_uv.py:74-75 | Example: a candidate 0.05 away on u, with threshold 0.025, is skipped and the target keeps no match. |
| SnapPivot.Max | python/curve/snap_pivot.py:34-39 | `max` of a non-empty list is one of its elements and bounds every element from above. |
| SnapPivot.Min | python/curve/snap_pivot.py:34-39 | `min` of a non-empty list is one of its elements and bounds every element from below. |
| SnapPivot.Face | python/curve/snap_pivot.py:42-47 | One face comprehension keeps exactly the points within tolerance of the extremum, each as often as in the input, in input order. |
| SnapPivot.ClassifyFaces | python/curve/snap_pivot.py:29-50 | No points gives a ValueError, and nothing else does. Otherwise there are six faces: top/bottom at max/min y, right/left at max/min x, front/back at max/min z. Each face is the in-order sublist of points within tolerance of its plane. |
| SnapPivot.FaceAtPointNonEmpty | python/curve/snap_pivot.py:42-47 | A face at a coordinate some point has is non-empty for a tolerance of at least zero. |
| SnapPivot.FacesNonEmpty | python/curve/snap_pivot.py:29-50 | For a non-empty input and a tolerance of at least zero, all six faces are non-empty. |
| SnapPivot.Cross | python/curve/snap_pivot.py:53-58 | The cross product is orthogonal to both of its factors. |
| SnapPivot.CrossWithItself | python/curve/snap_pivot.py:53-58 | The cross product of a vector with itself is zero. |
| SnapPivot.CrossAntiCommutes | python/curve/snap_pivot.py:53-58 | Swapping the factors negates the cross product. |
| SnapPivot.CrossOfParallel | python/curve/snap_pivot.py:53-58 | The cross product of parallel vectors is zero. |
| SnapPivot.SquaredLengthZero | python/curve/snap_pivot.py:62 | The sum of squared coordinates is never negative. It is zero only for the zero vector. |
| SnapPivot.Normalize | python/curve/snap_pivot.py:61-63 | The result is a non-negative multiple of the input. It is zero when the length is not positive. With a true square root, it is zero exactly for the zero vector and has length one otherwise. |
| SnapPivot.DivideByLength | python/curve/snap_pivot.py:63 | Dividing by a positive length scales by its inverse. The result is zero only for the zero vector, and has length one when the divisor is the true length. |
| SnapPivot.ZeroLength | python/curve/snap_pivot.py:62-63 | A true square root that is not positive belongs to the zero vector. |
| SnapPivot.ComputeNormal | python/curve/snap_pivot.py:66-70 | The normal is orthogonal to both edges from `p0`. With a true square root, it is zero exactly when the edges' cross product is zero, and has length one otherwise. |
| SnapPivot.ParallelCross | python/curve/snap_pivot.py:53-58 | When either vector is a multiple of the other, the cross product is zero. |
| SnapPivot.CollinearNormalIsZero | python/curve/snap_pivot.py:66-70 | Three points on one line give the zero normal, whatever the square root returns. The premise covers every collinear triple: one edge from `p0` is a multiple of the other, including a repeated point. |
| SnapPivot.CrossZeroIsParallel | python/curve/snap_pivot.py:53-58 | A zero cross product means one factor is a multiple of the other, the converse of `ParallelCross`. |
| SnapPivot.NormalZeroIffCollinear | python/curve/snap_pivot.py:66-70 | With a true square root, the normal is zero exactly when the three points lie on one line. For every other triple it has length one. |
| SnapPivot.UnitSquareNormal | python/curve/snap_pivot.py:66-70 | The points (0,0,0), (1,0,0), (0,1,0) give the normal (0,0,1). |
| SnapPivot.GetCubeNormal | python/curve/snap_pivot.py:85-90 | The call succeeds exactly when top, right and front each hold at least three points; otherwise it is a TypeError. The up, side and front vectors are the normals of the first three points of those faces. |
| SnapPivot.Deduplicate | python/curve/snap_pivot.py:73-82 | The loop returns the first point of each rounded position. The result keeps input order and has pairwise distinct rounded positions. It holds exactly the first point of each rounded position of the input, and deduplicating it again changes nothing. |
| Sequences.Filter | python/curve/snap_pivot.py:42-47 | A comprehension with a condition keeps exactly the elements that satisfy it and is never longer than its input. |
| Sequences.FilterCounts | python/curve/snap_pivot.py:42-47 | A comprehension with a condition keeps every occurrence of a satisfying element and drops all others. |
| Sequences.FilterIsSubseq | python/curve/snap_pivot.py:42-47 | A comprehension with a condition keeps input order. |
| Sequences.Dedup | python/curve/snap_pivot.py:73-82 | First-occurrence deduplication by key yields pairwise distinct keys and exactly the keys of the input. |
| Sequences.DedupKeepsOnlyFirst | python/curve/snap_pivot.py:73-82 | Every element deduplication keeps is the first element of the input with its key. |
| Sequences.DedupKeepsEveryFirst | python/curve/snap_pivot.py:73-82 | The first element of the input with each key is kept. |
| Sequences.DedupIsSubseq | python/curve/snap_pivot.py:73-82 | Deduplication keeps input order. |
| Sequences.DedupOfDistinct | python/curve/snap_pivot.py:73-82 | A list whose keys are already distinct is unchanged. |
| Sequences.DedupIdempotent | python/curve/snap_pivot.py:73-82 | Deduplicating twice equals deduplicating once. |
| Sequences.Concat | python/uv/uwe_overlap_uv.py:159 | The flattened list holds exactly the elements of the sublists. |
| Sequences.ListOfSet | python/uv/uwe_overlap_uv.py:106 | `list(set)` holds each element of the set exactly once, in some order. |

## Left out

- The Maya host is not modelled: selection queries, `ConvertSelectionToUVShell`, `listRelatives`, `polyUVSet`, `polyListComponentConversion`, `selectPref` calls, `cmds.warning`, and the GUI (`gui`, the threshold slider). Their results are parameters of the model, and the warning is a count.
- `get_points`, `get_point_positions` and `get_bounding_box` of the pivot script only query the scene. They are not part of this model.
- `main` of the pivot script (python/curve/snap_pivot.py:93-106) chains those queries with `classify_faces`, `deduplicate` on each face and `get_cube_normal`, and prints the results. That chaining and the printing are not modelled; each step is modelled on its own.
- Floating point is modelled by reals. The model does not capture rounding in `abs`, `**`, `sqrt` or the division in `normalize`.
- The defaults `tolerance=1e-6` of `classify_faces` and `precision=6` of `deduplicate` are not modelled. The tolerance is a parameter of `ClassifyFaces`, and the precision is folded into the `round` parameter of `Deduplicate`.
- `math.sqrt` and `round(_, precision)` are parameters. The properties that need a square root assume `IsSqrtAt` at the relevant argument.
- The order of `list(set(...))` in direct mode is arbitrary. The model states only which UVs are searched, each once.
- UweOverlapUv.OverlapUv: the record list is copied into a fresh array before matching. Aliasing between the returned list and the caller's list is not modelled. Python returns the same list object it mutated.
- UweOverlapUv.OverlapUvIsland: a target UV without a match raises `KeyError` at `item["closest_u"]` (python/uv/uwe_overlap_uv.py:175-177). This stops the move loop, so no later target moves, and skips the preference restore at :184-185. An empty selection raises `IndexError` at `[-1]` (:162) before anything moves, and the preference is also left switched on.
- UweOverlapUv.OverlapUvIsland: the model uses the flattened search list, the corrected form of the finding below. The two-shell case as written is kept in `SearchUvsAsWritten`.
- UweOverlapUv.OverlapUvIsland: Python's `KeyError` carries the missing key `closest_u`. The model's `KeyError` carries the UV that stopped the loop instead.
- The map keys `uvshell_<id>` are modelled by the integer id. The prefix does not affect grouping or order.

## Findings

| source | as written | input that shows it | evidently intended | confidence | as-written member | corrected member |
|---|---|---|---|---|---|---|
| python/uv/uwe_overlap_uv.py:157-159 | The list of search groups is flattened only when at least two groups precede the last one. | Exactly two shells are selected, for example groups `[["a1","a2"],["b1"]]`. The search list stays `[["a1","a2"]]`, a list holding a list. `create_uv_position_list` then queries `polyEditUV` with the whole list as one component and builds a single record from its first u and v. | The search list is always the flattened UVs of every shell but the last, here `["a1","a2"]`. | not executed | UweOverlapUv.TwoShellsSearchNotFlattened | UweOverlapUv.IslandSplit |
