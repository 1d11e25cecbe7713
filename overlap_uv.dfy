/**
 Snapping selected UVs onto the nearest reference UV, as done by the UV overlap
 script: the nearest-UV search (`compare_uv_position`), the position lists it
 works on (`create_uv_position_list`), and the two ways of choosing the reference
 and target UVs (`overlap_uv`, direct mode; `overlap_uv_island`, grouped by UV
 shell). Host queries are parameters: `uvOf` is the position query of
 `polyEditUV`, `shellOf` the shell id query of `polyEvaluate`. Host writes are
 returned as the list of `polyEditUV` moves, in the order they are made.
 */
module UweOverlapUv {
  import opened Wrappers
  import opened Sequences
  import opened Reals

  /** A position in UV space. */
  datatype UvPos = UvPos(u: real, v: real)

  /**
   One entry of a UV position list: the UV's component name (`uvNumber`), its
   position (`uValue`, `vValue`) and, once the search has written them, the
   `closest_u`/`closest_v` pair, absent until then.
   */
  datatype UvRecord = UvRecord(uvNumber: string, uValue: real, vValue: real, closest: Option<UvPos>)

  /** One absolute `polyEditUV` move of a UV. */
  datatype Edit = Edit(uvNumber: string, pos: UvPos)

  function PosOf(c: UvRecord): UvPos
  {
    UvPos(c.uValue, c.vValue)
  }

  /** The reference UV `c` survives both per-axis skips of the scan for the target `t`. */
  predicate WithinThreshold(c: UvRecord, t: UvRecord, threshold: real)
  {
    !(threshold < Abs(c.uValue - t.uValue)) && !(threshold < Abs(c.vValue - t.vValue))
  }

  /**
   The square of the Euclidean distance. The scan compares square roots of these
   values; the square root is monotone, so the comparisons come out the same.
   */
  function SquaredDistance(c: UvRecord, t: UvRecord): real
  {
    (c.uValue - t.uValue) * (c.uValue - t.uValue) + (c.vValue - t.vValue) * (c.vValue - t.vValue)
  }

  predicate HasCandidate(src: seq<UvRecord>, t: UvRecord, threshold: real)
  {
    exists k :: 0 <= k < |src| && WithinThreshold(src[k], t, threshold)
  }

  /**
   `src[k]` is the match for `t`: it passes both axis tests, no passing reference
   is nearer, and every passing reference before it is strictly farther.
   */
  predicate IsClosest(src: seq<UvRecord>, t: UvRecord, threshold: real, k: int)
  {
    && 0 <= k < |src|
    && WithinThreshold(src[k], t, threshold)
    && (forall j :: 0 <= j < |src| && WithinThreshold(src[j], t, threshold) ==>
          SquaredDistance(src[k], t) <= SquaredDistance(src[j], t))
    && (forall j :: 0 <= j < k && WithinThreshold(src[j], t, threshold) ==>
          SquaredDistance(src[k], t) < SquaredDistance(src[j], t))
  }

  /**
   The index the inner scan ends up recording for the target `t`: None while the
   best distance is still infinity, and a later reference replaces the recorded
   one only when it is strictly nearer.
   */
  function ClosestIndex(src: seq<UvRecord>, t: UvRecord, threshold: real): (r: Option<nat>)
    ensures r.None? <==> !HasCandidate(src, t, threshold)
    ensures r.Some? ==> IsClosest(src, t, threshold, r.value)
  {
    if |src| == 0 then None
    else
      var last := |src| - 1;
      var init := src[..last];
      assert forall j :: 0 <= j < last ==> init[j] == src[j];
      var best := ClosestIndex(init, t, threshold);
      if !WithinThreshold(src[last], t, threshold) then best
      else if best.None? || SquaredDistance(src[last], t) < SquaredDistance(src[best.value], t) then Some(last)
      else best
  }

  /** One step of the scan: extending the scanned prefix by one reference. */
  lemma ClosestIndexStep(src: seq<UvRecord>, t: UvRecord, threshold: real, j: int)
    requires 0 <= j < |src|
    ensures var best := ClosestIndex(src[..j], t, threshold);
            ClosestIndex(src[..j + 1], t, threshold) ==
              if !WithinThreshold(src[j], t, threshold) then best
              else if best.None? || SquaredDistance(src[j], t) < SquaredDistance(src[best.value], t) then Some(j)
              else best
  {
    assert src[..j + 1][..j] == src[..j];
  }

  /** The closest reference is unique: the tie-break makes the specification deterministic. */
  lemma ClosestIsUnique(src: seq<UvRecord>, t: UvRecord, threshold: real, k: int)
    requires IsClosest(src, t, threshold, k)
    ensures ClosestIndex(src, t, threshold) == Some(k)
  {
  }

  /** Of two equally near passing references, the later one is never recorded. */
  lemma TieKeepsEarlier(src: seq<UvRecord>, t: UvRecord, threshold: real, j: int, k: int)
    requires 0 <= j < k < |src|
    requires WithinThreshold(src[j], t, threshold) && WithinThreshold(src[k], t, threshold)
    requires SquaredDistance(src[j], t) == SquaredDistance(src[k], t)
    ensures ClosestIndex(src, t, threshold) != Some(k)
  {
  }

  /** The target entry after the inner scan: the match is written only when a reference passed. */
  function Snap(src: seq<UvRecord>, d: UvRecord, threshold: real): (r: UvRecord)
    ensures r.uvNumber == d.uvNumber && r.uValue == d.uValue && r.vValue == d.vValue
    ensures HasCandidate(src, d, threshold) ==>
              exists k :: IsClosest(src, d, threshold, k) && r.closest == Some(PosOf(src[k]))
    ensures !HasCandidate(src, d, threshold) ==> r == d
  {
    match ClosestIndex(src, d, threshold)
    case None => d
    case Some(k) => d.(closest := Some(PosOf(src[k])))
  }

  /**
   `compare_uv_position` on values: every target entry after its scan. The
   search keeps the length and order of the targets and their name and position.
   */
  function MatchAll(src: seq<UvRecord>, dst: seq<UvRecord>, threshold: real): (r: seq<UvRecord>)
    ensures |r| == |dst|
    ensures forall i :: 0 <= i < |dst| ==>
              r[i].uvNumber == dst[i].uvNumber && r[i].uValue == dst[i].uValue && r[i].vValue == dst[i].vValue
  {
    seq(|dst|, i requires 0 <= i < |dst| => Snap(src, dst[i], threshold))
  }

  /** A match written by the search is within `threshold` of its target on each axis. */
  lemma MatchWithinThreshold(src: seq<UvRecord>, dst: seq<UvRecord>, threshold: real, i: int)
    requires 0 <= i < |dst| && dst[i].closest.None?
    requires MatchAll(src, dst, threshold)[i].closest.Some?
    ensures var p := MatchAll(src, dst, threshold)[i].closest.value;
            Abs(p.u - dst[i].uValue) <= threshold && Abs(p.v - dst[i].vValue) <= threshold
  {
    var k :| IsClosest(src, dst[i], threshold, k) && MatchAll(src, dst, threshold)[i].closest == Some(PosOf(src[k]));
  }

  /**
   A match written by the search is the position of the nearest passing
   reference, the earliest of them on a tie; and a target gets a match exactly
   when some reference passes both axis tests.
   */
  lemma MatchIsClosest(src: seq<UvRecord>, dst: seq<UvRecord>, threshold: real, i: int)
    requires 0 <= i < |dst| && dst[i].closest.None?
    ensures MatchAll(src, dst, threshold)[i].closest.Some? <==> HasCandidate(src, dst[i], threshold)
    ensures MatchAll(src, dst, threshold)[i].closest.Some? ==>
              exists k :: IsClosest(src, dst[i], threshold, k) &&
                          MatchAll(src, dst, threshold)[i].closest == Some(PosOf(src[k]))
  {
  }

  /**
   `compare_uv_position`: for every target entry, scan all references, skip those
   farther than `threshold` on u or on v, and write the position of the nearest
   one into the entry (strict `<`, so the first of equally near ones stays).
   */
  method CompareUvPosition(src: seq<UvRecord>, dst: array<UvRecord>, threshold: real)
    modifies dst
    ensures dst[..] == MatchAll(src, old(dst[..]), threshold)
  {
    for i := 0 to dst.Length
      invariant forall m :: 0 <= m < i ==> dst[m] == Snap(src, old(dst[m]), threshold)
      invariant forall m :: i <= m < dst.Length ==> dst[m] == old(dst[m])
    {
      ghost var before := dst[..];
      var target := dst[i];
      var minDistance: Option<real> := None;  // float('inf')
      var targetU := dst[i].uValue;
      var targetV := dst[i].vValue;
      for j := 0 to |src|
        invariant forall m :: 0 <= m < dst.Length && m != i ==> dst[m] == before[m]
        invariant ClosestIndex(src[..j], target, threshold).None? ==> dst[i] == target && minDistance.None?
        invariant ClosestIndex(src[..j], target, threshold).Some? ==>
                    var k := ClosestIndex(src[..j], target, threshold).value;
                    && k < j
                    && dst[i] == target.(closest := Some(PosOf(src[k])))
                    && minDistance == Some(SquaredDistance(src[k], target))
      {
        ClosestIndexStep(src, target, threshold, j);
        var coordU := src[j].uValue;
        var coordV := src[j].vValue;
        if threshold < Abs(coordU - targetU) {
          continue;
        }
        if threshold < Abs(coordV - targetV) {
          continue;
        }
        var distance := SquaredDistance(src[j], target);
        if minDistance.None? || distance < minDistance.value {
          minDistance := Some(distance);
          dst[i] := dst[i].(closest := Some(UvPos(coordU, coordV)));
        }
      }
      assert src[..|src|] == src;
    }
  }

  /** `create_uv_position_list` on values: one fresh entry per name, at the queried position. */
  function PositionList(names: seq<string>, uvOf: string -> UvPos): (r: seq<UvRecord>)
    ensures |r| == |names|
    ensures forall i :: 0 <= i < |names| ==>
              r[i].uvNumber == names[i] && PosOf(r[i]) == uvOf(names[i]) && r[i].closest.None?
  {
    seq(|names|, i requires 0 <= i < |names| => UvRecord(names[i], uvOf(names[i]).u, uvOf(names[i]).v, None))
  }

  /** `create_uv_position_list`: query each UV's position and build its entry, in order. */
  method CreateUvPositionList(bodyMapList: seq<string>, uvOf: string -> UvPos) returns (uvPositions: seq<UvRecord>)
    ensures |uvPositions| == |bodyMapList|
    ensures forall i :: 0 <= i < |bodyMapList| ==>
              uvPositions[i].uvNumber == bodyMapList[i] && PosOf(uvPositions[i]) == uvOf(bodyMapList[i]) &&
              uvPositions[i].closest.None?
    ensures uvPositions == PositionList(bodyMapList, uvOf)
  {
    uvPositions := [];
    for i := 0 to |bodyMapList|
      invariant uvPositions == PositionList(bodyMapList[..i], uvOf)
    {
      var pos := uvOf(bodyMapList[i]);
      uvPositions := uvPositions + [UvRecord(bodyMapList[i], pos.u, pos.v, None)];
    }
    assert bodyMapList[..|bodyMapList|] == bodyMapList;
  }

  /**
   The moves made by an apply loop that stops at the first entry without a
   match: one move per entry before it, in order, to that entry's match, and
   none from it on.
   */
  ghost predicate MovedUntilUnmatched(matched: seq<UvRecord>, edits: seq<Edit>)
  {
    && |edits| <= |matched|
    && (forall i :: 0 <= i < |edits| ==>
          matched[i].closest.Some? && edits[i] == Edit(matched[i].uvNumber, matched[i].closest.value))
    && (|edits| < |matched| ==> matched[|edits|].closest.None?)
  }

  /**
   The apply loop of both modes: move each entry to its match, and stop at the
   first entry without one, where reading `closest_u` raises `KeyError`.
   */
  method MoveUvs(matched: seq<UvRecord>) returns (edits: seq<Edit>, stopped: bool)
    ensures MovedUntilUnmatched(matched, edits)
    ensures stopped <==> |edits| < |matched|
  {
    edits := [];
    for i := 0 to |matched|
      invariant |edits| == i
      invariant forall m :: 0 <= m < i ==>
                  matched[m].closest.Some? && edits[m] == Edit(matched[m].uvNumber, matched[m].closest.value)
    {
      if matched[i].closest.None? {
        stopped := true;
        return;
      }
      edits := edits + [Edit(matched[i].uvNumber, matched[i].closest.value)];
    }
    stopped := false;
  }

  /**
   The matching step shared by both modes: build the reference and target
   entries, then let `compare_uv_position` fill in the targets' matches.
   */
  method MatchPositions(searchUvs: seq<string>, selectedUvs: seq<string>, uvOf: string -> UvPos, threshold: real)
    returns (matched: seq<UvRecord>)
    ensures matched == MatchAll(PositionList(searchUvs, uvOf), PositionList(selectedUvs, uvOf), threshold)
  {
    var srcUvPos := CreateUvPositionList(searchUvs, uvOf);
    var dstUvPos := CreateUvPositionList(selectedUvs, uvOf);
    var dst := new UvRecord[|dstUvPos|](i requires 0 <= i < |dstUvPos| => dstUvPos[i]);
    assert dst[..] == dstUvPos;
    CompareUvPosition(srcUvPos, dst, threshold);
    matched := dst[..];
  }

  /**
   `overlap_uv`, the direct mode: the references are all UVs of the shape except
   those of the selected UV's island, in the arbitrary order of a Python set; the
   targets are the selected UVs. Matches are applied in order, and the first
   target without a match ends the run with one warning.
   */
  method OverlapUv(selectedUvs: seq<string>, selectedUvIsland: seq<string>, allUvs: seq<string>,
                   uvOf: string -> UvPos, threshold: real)
    returns (searchUvs: seq<string>, edits: seq<Edit>, warnings: nat)
    ensures forall x :: x in searchUvs <==> x in allUvs && x !in selectedUvIsland
    ensures forall i, j :: 0 <= i < j < |searchUvs| ==> searchUvs[i] != searchUvs[j]
    ensures MovedUntilUnmatched(MatchAll(PositionList(searchUvs, uvOf), PositionList(selectedUvs, uvOf), threshold), edits)
    ensures warnings == if |edits| < |selectedUvs| then 1 else 0
  {
    searchUvs := ListOfSet((set x | x in allUvs) - (set x | x in selectedUvIsland));
    var matched := MatchPositions(searchUvs, selectedUvs, uvOf, threshold);
    var stopped;
    edits, stopped := MoveUvs(matched);
    warnings := if stopped then 1 else 0;
  }

  /** How `overlap_uv_island` ends. */
  datatype IslandOutcome =
    | Completed
    | IndexError                  // nothing selected: `[-1]` of an empty list
    | KeyError(uvNumber: string)  // this target had no match

  function InShell(shellOf: string -> int, id: int): string -> bool
  {
    x => shellOf(x) == id
  }

  /**
   `allUvs` groups the UVs `seen` by shell: its keys are the shell ids in the
   order in which their shells are first met, and each holds the UVs of that
   shell in order.
   */
  ghost predicate Grouped(seen: seq<string>, shellOf: string -> int, shellOrder: seq<int>, allUvs: map<int, seq<string>>)
  {
    && shellOrder == Keys(Dedup(seen, shellOf), shellOf)
    && (forall id :: id in allUvs <==> id in shellOrder)
    && (forall j :: 0 <= j < |shellOrder| ==> shellOrder[j] in allUvs)
    && (forall id :: id in allUvs ==> allUvs[id] == Filter(seen, InShell(shellOf, id)))
  }

  /** A UV of a shell already met is appended to that shell's group. */
  lemma GroupedKnownShell(seen: seq<string>, x: string, shellOf: string -> int,
                          shellOrder: seq<int>, allUvs: map<int, seq<string>>)
    requires Grouped(seen, shellOf, shellOrder, allUvs) && shellOf(x) in allUvs
    ensures Grouped(seen + [x], shellOf, shellOrder, allUvs[shellOf(x) := allUvs[shellOf(x)] + [x]])
  {
    assert forall id :: id in allUvs <==> id in shellOrder;
    assert shellOf(x) in shellOrder;
    DedupAppend(seen, x, shellOf);
    assert Dedup(seen + [x], shellOf) == Dedup(seen, shellOf);
    var updated := allUvs[shellOf(x) := allUvs[shellOf(x)] + [x]];
    forall id | id in updated
      ensures updated[id] == Filter(seen + [x], InShell(shellOf, id))
    {
      FilterAppend(seen, x, InShell(shellOf, id));
    }
  }

  /** A UV of a new shell opens a group of its own, last in the order. */
  lemma GroupedNewShell(seen: seq<string>, x: string, shellOf: string -> int,
                        shellOrder: seq<int>, allUvs: map<int, seq<string>>)
    requires Grouped(seen, shellOf, shellOrder, allUvs) && shellOf(x) !in allUvs
    ensures Grouped(seen + [x], shellOf, shellOrder + [shellOf(x)], allUvs[shellOf(x) := [x]])
  {
    var id := shellOf(x);
    assert forall other :: other in allUvs <==> other in shellOrder;
    assert id !in shellOrder;
    DedupAppend(seen, x, shellOf);
    assert Dedup(seen + [x], shellOf) == Dedup(seen, shellOf) + [x];
    KeysAppend(Dedup(seen, shellOf), x, shellOf);
    var order := shellOrder + [id];
    assert order == Keys(Dedup(seen + [x], shellOf), shellOf);
    forall y | y in seen ensures !InShell(shellOf, id)(y) {
      var j :| 0 <= j < |seen| && seen[j] == y;
      assert Keys(seen, shellOf)[j] == shellOf(y);
      assert shellOf(y) in shellOrder;
    }
    FilterNone(seen, InShell(shellOf, id));
    var updated := allUvs[id := [x]];
    assert forall other :: other in updated <==> other in order;
    assert forall j :: 0 <= j < |order| ==> order[j] in updated;
    forall other | other in updated
      ensures updated[other] == Filter(seen + [x], InShell(shellOf, other))
    {
      FilterAppend(seen, x, InShell(shellOf, other));
    }
  }

  /**
   The grouping loop of `overlap_uv_island`: a dictionary from shell id to the
   selected UVs of that shell, whose keys are in the order in which their shells
   are first met.
   */
  method GroupByShell(selUvs: seq<string>, shellOf: string -> int)
    returns (shellOrder: seq<int>, allUvs: map<int, seq<string>>)
    ensures shellOrder == Keys(Dedup(selUvs, shellOf), shellOf)
    ensures forall id :: id in allUvs <==> id in shellOrder
    ensures forall i :: 0 <= i < |shellOrder| ==> shellOrder[i] in allUvs
    ensures forall id :: id in allUvs ==> allUvs[id] == Filter(selUvs, InShell(shellOf, id))
  {
    shellOrder := [];
    allUvs := map[];
    for i := 0 to |selUvs|
      invariant Grouped(selUvs[..i], shellOf, shellOrder, allUvs)
    {
      var selUv := selUvs[i];
      var selId := shellOf(selUv);
      assert selUvs[..i + 1] == selUvs[..i] + [selUv];
      if selId in allUvs {
        GroupedKnownShell(selUvs[..i], selUv, shellOf, shellOrder, allUvs);
        allUvs := allUvs[selId := allUvs[selId] + [selUv]];
      } else {
        GroupedNewShell(selUvs[..i], selUv, shellOf, shellOrder, allUvs);
        allUvs := allUvs[selId := [selUv]];
        shellOrder := shellOrder + [selId];
      }
    }
    assert selUvs[..|selUvs|] == selUvs;
  }

  /** `list(all_uvs.values())` for a dictionary whose keys, in insertion order, are `order`. */
  function Values(order: seq<int>, allUvs: map<int, seq<string>>): (r: seq<seq<string>>)
    requires forall i :: 0 <= i < |order| ==> order[i] in allUvs
    ensures |r| == |order|
    ensures forall id :: id in order ==> allUvs[id] in r
    ensures forall g :: g in r ==> exists id :: id in order && id in allUvs && allUvs[id] == g
  {
    var r := seq(|order|, i requires 0 <= i < |order| => allUvs[order[i]]);
    assert forall id :: id in order ==> allUvs[id] in r by {
      forall id | id in order ensures allUvs[id] in r {
        var i :| 0 <= i < |order| && order[i] == id;
        assert r[i] == allUvs[id];
      }
    }
    assert forall g :: g in r ==> exists id :: id in order && id in allUvs && allUvs[id] == g by {
      forall g | g in r ensures exists id :: id in order && id in allUvs && allUvs[id] == g {
        var i :| 0 <= i < |r| && r[i] == g;
        var id := order[i];
        assert id in order && id in allUvs && allUvs[id] == g;
      }
    }
    r
  }

  lemma ValuesAreShellGroups(selUvs: seq<string>, shellOf: string -> int,
                             shellOrder: seq<int>, allUvs: map<int, seq<string>>)
    requires shellOrder == Keys(Dedup(selUvs, shellOf), shellOf)
    requires forall i :: 0 <= i < |shellOrder| ==> shellOrder[i] in allUvs
    requires forall id :: id in allUvs ==> allUvs[id] == Filter(selUvs, InShell(shellOf, id))
    ensures Values(shellOrder, allUvs) == ShellGroups(selUvs, shellOf)
  {
  }

  /** `list(all_uvs.values())`: the selected UVs of each shell, shells in first-seen order. */
  function ShellGroups(selUvs: seq<string>, shellOf: string -> int): (groups: seq<seq<string>>)
    ensures |groups| > 0 <==> |selUvs| > 0
  {
    var order := Keys(Dedup(selUvs, shellOf), shellOf);
    assert |selUvs| > 0 ==> Keys(selUvs, shellOf)[0] in Keys(selUvs, shellOf);
    seq(|order|, i requires 0 <= i < |order| => Filter(selUvs, InShell(shellOf, order[i])))
  }

  /** The reference UVs of island mode: every group but the last, flattened. */
  function SearchUvs(groups: seq<seq<string>>): (r: seq<string>)
    ensures forall x :: x in r <==> exists i :: 0 <= i < |groups| - 1 && x in groups[i]
  {
    if |groups| == 0 then []
    else
      var before := groups[..|groups| - 1];
      assert forall i :: 0 <= i < |before| ==> before[i] == groups[i];
      Concat(before)
  }

  /** Each selected UV's shell is among the ordered shell ids. */
  lemma ShellInOrder(selUvs: seq<string>, shellOf: string -> int, x: string)
    requires x in selUvs
    ensures shellOf(x) in Keys(Dedup(selUvs, shellOf), shellOf)
  {
    var j :| 0 <= j < |selUvs| && selUvs[j] == x;
    assert Keys(selUvs, shellOf)[j] == shellOf(x);
  }

  /** The group at a position holds the selected UVs of the shell at that position of the order. */
  lemma ShellGroupAt(selUvs: seq<string>, shellOf: string -> int, i: int)
    requires 0 <= i < |Keys(Dedup(selUvs, shellOf), shellOf)|
    ensures var order := Keys(Dedup(selUvs, shellOf), shellOf);
            && |ShellGroups(selUvs, shellOf)| == |order|
            && ShellGroups(selUvs, shellOf)[i] == Filter(selUvs, InShell(shellOf, order[i]))
  {
  }

  /** A UV of a group before the last is among the references. */
  lemma SearchUvsHas(groups: seq<seq<string>>, i: int, x: string)
    requires 0 <= i < |groups| - 1 && x in groups[i]
    ensures x in SearchUvs(groups)
  {
    var before := groups[..|groups| - 1];
    assert before[i] == groups[i];
  }

  /** A selected UV of a shell other than the last one met is among the references. */
  lemma OtherShellSearched(selUvs: seq<string>, shellOf: string -> int, x: string)
    requires x in selUvs
    requires var order := Keys(Dedup(selUvs, shellOf), shellOf);
             |order| > 0 && shellOf(x) != order[|order| - 1]
    ensures x in SearchUvs(ShellGroups(selUvs, shellOf))
  {
    var order := Keys(Dedup(selUvs, shellOf), shellOf);
    ShellInOrder(selUvs, shellOf, x);
    var i :| 0 <= i < |order| && order[i] == shellOf(x);
    assert i != |order| - 1;
    ShellGroupAt(selUvs, shellOf, i);
    var groups := ShellGroups(selUvs, shellOf);
    assert InShell(shellOf, order[i])(x);
    assert x in groups[i];
    SearchUvsHas(groups, i, x);
  }

  /** Every reference is a selected UV of a shell other than the last one met. */
  lemma SearchedIsOtherShell(selUvs: seq<string>, shellOf: string -> int, x: string)
    requires x in SearchUvs(ShellGroups(selUvs, shellOf))
    ensures var order := Keys(Dedup(selUvs, shellOf), shellOf);
            |order| > 0 && x in selUvs && shellOf(x) != order[|order| - 1]
  {
    var groups := ShellGroups(selUvs, shellOf);
    var order := Keys(Dedup(selUvs, shellOf), shellOf);
    var n := |order|;
    var before := groups[..n - 1];
    var i :| 0 <= i < n - 1 && x in before[i];
    assert before[i] == Filter(selUvs, InShell(shellOf, order[i]));
    var r := Dedup(selUvs, shellOf);
    assert order[i] == shellOf(r[i]) && order[n - 1] == shellOf(r[n - 1]);
  }

  /**
   Island mode splits the selection by the shell met last: the references are
   exactly the selected UVs of the other shells, the targets exactly those of
   that shell.
   */
  lemma IslandSplit(selUvs: seq<string>, shellOf: string -> int, x: string)
    requires |selUvs| > 0
    ensures var groups := ShellGroups(selUvs, shellOf);
            var order := Keys(Dedup(selUvs, shellOf), shellOf);
            && |order| == |groups|
            && (x in SearchUvs(groups) <==> x in selUvs && shellOf(x) != order[|order| - 1])
            && (x in groups[|groups| - 1] <==> x in selUvs && shellOf(x) == order[|order| - 1])
  {
    var groups := ShellGroups(selUvs, shellOf);
    var order := Keys(Dedup(selUvs, shellOf), shellOf);
    assert groups[|groups| - 1] == Filter(selUvs, InShell(shellOf, order[|order| - 1]));
    if x in selUvs && shellOf(x) != order[|order| - 1] {
      OtherShellSearched(selUvs, shellOf, x);
    }
    if x in SearchUvs(groups) {
      SearchedIsOtherShell(selUvs, shellOf, x);
    }
  }

  /**
   The search list as the script builds it: the groups before the last are
   flattened only when there are at least two of them, so one preceding group
   stays a list inside the list.
   */
  datatype SearchList = Flat(uvs: seq<string>) | Nested(lists: seq<seq<string>>)

  function SearchUvsAsWritten(groups: seq<seq<string>>): (r: SearchList)
    ensures r.Nested? <==> |groups| <= 2
    ensures r.Flat? ==> r.uvs == SearchUvs(groups)
    ensures r.Nested? ==> |r.lists| == (if |groups| == 0 then 0 else |groups| - 1)
    ensures r.Nested? ==> forall i :: 0 <= i < |r.lists| ==> r.lists[i] == groups[i]
  {
    var before := if |groups| == 0 then [] else groups[..|groups| - 1];
    if |before| >= 2 then Flat(Concat(before)) else Nested(before)
  }

  /** The as-written split agrees with the flattened one except when exactly two shells are selected. */
  lemma AsWrittenAgreesUnlessTwoShells(groups: seq<seq<string>>)
    requires |groups| != 2
    ensures SearchUvsAsWritten(groups) == Flat(SearchUvs(groups)) ||
            (SearchUvsAsWritten(groups) == Nested([]) && SearchUvs(groups) == [])
  {
  }

  /**
   With two shells selected, the as-written search list has one element, the
   list of the first shell's UVs, where the two UVs of that shell were meant.
   */
  lemma TwoShellsSearchNotFlattened()
    ensures SearchUvsAsWritten([["a1", "a2"], ["b1"]]) == Nested([["a1", "a2"]])
    ensures SearchUvs([["a1", "a2"], ["b1"]]) == ["a1", "a2"]
  {
    var groups := [["a1", "a2"], ["b1"]];
    assert groups[..1] == [["a1", "a2"]];
    assert Concat(groups[..1][..0]) == [];
  }

  /** The entries island mode ends up applying, for a non-empty selection. */
  function IslandMatches(selUvs: seq<string>, shellOf: string -> int, uvOf: string -> UvPos, threshold: real): seq<UvRecord>
    requires |selUvs| > 0
  {
    var groups := ShellGroups(selUvs, shellOf);
    MatchAll(PositionList(SearchUvs(groups), uvOf), PositionList(groups[|groups| - 1], uvOf), threshold)
  }

  /**
   `overlap_uv_island`: switch selection-order tracking on if it was off, group
   the selected UVs by shell, search from the UVs of every shell but the last
   into the UVs of the last, and move each target to its match. An empty
   selection raises `IndexError`, a target without a match `KeyError`; either
   exception skips switching tracking back off.
   */
  method OverlapUvIsland(trackSelectionOrder: bool, selUvs: seq<string>, shellOf: string -> int,
                         uvOf: string -> UvPos, threshold: real)
    returns (outcome: IslandOutcome, edits: seq<Edit>, trackSelectionOrderAfter: bool)
    ensures outcome == IndexError <==> |selUvs| == 0
    ensures outcome == IndexError ==> edits == []
    ensures outcome != IndexError ==>
              var matched := IslandMatches(selUvs, shellOf, uvOf, threshold);
              && MovedUntilUnmatched(matched, edits)
              && (outcome.KeyError? <==> |edits| < |matched|)
              && (outcome.KeyError? ==> outcome.uvNumber == matched[|edits|].uvNumber)
    ensures trackSelectionOrderAfter == (trackSelectionOrder || !outcome.Completed?)
  {
    trackSelectionOrderAfter := true;
    var shellOrder, allUvs := GroupByShell(selUvs, shellOf);
    var values := Values(shellOrder, allUvs);
    ValuesAreShellGroups(selUvs, shellOf, shellOrder, allUvs);
    if |values| == 0 {
      outcome, edits := IndexError, [];
      return;
    }
    var searchUvs := SearchUvs(values);
    var selectedUvs := values[|values| - 1];
    var matched := MatchPositions(searchUvs, selectedUvs, uvOf, threshold);
    assert matched == IslandMatches(selUvs, shellOf, uvOf, threshold);
    var stopped;
    edits, stopped := MoveUvs(matched);
    if stopped {
      outcome := KeyError(matched[|edits|].uvNumber);
      return;
    }
    outcome := Completed;
    trackSelectionOrderAfter := trackSelectionOrder;
  }

  /** A reference 0.02 off on u and 0.01 off on v is within a threshold of 0.025. */
  lemma ExampleMatch()
    ensures MatchAll([UvRecord("a", 0.0, 0.0, None)], [UvRecord("b", 0.02, 0.01, None)], 0.025)
            == [UvRecord("b", 0.02, 0.01, Some(UvPos(0.0, 0.0)))]
  {
    var src := [UvRecord("a", 0.0, 0.0, None)];
    var d := UvRecord("b", 0.02, 0.01, None);
    assert src[..0] == [];
    assert ClosestIndex(src, d, 0.025) == Some(0);
  }

  /** A reference 0.05 off on u is skipped at a threshold of 0.025, however near on v. */
  lemma ExampleNoMatch()
    ensures MatchAll([UvRecord("a", 0.0, 0.0, None)], [UvRecord("b", 0.05, 0.01, None)], 0.025)
            == [UvRecord("b", 0.05, 0.01, None)]
  {
    var src := [UvRecord("a", 0.0, 0.0, None)];
    var d := UvRecord("b", 0.05, 0.01, None);
    assert !HasCandidate(src, d, 0.025);
  }
}
