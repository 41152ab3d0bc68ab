/** Cutting a range out of the areas: what the loop over the areas has done, and how the keys are repaired. */
module AreaUnmap {
  import opened Common
  import opened PageTable
  import opened AddressSpace

  /** Resident frames of an area in `[from, to)`, in page order. */
  function FramesIn(frames: map<nat, nat>, from: nat, to: nat): seq<nat>
    decreases to - from
  {
    if from >= to then []
    else FramesIn(frames, from, to - 1) + (if to - 1 in frames then [frames[to - 1]] else [])
  }

  function Dropped(frames: map<nat, nat>, from: nat, to: nat): map<nat, nat> {
    map v | v in frames && !(from <= v < to) :: frames[v]
  }

  /** An area after the unmap loop and before keys are adjusted. */
  function Edited(a: Area, s: nat, e: nat): Area {
    if !Meets(a, s, e) then a
    else if a.start < s then Narrow(a, a.start, s)
    else if a.end <= e then Narrow(a, a.start, a.start)
    else if a.start <= e then Narrow(a, e, a.end)
    else a
  }

  /** Change the bounds only; the file page follows a start that moves up. */
  function Resize(a: Area, start: nat, end: nat): Area {
    a.(start := start, end := end,
       file := if a.file.Some? && start > a.start
               then Some(a.file.value.(page := a.file.value.page + (start - a.start))) else a.file)
  }

  /** The copy of an area's attributes for another range, without frames. */
  function CloneMeta(a: Area, start: nat, end: nat): Area
    requires a.start <= start
  {
    a.(start := start, end := end, frames := map[],
       file := if a.file.Some? then Some(a.file.value.(page := a.file.value.page + (start - a.start))) else None)
  }

  /** Entries left when the resident pages of area `a` in `[s, e)` are unmapped. */
  function WithoutPages(pt: Entries, a: Area, s: nat, e: nat): Entries {
    map v | v in pt && !(s <= v < e && v in a.frames) :: pt[v]
  }

  function Max(x: nat, y: nat): nat { if x < y then y else x }
  function Min(x: nat, y: nat): nat { if x < y then x else y }

  /** Resizing after the unmap loop gives the narrowed area. */
  lemma ResizeIsNarrow(a: Area, from: nat, to: nat, start: nat, end: nat)
    requires GoodArea(a) && a.start <= start <= end <= a.end
    requires (start == a.start && end == from && a.end <= to) || (end == a.end && start == to && from <= a.start)
    ensures Resize(a.(frames := Dropped(a.frames, from, to)), start, end) == Narrow(a, start, end)
  {
    assert Dropped(a.frames, from, to) == Narrow(a, start, end).frames;
  }

  /** Unmapping the part of the range that lies in the area is unmapping the whole range from it. */
  lemma SamePages(pt: Entries, a: Area, s: nat, e: nat, from: nat, to: nat)
    requires GoodArea(a) && from == Max(s, a.start) && to == Min(e, a.end)
    ensures WithoutPages(pt, a, from, to) == WithoutPages(pt, a, s, e)
  {
  }

  // ---- the state of the unmap loop ----

  function Ppns(pt: Entries): map<nat, nat> {
    map v | v in pt :: pt[v].ppn
  }

  /** Areas keyed below `k` have been edited. */
  ghost predicate EditedBelow(was: Areas, areas: Areas, k: nat, s: nat, e: nat) {
    && areas.Keys == was.Keys
    && forall j :: j in was ==> areas[j] == if j < k then Edited(was[j], s, e) else was[j]
  }

  predicate OwnedBelow(was: Areas, k: nat, v: nat) {
    exists j :: j in was && j < k && v in was[j].frames
  }

  ghost function WithoutBelow(pt: Entries, was: Areas, k: nat, s: nat, e: nat): Entries {
    map v | v in pt && !(s <= v < e && OwnedBelow(was, k, v)) :: pt[v]
  }

  /** The pending work on keys: areas to drop, the area to move to key `e`, the part to insert. */
  ghost predicate Plan(was: Areas, k: nat, s: nat, e: nat, empty: set<nat>, rekey: Option<nat>, split: Option<Area>) {
    && (forall j :: j in empty <==> j in was && j < k && Meets(was[j], s, e) && j >= s && was[j].end <= e)
    && (rekey.Some? ==> rekey.value in was && rekey.value < k && rekey.value >= s && Crosses(was[rekey.value], s, e))
    && (split.Some? ==>
          exists j :: j in was && j < k && j < s && Crosses(was[j], s, e) && split.value == RightPart(was[j], e))
    && (forall j :: j in was && j < k && Crosses(was[j], s, e) ==> if j >= s then rekey == Some(j)
      else split == Some(RightPart(was[j], e)))
  }

  /** Every area below `k` that the range meets ends by `reach` as far as the range goes, and later areas start
      behind it. */
  ghost predicate Reached(was: Areas, k: nat, s: nat, e: nat, reach: nat) {
    && (forall j :: j in was && j < k && Meets(was[j], s, e) ==> Min(e, was[j].end) <= reach)
    && (forall j :: j in was && j >= k ==> reach <= Max(s, j))
  }

  function Rekeyed(areas: Areas, rekey: Option<nat>, e: nat): Areas
    requires rekey.Some? ==> rekey.value in areas
  {
    if rekey.Some? then (areas - {rekey.value})[e := areas[rekey.value]] else areas
  }

  function Inserted(areas: Areas, split: Option<Area>): Areas {
    if split.Some? then areas[split.value.start := split.value] else areas
  }

  lemma EditStart(was: Areas, pt: Entries, s: nat, e: nat)
    ensures WithoutBelow(pt, was, 0, s, e) == pt && EditedBelow(was, was, 0, s, e)
    ensures Plan(was, 0, s, e, {}, None, None)
    ensures FramesIn(Ppns(pt), s, s) == []
    ensures Reached(was, 0, s, e, s)
  {
  }

  /** Frames of areas not yet reached keep their entries. */
  lemma StillMapped(was: Areas, pt: Entries, k: nat, s: nat, e: nat)
    requires GoodAreas(was) && Agree(was, pt) && k in was
    ensures forall v :: v in was[k].frames ==> v in WithoutBelow(pt, was, k, s, e)
  {
    forall v | v in was[k].frames ensures v in WithoutBelow(pt, was, k, s, e) {
      assert Owns(was, k, v);
    }
  }

  lemma WithoutNext(was: Areas, pt: Entries, k: nat, s: nat, e: nat)
    requires GoodAreas(was)
    ensures k in was && Meets(was[k], s, e) ==>
              WithoutBelow(pt, was, k + 1, s, e) == WithoutPages(WithoutBelow(pt, was, k, s, e), was[k], s, e)
    ensures !(k in was && Meets(was[k], s, e)) ==> WithoutBelow(pt, was, k + 1, s, e) == WithoutBelow(pt, was, k, s, e)
  {
  }

  lemma EditedStep(was: Areas, areas: Areas, k: nat, s: nat, e: nat)
    requires EditedBelow(was, areas, k, s, e)
    ensures k in areas <==> k in was
    ensures k in was ==> areas[k] == was[k] && EditedBelow(was, areas[k := Edited(was[k], s, e)], k + 1, s, e)
    ensures !(k in was && Meets(was[k], s, e)) ==> EditedBelow(was, areas, k + 1, s, e)
  {
  }

  lemma EditStep(was: Areas, pt: Entries, k: nat, s: nat, e: nat, reach: nat)
    requires GoodAreas(was) && Agree(was, pt) && s <= reach <= e && Reached(was, k, s, e, reach)
    ensures k in was && Meets(was[k], s, e) ==>
              && (forall v :: v in was[k].frames ==> v in WithoutBelow(pt, was, k, s, e))
              && WithoutBelow(pt, was, k + 1, s, e) == WithoutPages(WithoutBelow(pt, was, k, s, e), was[k], s, e)
              && FramesIn(Ppns(pt), s, reach) + FramesIn(was[k].frames, Max(s, k), Min(e, was[k].end))
                   == FramesIn(Ppns(pt), s, Min(e, was[k].end))
              && Reached(was, k + 1, s, e, Min(e, was[k].end))
    ensures !(k in was && Meets(was[k], s, e)) ==>
              && WithoutBelow(pt, was, k + 1, s, e) == WithoutBelow(pt, was, k, s, e)
              && Reached(was, k + 1, s, e, reach)
    ensures k in was ==> was[k].start == k && GoodArea(was[k])
    ensures k in was && !Meets(was[k], s, e) ==> Edited(was[k], s, e) == was[k]
  {
    hide WithoutPages, WithoutBelow, FramesIn;
    WithoutNext(was, pt, k, s, e);
    if k in was && Meets(was[k], s, e) {
      StillMapped(was, pt, k, s, e);
      NextReleased(was, pt, k, s, e, reach);
    }
  }

  lemma {:induction false} FramesSplit(frames: map<nat, nat>, a: nat, b: nat, c: nat)
    requires a <= b <= c
    ensures FramesIn(frames, a, c) == FramesIn(frames, a, b) + FramesIn(frames, b, c)
    decreases c - b
  {
    if b < c {
      FramesSplit(frames, a, b, c - 1);
    }
  }

  lemma {:induction false} FramesSame(frames: map<nat, nat>, frames': map<nat, nat>, a: nat, b: nat)
    requires forall v :: a <= v < b ==> (v in frames <==> v in frames') && (v in frames ==> frames[v] == frames'[v])
    ensures FramesIn(frames, a, b) == FramesIn(frames', a, b)
    decreases b - a
  {
    if a < b {
      FramesSame(frames, frames', a, b - 1);
    }
  }

  /** Within one area, the entries show the area's frames. */
  lemma EntriesInArea(was: Areas, pt: Entries, k: nat, v: nat)
    requires GoodAreas(was) && Agree(was, pt) && Covers(was, k, v)
    ensures v in Ppns(pt) <==> v in was[k].frames
    ensures v in was[k].frames ==> Ppns(pt)[v] == was[k].frames[v]
  {
    if v in pt {
      var j :| Owns(was, j, v);
      CoverUnique(was, j, k, v);
    }
    if v in was[k].frames {
      assert Owns(was, k, v);
    }
  }

  /** No area reaches into the gap before area `k`, so no entry lies there. */
  lemma GapReleases(was: Areas, pt: Entries, k: nat, s: nat, e: nat, reach: nat, from: nat)
    requires GoodAreas(was) && Agree(was, pt) && k in was && Meets(was[k], s, e) && s <= reach <= from == Max(s, k)
    requires s <= e
    requires Reached(was, k, s, e, reach)
    ensures FramesIn(Ppns(pt), reach, from) == []
  {
    hide Agree, Reached, Ppns;
    forall v: nat | reach <= v < from ensures v !in Ppns(pt) {
      NoEntry(was, pt, k, s, e, reach, v);
    }
    FramesSame(Ppns(pt), map[], reach, from);
    FramesNone(reach, from);
  }

  lemma AreaReleases(was: Areas, pt: Entries, k: nat, from: nat, to: nat)
    requires GoodAreas(was) && Agree(was, pt) && k in was && k <= from <= to <= was[k].end
    ensures FramesIn(Ppns(pt), from, to) == FramesIn(was[k].frames, from, to)
  {
    hide Agree, Ppns, FramesIn;
    forall v: nat | from <= v < to
      ensures (v in Ppns(pt) <==> v in was[k].frames) && (v in Ppns(pt) ==> Ppns(pt)[v] == was[k].frames[v])
    {
      EntriesInArea(was, pt, k, v);
    }
    FramesSame(Ppns(pt), was[k].frames, from, to);
  }

  lemma NextReleased(was: Areas, pt: Entries, k: nat, s: nat, e: nat, reach: nat)
    requires GoodAreas(was) && Agree(was, pt) && k in was && Meets(was[k], s, e) && s <= reach && s <= e
    requires Reached(was, k, s, e, reach)
    ensures reach <= Min(e, was[k].end)
    ensures FramesIn(Ppns(pt), s, Min(e, was[k].end))
         == FramesIn(Ppns(pt), s, reach) + FramesIn(was[k].frames, Max(s, k), Min(e, was[k].end))
    ensures Reached(was, k + 1, s, e, Min(e, was[k].end))
  {
    hide Agree, Ppns, FramesIn;
    var from, to := Max(s, k), Min(e, was[k].end);
    FramesSplit(Ppns(pt), s, reach, to);
    FramesSplit(Ppns(pt), reach, from, to);
    GapReleases(was, pt, k, s, e, reach, from);
    AreaReleases(was, pt, k, from, to);
  }

  lemma {:induction false} FramesNone(a: nat, b: nat)
    ensures FramesIn(map[], a, b) == []
    decreases b - a
  {
    if a < b {
      FramesNone(a, b - 1);
    }
  }

  lemma NoEntry(was: Areas, pt: Entries, k: nat, s: nat, e: nat, reach: nat, v: nat)
    requires GoodAreas(was) && Agree(was, pt) && Reached(was, k, s, e, reach) && s <= reach <= v < e
    requires forall j :: j in was && j >= k ==> v < j
    ensures v !in Ppns(pt)
  {
    forall j: nat ensures !Owns(was, j, v) {
      if j in was && j < k && Meets(was[j], s, e) {
        assert Min(e, was[j].end) <= reach;
      }
    }
  }

  lemma IsOwned(was: Areas, pt: Entries, v: nat)
    requires GoodAreas(was) && Agree(was, pt) && v in pt
    ensures OwnedBelow(was, VPN_LIMIT + 1, v)
  {
    var j: nat :| Owns(was, j, v);
    assert j in was && j < VPN_LIMIT + 1 && v in was[j].frames;
  }

  lemma AllOwned(was: Areas, pt: Entries, s: nat, e: nat)
    requires GoodAreas(was) && Agree(was, pt)
    ensures WithoutBelow(pt, was, VPN_LIMIT + 1, s, e) == Outside(pt, s, e)
  {
    hide OwnedBelow, GoodAreas, Agree;
    forall v | v in pt ensures OwnedBelow(was, VPN_LIMIT + 1, v) {
      IsOwned(was, pt, v);
    }
  }

  lemma AllReleased(was: Areas, pt: Entries, s: nat, e: nat, reach: nat)
    requires GoodAreas(was) && Agree(was, pt) && s <= reach <= e && Reached(was, VPN_LIMIT + 1, s, e, reach)
    ensures FramesIn(Ppns(pt), s, reach) == FramesIn(Ppns(pt), s, e)
  {
    FramesSplit(Ppns(pt), s, reach, e);
    forall v | reach <= v < e ensures v !in Ppns(pt) {
      NoEntry(was, pt, VPN_LIMIT + 1, s, e, reach, v);
    }
    FramesSame(Ppns(pt), map[], reach, e);
    FramesNone(reach, e);
  }

  lemma PlanSkip(was: Areas, k: nat, s: nat, e: nat, empty: set<nat>, rekey: Option<nat>, split: Option<Area>)
    requires Plan(was, k, s, e, empty, rekey, split)
    requires k in was && Meets(was[k], s, e) ==> k < s && was[k].end <= e
    ensures Plan(was, k + 1, s, e, empty, rekey, split)
  {
  }

  lemma PlanDrop(was: Areas, k: nat, s: nat, e: nat, empty: set<nat>, rekey: Option<nat>, split: Option<Area>)
    requires Plan(was, k, s, e, empty, rekey, split) && k in was && Meets(was[k], s, e) && k >= s && was[k].end <= e
    ensures Plan(was, k + 1, s, e, empty + {k}, rekey, split)
  {
  }

  /** At most one area goes on behind the range, so nothing planned is lost. */
  lemma PlanCross(was: Areas, k: nat, s: nat, e: nat, empty: set<nat>, rekey: Option<nat>, split: Option<Area>)
    requires GoodAreas(was) && Plan(was, k, s, e, empty, rekey, split) && k in was && Crosses(was[k], s, e) && s <= e
    ensures if k >= s then Plan(was, k + 1, s, e, empty, Some(k), split)
      else Plan(was, k + 1, s, e, empty, rekey, Some(RightPart(was[k], e)))
  {
    forall j | j in was && j < k ensures !Crosses(was[j], s, e) {
      assert was[j].end <= k;
    }
  }

  lemma PlanStep(was: Areas, k: nat, s: nat, e: nat, empty: set<nat>, rekey: Option<nat>, split: Option<Area>)
    requires GoodAreas(was) && Plan(was, k, s, e, empty, rekey, split) && s <= e
    ensures !(k in was && Meets(was[k], s, e)) ==> Plan(was, k + 1, s, e, empty, rekey, split)
    ensures k in was && Meets(was[k], s, e) && k >= s && was[k].end <= e ==>
      Plan(was, k + 1, s, e, empty + {k}, rekey, split)
    ensures k in was && Crosses(was[k], s, e) && k >= s ==> Plan(was, k + 1, s, e, empty, Some(k), split)
    ensures k in was && Crosses(was[k], s, e) && k < s ==>
      Plan(was, k + 1, s, e, empty, rekey, Some(RightPart(was[k], e)))
    ensures k in was && Meets(was[k], s, e) && k < s && was[k].end <= e ==> Plan(was, k + 1, s, e, empty, rekey, split)
  {
    hide Plan;
    if k in was && Crosses(was[k], s, e) {
      PlanCross(was, k, s, e, empty, rekey, split);
    } else if k in was && Meets(was[k], s, e) && k >= s {
      PlanDrop(was, k, s, e, empty, rekey, split);
    } else {
      PlanSkip(was, k, s, e, empty, rekey, split);
    }
  }

  ghost predicate Carried(was: Areas, edited: Areas, areas: Areas, s: nat, e: nat, empty: set<nat>, rekey: Option<nat>,
                          split: Option<Area>) {
    && EditedBelow(was, edited, VPN_LIMIT + 1, s, e)
    && Plan(was, VPN_LIMIT + 1, s, e, empty, rekey, split)
    && (rekey.Some? ==> rekey.value in edited - empty)
    && areas == Inserted(Rekeyed(edited - empty, rekey, e), split)
  }

  lemma RekeyStays(was: Areas, edited: Areas, s: nat, e: nat, empty: set<nat>, rekey: Option<nat>, split: Option<Area>)
    requires EditedBelow(was, edited, VPN_LIMIT + 1, s, e) && Plan(was, VPN_LIMIT + 1, s, e, empty, rekey, split)
    ensures rekey.Some? ==> rekey.value in edited - empty
  {
  }

  lemma CarriedKeeps(was: Areas, edited: Areas, areas: Areas, s: nat, e: nat, empty: set<nat>, rekey: Option<nat>,
                     split: Option<Area>, k: nat)
    requires GoodAreas(was) && s <= e && Carried(was, edited, areas, s, e, empty, rekey, split)
    requires k in was && KeepsKey(was[k], s, e)
    ensures k in areas && areas[k] == LeftPart(was[k], s, e)
  {
    assert k !in empty && k in edited - empty;
  }

  lemma CarriedCrosses(was: Areas, edited: Areas, areas: Areas, s: nat, e: nat, empty: set<nat>, rekey: Option<nat>,
                       split: Option<Area>, k: nat)
    requires GoodAreas(was) && s <= e && Carried(was, edited, areas, s, e, empty, rekey, split)
    requires k in was && Crosses(was[k], s, e)
    ensures e in areas && areas[e] == RightPart(was[k], e)
  {
  }

  lemma CarriedFrom(was: Areas, edited: Areas, areas: Areas, s: nat, e: nat, empty: set<nat>, rekey: Option<nat>,
                    split: Option<Area>, k: nat)
    requires GoodAreas(was) && s <= e && Carried(was, edited, areas, s, e, empty, rekey, split)
    requires k in areas
    ensures FromCut(was, k, s, e)
  {
  }

  /** Carrying out the plan on the edited areas cuts the range out. */
  lemma PlanCuts(was: Areas, edited: Areas, areas: Areas, s: nat, e: nat, empty: set<nat>, rekey: Option<nat>,
                 split: Option<Area>)
    requires GoodAreas(was) && s <= e && Carried(was, edited, areas, s, e, empty, rekey, split)
    ensures IsCut(was, areas, s, e)
  {
    hide Carried;
    forall k | k in was && KeepsKey(was[k], s, e) ensures k in areas && areas[k] == LeftPart(was[k], s, e) {
      CarriedKeeps(was, edited, areas, s, e, empty, rekey, split, k);
    }
    forall k | k in was && Crosses(was[k], s, e) ensures e in areas && areas[e] == RightPart(was[k], e) {
      CarriedCrosses(was, edited, areas, s, e, empty, rekey, split, k);
    }
    forall k | k in areas ensures FromCut(was, k, s, e) {
      CarriedFrom(was, edited, areas, s, e, empty, rekey, split, k);
    }
  }

  lemma UnmapStart(pt: Entries, a: Area, from: nat)
    ensures Dropped(a.frames, from, from) == a.frames && WithoutPages(pt, a, from, from) == pt
    ensures FramesIn(a.frames, from, from) == []
  {
  }

  /** One more page of the loop. */
  lemma UnmapStep(pt: Entries, a: Area, from: nat, v: nat)
    requires from <= v && forall u :: u in a.frames ==> u in pt
    ensures var now, next := WithoutPages(pt, a, from, v), WithoutPages(pt, a, from, v + 1);
      && (v in a.frames ==> v in now)
      && next == (if v in a.frames then now - {v} else now)
    ensures Dropped(a.frames, from, v + 1) == Dropped(a.frames, from, v) - {v}
    ensures v in Dropped(a.frames, from, v) <==> v in a.frames
    ensures v in a.frames ==> Dropped(a.frames, from, v)[v] == a.frames[v]
    ensures FramesIn(a.frames, from, v + 1) == FramesIn(a.frames, from, v) + if v in a.frames then [a.frames[v]] else []
  {
  }

  /** Splitting an area at a page, half by half. */
  lemma SplitHalves(a: Area, at: nat)
    requires GoodArea(a) && a.start <= at <= a.end
    ensures CloneMeta(a, at, a.end).(frames := map v | v in a.frames && v >= at :: a.frames[v]) == RightPart(a, at)
    ensures Resize(a.(frames := map v | v in a.frames && v < at :: a.frames[v]), a.start, at) == Narrow(a, a.start, at)
  {
    assert (map v | v in a.frames && v >= at :: a.frames[v]) == RightPart(a, at).frames;
    assert (map v | v in a.frames && v < at :: a.frames[v]) == Narrow(a, a.start, at).frames;
  }

  lemma SplitFrames(a: Area, s: nat, e: nat)
    requires GoodArea(a) && a.start <= s <= e <= a.end
    ensures var rest := Dropped(a.frames, s, e);
      && (map v | v in rest && v >= e :: rest[v]) == RightPart(a, e).frames
      && (map v | v in rest && v < e :: rest[v]) == Narrow(a, a.start, s).frames
  {
  }
}
