/** The address-space operations that change areas and page-table entries in place. */
module MemorySet {
  import opened Common
  import opened PageTable
  import opened AddressSpace
  import opened AreaSplit
  import opened AreaUnmap
  import opened AreaProtect
  import opened AreaMove

  class MemorySet {
    const mm: nat
    var areas: Areas
    var pt: Entries

    ghost predicate Valid()
      reads this
    {
      GoodAreas(areas) && Agree(areas, pt)
    }

    constructor (mm: nat)
      ensures Valid() && areas == map[] && pt == map[] && this.mm == mm
    {
      this.mm, areas, pt := mm, map[], map[];
    }

    /** Drop the entry of one page and hand its frame to the caller; pages that are not resident are skipped. */
    method UnmapOne(k: nat, v: nat) returns (frame: Option<nat>)
      requires k in areas && (v in areas[k].frames ==> v in pt)
      modifies this
      ensures frame == if v in old(areas)[k].frames then Some(old(areas)[k].frames[v]) else None
      ensures areas == old(areas)[k := old(areas)[k].(frames := old(areas)[k].frames - {v})]
      ensures pt == if v in old(areas)[k].frames then old(pt) - {v} else old(pt)
    {
      if v in areas[k].frames {
        frame := Some(areas[k].frames[v]);
        pt := pt - {v};
        areas := areas[k := areas[k].(frames := areas[k].frames - {v})];
      } else {
        frame := None;
        assert areas[k].frames - {v} == areas[k].frames;
      }
    }

    /** The page loop shared by the four cut cases. */
    method UnmapPages(k: nat, from: nat, to: nat) returns (released: seq<nat>)
      requires k in areas && from <= to && (forall v :: v in areas[k].frames ==> v in pt)
      modifies this
      ensures areas == old(areas)[k := old(areas)[k].(frames := Dropped(old(areas)[k].frames, from, to))]
      ensures pt == WithoutPages(old(pt), old(areas)[k], from, to)
      ensures released == FramesIn(old(areas)[k].frames, from, to)
    {
      hide Dropped, WithoutPages, FramesIn;
      released := [];
      var v := from;
      ghost var a := areas[k];
      UnmapStart(pt, a, from);
      while v < to
        invariant from <= v <= to
        invariant areas == old(areas)[k := a.(frames := Dropped(a.frames, from, v))]
        invariant pt == WithoutPages(old(pt), a, from, v)
        invariant released == FramesIn(a.frames, from, v)
      {
        UnmapStep(old(pt), a, from, v);
        var frame := UnmapOne(k, v);
        if frame.Some? {
          released := released + [frame.value];
        }
        v := v + 1;
      }
    }

    /** Cut the range out of one area; a part behind the range is returned for later insertion. */
    method EditArea(k: nat, s: nat, e: nat) returns (released: seq<nat>, right: Option<Area>)
      requires k in areas && areas[k].start == k && GoodArea(areas[k]) && Meets(areas[k], s, e) && s <= e
      requires forall v :: v in areas[k].frames ==> v in pt
      modifies this
      ensures var a := old(areas)[k];
        && areas == old(areas)[k := Edited(a, s, e)]
        && pt == WithoutPages(old(pt), a, s, e)
        && released == FramesIn(a.frames, Max(s, a.start), Min(e, a.end))
        && right == if a.start < s && a.end > e then Some(RightPart(a, e)) else None
    {
      var a := areas[k];
      var deleteLeft, deleteRight := a.start >= s, a.end <= e;
      SamePages(pt, a, s, e, Max(s, a.start), Min(e, a.end));
      if deleteLeft && deleteRight {
        released := UnmapPages(k, a.start, a.end);
        ResizeIsNarrow(a, a.start, a.end, a.start, a.start);
        areas := areas[k := Resize(areas[k], a.start, a.start)];
        return released, None;
      } else if !deleteLeft && !deleteRight {
        released, right := SplitArea(k, s, e);
      } else if deleteLeft {
        released := UnmapPages(k, a.start, e);
        ResizeIsNarrow(a, a.start, e, e, a.end);
        areas := areas[k := Resize(areas[k], e, a.end)];
        return released, None;
      } else {
        released := UnmapPages(k, s, a.end);
        ResizeIsNarrow(a, s, a.end, a.start, s);
        areas := areas[k := Resize(areas[k], a.start, s)];
        return released, None;
      }
    }

    /** The range lies strictly inside the area: keep the left part in place and build the right part. */
    method SplitArea(k: nat, s: nat, e: nat) returns (released: seq<nat>, right: Option<Area>)
      requires k in areas && areas[k].start == k && GoodArea(areas[k]) && k < s <= e < areas[k].end
      requires forall v :: v in areas[k].frames ==> v in pt
      modifies this
      ensures var a := old(areas)[k];
        && areas == old(areas)[k := Narrow(a, a.start, s)]
        && pt == WithoutPages(old(pt), a, s, e)
        && released == FramesIn(a.frames, s, e)
        && right == Some(RightPart(a, e))
    {
      var a := areas[k];
      released := UnmapPages(k, s, e);
      var rest := areas[k];
      var rightFrames := map v | v in rest.frames && v >= e :: rest.frames[v];
      var leftFrames := map v | v in rest.frames && v < e :: rest.frames[v];
      var left := Resize(rest.(frames := leftFrames), a.start, s);
      right := Some(CloneMeta(left, e, a.end).(frames := rightFrames));
      SplitFrames(a, s, e);
      areas := areas[k := left];
    }

    /** The loop over the areas, in key order: cut each one the range meets and note what its key needs. */
    method EditAreas(s: nat, e: nat)
      returns (released: seq<nat>, empty: set<nat>, rekey: Option<nat>, split: Option<Area>)
      requires Valid() && s <= e
      modifies this
      ensures EditedBelow(old(areas), areas, VPN_LIMIT + 1, s, e)
      ensures Plan(old(areas), VPN_LIMIT + 1, s, e, empty, rekey, split)
      ensures pt == Outside(old(pt), s, e)
      ensures released == FramesIn(Ppns(old(pt)), s, e)
    {
      hide EditedBelow, Plan, Reached, WithoutBelow, WithoutPages, Agree;
      hide FramesIn, Ppns, Edited, GoodArea, RightPart, Outside;
      ghost var was, entries := areas, pt;
      released, empty, rekey, split := [], {}, None, None;
      ghost var reach := s;
      EditStart(was, entries, s, e);
      for k := 0 to VPN_LIMIT + 1
        invariant EditedBelow(was, areas, k, s, e)
        invariant pt == WithoutBelow(entries, was, k, s, e)
        invariant Plan(was, k, s, e, empty, rekey, split)
        invariant s <= reach <= e && released == FramesIn(Ppns(entries), s, reach)
        invariant Reached(was, k, s, e, reach)
      {
        EditStep(was, entries, k, s, e, reach);
        EditedStep(was, areas, k, s, e);
        PlanStep(was, k, s, e, empty, rekey, split);
        if k in areas && Meets(areas[k], s, e) {
          var end := areas[k].end;
          var frames, right := EditArea(k, s, e);
          released, reach := released + frames, Min(e, end);
          if k >= s && end <= e {
            empty := empty + {k};
          } else if k >= s {
            rekey := Some(k);
          } else if right.Some? {
            split := right;
          }
        }
      }
      AllOwned(was, entries, s, e);
      AllReleased(was, entries, s, e, reach);
    }

    /** Unmap `[s, e)`: edit every area the range meets, then drop empty areas and repair the keys. */
    method Munmap(s: nat, e: nat) returns (released: seq<nat>)
      requires Valid() && s <= e
      modifies this
      ensures Valid()
      ensures IsCut(old(areas), areas, s, e)
      ensures forall v: nat :: PageOf(mm, areas, v) == if s <= v < e then None else PageOf(mm, old(areas), v)
      ensures pt == Outside(old(pt), s, e)
      ensures released == FramesIn(Ppns(old(pt)), s, e)
    {
      hide EditedBelow, IsCut, Agree, GoodAreas, FramesIn, Ppns, Outside;
      var empty, rekey, split;
      released, empty, rekey, split := EditAreas(s, e);
      ghost var edited := areas;
      RekeyStays(old(areas), edited, s, e, empty, rekey, split);
      areas := areas - empty;
      if rekey.Some? {
        areas := (areas - {rekey.value})[e := areas[rekey.value]];
      }
      if split.Some? {
        areas := areas[split.value.start := split.value];
      }
      PlanCuts(old(areas), edited, areas, s, e, empty, rekey, split);
      CutAgree(old(areas), areas, old(pt), s, e);
      CutGood(old(areas), areas, s, e);
      forall v: nat ensures PageOf(mm, areas, v) == if s <= v < e then None else PageOf(mm, old(areas), v) {
        CutMeaning(mm, old(areas), areas, s, e, v);
      }
    }

    // ---- protection and locking ----

    /** Split the area keyed `k` at a page strictly inside it; otherwise do nothing. */
    method SplitAreaAt(k: nat, at: nat)
      requires GoodAreas(areas)
      modifies this`areas
      ensures areas == Split(old(areas), k, at)
    {
      hide GoodArea, Narrow, CloneMeta, Resize;
      if k in areas && k < at < areas[k].end {
        var a := areas[k];
        var right := CloneMeta(a, at, a.end).(frames := map v | v in a.frames && v >= at :: a.frames[v]);
        var left := Resize(a.(frames := map v | v in a.frames && v < at :: a.frames[v]), a.start, at);
        SplitHalves(a, at);
        areas := areas[k := left][at := right];
      }
    }

    /** The areas the range meets, in key order: scanned downwards until one ends at or before the range. */
    method Affected(s: nat, e: nat) returns (keys: seq<nat>)
      requires GoodAreas(areas) && s < e
      ensures IsAffected(areas, keys, 0, s, e)
    {
      hide IsAffected;
      keys := [];
      var c := e;
      AffectedNone(areas, s, e);
      while c > 0
        invariant 0 <= c <= e && IsAffected(areas, keys, c, s, e)
      {
        c := c - 1;
        AffectedStep(areas, keys, c, s, e);
        if c in areas {
          if areas[c].end <= s {
            return;
          }
          keys := [c] + keys;
        }
      }
    }

    /** Refuse a range with a hole, with a guard, or with a shared mapping of a file that cannot be written. */
    method CheckRange(keys: seq<nat>, s: nat, e: nat, write: bool) returns (error: Option<Errno>)
      requires GoodAreas(areas) && s < e && IsAffected(areas, keys, 0, s, e)
      ensures error.None? <==> Permitted(areas, s, e, write)
      ensures error.None? ==> keys != [] && keys[0] <= s && areas[keys[|keys| - 1]].end >= e
    {
      hide Checked, Permitted, GoodArea;
      var covered := s;
      CheckedNone(areas, keys, s, write);
      for i := 0 to |keys|
        invariant 0 <= covered && Checked(areas, keys, i, s, covered, write)
      {
        var a := areas[keys[i]];
        if a.kind == Guard || a.start > covered {
          RefusedAt(areas, keys, i, s, e, covered, write);
          return Some(ENOMEM);
        }
        if write && a.shared && a.file.Some? && !a.file.value.writable {
          RefusedAt(areas, keys, i, s, e, covered, write);
          return Some(EACCES);
        }
        CheckedStep(areas, keys, i, s, e, covered, write);
        if a.end > covered {
          covered := a.end;
        }
      }
      if keys == [] || covered < e {
        NoneLeft(areas, keys, s, covered, write);
        RefusedAt(areas, keys, |keys|, s, e, covered, write);
        return Some(ENOMEM);
      }
      AllChecked(areas, keys, s, e, covered, write);
      return None;
    }

    /** Split at both edges: the right edge first, so that a single area can be cut twice. */
    method SplitEdges(keys: seq<nat>, s: nat, e: nat)
      requires Valid() && s < e && IsAffected(areas, keys, 0, s, e)
      requires keys != [] && keys[0] <= s && areas[keys[|keys| - 1]].end >= e
      modifies this`areas
      ensures Valid() && CutAt(areas, s) && CutAt(areas, e)
      ensures forall v: nat :: PageOf(mm, areas, v) == PageOf(mm, old(areas), v)
    {
      hide Split, CutAt, Agree, PageOf, GoodAreas, IsAffected;
      EdgeAreas(areas, keys, s, e);
      var first, last := keys[0], keys[|keys| - 1];
      ghost var was := areas;
      SplitAreaAt(last, e);
      ghost var once := areas;
      SplitGood(was, last, e);
      SplitAreaAt(first, s);
      SplitGood(once, first, s);
      SplitCuts(was, first, last, s, e);
      forall v: nat ensures PageOf(mm, areas, v) == PageOf(mm, was, v) {
        SplitSame(mm, was, last, e, v);
        SplitSame(mm, once, first, s, v);
      }
      SamePagesAgree(mm, was, areas, pt);
    }

    /** Give one area the permission and rewrite the flags of its resident pages. */
    method ProtectArea(k: nat, perm: Perm)
      requires k in areas && areas[k].start <= areas[k].end
      modifies this
      ensures areas == old(areas)[k := ChangeArea(old(areas)[k], Protect(perm))]
      ensures pt == Reflag(old(pt), old(areas)[k], perm, old(areas)[k].end)
    {
      areas := areas[k := areas[k].(perm := perm)];
      var a := areas[k];
      ghost var was, entries := old(areas)[k], pt;
      var v := a.start;
      assert Reflag(entries, was, perm, v) == entries;
      while v < a.end
        invariant a.start <= v <= a.end
        invariant areas == old(areas)[k := a] && pt == Reflag(entries, was, perm, v)
      {
        if v in pt && pt[v].flags.v {
          pt := pt[v := Pte(pt[v].ppn, PteFlags(perm, a.cacheCow))];
        }
        assert pt == Reflag(entries, was, perm, v + 1);
        v := v + 1;
      }
    }

    /** The loop over the areas keyed inside the range. */
    method ProtectAreas(s: nat, e: nat, perm: Perm)
      requires Valid() && CutAt(areas, s) && CutAt(areas, e) && s <= e
      modifies this
      ensures areas == Changed(old(areas), s, e, Protect(perm))
      ensures pt == Reflagged(old(pt), mm, old(areas), s, e, perm)
    {
      hide Changed, Reflagged, Reflag, ChangedBelow, ReflaggedBelow, GoodAreas, Agree, CutAt;
      ghost var was, entries := areas, pt;
      ProtectStart(mm, was, entries, s, e, perm);
      ChangedAll(was, s, e, Protect(perm));
      for k := s to e
        invariant areas == ChangedBelow(was, k, s, e, Protect(perm))
        invariant pt == ReflaggedBelow(entries, mm, was, k, s, e, perm)
      {
        ProtectStep(mm, was, entries, k, s, e, perm);
        ChangedStep(was, k, s, e, Protect(perm));
        if k in areas && areas[k].end <= e {
          ProtectArea(k, perm);
        }
      }
      ProtectEnd(mm, was, entries, s, e, perm);
    }

    /** Give every page of `[s, e)` the permission, or fail and change nothing. */
    method Mprotect(s: nat, e: nat, perm: Perm) returns (error: Option<Errno>)
      requires Valid() && s < e
      modifies this
      ensures Valid()
      ensures error.None? <==> Permitted(old(areas), s, e, perm.w)
      ensures error.Some? ==> areas == old(areas) && pt == old(pt)
      ensures error.None? ==>
        forall v: nat :: IsChanged(PageOf(mm, old(areas), v), PageOf(mm, areas, v), v, s, e, Protect(perm))
      ensures error.None? ==> pt == Reflagged(old(pt), mm, old(areas), s, e, perm)
    {
      hide Changed, Reflagged, GoodAreas, Agree, CutAt, PageOf, Permitted, IsAffected;
      ghost var was, pt0 := areas, pt;
      var keys := Affected(s, e);
      error := CheckRange(keys, s, e, perm.w);
      if error.None? {
        SplitEdges(keys, s, e);
        ghost var split := areas;
        ProtectAreas(s, e, perm);
        ReflaggedSame(pt0, mm, was, split, s, e, perm);
        ReflaggedAgree(mm, split, pt0, s, e, perm);
        forall v: nat ensures IsChanged(PageOf(mm, was, v), PageOf(mm, areas, v), v, s, e, Protect(perm)) {
          ChangedPage(mm, split, s, e, Protect(perm), v);
          assert PageOf(mm, split, v) == PageOf(mm, was, v);
        }
      }
    }

    /** Lock every page of `[s, e)`, or fail and change nothing. */
    method Mlock(s: nat, e: nat) returns (error: Option<Errno>)
      requires Valid() && s < e
      modifies this`areas
      ensures Valid()
      ensures error.None? <==> Permitted(old(areas), s, e, false)
      ensures error.Some? ==> areas == old(areas)
      ensures error.None? ==> forall v: nat :: IsChanged(PageOf(mm, old(areas), v), PageOf(mm, areas, v), v, s, e, Lock)
    {
      hide Changed, ChangedBelow, GoodAreas, Agree, CutAt, PageOf, Permitted, IsAffected;
      ghost var was := areas;
      var keys := Affected(s, e);
      error := CheckRange(keys, s, e, false);
      if error.None? {
        SplitEdges(keys, s, e);
        ghost var split := areas;
        ChangedAll(split, s, e, Lock);
        for k := s to e
          invariant areas == ChangedBelow(split, k, s, e, Lock)
        {
          ChangedStep(split, k, s, e, Lock);
          if k in areas && areas[k].end <= e {
            areas := areas[k := areas[k].(locked := true)];
          }
        }
        LockedAgree(mm, split, pt, s, e);
        forall v: nat ensures IsChanged(PageOf(mm, was, v), PageOf(mm, areas, v), v, s, e, Lock) {
          ChangedPage(mm, split, s, e, Lock, v);
          assert PageOf(mm, split, v) == PageOf(mm, was, v);
        }
      }
    }

    // ---- futex identity ----

    /** The queue a futex at byte address `va` belongs to depends only on the page it lies in. */
    method FutexKey(va: nat, privateRequested: bool) returns (key: Option<FutexKey>)
      requires GoodAreas(areas)
      ensures key == KeyOf(mm, PageOf(mm, areas, va / PAGE_SIZE), va, privateRequested)
    {
      var v := va / PAGE_SIZE;
      var k := LookupArea(areas, v);
      if k.None? {
        return None;
      }
      var a := areas[k.value];
      PageAt(mm, areas, k.value, v);
      if !a.perm.u {
        return None;
      }
      if privateRequested {
        return Some(PrivateKey(mm, va));
      }
      if !a.shared {
        return Some(MmKey(mm, va));
      }
      if a.registry.Some? {
        if va < a.futexStart * PAGE_SIZE {
          return None;
        }
        return Some(AnonymousKey(a.futexId, va - a.futexStart * PAGE_SIZE));
      }
      if a.file.None? {
        return None;
      }
      var offset := a.file.value.page * PAGE_SIZE + (va - a.start * PAGE_SIZE);
      return if offset < USIZE then Some(FileKey(a.file.value.ino, offset)) else None;
    }

    // ---- moving a private anonymous area ----

    /** First fit from the middle of the user range: areas in key order, sizes in pages, byte sums wrapping. */
    method FindFreeArea(n: nat) returns (r: Option<nat>)
      requires GoodAreas(areas) && 0 < n < PAGES
      ensures r.Some? ==> r.value <= VPN_LIMIT
      ensures r.Some? && r.value + n < PAGES ==>
        IsFree(areas, r.value, n) && InReach(areas, r.value, n) && r.value + n < VPN_LIMIT
      ensures r.Some? && n < PAGES - VPN_LIMIT ==>
        r.value >= SEARCH_BASE && forall v: nat :: SEARCH_BASE <= v < r.value ==> !IsFree(areas, v, n)
      ensures r.None? && n < PAGES - VPN_LIMIT ==>
        forall v: nat :: SEARCH_BASE <= v && InReach(areas, v, n) ==> !IsFree(areas, v, n)
    {
      var current: nat := SEARCH_BASE;
      for k := 0 to VPN_LIMIT
        invariant Searched(areas, k, n, current)
      {
        if k in areas {
          if (current + n) % PAGES <= k {
            if current + n < PAGES {
              SearchFound(areas, k, n, current);
            }
            return Some(current);
          }
          SearchStep(areas, k, n, current);
          if areas[k].end > current {
            current := areas[k].end;
          }
        }
      }
      if n < PAGES - VPN_LIMIT && current + n >= SEARCH_LIMIT {
        forall v: nat | SEARCH_BASE <= v && InReach(areas, v, n) ensures !IsFree(areas, v, n) {
          SearchFails(areas, n, current, v);
        }
      }
      return if (current + n) % PAGES < SEARCH_LIMIT then Some(current) else None;
    }

    /** Move the entries of the resident pages, one at a time. */
    method MoveEntries(s: nat, n: nat, to: nat)
      requires Vacant(pt, to, n) && (s + n <= to || to + n <= s)
      modifies this`pt
      ensures IsMoved(old(pt), pt, s, n, to)
    {
      for i := 0 to n
        invariant IsMoved(old(pt), pt, s, i, to)
      {
        MovedStep(old(pt), pt, s, i, to);
        if s + i in pt {
          pt := (pt - {s + i})[to + i := pt[s + i]];
        }
      }
    }

    /** Every resident page is mapped to the frame the area owns, and the place it moves to has no entry. */
    method CheckEntries(s: nat, n: nat, to: nat) returns (ok: bool)
      requires s in areas
      ensures ok <==> forall v :: v in areas[s].frames && s <= v < s + n ==> EntryFits(areas[s], pt, v, s, to)
    {
      for i := 0 to n
        invariant forall v :: v in areas[s].frames && s <= v < s + i ==> EntryFits(areas[s], pt, v, s, to)
      {
        if s + i in areas[s].frames && !EntryFits(areas[s], pt, s + i, s, to) {
          return false;
        }
      }
      return true;
    }

    /** The part of a move that changes state, after every check passed. */
    method CarryMove(s: nat, n: nat, to: nat, m: nat) returns (ok: bool)
      requires Valid() && Movable(areas, s, n) && 0 < n <= m && IsFree(areas, to, m) && to + m <= VPN_LIMIT
      modifies this
      ensures ok <==> to !in old(areas)
      ensures ok ==> Valid() && areas == MovedAreas(old(areas), s, to, m) && IsMoved(old(pt), pt, s, n, to)
    {
      hide Agree, PageOf, IsMoved, IsFree;
      ghost var was, entries := areas, pt;
      MoveFits(areas, pt, s, n, to, m);
      MoveEntries(s, n, to);
      var moved := MovedArea(areas[s], to, m);
      areas := areas - {s};
      ok := to !in areas;
      if ok {
        areas := areas[to := moved];
        MovedAgree(mm, was, entries, pt, s, n, to, m);
      }
    }

    /** Move the private anonymous area of `n` pages at `s` to free space and let it grow to `m` pages. */
    method MremapMove(s: nat, n: nat, m: nat) returns (r: MoveResult)
      requires Valid() && m < PAGES
      modifies this
      ensures r.Failed? ==> areas == old(areas) && pt == old(pt)
      ensures r.Moved? ==> Valid() && CanMove(old(areas), s, n, r.start, m) && FirstFree(old(areas), r.start, m)
      ensures r.Moved? ==> areas == MovedAreas(old(areas), s, r.start, m) && IsMoved(old(pt), pt, s, n, r.start)
      ensures r.Panicked? <==>
        && Movable(old(areas), s, n) && 0 < n <= m
        && exists to :: to in old(areas) && FirstFree(old(areas), to, m) && InReach(old(areas), to, m)
      ensures !r.Failed? ==> Movable(old(areas), s, n) && 0 < n <= m
      ensures r == Failed(EINVAL) ==> !(Movable(old(areas), s, n) && 0 < n <= m)
      ensures r == Failed(ENOMEM) && m < PAGES - VPN_LIMIT ==>
        forall v: nat :: SEARCH_BASE <= v && InReach(old(areas), v, m) ==> !IsFree(old(areas), v, m)
    {
      hide Agree, PageOf, IsMoved, IsFree, MovedAreas, InReach;
      if n == 0 || m < n || s !in areas {
        return Failed(EINVAL);
      }
      var place := FindFreeArea(m);
      if m >= PAGES - VPN_LIMIT {
        TooLarge(areas, m);
      }
      if place.None? || place.value + m >= PAGES {
        return Failed(ENOMEM);
      }
      var to := place.value;
      forall v | FirstFree(areas, v, m) ensures v == to {
        FirstFreeUnique(areas, v, to, m);
      }
      if !Movable(areas, s, n) {
        return Failed(EINVAL);
      }
      var ok := CheckEntries(s, n, to);
      MoveFits(areas, pt, s, n, to, m);
      if !ok {
        return Failed(EINVAL);
      }
      ok := CarryMove(s, n, to, m);
      return if ok then Moved(to) else Panicked;
    }
  }

  /** More pages than the address space has are nowhere in reach. */
  lemma TooLarge(areas: Areas, m: nat)
    requires GoodAreas(areas) && m >= PAGES - VPN_LIMIT
    ensures forall v: nat :: !InReach(areas, v, m)
  {
  }

  datatype MoveResult = Moved(start: nat) | Failed(error: Errno) | Panicked
}
