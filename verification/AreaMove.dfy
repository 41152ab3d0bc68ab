/** Finding free address space, and moving an area there with its frames and entries. */
module AreaMove {
  import opened Common
  import opened PageTable
  import opened AddressSpace
  import opened AreaSplit

  const USER_APP_BASE: nat := 0x4000_0000
  const USER_APP_MAX_SIZE: nat := 0x40_0000_0000

  /** The first page the search for free space looks at, and the page it stays below. */
  const SEARCH_BASE: nat := (USER_APP_BASE + (USER_APP_MAX_SIZE - USER_APP_BASE) / 2) / PAGE_SIZE
  const SEARCH_LIMIT: nat := USER_APP_MAX_SIZE / PAGE_SIZE

  /** Page counts whose byte size no longer fits in 64 bits. */
  const PAGES: nat := 0x10_0000_0000_0000

  predicate Clear(a: Area, v: nat, n: nat) {
    !(v < a.end && v + n > a.start)
  }

  /** No area overlaps the `n` pages from `v` on. */
  ghost predicate IsFree(areas: Areas, v: nat, n: nat) {
    forall k :: k in areas ==> Clear(areas[k], v, n)
  }

  /** The search looks at `n` pages from `v` on at all: an area follows them, or they end below the limit. */
  ghost predicate InReach(areas: Areas, v: nat, n: nat) {
    v + n < SEARCH_LIMIT || exists k :: k in areas && v + n <= k
  }

  /** Every area keyed below `k` ends by `current`, and no place before `current` is free. */
  ghost predicate Searched(areas: Areas, k: nat, n: nat, current: nat) {
    && SEARCH_BASE <= current <= VPN_LIMIT
    && (forall j :: j in areas && j < k ==> areas[j].end <= current)
    && (n < PAGES - VPN_LIMIT ==> forall v: nat :: SEARCH_BASE <= v < current ==> !IsFree(areas, v, n))
  }

  lemma SearchStep(areas: Areas, k: nat, n: nat, current: nat)
    requires GoodAreas(areas) && Searched(areas, k, n, current) && k in areas && (current + n) % PAGES > k
    ensures Searched(areas, k + 1, n, if areas[k].end > current then areas[k].end else current)
  {
    if n < PAGES - VPN_LIMIT {
      forall v: nat | current <= v < areas[k].end ensures !IsFree(areas, v, n) {
        assert !Clear(areas[k], v, n);
      }
    }
  }

  /** A place before area `k` that the earlier areas do not reach is free. */
  lemma SearchFound(areas: Areas, k: nat, n: nat, current: nat)
    requires GoodAreas(areas) && Searched(areas, k, n, current) && current + n < PAGES
    requires k in areas && current + n <= k
    ensures IsFree(areas, current, n)
  {
  }

  /** Behind the last area nothing in reach is free. */
  lemma SearchFails(areas: Areas, n: nat, current: nat, v: nat)
    requires GoodAreas(areas) && Searched(areas, VPN_LIMIT, n, current) && 0 < n < PAGES - VPN_LIMIT
    requires current + n >= SEARCH_LIMIT && SEARCH_BASE <= v && InReach(areas, v, n)
    ensures !IsFree(areas, v, n)
  {
    assert forall k :: k in areas ==> k <= areas[k].end <= current;
  }

  // ---- moving ----

  function Shift(v: nat, s: nat, to: nat): nat
    requires s <= v
  {
    v - s + to
  }

  function ShiftFrames(frames: map<nat, nat>, s: nat, to: nat): map<nat, nat>
    requires forall v :: v in frames ==> s <= v
  {
    map v | v in frames :: Shift(v, s, to) := frames[v]
  }

  /** The area at its new place, `m` pages long. */
  function MovedArea(a: Area, to: nat, m: nat): Area
    requires GoodArea(a)
  {
    a.(start := to, end := to + m, frames := ShiftFrames(a.frames, a.start, to))
  }

  function MovedAreas(areas: Areas, s: nat, to: nat, m: nat): Areas
    requires s in areas && GoodArea(areas[s])
  {
    (areas - {s})[to := MovedArea(areas[s], to, m)]
  }

  function Get(pt: Entries, v: nat): Option<Pte> {
    if v in pt then Some(pt[v]) else None
  }

  /** The entry of page `v` after those of the `n` pages from `s` on moved to `to`. */
  function MovedEntry(pt: Entries, s: nat, n: nat, to: nat, v: nat): Option<Pte> {
    if to <= v < to + n then Get(pt, v - to + s) else if s <= v < s + n then None else Get(pt, v)
  }

  ghost predicate IsMoved(pt: Entries, pt': Entries, s: nat, n: nat, to: nat) {
    forall v: nat :: Get(pt', v) == MovedEntry(pt, s, n, to, v)
  }

  /** What a page looks like after its area moved: only the address behind a private futex differs. */
  function MovedPage(p: Page, mm: nat, v: nat): Page {
    p.(futex := OfMm(mm, v))
  }

  predicate Movable(areas: Areas, s: nat, n: nat) {
    && s in areas
    && areas[s].start == s && areas[s].end == s + n && areas[s].kind == Framed && !areas[s].shared
    && areas[s].file == None && areas[s].registry == None
  }

  /** The move can be carried out: a movable area, a larger size, and a free place that no empty area is keyed at. */
  ghost predicate CanMove(areas: Areas, s: nat, n: nat, to: nat, m: nat) {
    && GoodAreas(areas) && Movable(areas, s, n) && 0 < n <= m
    && IsFree(areas, to, m) && to + m <= VPN_LIMIT && to !in areas
  }

  lemma ShiftedFrame(frames: map<nat, nat>, s: nat, to: nat, v: nat)
    requires forall v :: v in frames ==> s <= v
    ensures to <= v ==> (v in ShiftFrames(frames, s, to) <==> v - to + s in frames)
    ensures v in ShiftFrames(frames, s, to) ==>
      to <= v && v - to + s in frames && ShiftFrames(frames, s, to)[v] == frames[v - to + s]
  {
    if to <= v && v - to + s in frames {
      assert Shift(v - to + s, s, to) == v;
    }
  }

  lemma MovedGoodArea(a: Area, to: nat, m: nat)
    requires GoodArea(a) && a.end - a.start <= m && 0 < m && to + m <= VPN_LIMIT && a.kind != Guard
    ensures GoodArea(MovedArea(a, to, m))
  {
    var b := MovedArea(a, to, m);
    forall v | v in b.frames ensures In(b, v) {
      ShiftedFrame(a.frames, a.start, to, v);
    }
  }

  lemma MovedGood(areas: Areas, s: nat, n: nat, to: nat, m: nat)
    requires CanMove(areas, s, n, to, m)
    ensures GoodAreas(MovedAreas(areas, s, to, m))
  {
    MovedGoodArea(areas[s], to, m);
    forall j | j in areas ensures Clear(areas[j], to, m) {
    }
  }

  lemma TargetFree(mm: nat, areas: Areas, to: nat, m: nat, v: nat)
    requires IsFree(areas, to, m) && to <= v < to + m
    ensures PageOf(mm, areas, v) == None
  {
    forall k: nat ensures !Covers(areas, k, v) {
      if k in areas {
        assert Clear(areas[k], to, m);
      }
    }
  }

  /** How the moved area describes its page `i`. */
  lemma DescribeMoved(mm: nat, a: Area, n: nat, to: nat, m: nat, i: nat)
    requires GoodArea(a) && a.end == a.start + n && 0 < n <= m && i < m && !a.shared && a.file == None
    requires a.registry == None
    ensures var b := MovedArea(a, to, m);
      Describe(mm, b, to + i)
        == if i < n then MovedPage(Describe(mm, a, a.start + i), mm, to + i)
           else MovedPage(Describe(mm, a, a.start), mm, to + i).(frame := None)
  {
    ShiftedFrame(a.frames, a.start, to, to + i);
  }

  /** The page of the target that takes over old page `s + i`. */
  lemma MovedIn(mm: nat, areas: Areas, s: nat, n: nat, to: nat, m: nat, i: nat)
    requires CanMove(areas, s, n, to, m) && i < m
    ensures PageOf(mm, areas, to + i) == None
    ensures var p := PageOf(mm, MovedAreas(areas, s, to, m), to + i);
      if i < n then
        PageOf(mm, areas, s + i).Some? && p == Some(MovedPage(PageOf(mm, areas, s + i).value, mm, to + i))
      else
        PageOf(mm, areas, s).Some? && p == Some(MovedPage(PageOf(mm, areas, s).value, mm, to + i).(frame := None))
  {
    hide PageOf, Describe, MovedArea, MovedPage;
    var areas' := MovedAreas(areas, s, to, m);
    MovedGood(areas, s, n, to, m);
    TargetFree(mm, areas, to, m, to + i);
    DescribeMoved(mm, areas[s], n, to, m, i);
    assert Covers(areas', to, to + i) by { MovedCovers(areas, s, to, m, to + i); }
    PageAt(mm, areas', to, to + i);
    PageAt(mm, areas, s, if i < n then s + i else s);
  }

  lemma MovedCovers(areas: Areas, s: nat, to: nat, m: nat, v: nat)
    requires s in areas && GoodArea(areas[s]) && to <= v < to + m
    ensures Covers(MovedAreas(areas, s, to, m), to, v)
  {
  }

  /** The old range is unmapped, and every page outside both ranges is as before. */
  lemma MovedOut(mm: nat, areas: Areas, s: nat, n: nat, to: nat, m: nat, v: nat)
    requires CanMove(areas, s, n, to, m) && !(to <= v < to + m)
    ensures PageOf(mm, MovedAreas(areas, s, to, m), v) == if s <= v < s + n then None else PageOf(mm, areas, v)
  {
    var areas' := MovedAreas(areas, s, to, m);
    MovedGood(areas, s, n, to, m);
    if k :| Covers(areas', k, v) {
      assert Covers(areas, k, v) && k != s;
      if s <= v < s + n {
        CoverUnique(areas, k, s, v);
      }
      PageAt(mm, areas', k, v);
      PageAt(mm, areas, k, v);
    } else if k :| Covers(areas, k, v) {
      assert k == s || Covers(areas', k, v);
    }
  }

  ghost predicate Vacant(pt: Entries, to: nat, n: nat) {
    forall v :: v in pt ==> !(to <= v < to + n)
  }

  lemma FreeIsVacant(areas: Areas, pt: Entries, to: nat, m: nat)
    requires GoodAreas(areas) && Agree(areas, pt) && IsFree(areas, to, m)
    ensures Vacant(pt, to, m)
  {
    forall v | v in pt ensures !(to <= v < to + m) {
      var k: nat :| Owns(areas, k, v);
      assert Clear(areas[k], to, m);
    }
  }

  /** One more entry of the range moved. */
  lemma MovedStep(pt: Entries, now: Entries, s: nat, n: nat, to: nat)
    requires Vacant(pt, to, n + 1) && (s + n < to || to + n < s) && IsMoved(pt, now, s, n, to)
    ensures Get(now, s + n) == Get(pt, s + n) && to + n !in now
    ensures IsMoved(pt, if s + n in now then (now - {s + n})[to + n := now[s + n]] else now, s, n + 1, to)
  {
    assert Get(now, s + n) == MovedEntry(pt, s, n, to, s + n) == Get(pt, s + n);
    assert Get(now, to + n) == MovedEntry(pt, s, n, to, to + n);
    var next := if s + n in now then (now - {s + n})[to + n := now[s + n]] else now;
    forall v: nat ensures Get(next, v) == MovedEntry(pt, s, n + 1, to, v) {
      assert Get(now, v) == MovedEntry(pt, s, n, to, v);
    }
  }

  /** Entries and owned frames agree at the new place. */
  lemma MovedAgree(mm: nat, areas: Areas, pt: Entries, pt': Entries, s: nat, n: nat, to: nat, m: nat)
    requires CanMove(areas, s, n, to, m) && Agree(areas, pt) && IsMoved(pt, pt', s, n, to)
    ensures GoodAreas(MovedAreas(areas, s, to, m))
    ensures Agree(MovedAreas(areas, s, to, m), pt')
  {
    hide Agree, PageOf, MovedAreas;
    var areas' := MovedAreas(areas, s, to, m);
    MovedGood(areas, s, n, to, m);
    FreeIsVacant(areas, pt, to, m);
    AgreePages(mm, areas, pt);
    AgreePages(mm, areas', pt');
    forall v: nat ensures (v in pt' <==> Resident(mm, areas', v)) &&
      (v in pt' ==> pt'[v].flags.v && PageOf(mm, areas', v).value.frame == Some(pt'[v].ppn))
    {
      assert Get(pt', v) == MovedEntry(pt, s, n, to, v);
      if to <= v < to + m {
        MovedIn(mm, areas, s, n, to, m, v - to);
        assert v - to + s in pt <==> Resident(mm, areas, v - to + s);
        assert v in pt <==> Resident(mm, areas, v);
      } else {
        MovedOut(mm, areas, s, n, to, m, v);
        assert v in pt <==> Resident(mm, areas, v);
      }
    }
  }

  predicate EntryFits(a: Area, pt: Entries, v: nat, s: nat, to: nat)
    requires s <= v && v in a.frames
  {
    && v in pt && pt[v].flags.v && pt[v].ppn == a.frames[v]
    && !(Shift(v, s, to) in pt && pt[Shift(v, s, to)].flags.v)
  }

  /** In an address space whose entries agree with its areas the checks before a move always pass. */
  lemma MoveFits(areas: Areas, pt: Entries, s: nat, n: nat, to: nat, m: nat)
    requires GoodAreas(areas) && Agree(areas, pt) && Movable(areas, s, n) && 0 < n <= m && IsFree(areas, to, m)
    ensures Vacant(pt, to, n) && (s + n <= to || to + n <= s)
    ensures forall v :: v in areas[s].frames && s <= v < s + n ==> EntryFits(areas[s], pt, v, s, to)
    ensures to != s
  {
    FreeIsVacant(areas, pt, to, m);
    assert Clear(areas[s], to, m);
    forall v | v in areas[s].frames && s <= v < s + n ensures EntryFits(areas[s], pt, v, s, to) {
      assert Owns(areas, s, v);
    }
  }

  /** The lowest free place at or above the search base. */
  ghost predicate FirstFree(areas: Areas, to: nat, m: nat) {
    SEARCH_BASE <= to && IsFree(areas, to, m) && forall v: nat :: SEARCH_BASE <= v < to ==> !IsFree(areas, v, m)
  }

  lemma FirstFreeUnique(areas: Areas, a: nat, b: nat, m: nat)
    requires FirstFree(areas, a, m) && FirstFree(areas, b, m)
    ensures a == b
  {
    assert a < b ==> !IsFree(areas, a, m);
    assert b < a ==> !IsFree(areas, b, m);
  }

  function Blank(start: nat, end: nat): Area {
    Area(start, end, Framed, Perm(true, true, false, true), false, false, None, false, None, None, 0, start, map[])
  }

  /** An empty area, such as a heap that has not grown, can sit at the first free place. */
  lemma EmptyAreaInTheWay() returns (areas: Areas)
    ensures GoodAreas(areas) && Agree(areas, map[]) && Movable(areas, 1, 1)
    ensures FirstFree(areas, SEARCH_BASE, 2) && SEARCH_BASE in areas
  {
    areas := map[1 := Blank(1, 2), SEARCH_BASE := Blank(SEARCH_BASE, SEARCH_BASE)];
  }
}
