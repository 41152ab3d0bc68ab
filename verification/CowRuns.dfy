/** Runs of page faults, copy-on-write faults, forks, unmappings and stores. */
module CowRuns {
  import opened Common
  import opened PageTable
  import opened AddressSpace
  import opened AreaSplit
  import opened AreaUnmap
  import opened AreaProtect
  import opened CowIsolation

  const READ_AHEAD: nat := 64

  /** The kernel's fault handlers serve this area at all. */
  predicate Serves(a: Area) {
    a.kind != Guard && a.perm.u && (a.perm.r || a.perm.w || a.perm.x)
  }

  /** The flags a page gets on its first fault: pages of the page cache stay read-only in private mappings. */
  function FirstFlags(a: Area): Flags {
    PteFlags(a.perm, a.cacheCow)
  }

  /** The file page behind page `v`. */
  function FilePage(a: Area, v: nat): Owner
    requires In(a, v) && a.file.Some?
  {
    AtCache(a.file.value.ino, a.file.value.page + (v - a.start))
  }

  datatype Step =
    | AnonymousFault(id: nat, k: nat, v: nat, f: nat)
    | RegistryFault(id: nat, k: nat, v: nat, f: nat)
    | CacheFault(id: nat, k: nat, v: nat, f: nat, data: Bytes)
    | HoleFault(id: nat, k: nat, v: nat, f: nat)
    | FileFault(id: nat, k: nat, v: nat, frames: seq<nat>, pages: seq<Bytes>)
    | CowFault(id: nat, k: nat, v: nat, f: nat)
    | Fork(id: nat, child: nat)
    | Munmap(id: nat, s: nat, e: nat, areas: Areas)
    | Discard(id: nat, s: nat, e: nat)
    | Mmap(id: nat, a: Area)
    | Put(id: nat, v: nat, data: Bytes)

  function Zeroes(): Bytes {
    seq(PAGE_SIZE, i => 0)
  }

  /** The area keyed `k` of space `id` is there, serves faults and holds the page. */
  predicate At(w: World, id: nat, k: nat, v: nat) {
    id in w.spaces && Covers(w.spaces[id].areas, k, v) && Serves(w.spaces[id].areas[k])
  }

  function OwnFrame(w: World, id: nat, k: nat, v: nat, f: nat, flags: Flags, data: Bytes): World
    requires id in w.spaces && k in w.spaces[id].areas
  {
    WithSpace(w, id, Installed(w.spaces[id], k, v, f, flags)).(mem := w.mem[f := data])
  }

  /** Make sure the lender holds a frame, then map that frame. */
  function Lend(w: World, lender: Owner, f: nat, data: Bytes): World
    requires !lender.AtPage?
  {
    if FrameOf(w, lender).Some? then w else WithLender(w, lender, f).(mem := w.mem[f := data])
  }

  function Lent(w: World, id: nat, k: nat, v: nat, lender: Owner, f: nat, data: Bytes): World
    requires id in w.spaces && k in w.spaces[id].areas && !lender.AtPage?
  {
    var w1 := Lend(w, lender, f, data);
    WithSpace(w1, id, Installed(w.spaces[id], k, v, FrameOf(w1, lender).value, FirstFlags(w.spaces[id].areas[k])))
  }

  /** The pages read ahead, in order, each with a frame of its own. */
  function Fill(w: World, id: nat, k: nat, v: nat, frames: seq<nat>, pages: seq<Bytes>): (w': World)
    requires id in w.spaces && k in w.spaces[id].areas && |frames| == |pages|
    ensures id in w'.spaces && k in w'.spaces[id].areas && SameBut(w.spaces[id].areas[k], w'.spaces[id].areas[k])
    decreases |frames|
  {
    if frames == [] then w
    else
      var n := |frames| - 1;
      var before := Fill(w, id, k, v, frames[..n], pages[..n]);
      OwnFrame(before, id, k, v + n, frames[n], PteFlags(before.spaces[id].areas[k].perm, false), pages[n])
  }

  /** Areas that differ at most in their resident frames. */
  predicate SameBut(a: Area, b: Area) {
    a.(frames := map[]) == b.(frames := map[])
  }

  /** Dropping the resident pages of a range; guards own none. */
  function Discarded(sp: Space, s: nat, e: nat): Space {
    Space(map k | k in sp.areas :: sp.areas[k].(frames := Dropped(sp.areas[k].frames, s, e)), Outside(sp.pt, s, e))
  }

  /** The page is absent and its area serves faults. */
  ghost predicate Faults(w: World, id: nat, k: nat, v: nat) {
    At(w, id, k, v) && v !in w.spaces[id].pt
  }

  /** The lender already holds a frame, or takes in the unused frame `f`. */
  ghost predicate Lends(w: World, lender: Owner, f: nat) {
    FrameOf(w, lender).Some? || Unused(w, f)
  }

  ghost predicate IsAnonymousFault(w: World, id: nat, k: nat, v: nat, f: nat, w': World) {
    && Faults(w, id, k, v) && Unused(w, f)
    && var a := w.spaces[id].areas[k];
      a.kind == Framed && a.registry.None? && w' == OwnFrame(w, id, k, v, f, FirstFlags(a), Zeroes())
  }

  ghost predicate IsRegistryFault(w: World, id: nat, k: nat, v: nat, f: nat, w': World) {
    && Faults(w, id, k, v)
    && var a := w.spaces[id].areas[k];
      && a.kind == Framed && a.registry.Some? && Lends(w, AtRegistry(a.registry.value, v), f)
      && w' == Lent(w, id, k, v, AtRegistry(a.registry.value, v), f, Zeroes())
  }

  ghost predicate IsCacheFault(w: World, id: nat, k: nat, v: nat, f: nat, data: Bytes, w': World) {
    && Faults(w, id, k, v)
    && var a := w.spaces[id].areas[k];
      && a.kind == File && a.file.Some? && (a.shared || a.cacheCow) && Lends(w, FilePage(a, v), f)
      && w' == Lent(w, id, k, v, FilePage(a, v), f, data)
  }

  ghost predicate IsHoleFault(w: World, id: nat, k: nat, v: nat, f: nat, w': World) {
    && Faults(w, id, k, v) && Unused(w, f)
    && var a := w.spaces[id].areas[k];
      a.kind == File && a.cacheCow && w' == OwnFrame(w, id, k, v, f, FirstFlags(a), Zeroes())
  }

  ghost predicate IsFileFault(w: World, id: nat, k: nat, v: nat, frames: seq<nat>, pages: seq<Bytes>, w': World) {
    && At(w, id, k, v) && FreshFor(w, id, k, v, frames, pages)
    && var a := w.spaces[id].areas[k];
      a.kind == File && !a.shared && !a.cacheCow && w' == Fill(w, id, k, v, frames, pages)
  }

  /** A private page that may be written but is mapped read-only. */
  predicate NeedsCopy(w: World, id: nat, k: nat, v: nat) {
    && id in w.spaces && Covers(w.spaces[id].areas, k, v)
    && w.spaces[id].areas[k].kind != Guard && !w.spaces[id].areas[k].shared && w.spaces[id].areas[k].perm.w
    && v in w.spaces[id].pt && !w.spaces[id].pt[v].flags.w
  }

  ghost predicate IsCowFault(w: World, id: nat, k: nat, v: nat, f: nat, w': World) {
    && NeedsCopy(w, id, k, v) && Unused(w, f)
    && var sp := w.spaces[id];
      sp.pt[v].ppn in w.mem && w' == OwnFrame(w, id, k, v, f, PteFlags(sp.areas[k].perm, false), w.mem[sp.pt[v].ppn])
  }

  ghost predicate IsMunmap(w: World, id: nat, s: nat, e: nat, areas: Areas, w': World) {
    && id in w.spaces && s <= e && IsCut(w.spaces[id].areas, areas, s, e)
    && w' == WithSpace(w, id, Space(areas, Outside(w.spaces[id].pt, s, e)))
  }

  ghost predicate IsMmap(w: World, id: nat, a: Area, w': World) {
    && id in w.spaces && Reservable(w.spaces[id].areas, a)
    && w' == WithSpace(w, id, Space(w.spaces[id].areas[a.start := a], w.spaces[id].pt))
  }

  ghost predicate Next(w: World, step: Step, w': World) {
    match step
    case AnonymousFault(id, k, v, f) => IsAnonymousFault(w, id, k, v, f, w')
    case RegistryFault(id, k, v, f) => IsRegistryFault(w, id, k, v, f, w')
    case CacheFault(id, k, v, f, data) => IsCacheFault(w, id, k, v, f, data, w')
    case HoleFault(id, k, v, f) => IsHoleFault(w, id, k, v, f, w')
    case FileFault(id, k, v, frames, pages) => IsFileFault(w, id, k, v, frames, pages, w')
    case CowFault(id, k, v, f) => IsCowFault(w, id, k, v, f, w')
    case Fork(id, child) => id in w.spaces && child !in w.spaces && w' == Forked(w, id, child)
    case Munmap(id, s, e, areas) => IsMunmap(w, id, s, e, areas, w')
    case Discard(id, s, e) => id in w.spaces && w' == WithSpace(w, id, Discarded(w.spaces[id], s, e))
    case Mmap(id, a) => IsMmap(w, id, a, w')
    case Put(id, v, data) => w' == Store(w, id, v, data)
  }

  /** Distinct unused frames for the absent pages from `v` on, at most as many as are read ahead. */
  ghost predicate FreshFor(w: World, id: nat, k: nat, v: nat, frames: seq<nat>, pages: seq<Bytes>)
    requires At(w, id, k, v)
  {
    && 0 < |frames| <= READ_AHEAD && |pages| == |frames| && v + |frames| <= w.spaces[id].areas[k].end
    && (forall i :: 0 <= i < |frames| ==> Unused(w, frames[i]))
    && (forall i, j :: 0 <= i < j < |frames| ==> frames[i] != frames[j])
    && (forall u :: u in w.spaces[id].pt ==> !(v <= u < v + |frames|))
  }

  /** A new area without frames that meets no other; at its key there is none, or an empty one that it replaces. */
  ghost predicate Reservable(areas: Areas, a: Area) {
    && GoodArea(a) && a.frames == map[] && (a.registry.Some? ==> a.shared)
    && (a.start in areas ==> areas[a.start].end <= a.start)
    && forall k :: k in areas ==> areas[k].end <= a.start || a.end <= k
  }

  // ---- what each step keeps ----

  /** The step changes no contents that are still there afterwards. */
  ghost predicate Preserves(w: World, w': World) {
    forall o :: View(w, o).Some? && View(w', o).Some? ==> View(w', o) == View(w, o)
  }

  lemma OwnFrameStep(w: World, id: nat, k: nat, v: nat, f: nat, flags: Flags, data: Bytes)
    requires Inv(w) && id in w.spaces && Covers(w.spaces[id].areas, k, v) && w.spaces[id].areas[k].kind != Guard
    requires flags.v && (flags.w ==> w.spaces[id].areas[k].perm.w) && Unused(w, f)
    requires v in w.spaces[id].pt ==> View(w, AtPage(id, v)) == Some(data)
    ensures Inv(OwnFrame(w, id, k, v, f, flags, data)) && Preserves(w, OwnFrame(w, id, k, v, f, flags, data))
  {
    hide Inv;
    OwnFrameKeeps(w, id, k, v, f, flags, data);
  }

  lemma LentStep(w: World, id: nat, k: nat, v: nat, lender: Owner, f: nat, data: Bytes)
    requires Inv(w) && Faults(w, id, k, v) && !lender.AtPage? && Lends(w, lender, f)
    requires w.spaces[id].areas[k].shared || w.spaces[id].areas[k].cacheCow
    ensures Inv(Lent(w, id, k, v, lender, f, data)) && Preserves(w, Lent(w, id, k, v, lender, f, data))
  {
    hide Inv, Installed;
    var w1 := Lend(w, lender, f, data);
    if FrameOf(w, lender).None? {
      LenderKeeps(w, w1, lender, f, data);
    }
    BorrowKeeps(w1, id, k, v, lender, FirstFlags(w.spaces[id].areas[k]));
  }

  ghost predicate Extends(w: World, w': World) {
    forall o :: View(w, o).Some? ==> View(w', o) == View(w, o)
  }

  lemma OwnFrameExtends(w: World, id: nat, k: nat, v: nat, f: nat, flags: Flags, data: Bytes)
    requires Inv(w) && id in w.spaces && Covers(w.spaces[id].areas, k, v) && w.spaces[id].areas[k].kind != Guard
    requires flags.v && (flags.w ==> w.spaces[id].areas[k].perm.w) && Unused(w, f) && v !in w.spaces[id].pt
    ensures var w' := OwnFrame(w, id, k, v, f, flags, data);
      && Inv(w') && Extends(w, w') && (forall g :: Unused(w, g) && g != f ==> Unused(w', g))
      && id in w'.spaces && w'.spaces[id].pt.Keys == w.spaces[id].pt.Keys + {v}
  {
    hide Inv;
    var w' := OwnFrame(w, id, k, v, f, flags, data);
    OwnFrameKeeps(w, id, k, v, f, flags, data);
    assert forall o :: FrameOf(w', o) == if o == AtPage(id, v) then Some(f) else FrameOf(w, o);
  }

  /** What the first frames of a read-ahead left behind. */
  ghost predicate Filled(w: World, w': World, id: nat, v: nat, n: nat, frames: seq<nat>)
    requires id in w.spaces
  {
    && Inv(w') && Extends(w, w') && id in w'.spaces
    && (forall f :: Unused(w, f) && f !in frames ==> Unused(w', f))
    && (forall u :: u in w'.spaces[id].pt ==> u in w.spaces[id].pt || v <= u < v + n)
    && (forall u :: v <= u < v + n ==> u in w'.spaces[id].pt)
  }

  lemma {:induction false} FillStep(w: World, id: nat, k: nat, v: nat, frames: seq<nat>, pages: seq<Bytes>)
    requires Inv(w) && At(w, id, k, v) && |pages| == |frames| && (frames == [] || FreshFor(w, id, k, v, frames, pages))
    ensures Filled(w, Fill(w, id, k, v, frames, pages), id, v, |frames|, frames)
    decreases |frames|
  {
    hide Inv, Unused, Filled, SameBut, OwnFrame;
    if frames == [] {
      FillNone(w, id, v);
    } else {
      var n := |frames| - 1;
      FillStep(w, id, k, v, frames[..n], pages[..n]);
      var before := Fill(w, id, k, v, frames[..n], pages[..n]);
      FillLast(w, before, id, k, v, n, frames, pages[n]);
    }
  }

  lemma FillNone(w: World, id: nat, v: nat)
    requires Inv(w) && id in w.spaces
    ensures Filled(w, w, id, v, 0, [])
  {
  }

  lemma FillLast(w: World, before: World, id: nat, k: nat, v: nat, n: nat, frames: seq<nat>, data: Bytes)
    requires At(w, id, k, v) && |frames| == n + 1 && Filled(w, before, id, v, n, frames[..n])
    requires k in before.spaces[id].areas && SameBut(w.spaces[id].areas[k], before.spaces[id].areas[k])
    requires v + n < w.spaces[id].areas[k].end && v + n !in w.spaces[id].pt
    requires Unused(w, frames[n]) && forall i :: 0 <= i < n ==> frames[i] != frames[n]
    ensures Filled(w, OwnFrame(before, id, k, v + n, frames[n], PteFlags(before.spaces[id].areas[k].perm, false), data),
                   id, v, n + 1, frames)
  {
    hide Inv, Unused, OwnFrame;
    assert frames[n] !in frames[..n];
    assert v + n !in before.spaces[id].pt;
    OwnFrameExtends(before, id, k, v + n, frames[n], PteFlags(before.spaces[id].areas[k].perm, false), data);
    assert forall f :: f !in frames ==> f !in frames[..n] && f != frames[n];
  }

  // ---- steps that give pages up or reserve addresses ----

  lemma RestrictGood(sp: Space, sp': Space)
    requires GoodSpace(sp) && GoodAreas(sp'.areas) && Agree(sp'.areas, sp'.pt) && Restricts(sp, sp')
    requires forall v: nat :: RegistryShared(sp', v)
    ensures GoodSpace(sp')
  {
    hide PageOf, GoodAreas, Agree;
    forall v | v in sp'.pt && sp'.pt[v].flags.w ensures MayWrite(sp', v) {
      assert MayWrite(sp, v);
    }
  }

  lemma MunmapKeeps(w: World, id: nat, s: nat, e: nat, areas: Areas, w': World)
    requires Inv(w) && IsMunmap(w, id, s, e, areas, w')
    ensures Inv(w') && Preserves(w, w')
  {
    hide PageOf, GoodAreas, Agree, IsCut, RegistryShared;
    var sp, sp' := w.spaces[id], Space(areas, Outside(w.spaces[id].pt, s, e));
    CutAgree(sp.areas, areas, sp.pt, s, e);
    CutGood(sp.areas, areas, s, e);
    forall v: nat
      ensures RegistryShared(sp', v) && PageOf(0, areas, v) == if s <= v < e then None else PageOf(0, sp.areas, v)
    {
      CutMeaning(0, sp.areas, areas, s, e, v);
      SameRegistry(sp, sp', v);
    }
    RestrictGood(sp, sp');
    RestrictKeeps(w, id, sp');
  }

  /** A page with the attributes it had, or none, is backed as before. */
  lemma SameRegistry(sp: Space, sp': Space, v: nat)
    requires RegistryShared(sp, v)
    requires var p, p' := PageOf(0, sp.areas, v), PageOf(0, sp'.areas, v);
      p'.Some? ==> p.Some? && p'.value.registry == p.value.registry && p'.value.shared == p.value.shared
    ensures RegistryShared(sp', v)
  {
  }

  lemma DiscardAreas(areas: Areas, s: nat, e: nat)
    requires GoodAreas(areas)
    ensures GoodAreas(map k | k in areas :: areas[k].(frames := Dropped(areas[k].frames, s, e)))
  {
  }

  lemma DescribeDiscarded(a: Area, s: nat, e: nat, v: nat)
    requires In(a, v)
    ensures Describe(0, a.(frames := Dropped(a.frames, s, e)), v)
         == if s <= v < e then Describe(0, a, v).(frame := None) else Describe(0, a, v)
  {
  }

  lemma DiscardPage(sp: Space, s: nat, e: nat, v: nat)
    requires GoodAreas(sp.areas)
    ensures GoodAreas(Discarded(sp, s, e).areas)
    ensures var p := PageOf(0, sp.areas, v);
      PageOf(0, Discarded(sp, s, e).areas, v) == if s <= v < e && p.Some? then Some(p.value.(frame := None)) else p
  {
    hide Describe, GoodArea, Dropped;
    var areas' := Discarded(sp, s, e).areas;
    DiscardAreas(sp.areas, s, e);
    if k :| Covers(sp.areas, k, v) {
      DescribeDiscarded(sp.areas[k], s, e, v);
      PageAt(0, sp.areas, k, v);
      PageAt(0, areas', k, v);
    } else {
      forall k: nat ensures !Covers(areas', k, v) {
        assert !Covers(sp.areas, k, v);
      }
    }
  }

  lemma DiscardAgree(sp: Space, s: nat, e: nat)
    requires GoodSpace(sp)
    ensures var sp' := Discarded(sp, s, e); GoodAreas(sp'.areas) && Agree(sp'.areas, sp'.pt)
  {
    hide PageOf, Agree, GoodAreas;
    var sp' := Discarded(sp, s, e);
    DiscardPage(sp, s, e, 0);
    AgreePages(0, sp.areas, sp.pt);
    AgreePages(0, sp'.areas, sp'.pt);
    forall u: nat ensures (u in sp'.pt <==> Resident(0, sp'.areas, u)) &&
      (u in sp'.pt ==> sp'.pt[u].flags.v && PageOf(0, sp'.areas, u).value.frame == Some(sp'.pt[u].ppn))
    {
      DiscardPage(sp, s, e, u);
      assert u in sp.pt <==> Resident(0, sp.areas, u);
    }
  }

  lemma DiscardKeeps(w: World, id: nat, s: nat, e: nat)
    requires Inv(w) && id in w.spaces
    ensures Inv(WithSpace(w, id, Discarded(w.spaces[id], s, e)))
    ensures Preserves(w, WithSpace(w, id, Discarded(w.spaces[id], s, e)))
  {
    hide PageOf, GoodAreas, Agree, RegistryShared;
    var sp, sp' := w.spaces[id], Discarded(w.spaces[id], s, e);
    DiscardAgree(sp, s, e);
    forall v: nat
      ensures RegistryShared(sp', v) && (v in sp'.pt ==> PageOf(0, sp'.areas, v) == PageOf(0, sp.areas, v))
    {
      DiscardPage(sp, s, e, v);
      SameRegistry(sp, sp', v);
    }
    RestrictGood(sp, sp');
    RestrictKeeps(w, id, sp');
  }

  lemma ReservedPage(areas: Areas, a: Area, v: nat)
    requires GoodAreas(areas) && Reservable(areas, a)
    ensures GoodAreas(areas[a.start := a])
    ensures PageOf(0, areas[a.start := a], v) == if In(a, v) then Some(Describe(0, a, v)) else PageOf(0, areas, v)
    ensures In(a, v) ==> PageOf(0, areas, v) == None
  {
    var areas' := areas[a.start := a];
    if In(a, v) {
      PageAt(0, areas', a.start, v);
    } else if k :| Covers(areas, k, v) {
      PageAt(0, areas, k, v);
      PageAt(0, areas', k, v);
    } else {
      forall k: nat ensures !Covers(areas', k, v) {
        assert !Covers(areas, k, v);
      }
    }
  }

  lemma MmapKeeps(w: World, id: nat, a: Area, w': World)
    requires Inv(w) && IsMmap(w, id, a, w')
    ensures Inv(w') && Preserves(w, w')
  {
    hide PageOf, GoodAreas, Agree, Reservable;
    var sp, sp' := w.spaces[id], Space(w.spaces[id].areas[a.start := a], w.spaces[id].pt);
    ReservedPage(sp.areas, a, 0);
    AgreePages(0, sp.areas, sp.pt);
    AgreePages(0, sp'.areas, sp'.pt);
    forall v: nat ensures
      && RegistryShared(sp', v)
      && (v in sp'.pt ==> PageOf(0, sp'.areas, v) == PageOf(0, sp.areas, v))
      && (Resident(0, sp'.areas, v) <==> Resident(0, sp.areas, v))
    {
      ReservedPage(sp.areas, a, v);
      ReservedFacts(sp.areas, a);
      assert RegistryShared(sp, v);
      assert v in sp.pt <==> Resident(0, sp.areas, v);
    }
    RestrictGood(sp, sp');
    RestrictKeeps(w, id, sp');
  }

  lemma ReservedFacts(areas: Areas, a: Area)
    requires Reservable(areas, a)
    ensures a.frames == map[] && (a.registry.Some? ==> a.shared)
  {
  }

  // ---- whole runs ----

  /** Every step keeps the invariant, and only stores change contents that stay mapped. */
  lemma StepKeeps(w: World, step: Step, w': World)
    requires Inv(w) && Next(w, step, w')
    ensures Inv(w')
    ensures !step.Put? ==> Preserves(w, w')
  {
    hide Inv, PageOf, OwnFrame, Lent, Fill;
    match step
    case AnonymousFault(id, k, v, f) => OwnFrameStep(w, id, k, v, f, FirstFlags(w.spaces[id].areas[k]), Zeroes());
    case RegistryFault(id, k, v, f) =>
      RegistryIsShared(w, id, k, v);
      LentStep(w, id, k, v, AtRegistry(w.spaces[id].areas[k].registry.value, v), f, Zeroes());
    case CacheFault(id, k, v, f, data) => LentStep(w, id, k, v, FilePage(w.spaces[id].areas[k], v), f, data);
    case HoleFault(id, k, v, f) => OwnFrameStep(w, id, k, v, f, FirstFlags(w.spaces[id].areas[k]), Zeroes());
    case FileFault(id, k, v, frames, pages) => FillStep(w, id, k, v, frames, pages);
    case CowFault(id, k, v, f) =>
      OwnFrameStep(w, id, k, v, f, PteFlags(w.spaces[id].areas[k].perm, false), w.mem[w.spaces[id].pt[v].ppn]);
    case Fork(id, child) => ForkKeeps(w, id, child);
    case Munmap(id, s, e, areas) => MunmapKeeps(w, id, s, e, areas, w');
    case Discard(id, s, e) => DiscardKeeps(w, id, s, e);
    case Mmap(id, a) => MmapKeeps(w, id, a, w');
    case Put(id, v, data) => StoreKeeps(w, id, v, data);
  }

  lemma RegistryIsShared(w: World, id: nat, k: nat, v: nat)
    requires Inv(w) && id in w.spaces && Covers(w.spaces[id].areas, k, v) && w.spaces[id].areas[k].registry.Some?
    ensures w.spaces[id].areas[k].shared
  {
    assert GoodSpace(w.spaces[id]) && RegistryShared(w.spaces[id], v);
    PageAt(0, w.spaces[id].areas, k, v);
  }

  ghost predicate IsRun(ws: seq<World>, steps: seq<Step>) {
    |ws| == |steps| + 1 && forall i :: 0 <= i < |steps| ==> Next(ws[i], steps[i], ws[i + 1])
  }

  lemma {:induction false} RunKeeps(ws: seq<World>, steps: seq<Step>, n: nat)
    requires IsRun(ws, steps) && Inv(ws[0]) && n <= |steps|
    ensures Inv(ws[n])
    decreases n
  {
    hide Inv, Next;
    if n > 0 {
      RunKeeps(ws, steps, n - 1);
      StepKeeps(ws[n - 1], steps[n - 1], ws[n]);
    }
  }

  /** Over a whole run a private writable page changes only by stores through that page itself. */
  lemma {:induction false} RunIsolates(ws: seq<World>, steps: seq<Step>, id: nat, v: nat, first: nat, last: nat)
    requires IsRun(ws, steps) && Inv(ws[0]) && first <= last <= |steps|
    requires forall i :: first <= i <= last ==> PrivateWritable(ws[i], AtPage(id, v))
    requires forall i :: first <= i < last ==> !(steps[i].Put? && steps[i].id == id && steps[i].v == v)
    ensures View(ws[last], AtPage(id, v)) == View(ws[first], AtPage(id, v))
    decreases last
  {
    hide Inv, Next, PrivateWritable, View;
    if first < last {
      RunIsolates(ws, steps, id, v, first, last - 1);
      RunKeeps(ws, steps, last - 1);
      StaysIsolated(ws[last - 1], steps[last - 1], ws[last], id, v);
    }
  }

  lemma StaysIsolated(w: World, step: Step, w': World, id: nat, v: nat)
    requires Inv(w) && Next(w, step, w') && PrivateWritable(w, AtPage(id, v)) && PrivateWritable(w', AtPage(id, v))
    requires !(step.Put? && step.id == id && step.v == v)
    ensures View(w', AtPage(id, v)) == View(w, AtPage(id, v))
  {
    var o := AtPage(id, v);
    StepKeeps(w, step, w');
    if step.Put? {
      StoreElsewhere(w, step.id, step.v, step.data, o);
    } else {
      assert View(w, o).Some? && View(w', o).Some? by {
        assert FrameOf(w, o).Some? && FrameOf(w', o).Some?;
        assert Loaded(w) && Loaded(w');
      }
    }
  }

  /** A store by anyone else does not reach a private writable page. */
  lemma StoreElsewhere(w: World, id: nat, v: nat, data: Bytes, o: Owner)
    requires Inv(w) && PrivateWritable(w, o) && o != AtPage(id, v)
    ensures View(Store(w, id, v, data), o) == View(w, o)
  {
    hide PageOf, GoodSpaces, Loaded;
    if CanStore(w, id, v) {
      assert FrameOf(w, AtPage(id, v)) != FrameOf(w, o);
    }
  }
}
