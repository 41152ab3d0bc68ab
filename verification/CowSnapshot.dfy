/** What a private page shows from a fork to the copy: frames seen through private pages, and nothing that shared
    mappings can write. */
module CowSnapshot {
  import opened Common
  import opened PageTable
  import opened AddressSpace
  import opened AreaSplit
  import opened AreaProtect
  import opened CowIsolation
  import opened CowRuns

  /** A mapped page of a private area, writable or not. */
  ghost predicate PrivatePage(w: World, o: Owner) {
    o.AtPage? && o.id in w.spaces && o.v in w.spaces[o.id].pt && Private(w.spaces[o.id], o.v)
  }

  ghost predicate Cached(w: World, f: nat) {
    exists c :: c in w.cache && w.cache[c] == f
  }

  /** A private page shares its frame with a page of a shared area only if the page cache holds the frame, and never
      with a registry; no frame is both in the page cache and in a registry. */
  ghost predicate Separate(w: World) {
    && (forall o, p :: PrivatePage(w, o) && !PrivatePage(w, p) && !p.AtCache? && FrameOf(w, p) == FrameOf(w, o) ==>
          p.AtPage? && Cached(w, FrameOf(w, o).value))
    && (forall o: Owner, p: Owner :: o.AtCache? && p.AtRegistry? && FrameOf(w, o).Some? ==>
          FrameOf(w, o) != FrameOf(w, p))
  }

  /** A private page with a frame the page cache does not hold. */
  ghost predicate Snapshot(w: World, o: Owner) {
    PrivatePage(w, o) && !Cached(w, FrameOf(w, o).value)
  }

  // ---- one argument for every step ----

  ghost predicate Sole(w: World, w': World, o: Owner) {
    NewFrame(w, w', o) && forall p :: p != o ==> FrameOf(w', p) != FrameOf(w', o)
  }

  /** `q` may pass its frame on to `o`: private pages get frames from private pages and from the page cache. */
  ghost predicate MayPass(w: World, q: Owner, w': World, o: Owner) {
    && (PrivatePage(w', o) ==> PrivatePage(w, q) || q.AtCache?)
    && (o.AtCache? ==> q.AtCache?) && (o.AtRegistry? ==> q.AtRegistry?)
    && (o.AtPage? && !PrivatePage(w', o) ==> !PrivatePage(w, q))
  }

  ghost predicate Derived(w: World, w': World, o: Owner) {
    Sole(w, w', o) || exists q :: FrameOf(w, q) == FrameOf(w', o) && MayPass(w, q, w', o)
  }

  /** What every step does with frames: each owner's is new and its own, or passed on; the page cache only takes in
      unused frames; a page keeps its frame or gets a new one. */
  ghost predicate Shape(w: World, w': World) {
    && (forall o :: FrameOf(w', o).Some? ==> Derived(w, w', o))
    && (forall c :: c in w.cache ==> c in w'.cache && w'.cache[c] == w.cache[c])
    && (forall c :: c in w'.cache ==> c in w.cache || Unused(w, w'.cache[c]))
    && (forall o :: PrivatePage(w, o) && PrivatePage(w', o) ==> FrameOf(w', o) == FrameOf(w, o) || Sole(w, w', o))
  }

  lemma StaysCached(w: World, w': World, f: nat)
    requires Shape(w, w') && Cached(w, f)
    ensures Cached(w', f)
  {
    var c :| c in w.cache && w.cache[c] == f;
    assert c in w'.cache && w'.cache[c] == f;
  }

  lemma CacheOwner(w: World, q: Owner)
    requires q.AtCache? && FrameOf(w, q).Some?
    ensures Cached(w, FrameOf(w, q).value)
  {
    assert (q.ino, q.page) in w.cache;
  }

  /** Where two owners share a frame after the step, both frames were passed on. */
  lemma BothPassed(w: World, w': World, o: Owner, p: Owner) returns (q: Owner, r: Owner)
    requires Shape(w, w') && o != p && FrameOf(w', o).Some? && FrameOf(w', p) == FrameOf(w', o)
    ensures FrameOf(w, q) == FrameOf(w, r) == FrameOf(w', o) && MayPass(w, q, w', o) && MayPass(w, r, w', p)
  {
    hide MayPass;
    assert Derived(w, w', o) && Derived(w, w', p);
    q :| FrameOf(w, q) == FrameOf(w', o) && MayPass(w, q, w', o);
    r :| FrameOf(w, r) == FrameOf(w', p) && MayPass(w, r, w', p);
  }

  lemma SeparateStep(w: World, w': World)
    requires Separate(w) && Shape(w, w')
    ensures Separate(w')
  {
    hide Shape, Cached;
    forall o, p | PrivatePage(w', o) && !PrivatePage(w', p) && !p.AtCache? && FrameOf(w', p) == FrameOf(w', o)
      ensures p.AtPage? && Cached(w', FrameOf(w', o).value)
    {
      HasFrame(w', o);
      var q, r := BothPassed(w, w', o, p);
      if q.AtCache? || r.AtCache? {
        CacheOwner(w, if q.AtCache? then q else r);
      }
      StaysCached(w, w', FrameOf(w', o).value);
    }
    forall o: Owner, p: Owner | o.AtCache? && p.AtRegistry? && FrameOf(w', o).Some?
      ensures FrameOf(w', o) != FrameOf(w', p)
    {
      if FrameOf(w', o) == FrameOf(w', p) {
        var q, r := BothPassed(w, w', o, p);
      }
    }
  }

  lemma HasFrame(w: World, o: Owner)
    requires PrivatePage(w, o)
    ensures FrameOf(w, o).Some?
  {
  }

  /** A page stays out of the page cache's frames. */
  lemma SnapshotStep(w: World, w': World, o: Owner)
    requires Shape(w, w') && Snapshot(w, o) && PrivatePage(w', o)
    ensures Snapshot(w', o)
  {
    var f := FrameOf(w', o).value;
    forall c | c in w'.cache ensures w'.cache[c] != f {
      assert FrameOf(w', AtCache(c.0, c.1)) == Some(w'.cache[c]);
    }
  }

  // ---- the steps ----

  /** The step is of that shape and private pages stay private pages. */
  ghost predicate Grows(w: World, w': World) {
    Shape(w, w') && forall o :: PrivatePage(w, o) ==> PrivatePage(w', o)
  }

  lemma OwnGrows(w: World, id: nat, k: nat, v: nat, f: nat, flags: Flags, data: Bytes)
    requires Inv(w) && id in w.spaces && Covers(w.spaces[id].areas, k, v) && w.spaces[id].areas[k].kind != Guard
    requires Unused(w, f)
    ensures Grows(w, OwnFrame(w, id, k, v, f, flags, data))
  {
    hide Private, GoodSpace, Cached;
    var sp, w' := w.spaces[id], OwnFrame(w, id, k, v, f, flags, data);
    var here := AtPage(id, v);
    forall o ensures FrameOf(w', o) == if o == here then Some(f) else FrameOf(w, o) {
    }
    forall o ensures o != here ==> (PrivatePage(w', o) <==> PrivatePage(w, o)) {
      if o.AtPage? && o.id == id {
        InstalledPage(sp, k, v, f, flags, o.v);
      }
    }
    InstalledPage(sp, k, v, f, flags, v);
    forall o | FrameOf(w', o).Some? ensures Derived(w, w', o) {
      if o == here {
        assert Sole(w, w', o);
      } else {
        assert MayPass(w, o, w', o);
      }
    }
  }

  lemma LenderGrows(w: World, lender: Owner, f: nat, data: Bytes)
    requires Unused(w, f) && !lender.AtPage? && FrameOf(w, lender).None?
    ensures Grows(w, WithLender(w, lender, f).(mem := w.mem[f := data]))
  {
    hide Private;
    var w' := WithLender(w, lender, f).(mem := w.mem[f := data]);
    forall o ensures FrameOf(w', o) == if o == lender then Some(f) else FrameOf(w, o) {
    }
    forall o | FrameOf(w', o).Some? ensures Derived(w, w', o) {
      if o == lender {
        assert Sole(w, w', o);
      } else {
        assert MayPass(w, o, w', o);
      }
    }
  }

  lemma BorrowGrows(w: World, id: nat, k: nat, v: nat, lender: Owner, flags: Flags)
    requires Inv(w) && id in w.spaces && Covers(w.spaces[id].areas, k, v) && w.spaces[id].areas[k].kind != Guard
    requires v !in w.spaces[id].pt && !lender.AtPage? && FrameOf(w, lender).Some?
    requires lender.AtRegistry? ==> w.spaces[id].areas[k].shared
    ensures Grows(w, WithSpace(w, id, Installed(w.spaces[id], k, v, FrameOf(w, lender).value, flags)))
  {
    hide Private, GoodSpace;
    var f := FrameOf(w, lender).value;
    var sp, w' := w.spaces[id], WithSpace(w, id, Installed(w.spaces[id], k, v, f, flags));
    var here := AtPage(id, v);
    forall o ensures FrameOf(w', o) == if o == here then Some(f) else FrameOf(w, o) {
    }
    forall o ensures o != here ==> (PrivatePage(w', o) <==> PrivatePage(w, o)) {
      if o.AtPage? && o.id == id {
        InstalledPage(sp, k, v, f, flags, o.v);
      }
    }
    InstalledPage(sp, k, v, f, flags, v);
    forall o | FrameOf(w', o).Some? ensures Derived(w, w', o) {
      assert MayPass(w, if o == here then lender else o, w', o);
    }
  }

  lemma RestrictShape(w: World, id: nat, sp': Space)
    requires id in w.spaces && Restricts(w.spaces[id], sp')
    ensures Shape(w, WithSpace(w, id, sp'))
  {
    hide PageOf;
    var w' := WithSpace(w, id, sp');
    forall o | FrameOf(w', o).Some? ensures FrameOf(w', o) == FrameOf(w, o) && Derived(w, w', o) {
      assert MayPass(w, o, w', o);
    }
  }

  lemma ForkShape(w: World, id: nat, child: nat)
    requires Inv(w) && id in w.spaces && child !in w.spaces
    ensures Shape(w, Forked(w, id, child))
  {
    hide PageOf, GoodSpace, ForkEntry, Tightens;
    var sp, w' := w.spaces[id], Forked(w, id, child);
    ForkedSpaces(sp);
    forall o
      ensures FrameOf(w', o) == if o.AtPage? && o.id == child then FrameOf(w, AtPage(id, o.v)) else FrameOf(w, o)
    {
    }
    forall o | FrameOf(w', o).Some? ensures Derived(w, w', o) {
      assert MayPass(w, if o.AtPage? && o.id == child then AtPage(id, o.v) else o, w', o);
    }
  }

  lemma StoreShape(w: World, id: nat, v: nat, data: Bytes)
    ensures Shape(w, Store(w, id, v, data))
  {
    hide Private;
    var w' := Store(w, id, v, data);
    forall o ensures FrameOf(w', o) == FrameOf(w, o) && (PrivatePage(w', o) <==> PrivatePage(w, o)) {
    }
    forall o | FrameOf(w', o).Some? ensures Derived(w, w', o) {
      assert MayPass(w, o, w', o);
    }
  }

  // ---- what is carried through a step ----

  /** Separation is kept, and snapshots stay snapshots while they stay mapped. */
  ghost predicate Carries(w: World, w': World) {
    (Separate(w) ==> Separate(w')) && forall o :: Snapshot(w, o) && PrivatePage(w', o) ==> Snapshot(w', o)
  }

  lemma ShapeCarries(w: World, w': World)
    requires Shape(w, w')
    ensures Carries(w, w')
  {
    hide Shape, Separate, Snapshot, PrivatePage;
    if Separate(w) {
      SeparateStep(w, w');
    }
    forall o | Snapshot(w, o) && PrivatePage(w', o) ensures Snapshot(w', o) {
      SnapshotStep(w, w', o);
    }
  }

  lemma CarriesOn(w: World, mid: World, w': World)
    requires Carries(w, mid) && Carries(mid, w') && forall o :: PrivatePage(w, o) ==> PrivatePage(mid, o)
    ensures Carries(w, w')
  {
    hide Separate, Cached, Private;
  }

  lemma LentCarries(w: World, id: nat, k: nat, v: nat, lender: Owner, f: nat, data: Bytes)
    requires Inv(w) && Faults(w, id, k, v) && !lender.AtPage? && Lends(w, lender, f)
    requires w.spaces[id].areas[k].shared || (w.spaces[id].areas[k].cacheCow && lender.AtCache?)
    ensures Carries(w, Lent(w, id, k, v, lender, f, data))
  {
    hide Inv, Installed, Carries, Shape, Separate, PrivatePage;
    var w1, w' := Lend(w, lender, f, data), Lent(w, id, k, v, lender, f, data);
    var flags := FirstFlags(w.spaces[id].areas[k]);
    if FrameOf(w, lender).None? {
      LenderKeeps(w, w1, lender, f, data);
      LenderGrows(w, lender, f, data);
      ShapeCarries(w, w1);
      BorrowGrows(w1, id, k, v, lender, flags);
      ShapeCarries(w1, w');
      CarriesOn(w, w1, w');
    } else {
      BorrowGrows(w, id, k, v, lender, flags);
      ShapeCarries(w, w');
    }
  }

  /** What the first frames of a read-ahead carry on. */
  ghost predicate FilledOn(w: World, w': World) {
    Carries(w, w') && forall o :: PrivatePage(w, o) ==> PrivatePage(w', o)
  }

  lemma {:induction false} FillCarries(w: World, id: nat, k: nat, v: nat, frames: seq<nat>, pages: seq<Bytes>)
    requires Inv(w) && At(w, id, k, v) && |pages| == |frames| && (frames == [] || FreshFor(w, id, k, v, frames, pages))
    ensures FilledOn(w, Fill(w, id, k, v, frames, pages))
    decreases |frames|
  {
    hide Inv, Unused, Filled, SameBut, OwnFrame, FilledOn;
    if frames == [] {
      NothingFilled(w);
    } else {
      var n := |frames| - 1;
      FillCarries(w, id, k, v, frames[..n], pages[..n]);
      FillStep(w, id, k, v, frames[..n], pages[..n]);
      FillMore(w, Fill(w, id, k, v, frames[..n], pages[..n]), id, k, v, n, frames, pages[n]);
    }
  }

  lemma NothingFilled(w: World)
    ensures FilledOn(w, w)
  {
    hide Separate, Cached, Private;
  }

  lemma FillMore(w: World, before: World, id: nat, k: nat, v: nat, n: nat, frames: seq<nat>, data: Bytes)
    requires At(w, id, k, v) && |frames| == n + 1 && Filled(w, before, id, v, n, frames[..n]) && FilledOn(w, before)
    requires k in before.spaces[id].areas && SameBut(w.spaces[id].areas[k], before.spaces[id].areas[k])
    requires v + n < w.spaces[id].areas[k].end
    requires Unused(w, frames[n]) && forall i :: 0 <= i < n ==> frames[i] != frames[n]
    ensures FilledOn(w, OwnFrame(before, id, k, v + n, frames[n], PteFlags(before.spaces[id].areas[k].perm, false),
                                 data))
  {
    hide Inv, Unused, OwnFrame, Carries, Shape, PrivatePage;
    var w' := OwnFrame(before, id, k, v + n, frames[n], PteFlags(before.spaces[id].areas[k].perm, false), data);
    assert frames[n] !in frames[..n];
    OwnGrows(before, id, k, v + n, frames[n], PteFlags(before.spaces[id].areas[k].perm, false), data);
    ShapeCarries(before, w');
    CarriesOn(w, before, w');
  }

  lemma OwnCarries(w: World, id: nat, k: nat, v: nat, f: nat, flags: Flags, data: Bytes)
    requires Inv(w) && id in w.spaces && Covers(w.spaces[id].areas, k, v) && w.spaces[id].areas[k].kind != Guard
    requires Unused(w, f)
    ensures Carries(w, OwnFrame(w, id, k, v, f, flags, data))
  {
    hide Inv, Unused, OwnFrame, Carries, Shape;
    OwnGrows(w, id, k, v, f, flags, data);
    ShapeCarries(w, OwnFrame(w, id, k, v, f, flags, data));
  }

  lemma MunmapCarries(w: World, id: nat, s: nat, e: nat, areas: Areas, w': World)
    requires Inv(w) && IsMunmap(w, id, s, e, areas, w')
    ensures Carries(w, w')
  {
    hide PageOf, GoodAreas, Agree, IsCut, Carries, Shape, RegistryShared;
    var sp, sp' := w.spaces[id], Space(areas, Outside(w.spaces[id].pt, s, e));
    forall v: nat ensures PageOf(0, areas, v) == if s <= v < e then None else PageOf(0, sp.areas, v) {
      CutMeaning(0, sp.areas, areas, s, e, v);
    }
    RestrictShape(w, id, sp');
    ShapeCarries(w, w');
  }

  lemma DiscardCarries(w: World, id: nat, s: nat, e: nat)
    requires Inv(w) && id in w.spaces
    ensures Carries(w, WithSpace(w, id, Discarded(w.spaces[id], s, e)))
  {
    hide PageOf, GoodAreas, Agree, Carries, Shape, RegistryShared;
    var sp, sp' := w.spaces[id], Discarded(w.spaces[id], s, e);
    forall v: nat ensures v in sp'.pt ==> PageOf(0, sp'.areas, v) == PageOf(0, sp.areas, v) {
      DiscardPage(sp, s, e, v);
    }
    RestrictShape(w, id, sp');
    ShapeCarries(w, WithSpace(w, id, sp'));
  }

  lemma MmapCarries(w: World, id: nat, a: Area, w': World)
    requires Inv(w) && IsMmap(w, id, a, w')
    ensures Carries(w, w')
  {
    hide PageOf, GoodAreas, Agree, Reservable, Carries, Shape;
    var sp, sp' := w.spaces[id], Space(w.spaces[id].areas[a.start := a], w.spaces[id].pt);
    AgreePages(0, sp.areas, sp.pt);
    forall v: nat ensures v in sp'.pt ==> PageOf(0, sp'.areas, v) == PageOf(0, sp.areas, v) {
      ReservedPage(sp.areas, a, v);
      assert v in sp.pt <==> Resident(0, sp.areas, v);
    }
    RestrictShape(w, id, sp');
    ShapeCarries(w, w');
  }

  lemma StepCarries(w: World, step: Step, w': World)
    requires Inv(w) && Next(w, step, w')
    ensures Carries(w, w')
  {
    hide Inv, PageOf, OwnFrame, Lent, Fill, Carries, Shape;
    match step
    case AnonymousFault(id, k, v, f) => OwnCarries(w, id, k, v, f, FirstFlags(w.spaces[id].areas[k]), Zeroes());
    case RegistryFault(id, k, v, f) =>
      RegistryIsShared(w, id, k, v);
      LentCarries(w, id, k, v, AtRegistry(w.spaces[id].areas[k].registry.value, v), f, Zeroes());
    case CacheFault(id, k, v, f, data) => LentCarries(w, id, k, v, FilePage(w.spaces[id].areas[k], v), f, data);
    case HoleFault(id, k, v, f) => OwnCarries(w, id, k, v, f, FirstFlags(w.spaces[id].areas[k]), Zeroes());
    case FileFault(id, k, v, frames, pages) => FillCarries(w, id, k, v, frames, pages);
    case CowFault(id, k, v, f) =>
      OwnCarries(w, id, k, v, f, PteFlags(w.spaces[id].areas[k].perm, false), w.mem[w.spaces[id].pt[v].ppn]);
    case Fork(id, child) =>
      ForkShape(w, id, child);
      ShapeCarries(w, w');
    case Munmap(id, s, e, areas) => MunmapCarries(w, id, s, e, areas, w');
    case Discard(id, s, e) => DiscardCarries(w, id, s, e);
    case Mmap(id, a) => MmapCarries(w, id, a, w');
    case Put(id, v, data) =>
      StoreShape(w, id, v, data);
      ShapeCarries(w, w');
  }

  // ---- whole runs ----

  /** A store elsewhere does not reach a snapshot. */
  lemma StoreMisses(w: World, id: nat, v: nat, data: Bytes, o: Owner)
    requires Inv(w) && Separate(w) && Snapshot(w, o) && o != AtPage(id, v)
    ensures View(Store(w, id, v, data), o) == View(w, o)
  {
    hide GoodSpaces, Loaded, Private, Cached;
    var q := AtPage(id, v);
    if CanStore(w, id, v) {
      if PrivatePage(w, q) {
        assert PrivateWritable(w, q);
      }
      assert FrameOf(w, q) != FrameOf(w, o);
    }
  }

  lemma SnapshotKept(w: World, step: Step, w': World, o: Owner)
    requires Inv(w) && Separate(w) && Next(w, step, w') && Snapshot(w, o) && PrivatePage(w', o)
    requires !(step.Put? && o == AtPage(step.id, step.v))
    ensures Inv(w') && Separate(w') && Snapshot(w', o) && View(w', o) == View(w, o)
  {
    hide Next, Separate, Cached, Private, GoodSpaces, Isolated;
    StepKeeps(w, step, w');
    StepCarries(w, step, w');
    if step.Put? {
      IsStore(w, step, w');
      StoreMisses(w, step.id, step.v, step.data, o);
    } else {
      HasFrame(w, o);
      HasFrame(w', o);
    }
  }

  lemma IsStore(w: World, step: Step, w': World)
    requires Next(w, step, w') && step.Put?
    ensures w' == Store(w, step.id, step.v, step.data)
  {
  }

  lemma {:induction false} RunSeparates(ws: seq<World>, steps: seq<Step>, n: nat)
    requires IsRun(ws, steps) && Inv(ws[0]) && Separate(ws[0]) && n <= |steps|
    ensures Inv(ws[n]) && Separate(ws[n])
    decreases n
  {
    hide Inv, Next, Separate;
    if n > 0 {
      RunSeparates(ws, steps, n - 1);
      StepKeeps(ws[n - 1], steps[n - 1], ws[n]);
      StepCarries(ws[n - 1], steps[n - 1], ws[n]);
    }
  }

  /** Without address spaces and caches everything holds. */
  lemma EmptyWorld()
    ensures var w := World(map[], map[], map[], map[]); Inv(w) && Separate(w)
  {
    assert forall o :: FrameOf(World(map[], map[], map[], map[]), o) == None;
  }

  /** Over any run, a page that stays mapped in a private area, and whose frame the page cache did not hold, changes
      only by stores through that page: across forks of its owner, while it is read-only, and across its copy. */
  lemma {:induction false} RunSnapshots(ws: seq<World>, steps: seq<Step>, id: nat, v: nat, first: nat, last: nat)
    requires IsRun(ws, steps) && Inv(ws[0]) && Separate(ws[0]) && first <= last <= |steps|
    requires Snapshot(ws[first], AtPage(id, v))
    requires forall i :: first <= i <= last ==> PrivatePage(ws[i], AtPage(id, v))
    requires forall i :: first <= i < last ==> !(steps[i].Put? && steps[i].id == id && steps[i].v == v)
    ensures Snapshot(ws[last], AtPage(id, v)) && View(ws[last], AtPage(id, v)) == View(ws[first], AtPage(id, v))
    decreases last
  {
    hide Inv, Next, Separate, Snapshot, PrivatePage, View;
    if first < last {
      RunSnapshots(ws, steps, id, v, first, last - 1);
      RunSeparates(ws, steps, last - 1);
      SnapshotKept(ws[last - 1], steps[last - 1], ws[last], AtPage(id, v));
    }
  }

  /** The child's page, from the fork on: whatever the parent and all others do, it shows what the parent's page showed
      when it forked. */
  lemma ChildSeesFork(ws: seq<World>, steps: seq<Step>, id: nat, child: nat, v: nat, first: nat, last: nat)
    requires IsRun(ws, steps) && Inv(ws[0]) && Separate(ws[0]) && first < last <= |steps|
    requires steps[first] == Fork(id, child)
    requires Snapshot(ws[first], AtPage(id, v))
    requires forall i :: first < i <= last ==> PrivatePage(ws[i], AtPage(child, v))
    requires forall i :: first < i < last ==> !(steps[i].Put? && steps[i].id == child && steps[i].v == v)
    ensures View(ws[last], AtPage(child, v)) == View(ws[first], AtPage(id, v))
  {
    hide Separate, Cached, Private, View, Next;
    RunSeparates(ws, steps, first);
    ForkPasses(ws[first], steps[first], ws[first + 1], v);
    RunSnapshots(ws, steps, child, v, first + 1, last);
  }

  lemma ForkPasses(w: World, step: Step, w': World, v: nat)
    requires Inv(w) && Next(w, step, w') && step.Fork? && Snapshot(w, AtPage(step.id, v))
    requires PrivatePage(w', AtPage(step.child, v))
    ensures Snapshot(w', AtPage(step.child, v)) && View(w', AtPage(step.child, v)) == View(w, AtPage(step.id, v))
  {
    hide Inv, Private, ForkEntry, Tightens;
    ForkKeeps(w, step.id, step.child);
    assert w'.cache == w.cache;
    ForkFrame(w, step.id, step.child, v);
  }

  lemma ForkFrame(w: World, id: nat, child: nat, v: nat)
    requires Inv(w) && id in w.spaces && child !in w.spaces
    ensures FrameOf(Forked(w, id, child), AtPage(child, v)) == FrameOf(w, AtPage(id, v))
  {
    hide PageOf, GoodSpace, ForkEntry, Tightens;
    ForkedSpaces(w.spaces[id]);
  }
}
