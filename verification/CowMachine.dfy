/** The fault handlers, fork and discarding as the kernel runs them, each one step of the isolation model. */
module CowMachine {
  import opened Common
  import opened PageTable
  import opened AddressSpace
  import opened AreaUnmap
  import opened AreaProtect
  import opened CowIsolation
  import opened CowRuns

  /** A file page as a private mapping shows it: zero from byte address `zeroFrom` on. */
  function PrivateBytes(data: Bytes, v: nat, zeroFrom: Option<nat>): Bytes
    requires |data| == PAGE_SIZE
  {
    if zeroFrom.None? || zeroFrom.value >= (v + 1) * PAGE_SIZE then data
    else
      var keep := if zeroFrom.value <= v * PAGE_SIZE then 0 else zeroFrom.value - v * PAGE_SIZE;
      data[..keep] + seq(PAGE_SIZE - keep, i => 0)
  }

  type Blocks = map<(nat, nat), Bytes>

  ghost predicate WholePages(blocks: Blocks) {
    forall b :: b in blocks ==> |blocks[b]| == PAGE_SIZE
  }

  /** A page of a file; holes read as zero. */
  function FileBytes(blocks: Blocks, ino: nat, page: nat): (data: Bytes)
    requires WholePages(blocks)
    ensures |data| == PAGE_SIZE
  {
    if (ino, page) in blocks then blocks[(ino, page)] else Zeroes()
  }

  function PageBytes(a: Area, blocks: Blocks, v: nat): Bytes
    requires a.file.Some? && a.start <= v && WholePages(blocks)
  {
    PrivateBytes(FileBytes(blocks, a.file.value.ino, a.file.value.page + (v - a.start)), v, a.zeroFrom)
  }

  /** What a page without registry should show once it has been faulted in. */
  function Content(p: Page, blocks: Blocks, v: nat): (data: Bytes)
    requires WholePages(blocks)
    ensures |data| == PAGE_SIZE
  {
    if p.kind != File || p.file.None? then Zeroes()
    else
      var data := FileBytes(blocks, p.file.value.ino, p.file.value.page);
      if p.cacheCow || p.shared then data else PrivateBytes(data, v, p.zeroFrom)
  }

  /** Every frame of the page cache holds its page of its file. */
  ghost predicate CacheHolds(w: World, blocks: Blocks)
    requires WholePages(blocks)
  {
    forall c :: c in w.cache ==> w.cache[c] in w.mem && w.mem[w.cache[c]] == FileBytes(blocks, c.0, c.1)
  }

  /** The page shows the bytes. */
  ghost predicate HasBytes(w: World, id: nat, v: nat, data: Bytes) {
    View(w, AtPage(id, v)) == Some(data)
  }

  /** A page of a file can be mapped from the page cache: it lies in the file, and is cached or can be taken in. */
  ghost predicate CacheServes(w: World, free: set<nat>, sizes: map<nat, nat>, a: Area, v: nat) {
    && a.file.Some? && a.start <= v
    && var ino, page := a.file.value.ino, a.file.value.page + (v - a.start);
    && ino in sizes && page < sizes[ino] && ((ino, page) in w.cache || free != {})
  }

  /** A first touch of the page, of one kind or another. */
  predicate IsFault(step: Step, id: nat, v: nat) {
    match step
    case AnonymousFault(i, _, u, _) => i == id && u == v
    case RegistryFault(i, _, u, _) => i == id && u == v
    case CacheFault(i, _, u, _, _) => i == id && u == v
    case HoleFault(i, _, u, _) => i == id && u == v
    case FileFault(i, _, u, _, _) => i == id && u == v
    case _ => false
  }

  /** What it takes for the first touch of a page to be handled through area `k`. */
  ghost predicate Servable(w: World, free: set<nat>, sizes: map<nat, nat>, id: nat, k: nat, v: nat) {
    && id in w.spaces && Covers(w.spaces[id].areas, k, v) && v !in w.spaces[id].pt && Serves(w.spaces[id].areas[k])
    && FrameServes(w, free, sizes, w.spaces[id].areas[k], v)
  }

  ghost predicate FrameServes(w: World, free: set<nat>, sizes: map<nat, nat>, a: Area, v: nat) {
    if a.kind == Framed then (a.registry.Some? && (a.registry.value, v) in w.registries) || free != {}
    else if a.file.Some? && (a.shared || a.cacheCow) then CacheServes(w, free, sizes, a, v)
    else a.file.Some? && free != {}
  }

  lemma NotServable(w: World, free: set<nat>, sizes: map<nat, nat>, id: nat, found: Option<nat>, v: nat)
    requires id in w.spaces && GoodAreas(w.spaces[id].areas)
    requires found.None? ==> !Mapped(w.spaces[id].areas, v)
    requires found.Some? ==>
      Covers(w.spaces[id].areas, found.value, v) && (!Serves(w.spaces[id].areas[found.value]) || v in w.spaces[id].pt)
    ensures forall k: nat :: !Servable(w, free, sizes, id, k, v)
  {
    forall k: nat ensures !Servable(w, free, sizes, id, k, v) {
      if found.Some? && Covers(w.spaces[id].areas, k, v) {
        CoverUnique(w.spaces[id].areas, k, found.value, v);
      }
    }
  }

  lemma OnlyServable(w: World, free: set<nat>, sizes: map<nat, nat>, id: nat, found: nat, v: nat)
    requires id in w.spaces && GoodAreas(w.spaces[id].areas) && Covers(w.spaces[id].areas, found, v)
    requires Serves(w.spaces[id].areas[found]) && v !in w.spaces[id].pt
    ensures (exists k: nat :: Servable(w, free, sizes, id, k, v)) <==>
      FrameServes(w, free, sizes, w.spaces[id].areas[found], v)
  {
    if FrameServes(w, free, sizes, w.spaces[id].areas[found], v) {
      assert Servable(w, free, sizes, id, found, v);
    } else {
      forall k: nat ensures !Servable(w, free, sizes, id, k, v) {
        if Covers(w.spaces[id].areas, k, v) {
          CoverUnique(w.spaces[id].areas, k, found, v);
        }
      }
    }
  }

  class Machine {
    var spaces: map<nat, Space>
    var mem: map<nat, Bytes>
    var cache: map<(nat, nat), nat>
    var registries: map<(nat, nat), nat>
    /** Frames the allocator can still hand out. */
    var free: set<nat>
    /** Sizes of files in pages, and the pages of them that hold data. */
    const sizes: map<nat, nat>
    const blocks: Blocks

    constructor (sizes: map<nat, nat>, blocks: Blocks, free: set<nat>)
      requires WholePages(blocks)
      ensures Valid() && Now() == World(map[], map[], map[], map[]) && this.free == free
    {
      this.sizes, this.blocks, this.free := sizes, blocks, free;
      spaces, mem, cache, registries := map[], map[], map[], map[];
    }

    function Now(): World
      reads this
    {
      World(spaces, mem, cache, registries)
    }

    ghost predicate Valid()
      reads this
    {
      && Inv(Now())
      && (forall f :: f in free ==> Unused(Now(), f))
      && WholePages(blocks)
    }

    method AllocFrame() returns (f: Option<nat>)
      modifies this`free
      ensures f.None? ==> old(free) == {} && free == {}
      ensures f.Some? ==> f.value in old(free) && free == old(free) - {f.value}
    {
      if free == {} {
        return None;
      }
      var x :| x in free;
      free := free - {x};
      return Some(x);
    }

    /** The area of a private page that may be written but is mapped read-only, if the page is one. */
    method FindCow(id: nat, v: nat) returns (k: Option<nat>)
      requires Valid() && id in spaces
      ensures k.Some? ==> NeedsCopy(Now(), id, k.value, v)
      ensures k.None? ==> forall j: nat :: !NeedsCopy(Now(), id, j, v)
    {
      hide Inv, PageOf;
      var sp := spaces[id];
      InvSpace(Now(), id);
      k := LookupArea(sp.areas, v);
      if k.None? {
        return;
      }
      forall j: nat | Covers(sp.areas, j, v) ensures j == k.value {
        CoverUnique(sp.areas, j, k.value, v);
      }
      var a := sp.areas[k.value];
      if a.kind == Guard || a.shared || !a.perm.w {
        return None;
      }
      EntryFacts(sp, v);
      if v !in sp.pt || !sp.pt[v].flags.v || sp.pt[v].flags.w {
        return None;
      }
      OwnedByCover(sp, k.value, v);
      if v !in a.frames || a.frames[v] != sp.pt[v].ppn {
        return None;
      }
    }

    /** Copy the frame of a private page that may be written but is mapped read-only. */
    method HandleCowFault(id: nat, v: nat) returns (ok: bool, ghost step: Step)
      requires Valid() && id in spaces
      modifies this
      ensures Valid()
      ensures ok ==> step.CowFault? && step.id == id && step.v == v && Next(old(Now()), step, Now())
      ensures !ok ==> Now() == old(Now())
      ensures ok <==> old(free) != {} && exists k: nat :: NeedsCopy(old(Now()), id, k, v)
    {
      hide Inv, PageOf;
      step := CowFault(id, 0, v, 0);
      var k := FindCow(id, v);
      if k.None? {
        return false, step;
      }
      var f := AllocFrame();
      if f.None? {
        return false, step;
      }
      var sp := spaces[id];
      step := CowFault(id, k.value, v, f.value);
      FrameLoaded(Now(), id, v);
      mem := mem[f.value := mem[sp.pt[v].ppn]];
      spaces := spaces[id := Installed(sp, k.value, v, f.value, PteFlags(sp.areas[k.value].perm, false))];
      StepKeeps(old(Now()), step, Now());
      StillUnused(old(Now()), Now(), f.value, id, v, old(free));
      ok := true;
    }

    /** First touch of a page: dispatch on the kind of its area. */
    method HandlePageFault(id: nat, v: nat) returns (ok: bool, ghost step: Step)
      requires Valid() && id in spaces
      modifies this
      ensures Valid()
      ensures ok ==> IsFault(step, id, v) && Next(old(Now()), step, Now())
      ensures ok ==> v !in old(spaces)[id].pt && id in spaces && v in spaces[id].pt
      ensures !ok ==> Now() == old(Now())
      ensures ok && step.FileFault? ==> ReadsFile(old(spaces)[id].areas, blocks, step)
      ensures ok <==> exists k: nat :: Servable(old(Now()), old(free), sizes, id, k, v)
      ensures ok && CacheHolds(old(Now()), blocks) ==>
        CacheHolds(Now(), blocks) && Faulted(old(spaces)[id].areas, blocks, Now(), id, v)
    {
      hide Inv, PageOf, GoodAreas, Agree, Faulted, CacheHolds, HasBytes;
      step := Put(0, 0, []);
      var sp := spaces[id];
      InvSpace(Now(), id);
      var found := LookupArea(sp.areas, v);
      if found.None? || !Serves(sp.areas[found.value]) || v in sp.pt {
        NotServable(Now(), free, sizes, id, found, v);
        return false, step;
      }
      OnlyServable(Now(), free, sizes, id, found.value, v);
      ghost var before := sp.areas;
      var a := sp.areas[found.value];
      if a.kind == Framed {
        if a.registry.Some? {
          ok, step := MapRegistryPage(id, found.value, v);
        } else {
          ok, step := MapZeroPage(id, found.value, v);
        }
      } else if a.file.None? {
        ok := false;
      } else if a.shared || a.cacheCow {
        ok, step := MapCachePage(id, found.value, v);
      } else {
        ok, step := MapFilePages(id, found.value, v);
      }
      if ok && CacheHolds(old(Now()), blocks) {
        TouchedPage(before, found.value, blocks, Now(), id, v);
      }
    }

    /** Give an absent page an unused frame of its own, filled with zeroes. */
    method MapZeroPage(id: nat, k: nat, v: nat) returns (ok: bool, ghost step: Step)
      requires Valid() && Faults(Now(), id, k, v)
      requires var a := spaces[id].areas[k]; (a.kind == Framed && a.registry.None?) || (a.kind == File && a.cacheCow)
      modifies this
      ensures Valid()
      ensures ok ==> (if old(spaces)[id].areas[k].kind == Framed then step.AnonymousFault? else step.HoleFault?)
      ensures ok ==> IsFault(step, id, v)
      ensures ok ==> Next(old(Now()), step, Now()) && id in spaces && v in spaces[id].pt
      ensures !ok ==> Now() == old(Now())
      ensures ok <==> old(free) != {}
      ensures ok ==> HasBytes(Now(), id, v, Zeroes())
      ensures CacheHolds(old(Now()), blocks) ==> CacheHolds(Now(), blocks)
    {
      hide Inv, PageOf, CacheHolds;
      step := Put(0, 0, []);
      var f := AllocFrame();
      if f.None? {
        return false, step;
      }
      var a := spaces[id].areas[k];
      step := if a.kind == Framed then AnonymousFault(id, k, v, f.value) else HoleFault(id, k, v, f.value);
      mem := mem[f.value := Zeroes()];
      spaces := spaces[id := Installed(spaces[id], k, v, f.value, FirstFlags(a))];
      StepKeeps(old(Now()), step, Now());
      StillUnused(old(Now()), Now(), f.value, id, v, old(free));
      CacheUntouched(old(Now()), Now(), f.value, Zeroes(), blocks);
      ok := true;
    }

    /** Map the frame the registry of a shared anonymous mapping holds for the page, allocating it once. */
    method MapRegistryPage(id: nat, k: nat, v: nat) returns (ok: bool, ghost step: Step)
      requires Valid() && Faults(Now(), id, k, v)
      requires spaces[id].areas[k].kind == Framed && spaces[id].areas[k].registry.Some?
      modifies this
      ensures Valid()
      ensures ok ==>
        && step.RegistryFault? && IsFault(step, id, v) && Next(old(Now()), step, Now()) && id in spaces
        && v in spaces[id].pt
      ensures !ok ==> Now() == old(Now())
      ensures ok <==> (old(spaces)[id].areas[k].registry.value, v) in old(registries) || old(free) != {}
      ensures CacheHolds(old(Now()), blocks) ==> CacheHolds(Now(), blocks)
    {
      hide Inv, PageOf, CacheHolds;
      var a := spaces[id].areas[k];
      var lender := (a.registry.value, v);
      var f: nat := 0;
      if lender !in registries {
        var fresh' := AllocFrame();
        if fresh'.None? {
          return false, Put(0, 0, []);
        }
        f := fresh'.value;
        mem := mem[f := Zeroes()];
        registries := registries[lender := f];
      }
      step := RegistryFault(id, k, v, f);
      spaces := spaces[id := Installed(spaces[id], k, v, registries[lender], FirstFlags(a))];
      StepKeeps(old(Now()), step, Now());
      LentUnused(old(Now()), Now(), AtRegistry(lender.0, lender.1), id, v, f, old(free), free);
      CacheUntouched(old(Now()), Now(), f, Zeroes(), blocks);
      ok := true;
    }

    /** Map a page of the page cache; a hole in a program file becomes a private zero page instead. */
    method MapCachePage(id: nat, k: nat, v: nat) returns (ok: bool, ghost step: Step)
      requires Valid() && Faults(Now(), id, k, v)
      requires var a := spaces[id].areas[k]; a.kind == File && a.file.Some? && (a.shared || a.cacheCow)
      modifies this
      ensures Valid()
      ensures ok ==> (step.CacheFault? || step.HoleFault?) && IsFault(step, id, v) && Next(old(Now()), step, Now())
      ensures ok ==> id in spaces && v in spaces[id].pt
      ensures !ok ==> Now() == old(Now())
      ensures ok <==> CacheServes(old(Now()), old(free), sizes, old(spaces)[id].areas[k], v)
      ensures ok && CacheHolds(old(Now()), blocks) ==> CacheHolds(Now(), blocks)
      ensures ok && CacheHolds(old(Now()), blocks) ==>
        var a := old(spaces)[id].areas[k];
        HasBytes(Now(), id, v, FileBytes(blocks, a.file.value.ino, a.file.value.page + (v - a.start)))
    {
      hide Inv, PageOf, CacheHolds, HasBytes;
      var a := spaces[id].areas[k];
      var page := a.file.value.page + (v - a.start);
      var lender := (a.file.value.ino, page);
      if lender.0 !in sizes || page >= sizes[lender.0] {
        return false, Put(0, 0, []);
      }
      if lender !in cache && a.cacheCow && lender !in blocks {
        ok, step := MapZeroPage(id, k, v);
        return;
      }
      var f: nat, data := 0, if lender in blocks then blocks[lender] else Zeroes();
      if lender !in cache {
        var fresh' := AllocFrame();
        if fresh'.None? {
          return false, Put(0, 0, []);
        }
        f := fresh'.value;
        mem := mem[f := data];
        cache := cache[lender := f];
      }
      step := CacheFault(id, k, v, f, data);
      spaces := spaces[id := Installed(spaces[id], k, v, cache[lender], FirstFlags(a))];
      StepKeeps(old(Now()), step, Now());
      LentUnused(old(Now()), Now(), AtCache(lender.0, lender.1), id, v, f, old(free), free);
      if CacheHolds(old(Now()), blocks) {
        CacheLent(old(Now()), Now(), lender, f, data, id, v, blocks);
      }
      ok := true;
    }

    /** Map the collected frames in page order. */
    method InstallPages(id: nat, k: nat, v: nat, frames: seq<nat>, pages: seq<Bytes>)
      requires id in spaces && k in spaces[id].areas && |frames| == |pages|
      modifies this`spaces, this`mem
      ensures Now() == Fill(old(Now()), id, k, v, frames, pages)
    {
      ghost var was := Now();
      for n := 0 to |frames|
        invariant Now() == Fill(was, id, k, v, frames[..n], pages[..n])
      {
        assert frames[..n + 1][..n] == frames[..n] && pages[..n + 1][..n] == pages[..n];
        var flags := PteFlags(spaces[id].areas[k].perm, false);
        mem := mem[frames[n] := pages[n]];
        spaces := spaces[id := Installed(spaces[id], k, v + n, frames[n], flags)];
      }
      assert frames[..|frames|] == frames && pages[..|frames|] == pages;
    }

    /** Take frames for the absent pages from `v` on, at most 64, and read the file into them. */
    method CollectPages(id: nat, k: nat, v: nat) returns (frames: seq<nat>, pages: seq<Bytes>)
      requires Valid() && Faults(Now(), id, k, v) && spaces[id].areas[k].file.Some?
      modifies this`free
      ensures |pages| == |frames| <= READ_AHEAD && v + |frames| <= spaces[id].areas[k].end
      ensures Collected(Now(), old(free), free, id, v, frames)
      ensures forall i :: 0 <= i < |pages| ==> pages[i] == PageBytes(spaces[id].areas[k], blocks, v + i)
      ensures frames == [] <==> old(free) == {}
    {
      hide Inv, PageBytes;
      var a := spaces[id].areas[k];
      var limit := if a.end - v < READ_AHEAD then a.end - v else READ_AHEAD;
      frames, pages := [], [];
      var more := true;
      while more && |frames| < limit
        invariant |frames| <= limit && |pages| == |frames|
        invariant Collected(Now(), old(free), free, id, v, frames)
        invariant forall i :: 0 <= i < |pages| ==> pages[i] == PageBytes(a, blocks, v + i)
        invariant if frames == [] then free == old(free) && (more || free == {}) else old(free) != {}
        decreases limit - |frames|, more
      {
        if v + |frames| in spaces[id].pt {
          more := false;
        } else {
          var f := AllocFrame();
          if f.None? {
            more := false;
          } else {
            pages := pages + [PageBytes(a, blocks, v + |frames|)];
            frames := frames + [f.value];
          }
        }
      }
    }

    /** Read up to 64 absent pages of the area ahead, each into a frame of its own. */
    method MapFilePages(id: nat, k: nat, v: nat) returns (ok: bool, ghost step: Step)
      requires Valid() && Faults(Now(), id, k, v)
      requires var a := spaces[id].areas[k]; a.kind == File && a.file.Some? && !a.shared && !a.cacheCow
      modifies this
      ensures Valid()
      ensures ok ==>
        step.FileFault? && IsFault(step, id, v) && Next(old(Now()), step, Now()) && id in spaces && v in spaces[id].pt
      ensures ok ==> ReadsFile(old(spaces)[id].areas, blocks, step)
      ensures !ok ==> Now() == old(Now())
      ensures ok <==> old(free) != {}
      ensures ok ==> var a := old(spaces)[id].areas[k]; HasBytes(Now(), id, v, PageBytes(a, blocks, v))
      ensures CacheHolds(old(Now()), blocks) ==> CacheHolds(Now(), blocks)
    {
      hide Inv, PageOf, PageBytes, Fill, CacheHolds, HasBytes;
      var frames, pages := CollectPages(id, k, v);
      if frames == [] {
        return false, Put(0, 0, []);
      }
      step := FileFault(id, k, v, frames, pages);
      InstallPages(id, k, v, frames, pages);
      StepKeeps(old(Now()), step, Now());
      AheadUnused(old(Now()), Now(), step, free);
      AheadShows(old(Now()), id, k, v, frames, pages);
      if CacheHolds(old(Now()), blocks) {
        AheadCache(old(Now()), id, k, v, frames, pages, blocks);
      }
      ok := true;
    }

    /** The child's areas, entries and frames, area by area; private writable pages turn read-only on both sides. */
    method ForkSpace(id: nat, child: nat)
      requires Valid() && id in spaces && child !in spaces
      modifies this
      ensures Valid() && Next(old(Now()), Fork(id, child), Now())
    {
      hide Inv, PageOf, GoodAreas, Agree, ForkEntry, Tightens, OwnedBelow;
      var sp := spaces[id];
      InvSpace(Now(), id);
      var areas: Areas, entries: Entries, parent := map[], map[], sp.pt;
      ForkStart(sp);
      for k := 0 to VPN_LIMIT + 1
        modifies {}
        invariant areas == AreasBelow(sp, k) && entries == ChildBelow(sp, k) && parent == ParentBelow(sp, k)
      {
        ForkStep(sp, k);
        if k in sp.areas {
          var frames, own, tightened := ForkArea(sp.areas[k], parent);
          areas := areas[k := sp.areas[k].(frames := frames)];
          assert sp.areas[k].(frames := frames) == sp.areas[k];
          entries, parent := entries + own, tightened;
        }
      }
      ForkEnd(sp);
      spaces := spaces[id := Space(sp.areas, parent)][child := Space(areas, entries)];
      StepKeeps(old(Now()), Fork(id, child), Now());
      ForkUnused(old(Now()), id, child, free);
    }

    /** Drop the resident pages of a range and keep the areas. */
    method MadviseDontneed(id: nat, s: nat, e: nat)
      requires Valid() && id in spaces
      modifies this
      ensures Valid() && Next(old(Now()), Discard(id, s, e), Now())
    {
      hide Inv, PageOf, GoodAreas, Agree, Dropped, WithoutPages, WithoutBelow, DroppedBelow, DroppedArea;
      var sp := spaces[id];
      InvSpace(Now(), id);
      var areas, pt := sp.areas, sp.pt;
      DiscardStart(sp, s, e);
      for k := 0 to VPN_LIMIT + 1
        modifies {}
        invariant areas == DroppedBelow(sp, k, s, e) && pt == WithoutBelow(sp.pt, sp.areas, k, s, e)
      {
        DiscardStep(sp, k, s, e);
        if k !in sp.areas {
          WithoutNext(sp.areas, sp.pt, k, s, e);
        } else {
          DiscardEntries(sp, k, s, e);
        }
        if k in areas {
          var from, to := Max(s, areas[k].start), Min(e, areas[k].end);
          if from < to && areas[k].kind != Guard {
            pt := WithoutPages(pt, areas[k], from, to);
            areas := areas[k := areas[k].(frames := Dropped(areas[k].frames, from, to))];
          }
        }
      }
      DiscardEnd(sp, s, e);
      spaces := spaces[id := Space(areas, pt)];
      StepKeeps(old(Now()), Discard(id, s, e), Now());
      DiscardUnused(old(Now()), id, s, e, free);
    }
  }

  /** A page that was touched shows its content, unless a registry backs it. */
  ghost predicate Faulted(areas: Areas, blocks: Blocks, w: World, id: nat, v: nat)
    requires WholePages(blocks)
  {
    var p := PageOf(0, areas, v);
    p.Some? && (p.value.registry.None? ==> HasBytes(w, id, v, Content(p.value, blocks, v)))
  }

  /** What the handlers leave for a page of the area. */
  ghost predicate AreaShows(a: Area, blocks: Blocks, w: World, id: nat, v: nat)
    requires WholePages(blocks) && a.start <= v
  {
    && (a.kind == Framed && a.registry.None? ==> HasBytes(w, id, v, Zeroes()))
    && (a.kind == File ==> a.file.Some?)
    && (a.kind == File && (a.shared || a.cacheCow) ==>
          HasBytes(w, id, v, FileBytes(blocks, a.file.value.ino, a.file.value.page + (v - a.start))))
    && (a.kind == File && !a.shared && !a.cacheCow ==> HasBytes(w, id, v, PageBytes(a, blocks, v)))
    && a.kind != Guard
  }

  /** The content of a page, case by case, in terms of its area. */
  lemma TouchedPage(areas: Areas, k: nat, blocks: Blocks, w: World, id: nat, v: nat)
    requires WholePages(blocks) && GoodAreas(areas) && Covers(areas, k, v)
    requires AreaShows(areas[k], blocks, w, id, v)
    ensures Faulted(areas, blocks, w, id, v)
  {
    PageAt(0, areas, k, v);
  }

  /** The page without the frame it owns. */
  function Bare(p: Option<Page>): Option<Page> {
    if p.Some? then Some(p.value.(frame := None)) else None
  }

  /** Two collections of areas show the same pages up to what is resident. */
  ghost predicate Alike(areas: Areas, areas': Areas) {
    forall v: nat :: Bare(PageOf(0, areas', v)) == Bare(PageOf(0, areas, v))
  }

  lemma InstalledAlike(sp: Space, k: nat, v: nat, f: nat, flags: Flags)
    requires GoodAreas(sp.areas) && Covers(sp.areas, k, v) && sp.areas[k].kind != Guard
    ensures Alike(sp.areas, Installed(sp, k, v, f, flags).areas)
  {
    hide PageOf, GoodAreas;
    forall u: nat ensures Bare(PageOf(0, Installed(sp, k, v, f, flags).areas, u)) == Bare(PageOf(0, sp.areas, u)) {
      InstalledPages(0, sp, k, v, f, flags, u);
    }
  }

  lemma {:induction false} FillAlike(w: World, id: nat, k: nat, v: nat, frames: seq<nat>, pages: seq<Bytes>)
    requires Inv(w) && At(w, id, k, v) && |pages| == |frames| && (frames == [] || FreshFor(w, id, k, v, frames, pages))
    ensures Alike(w.spaces[id].areas, Fill(w, id, k, v, frames, pages).spaces[id].areas)
    decreases |frames|
  {
    hide PageOf, Unused, Inv, Filled, SameBut, Alike, OwnFrame;
    if frames == [] {
      AlikeSelf(w.spaces[id].areas);
    } else {
      var n := |frames| - 1;
      var before := Fill(w, id, k, v, frames[..n], pages[..n]);
      FillAlike(w, id, k, v, frames[..n], pages[..n]);
      FillStep(w, id, k, v, frames[..n], pages[..n]);
      OneMoreAlike(w, before, id, k, v, n, frames, pages[n]);
    }
  }

  lemma AlikeSelf(areas: Areas)
    ensures Alike(areas, areas)
  {
  }

  lemma OneMoreAlike(w: World, before: World, id: nat, k: nat, v: nat, n: nat, frames: seq<nat>, data: Bytes)
    requires At(w, id, k, v) && |frames| == n + 1 && Filled(w, before, id, v, n, frames[..n])
    requires k in before.spaces[id].areas && SameBut(w.spaces[id].areas[k], before.spaces[id].areas[k])
    requires v + n < w.spaces[id].areas[k].end && Alike(w.spaces[id].areas, before.spaces[id].areas)
    ensures var w' := OwnFrame(before, id, k, v + n, frames[n], PteFlags(before.spaces[id].areas[k].perm, false), data);
      Alike(w.spaces[id].areas, w'.spaces[id].areas)
  {
    hide PageOf, Unused, Inv;
    InvSpace(before, id);
    InstalledAlike(before.spaces[id], k, v + n, frames[n], PteFlags(before.spaces[id].areas[k].perm, false));
  }

  /** A fault changes nothing about any page but what is resident. */
  lemma FaultAlike(w: World, step: Step, w': World, id: nat, v: nat)
    requires Inv(w) && Next(w, step, w') && IsFault(step, id, v)
    ensures id in w.spaces && id in w'.spaces && Alike(w.spaces[id].areas, w'.spaces[id].areas)
  {
    hide PageOf, Unused, Inv, Fill;
    InvSpace(w, id);
    if step.FileFault? {
      FillAlike(w, id, step.k, v, step.frames, step.pages);
    } else {
      var f := w'.spaces[id].pt[v];
      InstalledAlike(w.spaces[id], step.k, v, f.ppn, f.flags);
    }
  }

  /** The page cache is as right as before if only an unused frame was written. */
  lemma CacheUntouched(w: World, w': World, f: nat, data: Bytes, blocks: Blocks)
    requires WholePages(blocks) && w'.cache == w.cache
    requires w'.mem == w.mem || (Unused(w, f) && w'.mem == w.mem[f := data])
    ensures CacheHolds(w, blocks) ==> CacheHolds(w', blocks)
  {
    if CacheHolds(w, blocks) {
      forall c | c in w'.cache ensures w'.cache[c] in w'.mem && w'.mem[w'.cache[c]] == FileBytes(blocks, c.0, c.1) {
        assert FrameOf(w, AtCache(c.0, c.1)) == Some(w.cache[c]);
      }
    }
  }

  lemma CacheLent(w: World, w': World, lender: (nat, nat), f: nat, data: Bytes, id: nat, v: nat, blocks: Blocks)
    requires WholePages(blocks) && CacheHolds(w, blocks) && data == FileBytes(blocks, lender.0, lender.1)
    requires if lender in w.cache then w'.cache == w.cache && w'.mem == w.mem
      else Unused(w, f) && w'.cache == w.cache[lender := f] && w'.mem == w.mem[f := data]
    requires FrameOf(w', AtPage(id, v)) == Some(w'.cache[lender])
    ensures CacheHolds(w', blocks) && HasBytes(w', id, v, data)
  {
    forall c | c in w'.cache ensures w'.cache[c] in w'.mem && w'.mem[w'.cache[c]] == FileBytes(blocks, c.0, c.1) {
      if c in w.cache {
        assert FrameOf(w, AtCache(c.0, c.1)) == Some(w.cache[c]);
      }
    }
  }

  /** The first page of a read-ahead shows the first bytes read. */
  lemma {:induction false} AheadShows(w: World, id: nat, k: nat, v: nat, frames: seq<nat>, pages: seq<Bytes>)
    requires Inv(w) && At(w, id, k, v) && FreshFor(w, id, k, v, frames, pages)
    ensures HasBytes(Fill(w, id, k, v, frames, pages), id, v, pages[0])
    decreases |frames|
  {
    hide Inv, Unused, SameBut, PageOf;
    var n := |frames| - 1;
    var before := Fill(w, id, k, v, frames[..n], pages[..n]);
    if n > 0 {
      AheadShows(w, id, k, v, frames[..n], pages[..n]);
      FillStep(w, id, k, v, frames[..n], pages[..n]);
      StillShows(w, before, id, k, v, n, frames, pages[n], pages[0]);
    }
  }

  lemma StillShows(w: World, before: World, id: nat, k: nat, v: nat, n: nat, frames: seq<nat>, last: Bytes, data: Bytes)
    requires id in w.spaces && |frames| == n + 1 && n > 0 && Filled(w, before, id, v, n, frames[..n])
    requires k in before.spaces[id].areas && HasBytes(before, id, v, data)
    requires Unused(w, frames[n]) && forall i :: 0 <= i < n ==> frames[i] != frames[n]
    ensures HasBytes(OwnFrame(before, id, k, v + n, frames[n], PteFlags(before.spaces[id].areas[k].perm, false), last),
                     id, v, data)
  {
    hide Inv;
    assert frames[n] !in frames[..n];
    assert Unused(before, frames[n]);
    assert FrameOf(before, AtPage(id, v)) != Some(frames[n]);
  }

  lemma {:induction false} AheadCache(w: World, id: nat, k: nat, v: nat, frames: seq<nat>, pages: seq<Bytes>,
                                      blocks: Blocks)
    requires Inv(w) && At(w, id, k, v) && |pages| == |frames| && (frames == [] || FreshFor(w, id, k, v, frames, pages))
    requires WholePages(blocks) && CacheHolds(w, blocks)
    ensures CacheHolds(Fill(w, id, k, v, frames, pages), blocks)
    decreases |frames|
  {
    hide Inv, Unused, SameBut, PageOf, CacheHolds, Filled;
    if frames != [] {
      var n := |frames| - 1;
      var before := Fill(w, id, k, v, frames[..n], pages[..n]);
      AheadCache(w, id, k, v, frames[..n], pages[..n], blocks);
      FillStep(w, id, k, v, frames[..n], pages[..n]);
      FreshStill(w, before, id, v, n, frames);
      CacheUntouched(before, Fill(w, id, k, v, frames, pages), frames[n], pages[n], blocks);
    }
  }

  lemma FreshStill(w: World, before: World, id: nat, v: nat, n: nat, frames: seq<nat>)
    requires id in w.spaces && |frames| == n + 1 && Filled(w, before, id, v, n, frames[..n])
    requires Unused(w, frames[n]) && forall i :: 0 <= i < n ==> frames[i] != frames[n]
    ensures Unused(before, frames[n])
  {
    hide Inv, Unused;
    assert frames[n] !in frames[..n];
  }

  lemma InvSpace(w: World, id: nat)
    requires Inv(w) && id in w.spaces
    ensures GoodSpace(w.spaces[id])
  {
  }

  lemma EntryFacts(sp: Space, v: nat)
    requires GoodSpace(sp)
    ensures v in sp.pt ==> sp.pt[v].flags.v
  {
    if v in sp.pt {
      EntryPage(sp, v);
    }
  }

  lemma OwnedByCover(sp: Space, k: nat, v: nat)
    requires GoodSpace(sp) && Covers(sp.areas, k, v) && v in sp.pt
    ensures v in sp.areas[k].frames && sp.areas[k].frames[v] == sp.pt[v].ppn
  {
    var j: nat :| Owns(sp.areas, j, v);
    CoverUnique(sp.areas, j, k, v);
  }

  lemma FrameLoaded(w: World, id: nat, v: nat)
    requires Inv(w) && id in w.spaces && v in w.spaces[id].pt
    ensures w.spaces[id].pt[v].ppn in w.mem
  {
    assert FrameOf(w, AtPage(id, v)).Some?;
  }

  /** Handing out one frame leaves the others unused. */
  lemma StillUnused(w: World, w': World, f: nat, id: nat, v: nat, free: set<nat>)
    requires forall g :: g in free ==> Unused(w, g)
    requires forall o :: FrameOf(w', o) == FrameOf(w, o) || FrameOf(w', o) == Some(f)
    ensures forall g :: g in free - {f} ==> Unused(w', g)
  {
  }

  lemma LentUnused(w: World, w': World, lender: Owner, id: nat, v: nat, f: nat, free: set<nat>, free': set<nat>)
    requires forall g :: g in free ==> Unused(w, g)
    requires free' == if FrameOf(w, lender).Some? then free else free - {f}
    requires forall o ::
      FrameOf(w', o) == FrameOf(w, o) || (FrameOf(w', o) == FrameOf(w', lender) && FrameOf(w', o).Some?)
    requires FrameOf(w', lender) == if FrameOf(w, lender).Some? then FrameOf(w, lender) else Some(f)
    ensures forall g :: g in free' ==> Unused(w', g)
  {
    forall g | g in free' ensures Unused(w', g) {
      assert Unused(w, g);
    }
  }

  /** The pages a fault on a private file mapping reads, with the tail of the last segment page cleared. */
  ghost predicate ReadsFile(areas: Areas, blocks: Blocks, step: Step)
    requires step.FileFault?
  {
    && WholePages(blocks)
    && step.k in areas && areas[step.k].file.Some? && areas[step.k].start <= step.v
    && forall i :: 0 <= i < |step.pages| ==> step.pages[i] == PageBytes(areas[step.k], blocks, step.v + i)
  }

  /** Distinct frames taken from the free ones for absent pages from `v` on. */
  ghost predicate Collected(w: World, free: set<nat>, rest: set<nat>, id: nat, v: nat, frames: seq<nat>)
    requires id in w.spaces
  {
    && (forall i :: 0 <= i < |frames| ==> frames[i] in free && frames[i] !in rest)
    && rest <= free
    && (forall i, j :: 0 <= i < j < |frames| ==> frames[i] != frames[j])
    && (forall u :: u in w.spaces[id].pt ==> !(v <= u < v + |frames|))
  }

  lemma AheadUnused(w: World, w': World, step: Step, rest: set<nat>)
    requires Inv(w) && step.FileFault? && Next(w, step, w')
    requires forall g :: g in rest ==> Unused(w, g) && g !in step.frames
    ensures forall g :: g in rest ==> Unused(w', g)
    ensures step.id in w'.spaces && step.v in w'.spaces[step.id].pt
  {
    FillStep(w, step.id, step.k, step.v, step.frames, step.pages);
  }

  // ---- fork, area by area ----

  predicate AreaTurnsCow(a: Area) {
    a.perm.w && !a.shared
  }

  function CowEntry(a: Area, v: nat): Pte
    requires v in a.frames
  {
    Pte(a.frames[v], PteFlags(a.perm, AreaTurnsCow(a)))
  }

  /** The resident pages of one area for the child, and the parent's entries afterwards. */
  method ForkArea(a: Area, pt: Entries) returns (frames: map<nat, nat>, own: Entries, tightened: Entries)
    requires GoodArea(a) && forall v :: v in a.frames ==> v in pt && pt[v].flags.v && pt[v].ppn == a.frames[v]
    ensures frames == a.frames
    ensures own == map v | v in a.frames :: CowEntry(a, v)
    ensures tightened == map v | v in pt :: if v in a.frames && AreaTurnsCow(a) then CowEntry(a, v) else pt[v]
  {
    hide CowEntry, AreaTurnsCow, GoodArea;
    frames, own, tightened := map[], map[], pt;
    ForkedNone(a, pt);
    for v := a.start to a.end
      invariant frames == FramesUpto(a, v) && own == OwnUpto(a, v) && tightened == TightenedUpto(a, pt, v)
    {
      ForkedStep(a, pt, v);
      if v in a.frames && v in tightened && tightened[v].flags.v && a.frames[v] == tightened[v].ppn {
        own := own[v := CowEntry(a, v)];
        frames := frames[v := a.frames[v]];
        if AreaTurnsCow(a) {
          tightened := tightened[v := CowEntry(a, v)];
        }
      }
    }
    ForkedAll(a, pt);
  }

  function FramesUpto(a: Area, v: nat): map<nat, nat> {
    map u | u in a.frames && u < v :: a.frames[u]
  }

  function OwnUpto(a: Area, v: nat): Entries {
    map u | u in a.frames && u < v :: CowEntry(a, u)
  }

  function TightenedUpto(a: Area, pt: Entries, v: nat): Entries {
    map u | u in pt :: if u in a.frames && u < v && AreaTurnsCow(a) then CowEntry(a, u) else pt[u]
  }

  lemma ForkedNone(a: Area, pt: Entries)
    requires GoodArea(a)
    ensures a.start <= a.end && FramesUpto(a, a.start) == map[] && OwnUpto(a, a.start) == map[]
    ensures TightenedUpto(a, pt, a.start) == pt
  {
  }

  lemma ForkedStep(a: Area, pt: Entries, v: nat)
    requires forall u :: u in a.frames ==> u in pt && pt[u].flags.v && pt[u].ppn == a.frames[u]
    ensures v in a.frames ==> v in TightenedUpto(a, pt, v) && TightenedUpto(a, pt, v)[v] == pt[v]
    ensures FramesUpto(a, v + 1) == if v in a.frames then FramesUpto(a, v)[v := a.frames[v]] else FramesUpto(a, v)
    ensures OwnUpto(a, v + 1) == if v in a.frames then OwnUpto(a, v)[v := CowEntry(a, v)] else OwnUpto(a, v)
    ensures TightenedUpto(a, pt, v + 1)
         == if v in a.frames && AreaTurnsCow(a) then TightenedUpto(a, pt, v)[v := CowEntry(a, v)]
            else TightenedUpto(a, pt, v)
  {
    hide CowEntry, AreaTurnsCow;
  }

  lemma ForkedAll(a: Area, pt: Entries)
    requires GoodArea(a)
    ensures FramesUpto(a, a.end) == a.frames
    ensures OwnUpto(a, a.end) == map v | v in a.frames :: CowEntry(a, v)
    ensures TightenedUpto(a, pt, a.end)
         == map v | v in pt :: if v in a.frames && AreaTurnsCow(a) then CowEntry(a, v) else pt[v]
  {
    hide CowEntry, AreaTurnsCow;
  }

  function AreasBelow(sp: Space, k: nat): Areas {
    map j | j in sp.areas && j < k :: sp.areas[j]
  }

  ghost function ChildBelow(sp: Space, k: nat): Entries {
    map v | v in sp.pt && OwnedBelow(sp.areas, k, v) :: ForkEntry(sp, v)
  }

  ghost function ParentBelow(sp: Space, k: nat): Entries {
    map v | v in sp.pt :: if OwnedBelow(sp.areas, k, v) && Tightens(sp, v) then ForkEntry(sp, v) else sp.pt[v]
  }

  lemma ForkStart(sp: Space)
    ensures AreasBelow(sp, 0) == map[] && ChildBelow(sp, 0) == map[] && ParentBelow(sp, 0) == sp.pt
  {
    hide ForkEntry, Tightens;
  }

  lemma ForkEnd(sp: Space)
    requires GoodSpace(sp)
    ensures AreasBelow(sp, VPN_LIMIT + 1) == sp.areas
    ensures ChildBelow(sp, VPN_LIMIT + 1) == Child(sp).pt && ParentBelow(sp, VPN_LIMIT + 1) == Parent(sp).pt
  {
    hide ForkEntry, Tightens, OwnedBelow, PageOf, Agree;
    forall v | v in sp.pt ensures OwnedBelow(sp.areas, VPN_LIMIT + 1, v) {
      IsOwned(sp.areas, sp.pt, v);
    }
  }

  /** The entry fork writes for a page of area `k`. */
  lemma ForkEntryIs(sp: Space, k: nat, v: nat)
    requires GoodSpace(sp) && Owns(sp.areas, k, v)
    ensures v in sp.pt && ForkEntry(sp, v) == CowEntry(sp.areas[k], v)
    ensures (Tightens(sp, v) <==> AreaTurnsCow(sp.areas[k]))
    ensures sp.pt[v].flags.v && sp.pt[v].ppn == sp.areas[k].frames[v]
  {
    PageAt(0, sp.areas, k, v);
  }

  lemma OwnedNext(sp: Space, k: nat, v: nat)
    requires GoodAreas(sp.areas)
    ensures OwnedBelow(sp.areas, k + 1, v) <==> OwnedBelow(sp.areas, k, v) || Owns(sp.areas, k, v)
    ensures Owns(sp.areas, k, v) ==> !OwnedBelow(sp.areas, k, v)
  {
  }

  /** What fork knows about the pages of area `k` before it reaches it. */
  ghost predicate ForkReady(sp: Space, k: nat) {
    && (forall v: nat :: OwnedBelow(sp.areas, k + 1, v) <==> OwnedBelow(sp.areas, k, v) || Owns(sp.areas, k, v))
    && (k in sp.areas ==> forall v :: v in sp.areas[k].frames ==> ForkReadyPage(sp, k, v))
  }

  ghost predicate ForkReadyPage(sp: Space, k: nat, v: nat)
    requires Owns(sp.areas, k, v)
  {
    && v in sp.pt && !OwnedBelow(sp.areas, k, v) && ForkEntry(sp, v) == CowEntry(sp.areas[k], v)
    && (Tightens(sp, v) <==> AreaTurnsCow(sp.areas[k])) && sp.pt[v].flags.v && sp.pt[v].ppn == sp.areas[k].frames[v]
  }

  lemma ForkIsReady(sp: Space, k: nat)
    requires GoodSpace(sp)
    ensures ForkReady(sp, k)
  {
    hide ForkEntry, Tightens, OwnedBelow, PageOf, Agree;
    forall v: nat ensures OwnedBelow(sp.areas, k + 1, v) <==> OwnedBelow(sp.areas, k, v) || Owns(sp.areas, k, v) {
      OwnedNext(sp, k, v);
    }
    if k in sp.areas {
      forall v | v in sp.areas[k].frames ensures ForkReadyPage(sp, k, v) {
        OwnedNext(sp, k, v);
        ForkEntryIs(sp, k, v);
      }
    }
  }

  lemma ForkChild(sp: Space, k: nat)
    requires ForkReady(sp, k)
    ensures AreasBelow(sp, k + 1) == if k in sp.areas then AreasBelow(sp, k)[k := sp.areas[k]] else AreasBelow(sp, k)
    ensures k in sp.areas ==>
      ChildBelow(sp, k + 1) == ChildBelow(sp, k) + (map v | v in sp.areas[k].frames :: CowEntry(sp.areas[k], v))
    ensures k !in sp.areas ==> ChildBelow(sp, k + 1) == ChildBelow(sp, k)
  {
    hide ForkEntry, Tightens, OwnedBelow, CowEntry;
  }

  ghost function ParentNext(sp: Space, k: nat): Entries
    requires k in sp.areas
  {
    var a, pt := sp.areas[k], ParentBelow(sp, k);
    map v | v in pt :: if v in a.frames && AreaTurnsCow(a) then CowEntry(a, v) else pt[v]
  }

  lemma ForkParent(sp: Space, k: nat)
    requires ForkReady(sp, k)
    ensures k in sp.areas ==> ParentBelow(sp, k + 1) == ParentNext(sp, k)
    ensures k in sp.areas ==>
      forall v :: v in sp.areas[k].frames ==> v in ParentBelow(sp, k) && ParentBelow(sp, k)[v] == sp.pt[v]
    ensures k !in sp.areas ==> ParentBelow(sp, k + 1) == ParentBelow(sp, k)
  {
    hide ForkEntry, Tightens, OwnedBelow, CowEntry;
  }

  lemma ForkStep(sp: Space, k: nat)
    requires GoodSpace(sp)
    ensures k !in sp.areas ==> AreasBelow(sp, k + 1) == AreasBelow(sp, k) && ChildBelow(sp, k + 1) == ChildBelow(sp, k)
    ensures k !in sp.areas ==> ParentBelow(sp, k + 1) == ParentBelow(sp, k)
    ensures k in sp.areas ==>
      && GoodArea(sp.areas[k])
      && (forall v :: v in sp.areas[k].frames ==>
            && v in ParentBelow(sp, k) && ParentBelow(sp, k)[v].flags.v
            && ParentBelow(sp, k)[v].ppn == sp.areas[k].frames[v])
      && AreasBelow(sp, k + 1) == AreasBelow(sp, k)[k := sp.areas[k]]
      && ChildBelow(sp, k + 1) == ChildBelow(sp, k) + (map v | v in sp.areas[k].frames :: CowEntry(sp.areas[k], v))
      && ParentBelow(sp, k + 1) == ParentNext(sp, k)
  {
    hide ForkEntry, Tightens, OwnedBelow, PageOf, Agree, ChildBelow, ParentBelow, AreasBelow, CowEntry, ParentNext;
    ForkIsReady(sp, k);
    ForkChild(sp, k);
    ForkParent(sp, k);
  }

  lemma ForkUnused(w: World, id: nat, child: nat, free: set<nat>)
    requires Inv(w) && id in w.spaces && child !in w.spaces && forall g :: g in free ==> Unused(w, g)
    ensures forall g :: g in free ==> Unused(Forked(w, id, child), g)
  {
    hide ForkEntry, Tightens, GoodSpace, Inv;
    InvSpace(w, id);
    ForkedSpaces(w.spaces[id]);
    var w' := Forked(w, id, child);
    forall o
      ensures FrameOf(w', o) == if o.AtPage? && o.id == child then FrameOf(w, AtPage(id, o.v)) else FrameOf(w, o)
    {
    }
  }

  // ---- discarding, area by area ----

  function DroppedBelow(sp: Space, k: nat, s: nat, e: nat): Areas {
    map j | j in sp.areas :: if j < k then DroppedArea(sp.areas[j], s, e) else sp.areas[j]
  }

  function DroppedArea(a: Area, s: nat, e: nat): Area {
    a.(frames := Dropped(a.frames, s, e))
  }

  lemma DiscardStart(sp: Space, s: nat, e: nat)
    ensures DroppedBelow(sp, 0, s, e) == sp.areas && WithoutBelow(sp.pt, sp.areas, 0, s, e) == sp.pt
  {
  }

  lemma DiscardEnd(sp: Space, s: nat, e: nat)
    requires GoodSpace(sp)
    ensures DroppedBelow(sp, VPN_LIMIT + 1, s, e) == Discarded(sp, s, e).areas
    ensures WithoutBelow(sp.pt, sp.areas, VPN_LIMIT + 1, s, e) == Discarded(sp, s, e).pt
  {
    hide PageOf, Agree, Dropped;
    AllOwned(sp.areas, sp.pt, s, e);
  }

  /** Dropping the part of the range inside the area is dropping the whole range from it. */
  lemma DropInside(a: Area, s: nat, e: nat)
    requires GoodArea(a)
    ensures DroppedArea(a, s, e) == DroppedIn(a, s, e)
  {
    var from, to := Max(s, a.start), Min(e, a.end);
    assert Dropped(a.frames, s, e) == if from < to && a.kind != Guard then Dropped(a.frames, from, to) else a.frames;
  }

  lemma DiscardStep(sp: Space, k: nat, s: nat, e: nat)
    requires GoodAreas(sp.areas)
    ensures k in DroppedBelow(sp, k, s, e) <==> k in sp.areas
    ensures k in sp.areas ==> DroppedBelow(sp, k, s, e)[k] == sp.areas[k]
    ensures k !in sp.areas ==> DroppedBelow(sp, k + 1, s, e) == DroppedBelow(sp, k, s, e)
    ensures k in sp.areas ==>
      DroppedBelow(sp, k + 1, s, e) == DroppedBelow(sp, k, s, e)[k := DroppedIn(sp.areas[k], s, e)]
  {
    hide DroppedArea, DroppedIn, GoodArea;
    if k in sp.areas {
      DropInside(sp.areas[k], s, e);
    }
  }

  /** The area without the frames of the part of the range inside it; guards and areas outside stay as they are. */
  function DroppedIn(a: Area, s: nat, e: nat): Area {
    var from, to := Max(s, a.start), Min(e, a.end);
    if from < to && a.kind != Guard then a.(frames := Dropped(a.frames, from, to)) else a
  }

  lemma DiscardEntries(sp: Space, k: nat, s: nat, e: nat)
    requires GoodSpace(sp) && k in sp.areas
    ensures var a, pt := sp.areas[k], WithoutBelow(sp.pt, sp.areas, k, s, e);
      var from, to := Max(s, a.start), Min(e, a.end);
      WithoutBelow(sp.pt, sp.areas, k + 1, s, e)
        == if from < to && a.kind != Guard then WithoutPages(pt, a, from, to) else pt
  {
    hide PageOf, Agree, WithoutBelow;
    WithoutNext(sp.areas, sp.pt, k, s, e);
    var a, pt := sp.areas[k], WithoutBelow(sp.pt, sp.areas, k, s, e);
    assert WithoutPages(pt, a, s, e) == WithoutPages(pt, a, Max(s, a.start), Min(e, a.end));
    assert !(Max(s, a.start) < Min(e, a.end) && a.kind != Guard) ==> WithoutPages(pt, a, s, e) == pt;
  }

  lemma DiscardUnused(w: World, id: nat, s: nat, e: nat, free: set<nat>)
    requires id in w.spaces && forall g :: g in free ==> Unused(w, g)
    ensures forall g :: g in free ==> Unused(WithSpace(w, id, Discarded(w.spaces[id], s, e)), g)
  {
    var w' := WithSpace(w, id, Discarded(w.spaces[id], s, e));
    forall o ensures FrameOf(w', o).Some? ==> FrameOf(w', o) == FrameOf(w, o) {
    }
  }
}
