/** Loading all segments of an accepted program. */
module ElfProgram {
  import opened Common
  import opened PageTable
  import opened AddressSpace
  import opened CowIsolation
  import opened CowMachine
  import opened ElfLoad
  import opened ElfParse

  ghost predicate InSegment(s: Segment, bias: nat, v: nat) {
    s.memsz != 0 && Floor(s.vaddr + bias) <= v < Ceil(s.vaddr + bias + s.memsz)
  }

  /** Exactly the pages of the first `n` segments are mapped, each as its segment says. */
  ghost predicate Loaded(mm: nat, areas: Areas, loads: seq<Segment>, bias: nat, ino: nat, n: nat)
    requires n <= |loads|
  {
    && GoodAreas(areas) && (forall k :: k in areas ==> areas[k].start < areas[k].end)
    && (forall i, v: nat :: 0 <= i < n && InSegment(loads[i], bias, v) ==>
          PageOf(mm, areas, v) == Some(SegmentPage(mm, loads[i], loads[i].vaddr + bias, ino, v)))
    && (forall v: nat :: PageOf(mm, areas, v).Some? ==> exists i :: 0 <= i < n && InSegment(loads[i], bias, v))
  }

  /** Segments apart before relocation are apart after it. */
  lemma StillApart(loads: seq<Segment>, bias: nat, i: nat, j: nat, v: nat)
    requires PagesApart(loads) && bias % PAGE_SIZE == 0 && i < |loads| && j < |loads| && i != j
    requires InSegment(loads[i], bias, v)
    ensures !InSegment(loads[j], bias, v)
  {
    if loads[j].memsz != 0 {
      assert i < j ==> Apart(RangeOf(loads[i]), RangeOf(loads[j]));
      assert j < i ==> Apart(RangeOf(loads[j]), RangeOf(loads[i]));
      PageIn(loads[i], bias, v);
      PageIn(loads[j], bias, v);
    }
  }

  lemma PageIn(s: Segment, bias: nat, v: nat)
    requires bias % PAGE_SIZE == 0 && s.memsz != 0
    ensures InSegment(s, bias, v) <==> RangeOf(s).lo + bias <= v * PAGE_SIZE < RangeOf(s).hi + bias
  {
    assert (s.vaddr + bias) / PAGE_SIZE == s.vaddr / PAGE_SIZE + bias / PAGE_SIZE;
    assert (s.vaddr + bias + s.memsz + PAGE_SIZE - 1) / PAGE_SIZE
        == (s.vaddr + s.memsz + PAGE_SIZE - 1) / PAGE_SIZE + bias / PAGE_SIZE;
  }

  /** Pages no area covers lie in no area. */
  lemma FreePages(mm: nat, areas: Areas, loads: seq<Segment>, bias: nat, ino: nat, n: nat)
    requires n < |loads| && Loaded(mm, areas, loads, bias, ino, n) && PagesApart(loads) && bias % PAGE_SIZE == 0
    requires loads[n].memsz != 0
    ensures Vacant(areas, Floor(loads[n].vaddr + bias), Ceil(loads[n].vaddr + bias + loads[n].memsz))
  {
    hide SegmentPage, PagesApart, PageOf, Describe;
    var lo, hi := Floor(loads[n].vaddr + bias), Ceil(loads[n].vaddr + bias + loads[n].memsz);
    forall k | k in areas ensures areas[k].end <= lo || hi <= k {
      if lo < areas[k].end && k < hi {
        var v := if k < lo then lo else k;
        assert Covers(areas, k, v);
        PageAt(mm, areas, k, v);
        var i :| 0 <= i < n && InSegment(loads[i], bias, v);
        StillApart(loads, bias, i, n, v);
        assert false;
      }
    }
  }

  lemma LoadedMore(mm: nat, areas: Areas, areas': Areas, loads: seq<Segment>, bias: nat, ino: nat, n: nat)
    requires n < |loads| && Loaded(mm, areas, loads, bias, ino, n) && PagesApart(loads) && bias % PAGE_SIZE == 0
    requires var s := loads[n];
      if s.memsz == 0 then areas' == areas
      else Shows(mm, areas, areas', s, s.vaddr + bias, ino, Floor(s.vaddr + bias), Ceil(s.vaddr + bias + s.memsz))
    ensures Loaded(mm, areas', loads, bias, ino, n + 1)
  {
    hide SegmentPage, PagesApart, PageOf, GoodAreas;
    var s := loads[n];
    forall i, v: nat | 0 <= i < n + 1 && InSegment(loads[i], bias, v)
      ensures PageOf(mm, areas', v) == Some(SegmentPage(mm, loads[i], loads[i].vaddr + bias, ino, v))
    {
      if i < n && s.memsz != 0 {
        StillApart(loads, bias, i, n, v);
      }
    }
    forall v: nat | PageOf(mm, areas', v).Some? ensures exists i :: 0 <= i < n + 1 && InSegment(loads[i], bias, v) {
      if s.memsz == 0 || !InSegment(s, bias, v) {
        assert PageOf(mm, areas, v).Some?;
      }
    }
  }

  /** Map every segment of a program into an empty address space. */
  method LoadProgram(l: Loader, loads: seq<Segment>, bias: nat, ino: nat) returns (ok: bool)
    requires l.areas == map[] && PagesApart(loads) && bias % PAGE_SIZE == 0
    modifies l
    ensures ok <==> forall i :: 0 <= i < |loads| ==> Fits(loads[i], loads[i].vaddr + bias)
    ensures ok ==> Loaded(l.mm, l.areas, loads, bias, ino, |loads|)
  {
    hide PageOf, PagesApart, SegmentPage, Loaded, Fits, Shows, Vacant, GoodAreas;
    LoadedNone(l.mm, loads, bias, ino);
    for n := 0 to |loads|
      invariant Loaded(l.mm, l.areas, loads, bias, ino, n)
      invariant forall i :: 0 <= i < n ==> Fits(loads[i], loads[i].vaddr + bias)
    {
      LoadedFacts(l.mm, l.areas, loads, bias, ino, n);
      if loads[n].memsz != 0 {
        FreePages(l.mm, l.areas, loads, bias, ino, n);
      }
      ghost var was := l.areas;
      ok := l.MapSegment(loads[n], loads[n].vaddr + bias, ino);
      if !ok {
        return;
      }
      LoadedMore(l.mm, was, l.areas, loads, bias, ino, n);
    }
    ok := true;
  }

  lemma LoadedNone(mm: nat, loads: seq<Segment>, bias: nat, ino: nat)
    ensures Loaded(mm, map[], loads, bias, ino, 0)
  {
  }

  lemma LoadedFacts(mm: nat, areas: Areas, loads: seq<Segment>, bias: nat, ino: nat, n: nat)
    requires n <= |loads| && Loaded(mm, areas, loads, bias, ino, n)
    ensures GoodAreas(areas) && forall k :: k in areas ==> areas[k].start < areas[k].end
  {
  }

  // ---- the image ----

  /** The byte at address `x` once its page has been faulted in. */
  ghost function ByteAt(mm: nat, areas: Areas, blocks: Blocks, x: nat): Option<bv8>
    requires WholePages(blocks)
  {
    var p := PageOf(mm, areas, Floor(x));
    if p.Some? then Some(Content(p.value, blocks, Floor(x))[x % PAGE_SIZE]) else None
  }

  /** The page cache gives the bytes of the file. */
  ghost predicate Holds(blocks: Blocks, ino: nat, file: Bytes)
    requires WholePages(blocks)
  {
    forall pos: nat :: pos < |file| ==> FileByte(blocks, ino, pos) == file[pos]
  }

  /** Every byte of every segment: file contents below the file size, zero up to the memory size. */
  lemma ImageBytes(mm: nat, areas: Areas, loads: seq<Segment>, bias: nat, ino: nat, blocks: Blocks, file: Bytes,
                   i: nat, x: nat)
    requires WholePages(blocks) && Holds(blocks, ino, file) && Loaded(mm, areas, loads, bias, ino, |loads|)
    requires i < |loads|
    requires Fits(loads[i], loads[i].vaddr + bias) && loads[i].offset + loads[i].filesz <= |file|
    requires loads[i].vaddr + bias <= x < loads[i].vaddr + bias + loads[i].memsz
    ensures ByteAt(mm, areas, blocks, x)
         == Some(if x < loads[i].vaddr + bias + loads[i].filesz then file[loads[i].offset + (x - loads[i].vaddr - bias)]
           else 0)
  {
    hide PageOf, Content, SegmentPage, FileByte;
    var s := loads[i];
    SegmentBytes(mm, s, s.vaddr + bias, ino, blocks, x);
    assert InSegment(s, bias, Floor(x));
    if x < s.vaddr + bias + s.filesz {
      var pos: nat := s.offset + (x - s.vaddr - bias);
      assert FileByte(blocks, ino, pos) == file[pos];
    }
  }

  lemma TableByte(mm: nat, areas: Areas, loads: seq<Segment>, t: ElfParse.Table, file: Bytes, bias: nat, ino: nat,
                  blocks: Blocks, k: nat)
    requires WholePages(blocks) && Holds(blocks, ino, file) && Loaded(mm, areas, loads, bias, ino, |loads|)
    requires forall i :: 0 <= i < |loads| ==> Fits(loads[i], loads[i].vaddr + bias) && SegmentGood(loads[i], |file|)
    requires TableAddress(loads, t).Some? && k < t.count * PHDR_SIZE && TableEnd(t) <= |file|
    ensures ByteAt(mm, areas, blocks, TableAddress(loads, t).value + bias + k) == Some(file[t.at + k])
  {
    hide PageOf, ByteAt, Loaded, Fits, TableAddress, WholePages, Holds;
    TableIsHeld(loads, t);
    var i :|
      && 0 <= i < |loads| && HoldsTable(loads[i], t)
      && TableAddress(loads, t).value == loads[i].vaddr + (t.at - loads[i].offset);
    ImageBytes(mm, areas, loads, bias, ino, blocks, file, i, TableAddress(loads, t).value + bias + k);
  }

  /** A reported table address shows exactly the bytes of the header table. */
  lemma TableBytes(mm: nat, areas: Areas, file: Bytes, bias: nat, ino: nat, blocks: Blocks, k: nat)
    requires WholePages(blocks) && Acceptable(file) && Holds(blocks, ino, file)
    requires var t := TableOf(file);
      var loads := Loads(Headers(file, t));
      && Loaded(mm, areas, loads, bias, ino, |loads|)
      && (forall i :: 0 <= i < |loads| ==> Fits(loads[i], loads[i].vaddr + bias))
      && TableAddress(loads, t).Some? && k < t.count * PHDR_SIZE
    ensures var t := TableOf(file);
      var loads := Loads(Headers(file, t));
      ByteAt(mm, areas, blocks, TableAddress(loads, t).value + bias + k) == Some(file[t.at + k])
  {
    hide PageOf, ByteAt, Loaded, Fits, Headers, Loads, OneGood, TableAddress, PagesApart, WholePages, Holds;
    var t := TableOf(file);
    LoadsGood(Headers(file, t), file, t);
    TableByte(mm, areas, Loads(Headers(file, t)), t, file, bias, ino, blocks, k);
  }

  // ---- touching the image ----

  lemma SameContent(mm: nat, areas: Areas, now: Areas, blocks: Blocks, v: nat)
    requires WholePages(blocks) && GoodAreas(areas) && Alike(areas, now)
    ensures PageOf(mm, areas, v).Some? <==> PageOf(0, now, v).Some?
    ensures PageOf(mm, areas, v).Some? ==>
      && Content(PageOf(0, now, v).value, blocks, v) == Content(PageOf(mm, areas, v).value, blocks, v)
      && PageOf(0, now, v).value.registry == PageOf(mm, areas, v).value.registry
  {
    assert Bare(PageOf(0, now, v)) == Bare(PageOf(0, areas, v));
    if k :| Covers(areas, k, v) {
      PageAt(0, areas, k, v);
      PageAt(mm, areas, k, v);
    }
  }

  /** The first touch of address `x` of a loaded program, after any other faults: the byte the processor then loads. */
  method FirstTouch(m: Machine, id: nat, x: nat, ghost mm: nat, ghost areas: Areas) returns (ok: bool, b: bv8)
    requires m.Valid() && id in m.spaces && CacheHolds(m.Now(), m.blocks)
    requires GoodAreas(areas) && Alike(areas, m.spaces[id].areas)
    requires PageOf(mm, areas, Floor(x)).Some? ==> PageOf(mm, areas, Floor(x)).value.registry.None?
    modifies m
    ensures m.Valid() && id in m.spaces && CacheHolds(m.Now(), m.blocks) && Alike(areas, m.spaces[id].areas)
    ensures ok <==> exists k: nat :: Servable(old(m.Now()), old(m.free), m.sizes, id, k, Floor(x))
    ensures ok ==> ByteAt(mm, areas, m.blocks, x) == Some(b)
  {
    hide PageOf, GoodAreas, Inv, Servable, Alike, CacheHolds, Content;
    var v := Floor(x);
    ghost var was, before := m.Now(), m.spaces[id].areas;
    ghost var step;
    ok, step := m.HandlePageFault(id, v);
    if !ok {
      return false, 0;
    }
    FaultAlike(was, step, m.Now(), id, v);
    AlikeOn(areas, before, m.spaces[id].areas);
    SameContent(mm, areas, before, m.blocks, v);
    b := m.mem[m.spaces[id].pt[v].ppn][x % PAGE_SIZE];
  }

  lemma AlikeOn(a: Areas, b: Areas, c: Areas)
    requires Alike(a, b) && Alike(b, c)
    ensures Alike(a, c)
  {
    hide PageOf;
  }

  /** The pages of a loaded program have no registry. */
  lemma NoRegistry(mm: nat, areas: Areas, loads: seq<Segment>, bias: nat, ino: nat, v: nat)
    requires Loaded(mm, areas, loads, bias, ino, |loads|)
    ensures PageOf(mm, areas, v).Some? ==> PageOf(mm, areas, v).value.registry.None?
  {
    hide PageOf;
    if PageOf(mm, areas, v).Some? {
      var i :| 0 <= i < |loads| && InSegment(loads[i], bias, v);
    }
  }

  /** Touching any byte of any segment for the first time loads the byte of the file, or zero behind the file's part. */
  method TouchImage(m: Machine, id: nat, x: nat, ghost mm: nat, ghost areas: Areas, ghost loads: seq<Segment>,
                    ghost bias: nat, ghost ino: nat, ghost file: Bytes, ghost i: nat) returns (ok: bool, b: bv8)
    requires m.Valid() && id in m.spaces && CacheHolds(m.Now(), m.blocks) && Alike(areas, m.spaces[id].areas)
    requires WholePages(m.blocks) && Holds(m.blocks, ino, file) && Loaded(mm, areas, loads, bias, ino, |loads|)
    requires i < |loads|
    requires Fits(loads[i], loads[i].vaddr + bias) && loads[i].offset + loads[i].filesz <= |file|
    requires loads[i].vaddr + bias <= x < loads[i].vaddr + bias + loads[i].memsz
    modifies m
    ensures m.Valid() && id in m.spaces && CacheHolds(m.Now(), m.blocks) && Alike(areas, m.spaces[id].areas)
    ensures ok <==> exists k: nat :: Servable(old(m.Now()), old(m.free), m.sizes, id, k, Floor(x))
    ensures ok ==>
      b == if x < loads[i].vaddr + bias + loads[i].filesz then file[loads[i].offset + (x - loads[i].vaddr - bias)]
        else 0
  {
    hide PageOf, Inv, Servable, Alike, CacheHolds, Content, SegmentPage, InSegment, FileByte, Fits;
    NoRegistry(mm, areas, loads, bias, ino, Floor(x));
    LoadedFacts(mm, areas, loads, bias, ino, |loads|);
    ImageBytes(mm, areas, loads, bias, ino, m.blocks, file, i, x);
    ok, b := FirstTouch(m, id, x, mm, areas);
  }

  /** The same for the header table at the reported address. */
  method TouchTable(m: Machine, id: nat, k: nat, bias: nat, address: nat, ghost mm: nat, ghost areas: Areas,
                    ghost file: Bytes, ghost ino: nat) returns (ok: bool, b: bv8)
    requires m.Valid() && id in m.spaces && CacheHolds(m.Now(), m.blocks) && Alike(areas, m.spaces[id].areas)
    requires WholePages(m.blocks) && Acceptable(file) && Holds(m.blocks, ino, file)
    requires Tabled(mm, areas, file, bias, ino, address, k)
    modifies m
    ensures m.Valid() && id in m.spaces && CacheHolds(m.Now(), m.blocks) && Alike(areas, m.spaces[id].areas)
    ensures var v := Floor(address + bias + k);
      ok <==> exists j: nat :: Servable(old(m.Now()), old(m.free), m.sizes, id, j, v)
    ensures ok ==> TableOf(file).at + k < |file| && b == file[TableOf(file).at + k]
  {
    hide PageOf, Inv, Servable, Alike, CacheHolds, Content;
    hide Loaded, Fits, Headers, Loads, TableAddress, Holds, Acceptable;
    TableReady(mm, areas, file, bias, ino, m.blocks, address, k);
    ok, b := FirstTouch(m, id, address + bias + k, mm, areas);
  }

  /** The file is loaded, and `address` is where it reports byte 0 of its header table. */
  ghost predicate Tabled(mm: nat, areas: Areas, file: Bytes, bias: nat, ino: nat, address: nat, k: nat)
    requires Acceptable(file)
  {
    var t := TableOf(file);
    var loads := Loads(Headers(file, t));
    && Loaded(mm, areas, loads, bias, ino, |loads|)
    && (forall i :: 0 <= i < |loads| ==> Fits(loads[i], loads[i].vaddr + bias))
    && TableAddress(loads, t) == Some(address) && k < t.count * PHDR_SIZE
  }

  lemma TableReady(mm: nat, areas: Areas, file: Bytes, bias: nat, ino: nat, blocks: Blocks, address: nat, k: nat)
    requires WholePages(blocks) && Acceptable(file) && Holds(blocks, ino, file)
    requires Tabled(mm, areas, file, bias, ino, address, k)
    ensures GoodAreas(areas)
    ensures var v := Floor(address + bias + k); PageOf(mm, areas, v).Some? ==> PageOf(mm, areas, v).value.registry.None?
    ensures TableOf(file).at + k < |file|
    ensures ByteAt(mm, areas, blocks, address + bias + k) == Some(file[TableOf(file).at + k])
  {
    hide PageOf, ByteAt, Loaded, Fits, Headers, Loads, OneGood, TableAddress, PagesApart, Holds;
    var loads := Loads(Headers(file, TableOf(file)));
    NoRegistry(mm, areas, loads, bias, ino, Floor(address + bias + k));
    LoadedFacts(mm, areas, loads, bias, ino, |loads|);
    TableBytes(mm, areas, file, bias, ino, blocks, k);
  }
}
