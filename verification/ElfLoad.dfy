/** Program segments as areas, and the bytes a program finds in them. */
module ElfLoad {
  import opened Common
  import opened PageTable
  import opened AddressSpace
  import opened CowIsolation
  import opened CowRuns
  import opened CowMachine

  const USER_APP_MAX: nat := 0x40_0000_0000
  const USER_TRAMPOLINE: nat := USER_APP_MAX - PAGE_SIZE

  datatype Segment = Segment(offset: nat, vaddr: nat, filesz: nat, memsz: nat, perm: Perm)

  function Floor(x: nat): nat { x / PAGE_SIZE }
  function Ceil(x: nat): nat { (x + PAGE_SIZE - 1) / PAGE_SIZE }

  /** Byte `pos` of the file; holes read as zero. */
  function FileByte(blocks: Blocks, ino: nat, pos: nat): bv8
    requires WholePages(blocks)
  {
    FileBytes(blocks, ino, pos / PAGE_SIZE)[pos % PAGE_SIZE]
  }

  // ---- the areas of one segment ----

  predicate Fits(seg: Segment, start: nat) {
    && seg.filesz <= seg.memsz && start % PAGE_SIZE == seg.offset % PAGE_SIZE
    && start < USER_TRAMPOLINE && seg.memsz <= USER_TRAMPOLINE - start
  }

  function FileArea(s: nat, e: nat, perm: Perm, ino: nat, page: nat, cow: bool, zeroFrom: Option<nat>): Area {
    Area(s, e, File, perm, false, false, Some(Backing(ino, false, page)), cow, zeroFrom, None, 0, s, map[])
  }

  function ZeroArea(s: nat, e: nat, perm: Perm): Area {
    Area(s, e, Framed, perm, false, false, None, false, None, None, 0, s, map[])
  }

  /** Page `v` of a segment: whole file pages, then a partly cleared one, then zeroes. */
  function SegmentPage(mm: nat, seg: Segment, start: nat, ino: nat, v: nat): Page
    requires Floor(start) <= v
  {
    var end := start + seg.filesz;
    var file := Some(Backing(ino, false, seg.offset / PAGE_SIZE + (v - Floor(start))));
    if seg.filesz != 0 && v < Floor(end) then
      Page(File, seg.perm, false, false, file, true, None, None, OfMm(mm, v), None)
    else if seg.filesz != 0 && v == Floor(end) && end % PAGE_SIZE != 0 then
      Page(File, seg.perm, false, false, file, false, Some(end), None, OfMm(mm, v), None)
    else Page(Framed, seg.perm, false, false, None, false, None, None, OfMm(mm, v), None)
  }

  /** Every byte of the segment is the file's byte below its file size and zero from there on. */
  lemma SegmentBytes(mm: nat, seg: Segment, start: nat, ino: nat, blocks: Blocks, x: nat)
    requires WholePages(blocks) && Fits(seg, start) && start <= x < start + seg.memsz
    ensures Floor(start) <= Floor(x) < Ceil(start + seg.memsz)
    ensures Content(SegmentPage(mm, seg, start, ino, Floor(x)), blocks, Floor(x))[x % PAGE_SIZE]
         == if x < start + seg.filesz then FileByte(blocks, ino, seg.offset + (x - start)) else 0
  {
    SamePosition(seg.offset, start, x);
    var v, end := Floor(x), start + seg.filesz;
    if seg.filesz != 0 && v == Floor(end) && end % PAGE_SIZE != 0 {
      var data := FileBytes(blocks, ino, seg.offset / PAGE_SIZE + (v - Floor(start)));
      TailByte(data, v, end, x % PAGE_SIZE);
    }
  }

  /** Where file and address agree on the offset in a page, they agree on pages. */
  lemma SamePosition(offset: nat, start: nat, x: nat)
    requires start % PAGE_SIZE == offset % PAGE_SIZE && start <= x
    ensures (offset + (x - start)) / PAGE_SIZE == offset / PAGE_SIZE + (Floor(x) - Floor(start))
    ensures (offset + (x - start)) % PAGE_SIZE == x % PAGE_SIZE
  {
  }

  lemma TailByte(data: Bytes, v: nat, end: nat, i: nat)
    requires |data| == PAGE_SIZE && v == Floor(end) && end % PAGE_SIZE != 0 && i < PAGE_SIZE
    ensures PrivateBytes(data, v, Some(end))[i] == if v * PAGE_SIZE + i < end then data[i] else 0
  {
  }

  /** The areas cover exactly these pages more, each as given. */
  ghost predicate Laid(mm: nat, areas: Areas, areas': Areas, seg: Segment, start: nat, ino: nat, lo: nat, hi: nat)
    requires Floor(start) <= lo
  {
    && GoodAreas(areas')
    && forall v: nat :: PageOf(mm, areas', v) == if lo <= v < hi then Some(SegmentPage(mm, seg, start, ino, v))
      else PageOf(mm, areas, v)
  }

  lemma LaidMore(mm: nat, areas: Areas, mid: Areas, a: Area, seg: Segment, start: nat, ino: nat, lo: nat)
    requires Floor(start) <= lo <= a.start && Laid(mm, areas, mid, seg, start, ino, lo, a.start) && Reservable(mid, a)
    requires forall v: nat :: In(a, v) ==> Describe(mm, a, v) == SegmentPage(mm, seg, start, ino, v)
    ensures Laid(mm, areas, mid[a.start := a], seg, start, ino, lo, a.end)
  {
    hide PageOf, Describe, SegmentPage, GoodAreas, Reservable;
    var after := mid[a.start := a];
    ReservedPageFor(mm, mid, a, 0);
    forall v: nat
      ensures PageOf(mm, after, v) == if lo <= v < a.end then Some(SegmentPage(mm, seg, start, ino, v))
        else PageOf(mm, areas, v)
    {
      ReservedPageFor(mm, mid, a, v);
      BoundsOf(mid, a);
    }
  }

  lemma BoundsOf(areas: Areas, a: Area)
    requires Reservable(areas, a)
    ensures a.start <= a.end
  {
  }

  lemma ReservedPageFor(mm: nat, areas: Areas, a: Area, v: nat)
    requires GoodAreas(areas) && Reservable(areas, a)
    ensures GoodAreas(areas[a.start := a])
    ensures PageOf(mm, areas[a.start := a], v) == if In(a, v) then Some(Describe(mm, a, v)) else PageOf(mm, areas, v)
  {
    hide Describe;
    ReservedPage(areas, a, v);
    var areas' := areas[a.start := a];
    if In(a, v) {
      PageAt(mm, areas', a.start, v);
    } else if k :| Covers(areas, k, v) {
      PageAt(mm, areas, k, v);
      PageAt(mm, areas', k, v);
    } else {
      forall k: nat ensures !Covers(areas', k, v) {
        assert !Covers(areas, k, v);
      }
    }
  }

  // ---- loading ----

  /** No area reaches into pages `[lo, hi)`. */
  ghost predicate Vacant(areas: Areas, lo: nat, hi: nat) {
    forall k :: k in areas ==> areas[k].end <= lo || hi <= k
  }

  /** The area shows its pages as the segment does. */
  ghost predicate IsPart(mm: nat, a: Area, seg: Segment, start: nat, ino: nat)
    requires Floor(start) <= a.start
  {
    a.start < a.end ==>
      && GoodArea(a) && a.frames == map[] && a.registry.None?
      && forall v: nat :: In(a, v) ==> Describe(mm, a, v) == SegmentPage(mm, seg, start, ino, v)
  }

  class Loader {
    const mm: nat
    var areas: Areas

    constructor (mm: nat)
      ensures areas == map[] && this.mm == mm
    {
      this.mm, areas := mm, map[];
    }

    /** Insert an area unless it is empty or touches another one. */
    method InsertArea(a: Area) returns (ok: bool)
      modifies this`areas
      ensures ok <==>
        a.start < a.end && forall k :: k in old(areas) ==> !(a.end > old(areas)[k].start && a.start < old(areas)[k].end)
      ensures areas == if ok then old(areas)[a.start := a] else old(areas)
    {
      ok := a.start < a.end && forall k :: k in areas ==> !(a.end > areas[k].start && a.start < areas[k].end);
      if ok {
        areas := areas[a.start := a];
      }
    }

    /** Insert the part of a segment from page `s` to page `e`, if there is one. */
    method InsertPart(a: Area, ghost was: Areas, ghost seg: Segment, ghost start: nat, ghost ino: nat, ghost lo: nat,
                      ghost hi: nat) returns (ok: bool)
      requires Floor(start) <= lo <= a.start <= a.end <= hi <= VPN_LIMIT && GoodAreas(was)
      requires Shows(mm, was, areas, seg, start, ino, lo, a.start) && Vacant(was, lo, hi)
      requires IsPart(mm, a, seg, start, ino) && forall k :: k in was ==> was[k].start < was[k].end
      modifies this`areas
      ensures ok && Shows(mm, was, areas, seg, start, ino, lo, a.end)
    {
      hide PageOf, Describe, SegmentPage, Shows, Laid, IsPart, Vacant, GoodAreas, Floor;
      if a.start < a.end {
        ShowsMore(mm, was, areas, a, seg, start, ino, lo, hi);
        ok := InsertArea(a);
      } else {
        ok := true;
      }
    }

    /** Map one segment: whole file pages from the page cache, the last partial page privately, the rest as zero
        pages. */
    method MapSegment(seg: Segment, start: nat, ino: nat) returns (ok: bool)
      requires GoodAreas(areas) && (forall k :: k in areas ==> areas[k].start < areas[k].end)
      requires Fits(seg, start) && seg.memsz != 0 ==> Vacant(areas, Floor(start), Ceil(start + seg.memsz))
      modifies this`areas
      ensures ok <==> Fits(seg, start)
      ensures !ok || seg.memsz == 0 ==> areas == old(areas)
      ensures ok && seg.memsz != 0 ==>
        Shows(mm, old(areas), areas, seg, start, ino, Floor(start), Ceil(start + seg.memsz))
    {
      if !Fits(seg, start) {
        return false;
      }
      if seg.memsz == 0 {
        return true;
      }
      hide PageOf, Describe, SegmentPage, Laid, Shows, IsPart, Floor, Ceil, Vacant, GoodAreas;
      var first, fileEnd, last := Floor(start), start + seg.filesz, Ceil(start + seg.memsz);
      ShowsNone(mm, areas, seg, start, ino, first);
      var bss := first;
      if seg.filesz != 0 {
        var full, page := Floor(fileEnd), seg.offset / PAGE_SIZE;
        PartPages(mm, seg, start, ino);
        ok := InsertPart(FileArea(first, full, seg.perm, ino, page, true, None), old(areas), seg, start, ino, first,
                         last);
        if fileEnd % PAGE_SIZE != 0 {
          ok := InsertPart(FileArea(full, full + 1, seg.perm, ino, page + (full - first), false, Some(fileEnd)),
                           old(areas), seg, start, ino, first, last);
        }
        bss := Ceil(fileEnd);
      }
      ZeroPages(mm, seg, start, ino, bss);
      ok := InsertPart(ZeroArea(bss, last, seg.perm), old(areas), seg, start, ino, first, last);
    }
  }

  /** Only nonempty areas for these pages were added. */
  ghost predicate Shows(mm: nat, areas: Areas, areas': Areas, seg: Segment, start: nat, ino: nat, lo: nat, hi: nat)
    requires Floor(start) <= lo
  {
    && Laid(mm, areas, areas', seg, start, ino, lo, hi)
    && (forall k :: k in areas' ==> areas'[k].start < areas'[k].end)
    && (forall k :: k in areas' ==> k in areas || (lo <= k && areas'[k].end <= hi))
    && (forall k :: k in areas ==> k in areas' && areas'[k] == areas[k])
  }

  lemma ShowsNone(mm: nat, areas: Areas, seg: Segment, start: nat, ino: nat, lo: nat)
    requires Floor(start) <= lo && GoodAreas(areas) && forall k :: k in areas ==> areas[k].start < areas[k].end
    ensures Shows(mm, areas, areas, seg, start, ino, lo, lo)
  {
  }

  lemma PartFits(mm: nat, was: Areas, areas: Areas, a: Area, seg: Segment, start: nat, ino: nat, lo: nat, hi: nat)
    requires Floor(start) <= lo <= a.start < a.end <= hi && GoodAreas(was)
    requires Shows(mm, was, areas, seg, start, ino, lo, a.start) && Vacant(was, lo, hi)
    requires GoodArea(a) && a.frames == map[] && a.registry.None?
    ensures Reservable(areas, a) && a.start !in areas
    ensures forall k :: k in areas ==> !(a.end > areas[k].start && a.start < areas[k].end)
  {
    hide PageOf;
    forall k | k in areas ensures areas[k].end <= a.start || a.end <= k {
      if k in was {
        assert was[k].end <= lo || hi <= k;
      }
    }
  }

  /** One more part in place: the segment shows up to the part's end. */
  lemma ShowsMore(mm: nat, was: Areas, areas: Areas, a: Area, seg: Segment, start: nat, ino: nat, lo: nat, hi: nat)
    requires Floor(start) <= lo <= a.start < a.end <= hi && GoodAreas(was)
    requires Shows(mm, was, areas, seg, start, ino, lo, a.start) && Vacant(was, lo, hi)
    requires IsPart(mm, a, seg, start, ino)
    ensures forall k :: k in areas ==> !(a.end > areas[k].start && a.start < areas[k].end)
    ensures Shows(mm, was, areas[a.start := a], seg, start, ino, lo, a.end)
  {
    hide PageOf, Describe, SegmentPage, Laid, GoodAreas;
    PartFits(mm, was, areas, a, seg, start, ino, lo, hi);
    LaidMore(mm, was, areas, a, seg, start, ino, lo);
  }

  /** The file parts of a segment describe their pages as the segment does. */
  lemma PartPages(mm: nat, seg: Segment, start: nat, ino: nat)
    requires Fits(seg, start) && seg.filesz != 0
    ensures var first, end := Floor(start), start + seg.filesz;
      var full, page := Floor(end), seg.offset / PAGE_SIZE;
      && first <= full <= Ceil(end) <= Ceil(start + seg.memsz) <= VPN_LIMIT
      && Ceil(end) == (if end % PAGE_SIZE != 0 then full + 1 else full)
      && IsPart(mm, FileArea(first, full, seg.perm, ino, page, true, None), seg, start, ino)
      && (end % PAGE_SIZE != 0 ==>
            IsPart(mm, FileArea(full, full + 1, seg.perm, ino, page + (full - first), false, Some(end)), seg, start,
                   ino))
  {
  }

  lemma ZeroPages(mm: nat, seg: Segment, start: nat, ino: nat, bss: nat)
    requires Fits(seg, start) && seg.memsz != 0
    requires bss == if seg.filesz == 0 then Floor(start) else Ceil(start + seg.filesz)
    ensures Floor(start) <= bss <= Ceil(start + seg.memsz) <= VPN_LIMIT
    ensures IsPart(mm, ZeroArea(bss, Ceil(start + seg.memsz), seg.perm), seg, start, ino)
  {
  }
}
