/** User address spaces: disjoint areas keyed by their first page, and what each page of them is.

  All mappings are made of 4K pages; the page table is the map from page numbers
  to leaf entries that the three-level table implements.
 */
module AddressSpace {
  import opened Common
  import opened PageTable

  datatype Perm = Perm(r: bool, w: bool, x: bool, u: bool)

  datatype MapType = Framed | File | Guard

  /** A backing file and the file page that the area's first page shows. */
  datatype Backing = Backing(ino: nat, writable: bool, page: nat)

  datatype Area = Area(
    start: nat,
    end: nat,
    kind: MapType,
    perm: Perm,
    shared: bool,
    locked: bool,
    file: Option<Backing>,
    cacheCow: bool,
    zeroFrom: Option<nat>,
    registry: Option<nat>,
    futexId: nat,
    futexStart: nat,
    frames: map<nat, nat>)

  type Areas = map<nat, Area>
  type Entries = map<nat, Pte>

  predicate In(a: Area, v: nat) {
    a.start <= v < a.end
  }

  /** An area's own consistency: resident frames lie inside it, and guards own none. */
  predicate GoodArea(a: Area) {
    && a.start <= a.end <= VPN_LIMIT && a.start < VPN_LIMIT
    && (forall v :: v in a.frames ==> In(a, v))
    && (a.kind == Guard ==> a.frames == map[])
  }

  /** Areas are keyed by their start and do not overlap; an area may be empty but lies inside no other. */
  predicate GoodAreas(areas: Areas) {
    && (forall k :: k in areas ==> areas[k].start == k && GoodArea(areas[k]))
    && (forall j, k :: j in areas && k in areas && j < k ==> areas[j].end <= k)
  }

  /** The area keyed `k` owns a frame for page `v`. */
  predicate Owns(areas: Areas, k: nat, v: nat) {
    k in areas && v in areas[k].frames
  }

  /** A page has an entry exactly when its area owns a frame for it, and the entry shows that frame. */
  ghost predicate Agree(areas: Areas, pt: Entries) {
    && (forall v :: v in pt ==> exists k :: Owns(areas, k, v))
    && (forall k, v :: Owns(areas, k, v) ==> v in pt && pt[v].ppn == areas[k].frames[v] && pt[v].flags.v)
  }

  // ---- one page ----

  /** The object behind a futex in this page and the page's place in it. */
  datatype FutexObject =
    | OfMm(mm: nat, page: nat)
    | OfAnonymous(id: nat, page: nat)
    | OfFile(ino: nat, page: nat)
    | NoObject

  function FutexOf(mm: nat, a: Area, v: nat): FutexObject
    requires In(a, v)
  {
    if !a.shared then OfMm(mm, v)
    else if a.registry.Some? then
      if v < a.futexStart then NoObject else OfAnonymous(a.futexId, v - a.futexStart)
    else if a.file.Some? then OfFile(a.file.value.ino, a.file.value.page + (v - a.start))
    else NoObject
  }

  /** Everything the kernel knows about one mapped page. */
  datatype Page = Page(
    kind: MapType,
    perm: Perm,
    shared: bool,
    locked: bool,
    file: Option<Backing>,
    cacheCow: bool,
    zeroFrom: Option<nat>,
    registry: Option<nat>,
    futex: FutexObject,
    frame: Option<nat>)

  /** The page as its area describes it; `file.page` is the file page behind this very page. */
  function Describe(mm: nat, a: Area, v: nat): Page
    requires In(a, v)
  {
    Page(a.kind, a.perm, a.shared, a.locked,
         if a.file.Some? then Some(a.file.value.(page := a.file.value.page + (v - a.start))) else None,
         a.cacheCow, a.zeroFrom, a.registry, FutexOf(mm, a, v),
         if v in a.frames then Some(a.frames[v]) else None)
  }

  const PAGE_SIZE: nat := 4096
  const USIZE: nat := 0x1_0000_0000_0000_0000

  /** The key a futex wait queue is found by. */
  datatype FutexKey =
    | PrivateKey(mm: nat, address: nat)
    | MmKey(mm: nat, address: nat)
    | AnonymousKey(id: nat, offset: nat)
    | FileKey(ino: nat, offset: nat)

  /** The key of byte address `va`, from its page alone. */
  function KeyOf(mm: nat, page: Option<Page>, va: nat, privateRequested: bool): Option<FutexKey> {
    var inPage := va % PAGE_SIZE;
    if page.None? || !page.value.perm.u then None
    else if privateRequested then Some(PrivateKey(mm, va))
    else
      match page.value.futex
      case NoObject => None
      case OfMm(owner, p) => Some(MmKey(owner, p * PAGE_SIZE + inPage))
      case OfAnonymous(id, p) => Some(AnonymousKey(id, p * PAGE_SIZE + inPage))
      case OfFile(ino, p) => if p * PAGE_SIZE + inPage < USIZE then Some(FileKey(ino, p * PAGE_SIZE + inPage)) else None
  }

  predicate Covers(areas: Areas, k: nat, v: nat) {
    k in areas && In(areas[k], v)
  }

  ghost function PageOf(mm: nat, areas: Areas, v: nat): Option<Page> {
    if k :| Covers(areas, k, v) then Some(Describe(mm, areas[k], v)) else None
  }

  lemma CoverUnique(areas: Areas, j: nat, k: nat, v: nat)
    requires GoodAreas(areas) && Covers(areas, j, v) && Covers(areas, k, v)
    ensures j == k
  {
  }

  lemma PageAt(mm: nat, areas: Areas, k: nat, v: nat)
    requires GoodAreas(areas) && Covers(areas, k, v)
    ensures PageOf(mm, areas, v) == Some(Describe(mm, areas[k], v))
  {
    var j :| Covers(areas, j, v);
    CoverUnique(areas, j, k, v);
  }

  ghost predicate Mapped(areas: Areas, v: nat) {
    exists k: nat :: Covers(areas, k, v)
  }

  /** The last area keyed at or below the page, if it holds the page. */
  method LookupArea(areas: Areas, v: nat) returns (k: Option<nat>)
    requires GoodAreas(areas)
    ensures k.Some? ==> Covers(areas, k.value, v)
    ensures k.None? ==> !Mapped(areas, v)
  {
    var c := v + 1;
    while c > 0
      invariant 0 <= c <= v + 1
      invariant forall j :: j in areas && c <= j ==> j > v
    {
      c := c - 1;
      if c in areas {
        return if v < areas[c].end then Some(c) else None;
      }
    }
    return None;
  }

  // ---- cutting areas ----

  /** The area with other bounds: the file page follows the start, frames outside are dropped. */
  function Narrow(a: Area, start: nat, end: nat): Area
    requires a.start <= start
  {
    a.(start := start, end := end,
       file := if a.file.Some? then Some(a.file.value.(page := a.file.value.page + (start - a.start))) else None,
       frames := map v | v in a.frames && start <= v < end :: a.frames[v])
  }

  /** The test of the unmap loop: some part of `[s, e)` or its single point lies in the area. */
  predicate Meets(a: Area, s: nat, e: nat) {
    a.start < e && a.end > s
  }

  /** What keeps the key of area `a`: all of it, or the part before the range. */
  predicate KeepsKey(a: Area, s: nat, e: nat) {
    !Meets(a, s, e) || a.start < s
  }

  function LeftPart(a: Area, s: nat, e: nat): Area {
    if Meets(a, s, e) && a.start <= s then Narrow(a, a.start, s) else a
  }

  /** The area that goes on behind the range. */
  predicate Crosses(a: Area, s: nat, e: nat) {
    Meets(a, s, e) && a.end > e
  }

  function RightPart(a: Area, e: nat): Area
    requires a.start <= e
  {
    Narrow(a, e, a.end)
  }

  /** `areas'` is `areas` with the pages of `[s, e)` cut out: parts before keep their key, a part behind is keyed
      `e`. */
  ghost predicate IsCut(areas: Areas, areas': Areas, s: nat, e: nat) {
    && (forall k :: k in areas && KeepsKey(areas[k], s, e) ==> k in areas' && areas'[k] == LeftPart(areas[k], s, e))
    && (forall k :: k in areas && Crosses(areas[k], s, e) ==> e in areas' && areas'[e] == RightPart(areas[k], e))
    && (forall k :: k in areas' ==> FromCut(areas, k, s, e))
  }

  ghost predicate FromCut(areas: Areas, k: nat, s: nat, e: nat) {
    (k in areas && KeepsKey(areas[k], s, e)) || (k == e && exists j :: j in areas && Crosses(areas[j], s, e))
  }

  lemma NarrowPage(mm: nat, a: Area, start: nat, end: nat, v: nat)
    requires a.start <= start <= v < end <= a.end
    ensures Describe(mm, Narrow(a, start, end), v) == Describe(mm, a, v)
  {
  }

  lemma NarrowGood(a: Area, start: nat, end: nat)
    requires GoodArea(a) && a.start <= start <= end <= a.end && start < VPN_LIMIT
    ensures GoodArea(Narrow(a, start, end))
  {
  }

  lemma CutGood(areas: Areas, areas': Areas, s: nat, e: nat)
    requires GoodAreas(areas) && IsCut(areas, areas', s, e) && s <= e
    ensures GoodAreas(areas')
  {
    forall k | k in areas' ensures areas'[k].start == k && GoodArea(areas'[k]) {
      assert FromCut(areas, k, s, e);
      if k in areas && KeepsKey(areas[k], s, e) {
        if Meets(areas[k], s, e) {
          NarrowGood(areas[k], k, s);
        }
      } else {
        var j :| j in areas && Crosses(areas[j], s, e);
        NarrowGood(areas[j], e, areas[j].end);
      }
    }
    forall j, k | j in areas' && k in areas' && j < k ensures areas'[j].end <= k {
      assert FromCut(areas, j, s, e) && FromCut(areas, k, s, e);
    }
  }

  /** A page of the cut areas comes from the same page of the old ones, outside the range. */
  lemma CutBack(mm: nat, areas: Areas, areas': Areas, s: nat, e: nat, k: nat, v: nat) returns (j: nat)
    requires GoodAreas(areas) && IsCut(areas, areas', s, e) && s <= e && Covers(areas', k, v)
    ensures !(s <= v < e) && Covers(areas, j, v) && Describe(mm, areas'[k], v) == Describe(mm, areas[j], v)
  {
    assert FromCut(areas, k, s, e);
    if k in areas && KeepsKey(areas[k], s, e) {
      j := k;
      if Meets(areas[k], s, e) {
        NarrowPage(mm, areas[k], k, s, v);
      }
    } else {
      j :| j in areas && Crosses(areas[j], s, e);
      NarrowPage(mm, areas[j], e, areas[j].end, v);
    }
  }

  /** A page outside the range is still there. */
  lemma CutForth(mm: nat, areas: Areas, areas': Areas, s: nat, e: nat, k: nat, v: nat) returns (j: nat)
    requires GoodAreas(areas) && IsCut(areas, areas', s, e) && s <= e && Covers(areas, k, v) && !(s <= v < e)
    ensures Covers(areas', j, v) && Describe(mm, areas'[j], v) == Describe(mm, areas[k], v)
  {
    if !Meets(areas[k], s, e) {
      j := k;
    } else if v < s {
      j := k;
      NarrowPage(mm, areas[k], k, s, v);
    } else {
      j := e;
      NarrowPage(mm, areas[k], e, areas[k].end, v);
    }
  }

  /** Unmapping removes exactly the pages of the range; every other page keeps all its attributes. */
  lemma CutMeaning(mm: nat, areas: Areas, areas': Areas, s: nat, e: nat, v: nat)
    requires GoodAreas(areas) && IsCut(areas, areas', s, e) && s <= e
    ensures GoodAreas(areas')
    ensures PageOf(mm, areas', v) == if s <= v < e then None else PageOf(mm, areas, v)
  {
    CutGood(areas, areas', s, e);
    if k :| Covers(areas', k, v) {
      var j := CutBack(mm, areas, areas', s, e, k, v);
      PageAt(mm, areas, j, v);
      PageAt(mm, areas', k, v);
    } else if k :| Covers(areas, k, v) {
      if !(s <= v < e) {
        var j := CutForth(mm, areas, areas', s, e, k, v);
      }
    }
  }

  function Outside(pt: Entries, s: nat, e: nat): Entries {
    map v | v in pt && !(s <= v < e) :: pt[v]
  }

  lemma CutOwns(areas: Areas, areas': Areas, s: nat, e: nat, v: nat)
    requires GoodAreas(areas) && IsCut(areas, areas', s, e) && s <= e
    ensures forall k ::
      Owns(areas', k, v) ==> !(s <= v < e) && exists j :: Owns(areas, j, v) && areas[j].frames[v] == areas'[k].frames[v]
    ensures !(s <= v < e) ==> forall k :: Owns(areas, k, v) ==> exists j :: Owns(areas', j, v)
  {
    CutGood(areas, areas', s, e);
    forall k | Owns(areas', k, v)
      ensures !(s <= v < e) && exists j :: Owns(areas, j, v) && areas[j].frames[v] == areas'[k].frames[v]
    {
      var j := CutBack(0, areas, areas', s, e, k, v);
      assert Owns(areas, j, v);
    }
    if !(s <= v < e) {
      forall k | Owns(areas, k, v) ensures exists j :: Owns(areas', j, v) {
        var j := CutForth(0, areas, areas', s, e, k, v);
        assert Owns(areas', j, v);
      }
    }
  }

  /** Entries and owned frames still agree once the entries of the range are gone. */
  lemma CutAgree(areas: Areas, areas': Areas, pt: Entries, s: nat, e: nat)
    requires GoodAreas(areas) && IsCut(areas, areas', s, e) && s <= e && Agree(areas, pt)
    ensures Agree(areas', Outside(pt, s, e))
  {
    var pt' := Outside(pt, s, e);
    forall v | v in pt' ensures exists k :: Owns(areas', k, v) {
      CutOwns(areas, areas', s, e, v);
    }
    forall k, v | Owns(areas', k, v) ensures v in pt' && pt'[v].ppn == areas'[k].frames[v] && pt'[v].flags.v {
      CutOwns(areas, areas', s, e, v);
    }
  }
}
