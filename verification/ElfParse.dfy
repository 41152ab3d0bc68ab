/** Reading the headers of a program file. */
module ElfParse {
  import opened Common
  import opened PageTable
  import opened AddressSpace
  import opened CowIsolation
  import opened ElfLoad

  const EHDR_SIZE: nat := 64
  const PHDR_SIZE: nat := 56
  const MAX_HEADERS: nat := 1024
  const MAX_INTERP: nat := 4096
  const RISCV: nat := 0xf3
  const ET_EXEC: nat := 2
  const ET_DYN: nat := 3
  const PT_LOAD: nat := 1
  const PT_INTERP: nat := 3
  const PT_PHDR: nat := 6

  function U16(s: Bytes, i: nat): nat
    requires i + 2 <= |s|
  {
    s[i] as int + 256 * (s[i + 1] as int)
  }

  function U32(s: Bytes, i: nat): nat
    requires i + 4 <= |s|
  {
    U16(s, i) + 65536 * U16(s, i + 2)
  }

  function U64(s: Bytes, i: nat): nat
    requires i + 8 <= |s|
  {
    U32(s, i) + 0x1_0000_0000 * U32(s, i + 4)
  }

  datatype Header = Header(kind: nat, r: bool, w: bool, x: bool, offset: nat, vaddr: nat, filesz: nat, memsz: nat,
                           align: nat)

  function HeaderAt(file: Bytes, at: nat): Header
    requires at + PHDR_SIZE <= |file|
  {
    var flags := U32(file, at + 4);
    Header(U32(file, at), flags / 4 % 2 == 1, flags / 2 % 2 == 1, flags % 2 == 1,
           U64(file, at + 8), U64(file, at + 16), U64(file, at + 32), U64(file, at + 40), U64(file, at + 48))
  }

  function ToSegment(h: Header): Segment {
    Segment(h.offset, h.vaddr, h.filesz, h.memsz, Perm(h.r, h.w, h.x, true))
  }

  datatype Table = Table(at: nat, count: nat)

  function TableEnd(t: Table): nat { t.at + t.count * PHDR_SIZE }

  /** The file header announces a program this loader knows, with its header table inside the file. */
  predicate HeaderGood(file: Bytes) {
    && |file| >= EHDR_SIZE
    && file[0] == 0x7f && file[1] == 0x45 && file[2] == 0x4c && file[3] == 0x46
    && file[4] == 2 && file[5] == 1 && file[6] == 1 && U32(file, 20) == 1
    && U16(file, 18) == RISCV && (U16(file, 16) == ET_EXEC || U16(file, 16) == ET_DYN)
    && U16(file, 52) == EHDR_SIZE && U16(file, 54) == PHDR_SIZE && 0 < U16(file, 56) <= MAX_HEADERS
    && EHDR_SIZE <= U64(file, 32) && U64(file, 32) % 8 == 0 && TableEnd(TableOf(file)) <= |file|
  }

  function TableOf(file: Bytes): Table
    requires |file| >= EHDR_SIZE
  {
    Table(U64(file, 32), U16(file, 56))
  }

  function Headers(file: Bytes, t: Table): (hs: seq<Header>)
    requires TableEnd(t) <= |file|
    ensures |hs| == t.count
  {
    seq(t.count, i requires 0 <= i < t.count => HeaderAt(file, t.at + i * PHDR_SIZE))
  }

  predicate PowerOfTwo(n: nat) {
    n == 1 || (n > 0 && n % 2 == 0 && PowerOfTwo(n / 2))
  }

  predicate LoadGood(h: Header, size: nat) {
    && (h.align > 1 ==> h.vaddr % h.align == h.offset % h.align && PowerOfTwo(h.align))
    && h.filesz <= h.memsz && h.offset + h.filesz <= size && h.vaddr % PAGE_SIZE == h.offset % PAGE_SIZE
    && h.vaddr + h.memsz < USIZE
  }

  /** The bytes before the first zero byte. */
  function BeforeZero(s: Bytes): Bytes {
    if s == [] || s[0] == 0 then [] else [s[0]] + BeforeZero(s[1..])
  }

  predicate Continues(b: bv8) {
    0x80 <= b <= 0xbf
  }

  /** The bytes are well-formed UTF-8: shortest forms, no surrogates, nothing above the last code point. */
  predicate Utf8(s: Bytes) {
    s == [] ||
    if s[0] < 0x80 then Utf8(s[1..])
    else if 0xc2 <= s[0] <= 0xdf then |s| >= 2 && Continues(s[1]) && Utf8(s[2..])
    else if 0xe0 <= s[0] <= 0xef then
      && |s| >= 3 && Continues(s[1]) && Continues(s[2])
      && (s[0] == 0xe0 ==> s[1] >= 0xa0) && (s[0] == 0xed ==> s[1] <= 0x9f)
      && Utf8(s[3..])
    else
      && 0xf0 <= s[0] <= 0xf4 && |s| >= 4 && Continues(s[1]) && Continues(s[2]) && Continues(s[3])
      && (s[0] == 0xf0 ==> s[1] >= 0x90) && (s[0] == 0xf4 ==> s[1] <= 0x8f)
      && Utf8(s[4..])
  }

  /** The path of the interpreter is inside the file, ends in a zero byte, is not empty and is text. */
  predicate InterpGood(h: Header, file: Bytes) {
    && 0 < h.filesz <= h.memsz && h.filesz <= MAX_INTERP && h.offset + h.filesz <= |file|
    && var path := file[h.offset..h.offset + h.filesz];
    && path[0] != 0 && 0 in path && Utf8(BeforeZero(path))
  }

  predicate TableGood(h: Header, t: Table, size: nat) {
    && h.memsz >= t.count * PHDR_SIZE && h.offset <= t.at && TableEnd(t) <= h.offset + h.filesz <= size
    && h.vaddr + h.memsz < USIZE && h.vaddr + (t.at - h.offset) < USIZE
  }

  predicate OneGood(h: Header, file: Bytes, t: Table) {
    && (h.kind == PT_LOAD ==> LoadGood(h, |file|))
    && (h.kind == PT_INTERP ==> InterpGood(h, file))
    && (h.kind == PT_PHDR ==> TableGood(h, t, |file|))
  }

  /** The loadable segments in header order. */
  function Loads(hs: seq<Header>): seq<Segment> {
    if hs == [] then []
    else Loads(hs[..|hs| - 1]) + if hs[|hs| - 1].kind == PT_LOAD then [ToSegment(hs[|hs| - 1])] else []
  }

  // ---- pages of different segments do not meet ----

  datatype Range = Range(lo: nat, hi: nat)

  predicate Apart(a: Range, b: Range) {
    a.hi <= b.lo || b.hi <= a.lo
  }

  function RangeOf(s: Segment): Range {
    Range(s.vaddr - s.vaddr % PAGE_SIZE, (s.vaddr + s.memsz + PAGE_SIZE - 1) / PAGE_SIZE * PAGE_SIZE)
  }

  ghost predicate AllApart(rs: seq<Range>) {
    forall i, j :: 0 <= i < j < |rs| ==> Apart(rs[i], rs[j])
  }

  predicate Before(a: Range, b: Range) {
    a.lo < b.lo || (a.lo == b.lo && a.hi <= b.hi)
  }

  predicate Sorted(rs: seq<Range>) {
    forall i, j :: 0 <= i < j < |rs| ==> Before(rs[i], rs[j])
  }

  /** Insert a range behind all smaller ones. */
  method InsertSorted(rs: seq<Range>, r: Range) returns (out: seq<Range>, ghost at: nat)
    requires Sorted(rs)
    ensures at <= |rs| && out == rs[..at] + [r] + rs[at..] && Sorted(out)
  {
    var i := |rs|;
    while i > 0 && !Before(rs[i - 1], r)
      invariant 0 <= i <= |rs|
      invariant forall j :: i <= j < |rs| ==> Before(r, rs[j])
    {
      i := i - 1;
    }
    return rs[..i] + [r] + rs[i..], i;
  }

  lemma InsertedApart(rs: seq<Range>, at: nat, r: Range)
    requires at <= |rs|
    ensures AllApart(rs[..at] + [r] + rs[at..]) <==> AllApart(rs + [r])
  {
    var out, end := rs[..at] + [r] + rs[at..], rs + [r];
    if AllApart(end) {
      forall i, j | 0 <= i < j < |out| ensures Apart(out[i], out[j]) {
        var i', j' := if i < at then i else i - 1, if j < at then j else j - 1;
        if i == at {
          assert Apart(end[j'], end[|rs|]);
        } else if j == at {
          assert Apart(end[i'], end[|rs|]);
        } else {
          assert Apart(end[i'], end[j']);
        }
      }
    }
    if AllApart(out) {
      forall i, j | 0 <= i < j < |end| ensures Apart(end[i], end[j]) {
        var i' := if i < at then i else i + 1;
        if j == |rs| {
          assert i' < at ==> Apart(out[i'], out[at]);
          assert at < i' ==> Apart(out[at], out[i']);
        } else {
          assert Apart(out[i'], out[if j < at then j else j + 1]);
        }
      }
    }
  }

  lemma AppendApart(rs: seq<Range>, r: Range)
    ensures AllApart(rs + [r]) <==> AllApart(rs) && forall x :: x in rs ==> Apart(x, r)
  {
    var end := rs + [r];
    if AllApart(end) {
      forall i, j | 0 <= i < j < |rs| ensures Apart(rs[i], rs[j]) {
        assert Apart(end[i], end[j]);
      }
      forall x | x in rs ensures Apart(x, r) {
        var i :| 0 <= i < |rs| && rs[i] == x;
        assert Apart(end[i], end[|rs|]);
      }
    }
  }

  /** In sorted order neighbours decide. */
  lemma NeighboursApart(rs: seq<Range>)
    requires Sorted(rs) && forall i :: 0 <= i < |rs| ==> rs[i].lo < rs[i].hi
    ensures AllApart(rs) <==> forall i :: 0 <= i < |rs| - 1 ==> rs[i].hi <= rs[i + 1].lo
  {
    if AllApart(rs) {
      forall i | 0 <= i < |rs| - 1 ensures rs[i].hi <= rs[i + 1].lo {
        assert Apart(rs[i], rs[i + 1]) && Before(rs[i], rs[i + 1]);
      }
    }
    if forall i :: 0 <= i < |rs| - 1 ==> rs[i].hi <= rs[i + 1].lo {
      forall i, j | 0 <= i < j < |rs| ensures Apart(rs[i], rs[j]) {
        assert i + 1 < j ==> Before(rs[i + 1], rs[j]);
      }
    }
  }

  /** Sort the ranges and compare neighbours. */
  method RangesApart(rs: seq<Range>) returns (ok: bool)
    requires forall i :: 0 <= i < |rs| ==> rs[i].lo < rs[i].hi
    ensures ok <==> AllApart(rs)
  {
    hide AllApart, Before, Apart;
    var sorted: seq<Range> := [];
    NoRanges(rs[..0]);
    for i := 0 to |rs|
      invariant Sorted(sorted) && (AllApart(sorted) <==> AllApart(rs[..i]))
      invariant forall r :: r in sorted <==> r in rs[..i]
    {
      ghost var at;
      ghost var was := sorted;
      sorted, at := InsertSorted(sorted, rs[i]);
      InsertedApart(was, at, rs[i]);
      AppendApart(was, rs[i]);
      AppendApart(rs[..i], rs[i]);
      assert rs[..i] + [rs[i]] == rs[..i + 1];
      SameMembers(was, at, rs[i]);
    }
    assert rs[..|rs|] == rs;
    assert forall i :: 0 <= i < |sorted| ==> sorted[i] in sorted;
    NeighboursApart(sorted);
    var i := 0;
    while i + 1 < |sorted|
      invariant 0 <= i && forall j :: 0 <= j < i && j + 1 < |sorted| ==> sorted[j].hi <= sorted[j + 1].lo
    {
      if sorted[i].hi > sorted[i + 1].lo {
        return false;
      }
      i := i + 1;
    }
    return true;
  }

  lemma NoRanges(rs: seq<Range>)
    requires rs == []
    ensures AllApart(rs) && AllApart([])
  {
  }

  lemma SameMembers(rs: seq<Range>, at: nat, r: Range)
    requires at <= |rs|
    ensures forall x :: x in rs[..at] + [r] + rs[at..] <==> x in rs || x == r
  {
    assert rs == rs[..at] + rs[at..];
  }

  /** The page ranges of the segments that occupy memory. */
  function Ranges(loads: seq<Segment>): seq<Range> {
    if loads == [] then []
    else Ranges(loads[..|loads| - 1]) + if loads[|loads| - 1].memsz != 0 then [RangeOf(loads[|loads| - 1])] else []
  }

  /** The segments stay on pages of their own. */
  ghost predicate PagesApart(loads: seq<Segment>) {
    forall i, j :: 0 <= i < j < |loads| && loads[i].memsz != 0 && loads[j].memsz != 0 ==>
      Apart(RangeOf(loads[i]), RangeOf(loads[j]))
  }

  lemma {:induction false} RangesMember(loads: seq<Segment>, r: Range)
    ensures r in Ranges(loads) <==> exists i :: 0 <= i < |loads| && loads[i].memsz != 0 && RangeOf(loads[i]) == r
  {
    if loads != [] {
      RangesMember(loads[..|loads| - 1], r);
    }
  }

  lemma {:induction false} RangesDecide(loads: seq<Segment>)
    ensures AllApart(Ranges(loads)) <==> PagesApart(loads)
  {
    if loads != [] {
      hide AllApart, Apart, RangeOf, Ranges;
      var n := |loads| - 1;
      RangesDecide(loads[..n]);
      RangesLast(loads);
      if loads[n].memsz != 0 {
        AppendApart(Ranges(loads[..n]), RangeOf(loads[n]));
        forall x
          ensures x in Ranges(loads[..n]) <==> exists i :: 0 <= i < n && loads[i].memsz != 0 && RangeOf(loads[i]) == x
        {
          RangesMember(loads[..n], x);
        }
      }
    } else {
      NoRanges(Ranges(loads));
    }
  }

  lemma RangesLast(loads: seq<Segment>)
    requires loads != []
    ensures var n := |loads| - 1;
      Ranges(loads) == if loads[n].memsz != 0 then Ranges(loads[..n]) + [RangeOf(loads[n])] else Ranges(loads[..n])
  {
  }

  // ---- where the header table ends up ----

  predicate HoldsTable(s: Segment, t: Table) {
    s.offset <= t.at && TableEnd(t) <= s.offset + s.filesz
  }

  /** The address of the table in the first segment that holds it. */
  function TableAddress(loads: seq<Segment>, t: Table): Option<nat> {
    if loads == [] then None
    else if HoldsTable(loads[0], t) then Some(loads[0].vaddr + (t.at - loads[0].offset))
    else TableAddress(loads[1..], t)
  }

  lemma {:induction false} TableIsHeld(loads: seq<Segment>, t: Table)
    ensures TableAddress(loads, t).Some? ==>
      exists i ::
        && 0 <= i < |loads| && HoldsTable(loads[i], t)
        && TableAddress(loads, t).value == loads[i].vaddr + (t.at - loads[i].offset)
  {
    if loads != [] && !HoldsTable(loads[0], t) {
      TableIsHeld(loads[1..], t);
      if TableAddress(loads[1..], t).Some? {
        var i :|
          && 0 <= i < |loads[1..]| && HoldsTable(loads[1..][i], t)
          && TableAddress(loads[1..], t).value == loads[1..][i].vaddr + (t.at - loads[1..][i].offset);
        assert loads[1..][i] == loads[i + 1];
      }
    }
  }

  // ---- the whole header ----

  datatype Program = Program(dynamic: bool, entry: nat, loads: seq<Segment>, table: Table, address: Option<nat>)

  predicate Executable(s: Segment, entry: nat) {
    s.perm.x && s.vaddr <= entry < s.vaddr + s.memsz
  }

  /** The address a table header declares. */
  function Declared(hs: seq<Header>, t: Table): Option<int> {
    if hs == [] then None
    else if hs[|hs| - 1].kind == PT_PHDR then Some(hs[|hs| - 1].vaddr + (t.at - hs[|hs| - 1].offset))
    else Declared(hs[..|hs| - 1], t)
  }

  predicate Many(hs: seq<Header>, kind: nat) {
    exists i, j :: 0 <= i < j < |hs| && hs[i].kind == kind && hs[j].kind == kind
  }

  /** What a program file must satisfy to be loaded. */
  ghost predicate Acceptable(file: Bytes) {
    && HeaderGood(file)
    && var t := TableOf(file);
      var hs := Headers(file, t);
      && (forall i :: 0 <= i < |hs| ==> OneGood(hs[i], file, t))
      && !Many(hs, PT_INTERP) && !Many(hs, PT_PHDR)
      && var loads := Loads(hs);
        && (exists i :: 0 <= i < |loads| && Executable(loads[i], U64(file, 24)))
        && (forall i :: 0 <= i < |loads| && loads[i].memsz != 0 ==>
              loads[i].vaddr + loads[i].memsz + PAGE_SIZE - 1 < USIZE)
        && PagesApart(loads)
        && (Declared(hs, t).Some? ==>
              TableAddress(loads, t).Some? && Declared(hs, t).value == TableAddress(loads, t).value)
  }

  lemma {:induction false} LoadsGood(hs: seq<Header>, file: Bytes, t: Table)
    requires forall i :: 0 <= i < |hs| ==> OneGood(hs[i], file, t)
    ensures forall i :: 0 <= i < |Loads(hs)| ==> SegmentGood(Loads(hs)[i], |file|)
  {
    if hs != [] {
      LoadsGood(hs[..|hs| - 1], file, t);
    }
  }

  predicate SegmentGood(s: Segment, size: nat) {
    && s.filesz <= s.memsz && s.offset + s.filesz <= size && s.vaddr % PAGE_SIZE == s.offset % PAGE_SIZE
    && s.vaddr + s.memsz < USIZE
  }

  predicate Occurs(hs: seq<Header>, kind: nat) {
    exists i :: 0 <= i < |hs| && hs[i].kind == kind
  }

  lemma ManyStep(hs: seq<Header>, i: nat, kind: nat)
    requires i < |hs|
    ensures Many(hs[..i + 1], kind) <==> Many(hs[..i], kind) || (hs[i].kind == kind && Occurs(hs[..i], kind))
    ensures Occurs(hs[..i + 1], kind) <==> Occurs(hs[..i], kind) || hs[i].kind == kind
    ensures Many(hs[..i + 1], kind) ==> Many(hs, kind)
  {
  }

  lemma PrefixStep(hs: seq<Header>, i: nat, t: Table)
    requires i < |hs|
    ensures Loads(hs[..i + 1]) == Loads(hs[..i]) + if hs[i].kind == PT_LOAD then [ToSegment(hs[i])] else []
    ensures Declared(hs[..i + 1], t) == if hs[i].kind == PT_PHDR then Some(hs[i].vaddr + (t.at - hs[i].offset))
      else Declared(hs[..i], t)
  {
    assert hs[..i + 1][..i] == hs[..i];
  }

  /** Go through the header table once. */
  method ReadHeaders(file: Bytes, t: Table) returns (ok: bool, loads: seq<Segment>, declared: Option<int>)
    requires TableEnd(t) <= |file|
    ensures var hs := Headers(file, t);
      && (ok <==> (forall i :: 0 <= i < |hs| ==> OneGood(hs[i], file, t)) && !Many(hs, PT_INTERP) && !Many(hs, PT_PHDR))
      && (ok ==> loads == Loads(hs) && declared == Declared(hs, t))
  {
    hide Headers, Loads, Declared, LoadGood, InterpGood, TableGood, Many, Occurs;
    var hs := Headers(file, t);
    loads, declared := [], None;
    var interp, phdr := false, false;
    NoHeaders(hs[..0], t);
    for i := 0 to |hs|
      invariant forall j :: 0 <= j < i ==> OneGood(hs[j], file, t)
      invariant !Many(hs[..i], PT_INTERP) && !Many(hs[..i], PT_PHDR)
      invariant (interp <==> Occurs(hs[..i], PT_INTERP)) && (phdr <==> Occurs(hs[..i], PT_PHDR))
      invariant loads == Loads(hs[..i]) && declared == Declared(hs[..i], t)
    {
      var h := hs[i];
      ManyStep(hs, i, PT_INTERP);
      ManyStep(hs, i, PT_PHDR);
      PrefixStep(hs, i, t);
      if h.kind == PT_LOAD {
        if !LoadGood(h, |file|) {
          return false, loads, declared;
        }
        loads := loads + [ToSegment(h)];
      } else if h.kind == PT_INTERP {
        if interp || !InterpGood(h, file) {
          return false, loads, declared;
        }
        interp := true;
      } else if h.kind == PT_PHDR {
        if phdr || !TableGood(h, t, |file|) {
          return false, loads, declared;
        }
        declared, phdr := Some(h.vaddr + (t.at - h.offset)), true;
      }
    }
    assert hs[..|hs|] == hs;
    ok := true;
  }

  lemma NoHeaders(hs: seq<Header>, t: Table)
    requires hs == []
    ensures !Many(hs, PT_INTERP) && !Many(hs, PT_PHDR) && !Occurs(hs, PT_INTERP) && !Occurs(hs, PT_PHDR)
    ensures Loads(hs) == [] && Declared(hs, t) == None
  {
  }

  /** Accept exactly the acceptable files, and report their segments and where the header table will be. */
  method Parse(file: Bytes) returns (r: Option<Program>)
    ensures r.Some? <==> Acceptable(file)
    ensures r.Some? ==> var t := TableOf(file);
      var loads := Loads(Headers(file, t));
      r.value == Program(U16(file, 16) == ET_DYN, U64(file, 24), loads, t, TableAddress(loads, t))
  {
    hide Headers, Loads, Declared, OneGood, Many, PagesApart, TableAddress, U64, U32, U16;
    if !HeaderGood(file) {
      return None;
    }
    var t := TableOf(file);
    var ok, loads, declared := ReadHeaders(file, t);
    if !ok {
      return None;
    }
    var entry := U64(file, 24);
    if !exists i :: 0 <= i < |loads| && Executable(loads[i], entry) {
      return None;
    }
    var ranges, fit := CollectRanges(loads);
    if !fit {
      return None;
    }
    RangesDecide(loads);
    RangesNonempty(loads);
    var apart := RangesApart(ranges);
    if !apart {
      return None;
    }
    var mapped := TableAddress(loads, t);
    if declared.Some? && (mapped.None? || mapped.value != declared.value) {
      return None;
    }
    TableInside(Headers(file, t), file, t);
    if mapped.Some? && !exists i :: 0 <= i < |loads| && HoldsAddress(loads[i], t, mapped.value) {
      return None;
    }
    return Some(Program(U16(file, 16) == ET_DYN, entry, loads, t, mapped));
  }

  /** The segment maps the table's bytes at this address, inside its memory. */
  predicate HoldsAddress(s: Segment, t: Table, address: nat) {
    HoldsTable(s, t) && s.vaddr <= address && address + t.count * PHDR_SIZE <= s.vaddr + s.memsz
  }

  /** The address taken from a segment always passes the last check. */
  lemma TableInside(hs: seq<Header>, file: Bytes, t: Table)
    requires forall i :: 0 <= i < |hs| ==> OneGood(hs[i], file, t)
    ensures var loads := Loads(hs);
      TableAddress(loads, t).Some? ==>
        exists i :: 0 <= i < |loads| && HoldsAddress(loads[i], t, TableAddress(loads, t).value)
  {
    hide Loads, OneGood, TableAddress;
    var loads := Loads(hs);
    LoadsGood(hs, file, t);
    TableIsHeld(loads, t);
    if TableAddress(loads, t).Some? {
      var i :|
        && 0 <= i < |loads| && HoldsTable(loads[i], t)
        && TableAddress(loads, t).value == loads[i].vaddr + (t.at - loads[i].offset);
      assert SegmentGood(loads[i], |file|);
      assert HoldsAddress(loads[i], t, TableAddress(loads, t).value);
    }
  }

  method CollectRanges(loads: seq<Segment>) returns (ranges: seq<Range>, fit: bool)
    ensures fit <==>
      forall i :: 0 <= i < |loads| && loads[i].memsz != 0 ==> loads[i].vaddr + loads[i].memsz + PAGE_SIZE - 1 < USIZE
    ensures fit ==> ranges == Ranges(loads)
  {
    ranges := [];
    for i := 0 to |loads|
      invariant ranges == Ranges(loads[..i])
      invariant forall j ::
        0 <= j < i && loads[j].memsz != 0 ==> loads[j].vaddr + loads[j].memsz + PAGE_SIZE - 1 < USIZE
    {
      assert loads[..i + 1][..i] == loads[..i];
      if loads[i].memsz != 0 {
        if loads[i].vaddr + loads[i].memsz + PAGE_SIZE - 1 >= USIZE {
          return ranges, false;
        }
        ranges := ranges + [RangeOf(loads[i])];
      }
    }
    assert loads[..|loads|] == loads;
    return ranges, true;
  }

  lemma RangesNonempty(loads: seq<Segment>)
    ensures forall i :: 0 <= i < |Ranges(loads)| ==> Ranges(loads)[i].lo < Ranges(loads)[i].hi
  {
    forall i | 0 <= i < |Ranges(loads)| ensures Ranges(loads)[i].lo < Ranges(loads)[i].hi {
      RangesMember(loads, Ranges(loads)[i]);
    }
  }
}
