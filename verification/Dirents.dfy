/** Directory records as programs read them: packed into a buffer, checked, and rewritten where something is mounted. */
module Dirents {
  import opened Common
  import opened DirRecords
  import Getdents
  import DirStream

  /** Bytes before the name, and the least length of a record. */
  const FIXED: nat := 19
  const LEAST: nat := 20
  const U64: nat := 0x1_0000_0000_0000_0000

  datatype Record = Record(inode: nat, next: nat, recLen: nat, kind: Byte, name: seq<Byte>)

  function Word(s: seq<Byte>, i: nat): nat
    requires i + 8 <= |s|
  {
    U32(s, i) + 0x1_0000_0000 * U32(s, i + 4)
  }

  function Le64(x: nat): seq<Byte>
    requires x < U64
  {
    Le32(x % 0x1_0000_0000) + Le32(x / 0x1_0000_0000)
  }

  lemma Le64Decodes(x: nat, before: seq<Byte>, after: seq<Byte>)
    requires x < U64
    ensures |Le64(x)| == 8 && Word(before + Le64(x) + after, |before|) == x
  {
    var lo, hi := x % 0x1_0000_0000, x / 0x1_0000_0000;
    var s := before + Le64(x) + after;
    Le32Decodes(lo, []);
    Le32Decodes(hi, []);
    forall j | 0 <= j < 4 ensures s[|before| + j] == (Le32(lo) + [])[j] && s[|before| + 4 + j] == (Le32(hi) + [])[j] {
      assert s[|before| + j] == Le64(x)[j] && s[|before| + 4 + j] == Le64(x)[4 + j];
    }
  }

  /** The bytes before the first zero. */
  function UpToNul(s: seq<Byte>): (r: seq<Byte>)
    ensures |r| <= |s| && r == s[..|r|] && 0 !in r && (|r| < |s| ==> s[|r|] == 0)
  {
    if s == [] || s[0] == 0 then [] else [s[0]] + UpToNul(s[1..])
  }

  lemma {:induction false} UpToNulIs(s: seq<Byte>, n: nat)
    requires n < |s| && s[n] == 0 && 0 !in s[..n]
    ensures UpToNul(s) == s[..n]
  {
    if n > 0 {
      assert s[..n] == [s[0]] + s[1..][..n - 1];
      UpToNulIs(s[1..], n - 1);
    }
  }

  /** A whole record with a terminated name stands at the front. */
  predicate Heads(s: seq<Byte>) {
    && |s| >= LEAST && LEAST <= U16(s, 16) <= |s| && U16(s, 16) % 8 == 0
    && 0 in s[FIXED..U16(s, 16)]
  }

  function FirstOf(s: seq<Byte>): Record
    requires Heads(s)
  {
    Record(Word(s, 0), Word(s, 8), U16(s, 16), s[18], UpToNul(s[FIXED..U16(s, 16)]))
  }

  /** Nothing but whole records. */
  predicate Packed(s: seq<Byte>)
    decreases |s|
  {
    s == [] || (Heads(s) && Packed(s[U16(s, 16)..]))
  }

  function Records(s: seq<Byte>): seq<Record>
    requires Packed(s)
    decreases |s|
  {
    if s == [] then [] else [FirstOf(s)] + Records(s[U16(s, 16)..])
  }

  lemma HeadsFront(x: seq<Byte>, y: seq<Byte>)
    requires Heads(x)
    ensures Heads(x + y) && U16(x + y, 16) == U16(x, 16) && FirstOf(x + y) == FirstOf(x)
    ensures (x + y)[U16(x, 16)..] == x[U16(x, 16)..] + y
  {
    assert (x + y)[FIXED..U16(x, 16)] == x[FIXED..U16(x, 16)];
  }

  lemma {:induction false} Join(x: seq<Byte>, y: seq<Byte>)
    requires Packed(x) && Packed(y)
    ensures Packed(x + y) && Records(x + y) == Records(x) + Records(y)
    decreases |x|
  {
    hide Packed, Records, Heads, FirstOf, U16;
    if x == [] {
      NoRecords();
      assert x + y == y;
    } else {
      NotDone(x);
      HeadsFront(x, y);
      Join(x[U16(x, 16)..], y);
      Cons(x + y);
      var rest := x[U16(x, 16)..];
      assert [FirstOf(x)] + (Records(rest) + Records(y)) == [FirstOf(x)] + Records(rest) + Records(y);
    }
  }

  lemma NoRecords()
    ensures Packed([]) && Records([]) == []
  {
  }

  lemma NotDone(s: seq<Byte>)
    requires Packed(s) && s != []
    ensures Heads(s) && LEAST <= U16(s, 16) <= |s| && Packed(s[U16(s, 16)..])
    ensures Records(s) == [FirstOf(s)] + Records(s[U16(s, 16)..])
  {
  }

  lemma Cons(s: seq<Byte>)
    requires Heads(s) && Packed(s[U16(s, 16)..])
    ensures Packed(s) && Records(s) == [FirstOf(s)] + Records(s[U16(s, 16)..])
  {
  }

  lemma OneRecord(r: seq<Byte>)
    requires Heads(r) && U16(r, 16) == |r|
    ensures Packed(r) && Records(r) == [FirstOf(r)]
  {
    assert r[|r|..] == [];
  }

  /** The record at the front and what follows it. */
  lemma Peel(s: seq<Byte>)
    requires Packed(s) && s != []
    ensures var n := U16(s, 16);
      && Heads(s[..n]) && U16(s[..n], 16) == n && FirstOf(s[..n]) == FirstOf(s)
      && Packed(s[n..]) && Records(s) == [FirstOf(s)] + Records(s[n..])
  {
    hide Packed, Records, Heads, FirstOf;
    NotDone(s);
    FrontOnly(s);
  }

  lemma FrontOnly(s: seq<Byte>)
    requires Heads(s)
    ensures var n := U16(s, 16); Heads(s[..n]) && U16(s[..n], 16) == n && FirstOf(s[..n]) == FirstOf(s)
  {
    var n := U16(s, 16);
    assert s[..n][FIXED..n] == s[FIXED..n];
  }

  lemma Within(b: seq<Byte>, offset: nat, n: nat, i: nat, j: nat)
    requires offset <= n <= |b| && i <= j <= n - offset
    ensures b[offset..n][i..j] == b[offset + i..offset + j]
  {
    var x, y := b[offset..n][i..j], b[offset + i..offset + j];
    assert |x| == |y|;
    forall k | 0 <= k < |x| ensures x[k] == y[k] {
      assert x[k] == b[offset..n][i + k];
    }
  }

  // ---- checking ----

  /** Accept exactly the buffers whose first `n` bytes are whole records. */
  method ValidateRecords(buf: array<Byte>, n: nat) returns (ok: bool)
    ensures ok <==> n <= buf.Length && Packed(buf[..n])
  {
    hide Packed;
    if n > buf.Length {
      return false;
    }
    var offset := 0;
    assert buf[0..n] == buf[..n];
    while offset < n
      invariant 0 <= offset <= n && (Packed(buf[..n]) <==> Packed(buf[offset..n]))
    {
      CheckStep(buf[..], offset, n);
      if n - offset < LEAST {
        return false;
      }
      var recLen: nat := buf[offset + 16] as int + 256 * (buf[offset + 17] as int);
      if recLen < LEAST || recLen % 8 != 0 {
        return false;
      }
      var end := offset + recLen;
      if end > n || 0 !in buf[offset + FIXED..end] {
        return false;
      }
      offset := end;
    }
    assert buf[n..n] == [];
    NoRecords();
    return true;
  }

  /** What one turn of the loop checks. */
  lemma CheckStep(b: seq<Byte>, offset: nat, n: nat)
    requires offset < n <= |b|
    ensures n - offset < LEAST ==> !Packed(b[offset..n])
    ensures n - offset >= LEAST ==>
      var len: nat := b[offset + 16] as int + 256 * (b[offset + 17] as int);
      Packed(b[offset..n]) <==>
        && LEAST <= len && len % 8 == 0 && offset + len <= n && 0 in b[offset + FIXED..offset + len]
        && Packed(b[offset + len..n])
  {
    var s := b[offset..n];
    if n - offset >= LEAST {
      LengthAt(b, offset, n);
      var len := U16(s, 16);
      if LEAST <= len && offset + len <= n {
        Within(b, offset, n, FIXED, len);
        Within(b, offset, n, len, |s|);
        assert s[len..] == s[len..|s|];
      }
    }
  }

  // ---- appending ----

  function Shortened(name: seq<Byte>): seq<Byte> {
    if |name| <= MAX_NAME then name else name[..MAX_NAME]
  }

  /** The bytes of a new record. */
  function Encoded(inode: nat, next: nat, kind: Byte, name: seq<Byte>): seq<Byte>
    requires inode < U64 && next < U64 && |name| <= MAX_NAME
  {
    Le64(inode) + Le64(next) + Le16(Getdents.DirentLen(name)) + [kind] + name
      + Zeros(Getdents.DirentLen(name) - FIXED - |name|)
  }

  /** What is appended is read back, with the name up to its first zero byte. */
  lemma EncodedReads(inode: nat, next: nat, kind: Byte, name: seq<Byte>)
    requires inode < U64 && next < U64 && |name| <= MAX_NAME
    ensures var r, n := Encoded(inode, next, kind, name), Getdents.DirentLen(name);
      |r| == n && Heads(r) && U16(r, 16) == n && FirstOf(r) == Record(inode, next, n, kind, UpToNul(name))
  {
    hide Encoded, Word, U16, U32, UpToNul, Getdents.DirentLen;
    LengthFits(name);
    var r, n := Encoded(inode, next, kind, name), Getdents.DirentLen(name);
    var pad := Zeros(n - FIXED - |name|);
    EncodedFields(inode, next, kind, name, pad);
    NameField(name, pad);
  }

  lemma EncodedFields(inode: nat, next: nat, kind: Byte, name: seq<Byte>, pad: seq<Byte>)
    requires inode < U64 && next < U64 && |name| <= MAX_NAME && pad == Zeros(Getdents.DirentLen(name) - FIXED - |name|)
    ensures var r, n := Encoded(inode, next, kind, name), Getdents.DirentLen(name);
      && |r| == n && Word(r, 0) == inode && Word(r, 8) == next && U16(r, 16) == n && r[18] == kind
      && r[FIXED..n] == name + pad
  {
    hide Le64, Le16, Word, U16, U32, Getdents.DirentLen;
    LengthFits(name);
    var n := Getdents.DirentLen(name);
    EncodedParts(inode, next, kind, name, n, pad);
    var r := Encoded(inode, next, kind, name);
    assert r[FIXED..n] == r[FIXED..];
  }

  lemma LengthFits(name: seq<Byte>)
    ensures var n := Getdents.DirentLen(name);
      n % 8 == 0 && FIXED + |name| < n && (|name| <= MAX_NAME ==> n < 65536)
  {
  }

  lemma NameField(name: seq<Byte>, pad: seq<Byte>)
    requires pad != [] && pad[0] == 0
    ensures 0 in name + pad && UpToNul(name + pad) == UpToNul(name)
  {
    var rest, k := name + pad, |UpToNul(name)|;
    assert rest[|name|] == 0;
    assert rest[..k] == UpToNul(name) && rest[k] == 0;
    UpToNulIs(rest, k);
  }

  lemma EncodedParts(inode: nat, next: nat, kind: Byte, name: seq<Byte>, n: nat, pad: seq<Byte>)
    requires inode < U64 && next < U64 && n < 65536
    ensures |Le64(inode)| == |Le64(next)| == 8 && |Le16(n)| == 2
    ensures var r := Le64(inode) + Le64(next) + Le16(n) + [kind] + name + pad;
      && |r| == FIXED + |name| + |pad| && Word(r, 0) == inode && Word(r, 8) == next && U16(r, 16) == n && r[18] == kind
      && r[FIXED..] == name + pad
  {
    var a, b, c, d := Le64(inode), Le64(next), Le16(n), [kind] + name + pad;
    var r := a + b + c + [kind] + name + pad;
    Le64Decodes(inode, [], b + c + d);
    assert r == [] + a + (b + c + d);
    Le64Decodes(next, a, c + d);
    assert r == a + b + (c + d);
    Le16Decodes(n, a + b, d);
    assert r == (a + b) + c + d;
  }

  /** Append a record behind the first `at` bytes if it fits. */
  method AppendRecord(buf: array<Byte>, at: nat, inode: nat, next: nat, kind: Byte, name: seq<Byte>)
    returns (r: Option<nat>)
    requires at <= buf.Length && inode < U64 && next < U64
    modifies buf
    ensures var n := Getdents.DirentLen(Shortened(name));
      && (r == if at + n <= buf.Length then Some(n) else None)
      && (r.None? ==> buf[..] == old(buf[..]))
      && (r.Some? ==> buf[..at] == old(buf[..at]) && buf[at + n..] == old(buf[at + n..]))
      && (r.Some? && Packed(old(buf[..at])) ==>
        && Packed(buf[..at + n])
        && Records(buf[..at + n]) == Records(old(buf[..at])) + [Record(inode, next, n, kind, UpToNul(Shortened(name)))])
  {
    var short := Shortened(name);
    var n := Getdents.DirentLen(short);
    if at + n > buf.Length {
      return None;
    }
    ghost var was := buf[..];
    EncodedReads(inode, next, kind, short);
    var bytes := Encoded(inode, next, kind, short);
    Write(buf, at, bytes);
    AppendedBytes(was, at, bytes);
    if Packed(was[..at]) {
      OneRecord(bytes);
      Join(was[..at], bytes);
    }
    return Some(n);
  }

  lemma AppendedBytes(was: seq<Byte>, at: nat, bytes: seq<Byte>)
    requires at + |bytes| <= |was|
    ensures var now := Patched(was, at, bytes);
      && |now| == |was| && now[..at] == was[..at] && now[at + |bytes|..] == was[at + |bytes|..]
      && now[..at + |bytes|] == was[..at] + bytes
  {
  }

  // ---- laying mounts over lower records ----

  /** Mount `j` is the first one with the name. */
  predicate IsFirst(mounts: seq<DirStream.Mount>, name: seq<Byte>, j: nat) {
    j < |mounts| && mounts[j].name == name && forall k :: 0 <= k < j ==> mounts[k].name != name
  }

  lemma {:induction false} MountOfIs(mounts: seq<DirStream.Mount>, name: seq<Byte>, j: nat)
    requires IsFirst(mounts, name, j) || (j == |mounts| && forall k :: 0 <= k < j ==> mounts[k].name != name)
    ensures DirStream.MountOf(mounts, name) == if j < |mounts| then Some(mounts[j]) else None
    decreases j
  {
    if j > 0 {
      assert mounts[0].name != name;
      MountOfIs(mounts[1..], name, j - 1);
    }
  }

  method FindMount(mounts: seq<DirStream.Mount>, name: seq<Byte>) returns (j: nat)
    ensures j <= |mounts| && (j < |mounts| ==> IsFirst(mounts, name, j))
    ensures j == |mounts| ==> forall k :: 0 <= k < j ==> mounts[k].name != name
  {
    j := 0;
    while j < |mounts| && mounts[j].name != name
      invariant j <= |mounts| && forall k :: 0 <= k < j ==> mounts[k].name != name
    {
      j := j + 1;
    }
  }

  function OverlayOne(mounts: seq<DirStream.Mount>, r: Record): Record {
    var m := DirStream.MountOf(mounts, r.name);
    if m.Some? then r.(inode := m.value.inode, kind := m.value.kind) else r
  }

  function Overlaid(mounts: seq<DirStream.Mount>, rs: seq<Record>): (o: seq<Record>)
    ensures |o| == |rs|
  {
    seq(|rs|, i requires 0 <= i < |rs| => OverlayOne(mounts, rs[i]))
  }

  /** Some record stands for mount `j`. */
  ghost predicate Masks(mounts: seq<DirStream.Mount>, rs: seq<Record>, j: nat) {
    exists i :: 0 <= i < |rs| && IsFirst(mounts, rs[i].name, j)
  }

  lemma OverlaidStep(mounts: seq<DirStream.Mount>, rs: seq<Record>, r: Record, j: nat)
    ensures Overlaid(mounts, rs + [r]) == Overlaid(mounts, rs) + [OverlayOne(mounts, r)]
    ensures Masks(mounts, rs + [r], j) <==> Masks(mounts, rs, j) || IsFirst(mounts, r.name, j)
  {
    var all := rs + [r];
    assert all[|rs|] == r;
    if Masks(mounts, rs, j) {
      var i :| 0 <= i < |rs| && IsFirst(mounts, rs[i].name, j);
      assert all[i] == rs[i];
    }
  }

  /** A record with another inode and type, everything else in place. */
  function Rewritten(r: seq<Byte>, inode: nat, kind: Byte): seq<Byte>
    requires |r| >= LEAST && inode < U64
  {
    Le64(inode) + r[8..18] + [kind] + r[FIXED..]
  }

  lemma RewrittenReads(r: seq<Byte>, inode: nat, kind: Byte)
    requires Heads(r) && U16(r, 16) == |r| && inode < U64
    ensures var r' := Rewritten(r, inode, kind);
      |r'| == |r| && Heads(r') && U16(r', 16) == |r'| && FirstOf(r') == FirstOf(r).(inode := inode, kind := kind)
  {
    var r' := Rewritten(r, inode, kind);
    Le64Decodes(inode, [], r[8..18] + [kind] + r[FIXED..]);
    assert r' == [] + Le64(inode) + (r[8..18] + [kind] + r[FIXED..]);
    assert forall i :: 8 <= i < |r| && i != 18 ==> r'[i] == r[i];
    assert r'[FIXED..|r|] == r[FIXED..|r|];
  }

  lemma RewrittenBytes(b: seq<Byte>, at: nat, n: nat, inode: nat, kind: Byte)
    requires LEAST <= n && at + n <= |b| && inode < U64
    ensures |Le64(inode)| == 8
    ensures var b' := Patched(Patched(b, at, Le64(inode)), at + 18, [kind]);
      |b'| == |b| && b'[..at + n] == b[..at] + Rewritten(b[at..at + n], inode, kind) && b'[at + n..] == b[at + n..]
  {
    Le64Decodes(inode, [], []);
    var b1 := Patched(b, at, Le64(inode));
    var b' := Patched(b1, at + 18, [kind]);
    var r := Rewritten(b[at..at + n], inode, kind);
    forall i | 0 <= i < at + n ensures b'[i] == (b[..at] + r)[i] {
      if at <= i < at + 8 {
        assert b1[i] == Le64(inode)[i - at] == r[i - at];
      } else if at + 8 <= i && i != at + 18 {
        assert b1[i] == b[i] == b[at..at + n][i - at] == r[i - at];
      }
    }
  }

  /** The name of the record at `offset`: the bytes up to the zero that ends it. */
  method NameAt(buf: array<Byte>, offset: nat, end: nat) returns (name: seq<Byte>)
    requires offset + FIXED <= end <= buf.Length && 0 in buf[offset + FIXED..end]
    ensures name == UpToNul(buf[offset + FIXED..end])
  {
    hide UpToNul;
    ghost var s := buf[offset + FIXED..end];
    var len := 0;
    while buf[offset + FIXED + len] != 0
      invariant 0 <= len < |s| && 0 !in s[..len] && 0 in s[len..]
      decreases |s| - len
    {
      assert s[len..] == [s[len]] + s[len + 1..];
      len := len + 1;
    }
    UpToNulIs(s, len);
    name := buf[offset + FIXED..offset + FIXED + len];
  }

  /** How far the rewriting loop has come. */
  ghost predicate Progress(mounts: seq<DirStream.Mount>, was: seq<Byte>, now: seq<Byte>, offset: nat, n: nat,
                           done: seq<Record>)
    requires |now| == |was| && n <= |was|
  {
    && offset <= n && Packed(was[..n]) && Packed(now[..offset]) && Packed(now[offset..n])
    && Records(was[..n]) == done + Records(now[offset..n])
    && Records(now[..offset]) == Overlaid(mounts, done) && now[n..] == was[n..]
  }

  lemma ProgressStart(mounts: seq<DirStream.Mount>, was: seq<Byte>, n: nat)
    requires n <= |was| && Packed(was[..n])
    ensures Progress(mounts, was, was, 0, n, []) && forall j :: !Masks(mounts, [], j)
  {
    assert was[..0] == [] && was[0..n] == was[..n];
  }

  lemma ProgressEnd(mounts: seq<DirStream.Mount>, was: seq<Byte>, now: seq<Byte>, n: nat, done: seq<Record>)
    requires |now| == |was| && n <= |was| && Progress(mounts, was, now, n, n, done)
    ensures Packed(was[..n]) && Packed(now[..n]) && Records(was[..n]) == done
    ensures Records(now[..n]) == Overlaid(mounts, done) && now[n..] == was[n..]
  {
    assert now[n..n] == [];
  }

  /** One record further: left alone, or rewritten in place. */
  lemma ProgressStep(mounts: seq<DirStream.Mount>, was: seq<Byte>, now: seq<Byte>, offset: nat, n: nat,
                     done: seq<Record>, r': seq<Byte>)
    requires |now| == |was| && n <= |was| && offset < n && Progress(mounts, was, now, offset, n, done)
    requires Heads(now[offset..n])
    requires var len := U16(now[offset..n], 16); |r'| == len && Heads(r') && U16(r', 16) == len
    requires FirstOf(r') == OverlayOne(mounts, FirstOf(now[offset..n]))
    ensures var s := now[offset..n]; var end := offset + U16(s, 16);
      end <= n && Progress(mounts, was, now[..offset] + r' + now[end..], end, n, done + [FirstOf(s)])
  {
    hide Packed, Records, Heads, FirstOf, UpToNul, Word, U16, U32, Overlaid, OverlayOne;
    var s := now[offset..n];
    NotDone(s);
    Peel(s);
    var len := U16(s, 16);
    var end := offset + len;
    var next := now[..offset] + r' + now[end..];
    assert next[..end] == now[..offset] + r' && next[end..n] == s[len..] && next[n..] == now[n..];
    OneRecord(r');
    Join(now[..offset], r');
    OverlaidStep(mounts, done, FirstOf(s), 0);
    assert done + ([FirstOf(s)] + Records(s[len..])) == done + [FirstOf(s)] + Records(s[len..]);
  }

  /** A whole record of `len` bytes stands at `offset`. */
  ghost predicate RecordAt(now: seq<Byte>, offset: nat, n: nat, len: nat)
    requires offset < n <= |now|
  {
    && Heads(now[offset..n]) && len == U16(now[offset..n], 16) && LEAST <= len && offset + len <= n
    && Heads(now[offset..offset + len]) && U16(now[offset..offset + len], 16) == len
    && FirstOf(now[offset..offset + len]) == FirstOf(now[offset..n])
  }

  lemma NameIn(r: seq<Byte>)
    requires Heads(r) && U16(r, 16) == |r|
    ensures 0 in r[FIXED..] && FirstOf(r).name == UpToNul(r[FIXED..])
  {
    assert r[FIXED..] == r[FIXED..|r|];
  }

  lemma LengthAt(now: seq<Byte>, offset: nat, n: nat)
    requires offset + LEAST <= n <= |now|
    ensures U16(now[offset..n], 16) == now[offset + 16] as int + 256 * (now[offset + 17] as int)
  {
  }

  lemma AtRecord(mounts: seq<DirStream.Mount>, was: seq<Byte>, now: seq<Byte>, offset: nat, n: nat, done: seq<Record>)
    requires |now| == |was| && offset < n <= |was| && Progress(mounts, was, now, offset, n, done)
    ensures Heads(now[offset..n]) && offset + LEAST <= n && RecordAt(now, offset, n, U16(now[offset..n], 16))
    ensures U16(now[offset..n], 16) == now[offset + 16] as int + 256 * (now[offset + 17] as int)
  {
    hide Packed, Records, Heads, FirstOf, U16;
    var s := now[offset..n];
    NotDone(s);
    Peel(s);
    LengthAt(now, offset, n);
    assert now[offset..offset + U16(s, 16)] == s[..U16(s, 16)];
  }

  lemma MarksStep(mounts: seq<DirStream.Mount>, done: seq<Record>, r: Record)
    ensures forall k ::
      0 <= k < |mounts| ==> (Masks(mounts, done + [r], k) <==> Masks(mounts, done, k) || IsFirst(mounts, r.name, k))
  {
    forall k | 0 <= k < |mounts|
      ensures Masks(mounts, done + [r], k) <==> Masks(mounts, done, k) || IsFirst(mounts, r.name, k)
    {
      OverlaidStep(mounts, done, r, k);
    }
  }

  /** The bytes once the record at `offset` has been rewritten for mount `j`, or left alone without one. */
  lemma Advance(mounts: seq<DirStream.Mount>, was: seq<Byte>, now: seq<Byte>, offset: nat, n: nat, done: seq<Record>,
                j: nat, next: seq<Byte>)
    requires |now| == |was| && offset < n <= |was| && Progress(mounts, was, now, offset, n, done)
    requires Heads(now[offset..n])
    requires var s := now[offset..n]; var name := FirstOf(s).name;
      IsFirst(mounts, name, j) || (j == |mounts| && forall k :: 0 <= k < j ==> mounts[k].name != name)
    requires forall j :: 0 <= j < |mounts| ==> mounts[j].inode < U64
    requires |next| == |now| && j <= |mounts|
    requires j == |mounts| ==> next == now
    requires j < |mounts| ==>
      && |Le64(mounts[j].inode)| == 8 && offset + LEAST <= |now|
      && next == Patched(Patched(now, offset, Le64(mounts[j].inode)), offset + 18, [mounts[j].kind])
    ensures var s := now[offset..n]; var end := offset + U16(s, 16);
      offset < end <= n && Progress(mounts, was, next, end, n, done + [FirstOf(s)])
  {
    hide Packed, Records, Heads, UpToNul, Word, U32, U16;
    hide FirstOf, Le64, Overlaid, Progress, IsFirst, DirStream.MountOf, Rewritten, Patched;
    var s := now[offset..n];
    AtRecord(mounts, was, now, offset, n, done);
    var len := U16(s, 16);
    var end, bytes := offset + len, now[offset..offset + len];
    MountOfIs(mounts, FirstOf(s).name, j);
    if j < |mounts| {
      RewrittenBytes(now, offset, len, mounts[j].inode, mounts[j].kind);
      RewrittenReads(bytes, mounts[j].inode, mounts[j].kind);
      ProgressStep(mounts, was, now, offset, n, done, Rewritten(bytes, mounts[j].inode, mounts[j].kind));
      assert next == next[..end] + next[end..];
    } else {
      ProgressStep(mounts, was, now, offset, n, done, bytes);
      assert now == now[..offset] + bytes + now[end..];
    }
  }

  /** One turn of the loop: the record at `offset`. */
  method OverlayRecord(buf: array<Byte>, offset: nat, n: nat, mounts: seq<DirStream.Mount>, shadowed: array<bool>,
                       ghost was: seq<Byte>, ghost done: seq<Record>)
    returns (ghost r: Record, end: nat)
    requires buf.Length == |was| && offset < n <= |was| && Progress(mounts, was, buf[..], offset, n, done)
    requires shadowed.Length == |mounts| && forall j :: 0 <= j < |mounts| ==> mounts[j].inode < U64
    modifies buf, shadowed
    ensures offset < end <= n && Progress(mounts, was, buf[..], end, n, done + [r])
    ensures forall k :: 0 <= k < |mounts| ==> (shadowed[k] <==> old(shadowed[k]) || IsFirst(mounts, r.name, k))
  {
    hide Packed, Records, Heads, FirstOf, UpToNul, Word, U32, U16, Le64, Progress, Patched;
    ghost var now := buf[..];
    AtRecord(mounts, was, now, offset, n, done);
    r := FirstOf(now[offset..n]);
    var recLen: nat := buf[offset + 16] as int + 256 * (buf[offset + 17] as int);
    end := offset + recLen;
    NameIn(now[offset..end]);
    assert buf[offset + FIXED..end] == now[offset..end][FIXED..];
    var name := NameAt(buf, offset, end);
    var j := FindMount(mounts, name);
    if j < |mounts| {
      Le64Decodes(mounts[j].inode, [], []);
      Write(buf, offset, Le64(mounts[j].inode));
      Write(buf, offset + 18, [mounts[j].kind]);
      shadowed[j] := true;
    }
    Advance(mounts, was, now, offset, n, done, j, buf[..]);
  }

  /** Give every record whose name is mounted over the mount's inode and type, and note which mounts those were. */
  method OverlayMounted(buf: array<Byte>, n: nat, mounts: seq<DirStream.Mount>, shadowed: array<bool>)
    requires n <= buf.Length && Packed(buf[..n]) && shadowed.Length == |mounts|
    requires forall j :: 0 <= j < |mounts| ==> mounts[j].inode < U64
    modifies buf, shadowed
    ensures Packed(buf[..n]) && Records(buf[..n]) == Overlaid(mounts, old(Records(buf[..n])))
    ensures buf[n..] == old(buf[n..])
    ensures forall j ::
      0 <= j < |mounts| ==> (shadowed[j] <==> old(shadowed[j]) || Masks(mounts, old(Records(buf[..n])), j))
  {
    hide Packed, Records, Heads, FirstOf, UpToNul, Word, U32, Le64;
    hide Overlaid, OverlayOne, Progress, Masks, IsFirst, DirStream.MountOf, Rewritten, Patched;
    ghost var was, marks := buf[..], shadowed[..];
    ghost var done: seq<Record> := [];
    var offset := 0;
    ProgressStart(mounts, was, n);
    while offset < n
      invariant 0 <= offset <= n && Progress(mounts, was, buf[..], offset, n, done)
      invariant forall j :: 0 <= j < |mounts| ==> (shadowed[j] <==> marks[j] || Masks(mounts, done, j))
    {
      var r, end := OverlayRecord(buf, offset, n, mounts, shadowed, was, done);
      MarksStep(mounts, done, r);
      done := done + [r];
      offset := end;
    }
    ProgressEnd(mounts, was, buf[..], n, done);
  }

  // ---- the records of the stream ----

  /** A lower record as it is packed, with the position behind it as its cookie. */
  function AsRecord(e: Entry, next: nat): Record {
    Record(e.inode, next, Getdents.DirentLen(e.name), DirStream.TypeCode(e.kind), e.name)
  }

  function AsDirent(r: Record): DirStream.Dirent {
    DirStream.Dirent(r.name, r.inode, r.kind)
  }

  /** Numbers and names that their fields can hold. */
  predicate Fits(es: seq<Entry>, cookies: seq<nat>) {
    |cookies| == |es| && forall i :: 0 <= i < |es| ==> es[i].inode < U64 && cookies[i] < U64 && |es[i].name| <= MAX_NAME
  }

  /** The bytes of the records a call reports. */
  function Pack(es: seq<Entry>, cookies: seq<nat>): seq<Byte>
    requires Fits(es, cookies)
  {
    if es == [] then []
    else
      var n := |es| - 1;
      Pack(es[..n], cookies[..n]) + Encoded(es[n].inode, cookies[n], DirStream.TypeCode(es[n].kind), es[n].name)
  }

  function AsRecords(es: seq<Entry>, cookies: seq<nat>): (rs: seq<Record>)
    requires |cookies| == |es|
    ensures |rs| == |es|
  {
    seq(|es|, i requires 0 <= i < |es| => AsRecord(es[i], cookies[i]))
  }

  /** Packing and reading back gives the records, in as many bytes as the cursor counted. */
  lemma {:induction false} PackReads(es: seq<Entry>, cookies: seq<nat>)
    requires Fits(es, cookies) && forall i :: 0 <= i < |es| ==> 0 !in es[i].name
    ensures var s := Pack(es, cookies);
      |s| == Getdents.Bytes(es) && Packed(s) && Records(s) == AsRecords(es, cookies)
  {
    if es != [] {
      var n := |es| - 1;
      PackReads(es[..n], cookies[..n]);
      PackStep(es, cookies, Pack(es[..n], cookies[..n]));
    }
  }

  lemma PackStep(es: seq<Entry>, cookies: seq<nat>, s: seq<Byte>)
    requires Fits(es, cookies) && es != [] && 0 !in es[|es| - 1].name
    requires var n := |es| - 1;
      && s == Pack(es[..n], cookies[..n]) && |s| == Getdents.Bytes(es[..n]) && Packed(s)
      && Records(s) == AsRecords(es[..n], cookies[..n])
    ensures |Pack(es, cookies)| == Getdents.Bytes(es) && Packed(Pack(es, cookies))
    ensures Records(Pack(es, cookies)) == AsRecords(es, cookies)
  {
    hide Encoded, Packed, Records, Heads, FirstOf, UpToNul, U16, Getdents.DirentLen;
    var n := |es| - 1;
    var e := es[n];
    EncodedReads(e.inode, cookies[n], DirStream.TypeCode(e.kind), e.name);
    var r := Encoded(e.inode, cookies[n], DirStream.TypeCode(e.kind), e.name);
    WholeName(e.name);
    OneRecord(r);
    Join(s, r);
    assert AsRecords(es, cookies) == AsRecords(es[..n], cookies[..n]) + [AsRecord(e, cookies[n])];
  }

  lemma {:induction false} WholeName(name: seq<Byte>)
    requires 0 !in name
    ensures UpToNul(name) == name
  {
    if name != [] {
      WholeName(name[1..]);
    }
  }

  /** Rewriting the packed bytes is laying the mounts over the lower records. */
  lemma OverlaidStream(mounts: seq<DirStream.Mount>, es: seq<Entry>, cookies: seq<nat>, i: nat)
    requires Fits(es, cookies) && (forall i :: 0 <= i < |es| ==> 0 !in es[i].name) && i < |es|
    ensures Packed(Pack(es, cookies)) && |Overlaid(mounts, Records(Pack(es, cookies)))| == |es|
    ensures AsDirent(Overlaid(mounts, Records(Pack(es, cookies)))[i]) == DirStream.OverlayAll(mounts, es)[i]
  {
    PackReads(es, cookies);
  }
}
