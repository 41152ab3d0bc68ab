/** Edits of one directory block in place. */
module DirBlock {
  import opened Common
  import opened DirRecords
  import opened DirNames

  const BLOCK: nat := 4096
  const TAIL: nat := 12

  // ---- where records start ----

  /** A record, or the end of the block, starts at `off`. */
  ghost predicate At(b: seq<Byte>, off: nat) {
    off <= |b| && Tiled(b[..off]) && Tiled(b[off..])
  }

  lemma AtStart(b: seq<Byte>)
    requires Tiled(b)
    ensures At(b, 0)
  {
    assert b[..0] == [] && b[0..] == b;
  }

  lemma Slices(b: seq<Byte>, off: nat, n: nat)
    requires off + n <= |b|
    ensures b[off..][..n] == b[off..off + n] && b[off..][n..] == b[off + n..]
    ensures b[..off] + b[off..off + n] == b[..off + n] && b[..off + n] + b[off + n..] == b
  {
  }

  lemma FirstIs(b: seq<Byte>, off: nat)
    requires At(b, off) && off < |b|
    ensures Decodes(b[off..])
    ensures var n := U16(b[off..], 4);
      && off + n <= |b| && HEADER <= n && IsRecord(b[off..off + n]) && First(b[off..off + n]) == First(b[off..])
      && Tiled(b[off + n..])
  {
    hide First, U16, Entries;
    Peel(b[off..]);
    HeaderFits(b[off..]);
    Slices(b, off, U16(b[off..], 4));
  }

  /** The block around the record at `off`. */
  lemma AtRecord(b: seq<Byte>, off: nat)
    requires At(b, off) && off < |b|
    ensures Decodes(b[off..])
    ensures var n := U16(b[off..], 4);
      && off + n <= |b| && HEADER <= n && IsRecord(b[off..off + n]) && First(b[off..off + n]) == First(b[off..])
      && At(b, off + n)
      && Entries(b[..off + n]) == Entries(b[..off]) + [First(b[off..])]
      && Tiled(b) && Entries(b) == Entries(b[..off]) + [First(b[off..])] + Entries(b[off + n..])
  {
    hide First, U16, Entries, Decodes, Tiled, IsRecord;
    FirstIs(b, off);
    var n := U16(b[off..], 4);
    Slices(b, off, n);
    OneRecord(b[off..off + n]);
    Append(b[..off], b[off..off + n]);
    Append(b[..off + n], b[off + n..]);
  }

  /** Putting tiled pieces together. */
  lemma Assemble(x: seq<Byte>, mid: seq<Byte>, y: seq<Byte>)
    requires Tiled(x) && Tiled(mid) && Tiled(y)
    ensures Tiled(x + mid + y) && Entries(x + mid + y) == Entries(x) + Entries(mid) + Entries(y)
    ensures At(x + mid + y, |x + mid|)
  {
    assert (x + mid + y)[..|x + mid|] == x + mid && (x + mid + y)[|x + mid|..] == y;
    Append(x, mid);
    Append(x + mid, y);
  }

  // ---- writes into the buffer ----

  /** Set the length of the record at `at`, if its name still fits and it stays inside the buffer. */
  method SetRecLen(buf: array<Byte>, at: nat, n: nat) returns (ok: bool)
    requires at <= buf.Length
    modifies buf
    ensures ok <==>
      Decodes(old(buf[at..])) && RecordLen(old(buf[at + 6])) <= n <= buf.Length - at && n % 4 == 0 && n < 65536
    ensures buf[..] == if ok then Patched(old(buf[..]), at + 4, Le16(n)) else old(buf[..])
  {
    var s := buf[at..];
    if !Decodes(s) || n < RecordLen(s[6]) || n > buf.Length - at || n % 4 != 0 || n >= 65536 {
      return false;
    }
    Write(buf, at + 4, Le16(n));
    return true;
  }

  method SetInode(buf: array<Byte>, at: nat, inode: nat) returns (ok: bool)
    requires at <= buf.Length && inode < 0x1_0000_0000
    modifies buf
    ensures ok <==> Decodes(old(buf[at..]))
    ensures buf[..] == if ok then Patched(old(buf[..]), at, Le32(inode)) else old(buf[..])
  {
    if !Decodes(buf[at..]) {
      return false;
    }
    Write(buf, at, Le32(inode));
    return true;
  }

  method SetFileType(buf: array<Byte>, at: nat, kind: Byte) returns (ok: bool)
    requires at <= buf.Length
    modifies buf
    ensures ok <==> Decodes(old(buf[at..]))
    ensures buf[..] == if ok then Patched(old(buf[..]), at + 7, [kind]) else old(buf[..])
  {
    if !Decodes(buf[at..]) {
      return false;
    }
    Write(buf, at + 7, [kind]);
    return true;
  }

  /** Write a whole record of length `n`, clearing its slack. */
  method WriteTo(buf: array<Byte>, at: nat, inode: nat, n: nat, name: Name, kind: Byte) returns (ok: bool)
    requires at <= buf.Length && inode < 0x1_0000_0000
    modifies buf
    ensures ok <==> |name| <= MAX_NAME && RecordLen(|name|) <= n <= buf.Length - at && n % 4 == 0 && n < 65536
    ensures ok ==>
      |Encoded(inode, n, name, kind)| == n && buf[..] == Patched(old(buf[..]), at, Encoded(inode, n, name, kind))
    ensures !ok ==> buf[..] == old(buf[..])
  {
    if |name| > MAX_NAME || n < RecordLen(|name|) || n > buf.Length - at || n % 4 != 0 || n >= 65536 {
      return false;
    }
    EncodedDecodes(inode, n, name, kind);
    Write(buf, at, Encoded(inode, n, name, kind));
    return true;
  }

  // ---- what the edits do to the records ----

  /** Room for another record behind the name of the one at the front. */
  predicate HasRoom(s: seq<Byte>, need: nat) {
    Decodes(s) && RecordLen(s[6]) + need <= U16(s, 4) < 65536
  }

  function SplitBlock(b: seq<Byte>, off: nat, short: nat, added: seq<Byte>): seq<Byte>
    requires off + short + |added| <= |b| && HEADER <= short < 65536
  {
    Patched(Patched(b, off + 4, Le16(short)), off + short, added)
  }

  /** `b'` has the records `mid` between `off` and `end`, and is `b` around them. */
  ghost predicate Became(b: seq<Byte>, b': seq<Byte>, off: nat, end: nat, mid: seq<Entry>) {
    && |b'| == |b| && off <= end <= |b| && b'[end..] == b[end..]
    && Tiled(b[..off]) && Tiled(b[end..]) && Tiled(b') && At(b', end)
    && Entries(b') == Entries(b[..off]) + mid + Entries(b[end..])
  }

  /** Cutting a record back to its real length makes room for another one behind it. */
  lemma SplitRecords(b: seq<Byte>, off: nat, rec: nat, short: nat, added: seq<Byte>)
    requires At(b, off) && off < |b| && HasRoom(b[off..], HEADER) && IsRecord(added)
    requires rec == U16(b[off..], 4) && short == RecordLen(b[off + 6]) && |added| == rec - short && off + rec <= |b|
    requires HEADER <= short < 65536
    ensures Became(b, SplitBlock(b, off, short, added), off, off + rec,
                   [First(b[off..]).(recLen := short), First(added)])
  {
    hide Tiled, Entries, First, Encoded, Patched;
    AtRecord(b, off);
    ShortRecord(b[off..], short);
    SplitPieces(b, off, short, rec, added);
    assert b[off..][..short] == b[off..off + short];
    AssembleTwo(b[..off], WithRecLen(b[off..off + short], short), added, b[off + rec..]);
  }

  /** The bytes of a split block, piece by piece. */
  lemma SplitPieces(b: seq<Byte>, off: nat, short: nat, rec: nat, added: seq<Byte>)
    requires off + rec <= |b| && HEADER <= short <= rec < 65536 && |added| == rec - short
    ensures var b' := Patched(Patched(b, off + 4, Le16(short)), off + short, added);
      && |b'| == |b| && b'[off + rec..] == b[off + rec..]
      && b' == b[..off] + (WithRecLen(b[off..off + short], short) + added) + b[off + rec..]
  {
    hide Le16;
    assert |Le16(short)| == 2 by { Le16Length(short); }
    var one := Patched(b, off + 4, Le16(short));
    var b' := Patched(one, off + short, added);
    assert one[..off + short] == b[..off] + WithRecLen(b[off..off + short], short);
    assert one[off + rec..] == b[off + rec..];
    assert b' == one[..off + short] + added + one[off + rec..];
  }

  lemma Le16Length(x: nat)
    requires x < 65536
    ensures |Le16(x)| == 2
  {
  }

  lemma AssembleTwo(x: seq<Byte>, r: seq<Byte>, added: seq<Byte>, y: seq<Byte>)
    requires Tiled(x) && IsRecord(r) && IsRecord(added) && Tiled(y)
    ensures Tiled(x + (r + added) + y)
    ensures Entries(x + (r + added) + y) == Entries(x) + [First(r), First(added)] + Entries(y)
    ensures At(x + (r + added) + y, |x + (r + added)|)
  {
    hide First, Decodes, Tiled, Entries, U16;
    OneRecord(r);
    OneRecord(added);
    Append(r, added);
    Assemble(x, r + added, y);
    assert [First(r)] + [First(added)] == [First(r), First(added)];
  }

  lemma ShortRecord(s: seq<Byte>, short: nat)
    requires Decodes(s) && short == RecordLen(s[6])
    ensures short <= |s| && HEADER <= short < 65536
    ensures IsRecord(WithRecLen(s[..short], short))
    ensures First(WithRecLen(s[..short], short)) == First(s).(recLen := short)
  {
    RealLenFits(s);
    var r := s[..short];
    Resized(r, short);
    assert r[HEADER..HEADER + r[6]] == s[HEADER..HEADER + s[6]];
  }

  lemma AssembleOne(x: seq<Byte>, r: seq<Byte>, y: seq<Byte>)
    requires Tiled(x) && IsRecord(r) && Tiled(y)
    ensures Tiled(x + r + y) && Entries(x + r + y) == Entries(x) + [First(r)] + Entries(y)
    ensures At(x + r + y, |x + r|)
  {
    hide First, Decodes, Tiled, Entries, U16;
    OneRecord(r);
    Assemble(x, r, y);
  }

  lemma MergePieces(b: seq<Byte>, prev: nat, sum: nat)
    requires prev + sum <= |b| && HEADER <= sum < 65536
    ensures var b' := Patched(b, prev + 4, Le16(sum));
      && |b'| == |b| && b'[prev + sum..] == b[prev + sum..]
      && b' == b[..prev] + WithRecLen(b[prev..prev + sum], sum) + b[prev + sum..]
  {
  }

  lemma LongRecord(s: seq<Byte>, sum: nat)
    requires Decodes(s) && U16(s, 4) <= sum <= |s| && sum % 4 == 0 && sum < 65536
    ensures IsRecord(WithRecLen(s[..sum], sum)) && First(WithRecLen(s[..sum], sum)) == First(s).(recLen := sum)
  {
    var r := s[..sum];
    Resized(r, sum);
    assert r[HEADER..HEADER + r[6]] == s[HEADER..HEADER + s[6]];
  }

  /** Stretching a record over the next one removes that one. */
  lemma MergeRecords(b: seq<Byte>, prev: nat, off: nat, end: nat)
    requires At(b, prev) && prev < off < end <= |b| < 65536 && Decodes(b[prev..]) && Decodes(b[off..])
    requires off == prev + U16(b[prev..], 4) && end == off + U16(b[off..], 4) && At(b, off) && At(b, end)
    ensures (end - prev) % 4 == 0 && HEADER <= end - prev
    ensures Became(b, b, prev, end, [First(b[prev..]), First(b[off..])])
    ensures Became(b, Patched(b, prev + 4, Le16(end - prev)), prev, end, [First(b[prev..]).(recLen := end - prev)])
  {
    hide Tiled, Entries, First, Patched;
    AtRecord(b, prev);
    AtRecord(b, off);
    var sum := end - prev;
    LongRecord(b[prev..], sum);
    assert b[prev..][..sum] == b[prev..prev + sum];
    MergePieces(b, prev, sum);
    AssembleOne(b[..prev], WithRecLen(b[prev..prev + sum], sum), b[prev + sum..]);
  }

  lemma RetargetPieces(b: seq<Byte>, off: nat, n: nat, inode: nat, kind: Byte)
    requires off + n <= |b| && HEADER <= n && inode < 0x1_0000_0000
    ensures var b' := Patched(Patched(b, off, Le32(inode)), off + 7, [kind]);
      && |b'| == |b| && b'[off + n..] == b[off + n..]
      && b' == b[..off] + WithKind(WithInode(b[off..off + n], inode), kind) + b[off + n..]
  {
  }

  /** Changing inode and type in place changes that record alone. */
  lemma RetargetRecords(b: seq<Byte>, off: nat, end: nat, inode: nat, kind: Byte)
    requires At(b, off) && off < end <= |b| && inode < 0x1_0000_0000 && Decodes(b[off..])
    requires end == off + U16(b[off..], 4) && At(b, end)
    ensures HEADER <= end - off
    ensures Became(b, Patched(Patched(b, off, Le32(inode)), off + 7, [kind]), off, end,
                   [First(b[off..]).(inode := inode, kind := kind)])
  {
    hide Tiled, Entries, First, Patched;
    AtRecord(b, off);
    var n := end - off;
    Retargeted(b[off..off + n], inode, kind);
    RetargetPieces(b, off, n, inode, kind);
    AssembleOne(b[..off], WithKind(WithInode(b[off..off + n], inode), kind), b[off + n..]);
  }

  /** Clearing the inode alone is retargeting to inode zero with the same type. */
  lemma ClearInode(b: seq<Byte>, off: nat)
    requires off + HEADER <= |b|
    ensures Patched(b, off, Le32(0)) == Patched(Patched(b, off, Le32(0)), off + 7, [b[off + 7]])
  {
  }

  // ---- the checksum tail ----

  const TAIL_KIND: Byte := 0xDE

  predicate IsTail(e: Entry) {
    e.inode == 0 && e.recLen == TAIL && e.name == [] && e.kind == TAIL_KIND
  }

  /** The block ends in a record reserved for its checksum. */
  ghost predicate HasTail(b: seq<Byte>) {
    |b| == BLOCK && At(b, BLOCK - TAIL) && IsTail(First(b[BLOCK - TAIL..]))
  }

  /** The bytes the checksum routine looks at before it stores a checksum. */
  predicate LooksSealed(b: seq<Byte>)
    requires |b| == BLOCK
  {
    U16(b, BLOCK - TAIL + 4) == TAIL && b[BLOCK - TAIL + 6] == 0 && b[BLOCK - TAIL + 7] == TAIL_KIND
  }

  function Seal(b: seq<Byte>, sum: nat): seq<Byte>
    requires |b| == BLOCK && sum < 0x1_0000_0000
  {
    b[..BLOCK - 4] + Le32(sum)
  }

  /** Records that start before `q` end by `q` when a record starts there. */
  lemma {:induction false} Nested(b: seq<Byte>, p: nat, q: nat)
    requires p <= q <= |b| && Tiled(b[..p]) && Tiled(b[..q])
    ensures Tiled(b[p..q])
    decreases p
  {
    if p == 0 {
      assert b[0..q] == b[..q];
    } else {
      SameHeader(b, p);
      SameHeader(b, q);
      var n := U16(b, 4);
      NestedStep(b, n, p);
      NestedStep(b, n, q);
      Nested(b[n..], p - n, q - n);
      assert b[n..][p - n..q - n] == b[p..q];
    }
  }

  lemma SameHeader(b: seq<Byte>, p: nat)
    requires 0 < p <= |b| && Tiled(b[..p])
    ensures |b| >= HEADER && HEADER <= U16(b, 4) <= p && U16(b[..p], 4) == U16(b, 4)
  {
  }

  lemma NestedStep(b: seq<Byte>, n: nat, p: nat)
    requires 0 < n <= p <= |b| && Tiled(b[..p]) && |b| >= HEADER && |b[..p]| >= HEADER && n == U16(b[..p], 4)
    ensures Tiled(b[n..][..p - n])
  {
    assert b[..p][n..] == b[n..][..p - n];
  }

  /** An edit that ends by the tail leaves the tail in place. */
  lemma TailKept(b: seq<Byte>, b': seq<Byte>, q: nat)
    requires HasTail(b) && At(b, q) && At(b', q) && q <= BLOCK - TAIL && |b'| == |b| && b'[q..] == b[q..]
    ensures HasTail(b')
  {
    hide First, Decodes, U16, Entries, Tiled;
    var t := BLOCK - TAIL;
    Nested(b, q, t);
    Append(b'[..q], b[q..t]);
    assert b'[..q] + b[q..t] == b'[..t] by {
      TailBytes(b, b', q, t);
    }
    assert b'[t..] == b[t..] by {
      TailBytes(b, b', q, t);
    }
  }

  lemma TailBytes(b: seq<Byte>, b': seq<Byte>, q: nat, t: nat)
    requires q <= t <= |b| == |b'| && b'[q..] == b[q..]
    ensures b'[..q] + b[q..t] == b'[..t] && b'[t..] == b[t..]
  {
    assert forall i :: q <= i < |b| ==> b[i] == b[q..][i - q] && b'[i] == b'[q..][i - q];
  }

  /** A record before the tail, other than the tail itself, ends by it. */
  lemma BeforeTail(b: seq<Byte>, off: nat)
    requires HasTail(b) && At(b, off) && off < |b| && Decodes(b[off..]) && !IsTail(First(b[off..]))
    ensures off + U16(b[off..], 4) <= BLOCK - TAIL
  {
    var t := BLOCK - TAIL;
    if off < t {
      Nested(b, off, t);
      assert b[off..t] == b[off..][..t - off];
      SameHeader(b[off..], t - off);
    } else {
      Nested(b, t, off);
    }
  }

  lemma SealKeeps(b: seq<Byte>, sum: nat)
    requires HasTail(b) && sum < 0x1_0000_0000
    ensures HasTail(Seal(b, sum)) && Tiled(b) && Tiled(Seal(b, sum)) && Entries(Seal(b, sum)) == Entries(b)
  {
    var t, b' := BLOCK - TAIL, Seal(b, sum);
    AtRecord(b, t);
    assert b'[..t] == b[..t];
    TailSealed(b[t..], b'[t..]);
    AtRecord(b', t);
    assert b[t + TAIL..] == [] && b'[t + TAIL..] == [];
  }

  lemma TailSealed(r: seq<Byte>, r': seq<Byte>)
    requires |r| == |r'| == TAIL && Tiled(r) && IsTail(First(r)) && r'[..HEADER] == r[..HEADER]
    ensures Tiled(r') && First(r') == First(r)
  {
    assert forall i :: 0 <= i < HEADER ==> r'[i] == r'[..HEADER][i] && r[i] == r[..HEADER][i];
    OneRecord(r');
  }
}
