/** Directory blocks as packed variable-length records. */
module DirRecords {
  type Byte = x: int | 0 <= x < 256

  const HEADER: nat := 8
  const MAX_NAME: nat := 255

  function U16(s: seq<Byte>, i: nat): nat
    requires i + 2 <= |s|
  {
    s[i] as int + 256 * (s[i + 1] as int)
  }

  function U32(s: seq<Byte>, i: nat): nat
    requires i + 4 <= |s|
  {
    s[i] as int + 256 * (s[i + 1] as int) + 65536 * (s[i + 2] as int) + 16777216 * (s[i + 3] as int)
  }

  function Le16(x: nat): seq<Byte>
    requires x < 65536
  {
    [x % 256, x / 256]
  }

  function Le32(x: nat): seq<Byte>
    requires x < 0x1_0000_0000
  {
    [x % 256, x / 256 % 256, x / 65536 % 256, x / 16777216]
  }

  lemma Le16Decodes(x: nat, before: seq<Byte>, after: seq<Byte>)
    requires x < 65536
    ensures U16(before + Le16(x) + after, |before|) == x
  {
  }

  lemma Digits(x: nat)
    requires x < 0x1_0000_0000
    ensures x == x % 256 + 256 * (x / 256 % 256) + 65536 * (x / 65536 % 256) + 16777216 * (x / 16777216)
  {
    assert x / 65536 == x / 256 / 256 && x / 16777216 == x / 256 / 256 / 256;
  }

  lemma Le32Decodes(x: nat, after: seq<Byte>)
    requires x < 0x1_0000_0000
    ensures U32(Le32(x) + after, 0) == x
  {
    Digits(x);
  }

  /** One record: its inode (zero for a free record), its length with slack, its name and type. */
  datatype Entry = Entry(inode: nat, recLen: nat, name: seq<Byte>, kind: Byte)

  /** The header at the front of `s` passes the checks of the decoder. */
  predicate Decodes(s: seq<Byte>) {
    |s| >= HEADER && U16(s, 4) >= HEADER && U16(s, 4) % 4 == 0 && U16(s, 4) <= |s| && s[6] <= U16(s, 4) - HEADER
  }

  function First(s: seq<Byte>): Entry
    requires Decodes(s)
  {
    Entry(U32(s, 0), U16(s, 4), s[HEADER..HEADER + s[6]], s[7])
  }

  /** The shortest record that holds a name of `n` bytes. */
  function RecordLen(n: nat): nat {
    (HEADER + n + 3) / 4 * 4
  }

  /** A record is never shorter than its name needs. */
  lemma RealLenFits(s: seq<Byte>)
    requires Decodes(s)
    ensures HEADER <= RecordLen(|First(s).name|) <= U16(s, 4) && RecordLen(|First(s).name|) % 4 == 0
    ensures |First(s).name| <= RecordLen(|First(s).name|) - HEADER
  {
  }

  /** The bytes are records back to back. */
  predicate Tiled(s: seq<Byte>)
    decreases |s|
  {
    s == [] || (Decodes(s) && Tiled(s[U16(s, 4)..]))
  }

  function Entries(s: seq<Byte>): seq<Entry>
    requires Tiled(s)
    decreases |s|
  {
    if s == [] then [] else [First(s)] + Entries(s[U16(s, 4)..])
  }

  /** A header only depends on the bytes of its record. */
  lemma Front(x: seq<Byte>, y: seq<Byte>)
    requires Decodes(x)
    ensures Decodes(x + y) && U16(x + y, 4) == U16(x, 4) && First(x + y) == First(x)
    ensures (x + y)[U16(x, 4)..] == x[U16(x, 4)..] + y
  {
    var len: nat := x[6];
    assert (x + y)[HEADER..HEADER + len] == x[HEADER..HEADER + len];
  }

  lemma {:induction false} Append(x: seq<Byte>, y: seq<Byte>)
    requires Tiled(x) && Tiled(y)
    ensures Tiled(x + y) && Entries(x + y) == Entries(x) + Entries(y)
    decreases |x|
  {
    hide Decodes, First, U16;
    if x == [] {
      assert x + y == y;
    } else {
      HeaderFits(x);
      Front(x, y);
      Append(x[U16(x, 4)..], y);
    }
  }

  lemma HeaderFits(x: seq<Byte>)
    requires Decodes(x)
    ensures |x| >= HEADER && HEADER <= U16(x, 4) <= |x|
  {
  }

  /** Bytes that are exactly one record. */
  predicate IsRecord(r: seq<Byte>) {
    Decodes(r) && U16(r, 4) == |r|
  }

  lemma OneRecord(r: seq<Byte>)
    requires IsRecord(r)
    ensures Tiled(r) && Entries(r) == [First(r)]
  {
    assert r[|r|..] == [];
  }

  /** A header depends only on the bytes of its own record. */
  lemma FrontOnly(s: seq<Byte>)
    requires Decodes(s)
    ensures var n := U16(s, 4); IsRecord(s[..n]) && First(s[..n]) == First(s)
  {
    var n := U16(s, 4);
    var r, len: nat := s[..n], s[6];
    assert forall i :: 0 <= i < HEADER ==> r[i] == s[i];
    assert r[HEADER..HEADER + len] == s[HEADER..HEADER + len];
  }

  /** The record at the front of tiled bytes, and what follows it. */
  lemma Peel(s: seq<Byte>)
    requires Tiled(s) && s != []
    ensures var n := U16(s, 4);
      && IsRecord(s[..n]) && First(s[..n]) == First(s) && Tiled(s[n..])
      && Entries(s) == [First(s)] + Entries(s[n..])
  {
    hide First;
    FrontOnly(s);
  }

  // ---- edits of one record ----

  function WithRecLen(r: seq<Byte>, n: nat): seq<Byte>
    requires |r| >= HEADER && n < 65536
  {
    r[..4] + Le16(n) + r[6..]
  }

  function WithInode(r: seq<Byte>, inode: nat): seq<Byte>
    requires |r| >= HEADER && inode < 0x1_0000_0000
  {
    Le32(inode) + r[4..]
  }

  function WithKind(r: seq<Byte>, kind: Byte): seq<Byte>
    requires |r| >= HEADER
  {
    r[7 := kind]
  }

  function Zeros(n: nat): seq<Byte> {
    seq(n, i => 0)
  }

  function Header(inode: nat, n: nat, len: Byte, kind: Byte): (h: seq<Byte>)
    requires inode < 0x1_0000_0000 && n < 65536
    ensures |h| == HEADER && U32(h, 0) == inode && U16(h, 4) == n && h[6] == len && h[7] == kind
  {
    Digits(inode);
    Le32(inode) + Le16(n) + [len, kind]
  }

  function Encoded(inode: nat, n: nat, name: seq<Byte>, kind: Byte): seq<Byte>
    requires inode < 0x1_0000_0000 && |name| <= MAX_NAME && RecordLen(|name|) <= n < 65536
  {
    Header(inode, n, |name|, kind) + name + Zeros(n - HEADER - |name|)
  }

  /** What is written is what is read back. */
  lemma EncodedDecodes(inode: nat, n: nat, name: seq<Byte>, kind: Byte)
    requires inode < 0x1_0000_0000 && |name| <= MAX_NAME && RecordLen(|name|) <= n < 65536 && n % 4 == 0
    ensures var r := Encoded(inode, n, name, kind); |r| == n && IsRecord(r) && First(r) == Entry(inode, n, name, kind)
  {
    hide Header, Le16, Le32;
    var h, r := Header(inode, n, |name|, kind), Encoded(inode, n, name, kind);
    assert forall i :: 0 <= i < HEADER ==> r[i] == h[i];
    assert r[HEADER..HEADER + |name|] == name;
  }

  /** Cutting a record back to its real length, or stretching it over what follows, keeps its contents. */
  lemma Resized(r: seq<Byte>, n: nat)
    requires |r| == n < 65536 && n % 4 == 0 && |r| >= HEADER && r[6] <= n - HEADER
    ensures IsRecord(WithRecLen(r, n)) && |WithRecLen(r, n)| == n
    ensures First(WithRecLen(r, n)) == Entry(U32(r, 0), n, r[HEADER..HEADER + r[6]], r[7])
  {
    var r', len: nat := WithRecLen(r, n), r[6];
    assert forall i :: 0 <= i < |r| && i != 4 && i != 5 ==> r'[i] == r[i];
    assert r'[4] == n % 256 && r'[5] == n / 256;
    assert r'[HEADER..HEADER + len] == r[HEADER..HEADER + len];
  }

  lemma WithInodeIs(r: seq<Byte>, inode: nat)
    requires IsRecord(r) && inode < 0x1_0000_0000
    ensures var r' := WithInode(r, inode); |r'| == |r| && IsRecord(r') && First(r') == First(r).(inode := inode)
  {
    var r', len: nat := WithInode(r, inode), r[6];
    assert forall i :: 4 <= i < |r| ==> r'[i] == r[i];
    assert r'[HEADER..HEADER + len] == r[HEADER..HEADER + len];
    Le32Decodes(inode, r[4..]);
  }

  lemma WithKindIs(r: seq<Byte>, kind: Byte)
    requires IsRecord(r)
    ensures var r' := WithKind(r, kind); |r'| == |r| && IsRecord(r') && First(r') == First(r).(kind := kind)
  {
    var r', len: nat := WithKind(r, kind), r[6];
    assert r'[HEADER..HEADER + len] == r[HEADER..HEADER + len];
  }

  lemma Retargeted(r: seq<Byte>, inode: nat, kind: Byte)
    requires IsRecord(r) && inode < 0x1_0000_0000
    ensures var r' := WithKind(WithInode(r, inode), kind);
      |r'| == |r| && IsRecord(r') && First(r') == First(r).(inode := inode, kind := kind)
  {
    WithInodeIs(r, inode);
    WithKindIs(WithInode(r, inode), kind);
  }
}
