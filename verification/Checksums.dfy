/** Checksums stored inside the metadata they protect: sealing and verifying. */
module Checksums {
  import opened Common
  import opened Crc32c

  type Bytes = seq<bv8>

  const GOOD_OLD_INODE: nat := 128
  const INODE_LO: nat := 0x7c
  const INODE_HI: nat := 0x82
  const HI_EXTRA_END: bv16 := 4
  const GROUP_FIELD: nat := 0x1e
  const BLOCK_MAP_LO: nat := 0x18
  const INODE_MAP_LO: nat := 0x1a
  const BLOCK_MAP_HI: nat := 0x38
  const INODE_MAP_HI: nat := 0x3a
  const SUPER_SIZE: nat := 1024
  const SUPER_FIELD: nat := 0x3fc
  const TAIL: nat := 12

  // ---- little-endian fields ----

  function Low(x: bv32): bv16 { (x & 0xffff) as bv16 }
  function High(x: bv32): bv16 { (x >> 16) as bv16 }

  function Le16(x: bv16): Bytes {
    [(x & 0xff) as bv8, (x >> 8) as bv8]
  }

  function Le32(x: bv32): Bytes {
    Le16(Low(x)) + Le16(High(x))
  }

  function Join(lo: bv8, hi: bv8): bv16 {
    (lo as bv16) | ((hi as bv16) << 8)
  }

  function U16(s: Bytes, i: nat): bv16
    requires i + 2 <= |s|
  {
    Join(s[i], s[i + 1])
  }

  function Wide(lo: bv16, hi: bv16): bv32 {
    (lo as bv32) | ((hi as bv32) << 16)
  }

  function U32(s: Bytes, i: nat): bv32
    requires i + 4 <= |s|
  {
    Wide(U16(s, i), U16(s, i + 2))
  }

  lemma JoinSplits(x: bv16)
    ensures Join((x & 0xff) as bv8, (x >> 8) as bv8) == x
  {
  }

  lemma WideSplits(x: bv32)
    ensures Wide(Low(x), High(x)) == x
  {
  }

  lemma Field16(s: Bytes, at: nat, x: bv16)
    requires at + 2 <= |s|
    ensures |Le16(x)| == 2 && U16(Patched(s, at, Le16(x)), at) == x
  {
    JoinSplits(x);
    hide Join;
    var p := Patched(s, at, Le16(x));
    assert p[at] == Le16(x)[0] && p[at + 1] == Le16(x)[1];
  }

  lemma Field32(s: Bytes, at: nat, x: bv32)
    requires at + 4 <= |s|
    ensures |Le32(x)| == 4 && U32(Patched(s, at, Le32(x)), at) == x
  {
    JoinSplits(Low(x));
    JoinSplits(High(x));
    WideSplits(x);
    hide Join, Wide, Low, High;
    var p, f := Patched(s, at, Le32(x)), Le32(x);
    assert p[at] == f[0] && p[at + 1] == f[1] && p[at + 2] == f[2] && p[at + 3] == f[3];
  }

  // ---- inodes ----

  predicate HasHigh(d: Bytes) {
    |d| >= INODE_HI + 2 && U16(d, GOOD_OLD_INODE) >= HI_EXTRA_END
  }

  function InodeSeed(seed: bv32, ino: bv32, d: Bytes): bv32
    requires |d| >= GOOD_OLD_INODE
  {
    Crc(Crc(seed, Le32(ino)), d[0x64..0x68])
  }

  /** The body every inode has, its checksum field read as zero. */
  function InodeBody(seed: bv32, ino: bv32, d: Bytes): bv32
    requires |d| >= GOOD_OLD_INODE
  {
    Crc(Crc(Crc(InodeSeed(seed, ino, d), d[..INODE_LO]), [0, 0]), d[INODE_LO + 2..GOOD_OLD_INODE])
  }

  /** The checksum of an inode of any size; a second half of the field is read as zero only where it is in use. */
  function InodeSum(seed: bv32, ino: bv32, d: Bytes): bv32
    requires |d| >= GOOD_OLD_INODE
  {
    var body := InodeBody(seed, ino, d);
    if |d| == GOOD_OLD_INODE then body
    else
      var before := Crc(body, d[GOOD_OLD_INODE..if INODE_HI < |d| then INODE_HI else |d|]);
      var field := if HasHigh(d) then Crc(before, [0, 0])
        else if |d| >= INODE_HI + 2 then Crc(before, d[INODE_HI..INODE_HI + 2]) else before;
      if |d| > INODE_HI + 2 then Crc(field, d[INODE_HI + 2..]) else field
  }

  function InodeSealed(d: Bytes, c: bv32): Bytes
    requires |d| >= GOOD_OLD_INODE
  {
    var lo := Patched(d, INODE_LO, Le16(Low(c)));
    if HasHigh(d) then Patched(lo, INODE_HI, Le16(High(c))) else lo
  }

  /** The stored halves are those of the computed checksum. */
  ghost predicate InodeVerifies(seed: bv32, ino: bv32, d: Bytes)
    requires |d| >= GOOD_OLD_INODE
  {
    var c := InodeSum(seed, ino, d);
    U16(d, INODE_LO) == Low(c) && (HasHigh(d) ==> U16(d, INODE_HI) == High(c))
  }

  /** Only the checksum fields change. */
  lemma SealedBytes(d: Bytes, c: bv32, i: nat)
    requires |d| >= GOOD_OLD_INODE && i < |d|
    requires !(INODE_LO <= i < INODE_LO + 2) && !(HasHigh(d) && INODE_HI <= i < INODE_HI + 2)
    ensures |InodeSealed(d, c)| == |d| && InodeSealed(d, c)[i] == d[i]
  {
    hide Low, High, Join;
    var lo := Patched(d, INODE_LO, Le16(Low(c)));
    assert |lo| == |d| && lo[i] == d[i];
  }

  lemma SliceSame(e: Bytes, d: Bytes, lo: nat, hi: nat)
    requires lo <= hi <= |e| && hi <= |d| && forall i :: lo <= i < hi ==> e[i] == d[i]
    ensures e[lo..hi] == d[lo..hi]
  {
  }

  /** Storing a checksum does not change what is checksummed. */
  lemma InodeStable(seed: bv32, ino: bv32, d: Bytes, c: bv32)
    requires |d| >= GOOD_OLD_INODE
    ensures |InodeSealed(d, c)| == |d| && InodeSum(seed, ino, InodeSealed(d, c)) == InodeSum(seed, ino, d)
    ensures HasHigh(InodeSealed(d, c)) <==> HasHigh(d)
    ensures forall i ::
      0 <= i < |d| && !(INODE_LO <= i < INODE_LO + 2) && !(HasHigh(d) && INODE_HI <= i < INODE_HI + 2) ==>
        InodeSealed(d, c)[i] == d[i]
  {
    hide Crc, Low, High, Join, InodeSealed, Patched;
    var e := InodeSealed(d, c);
    SealedBytes(d, c, 0);
    forall i | 0 <= i < |d| && !(INODE_LO <= i < INODE_LO + 2) && !(HasHigh(d) && INODE_HI <= i < INODE_HI + 2)
      ensures e[i] == d[i]
    {
      SealedBytes(d, c, i);
    }
    SliceSame(e, d, 0x64, 0x68);
    SliceSame(e, d, 0, INODE_LO);
    assert e[..INODE_LO] == e[0..INODE_LO] && d[..INODE_LO] == d[0..INODE_LO];
    SliceSame(e, d, INODE_LO + 2, GOOD_OLD_INODE);
    if |d| > GOOD_OLD_INODE {
      SliceSame(e, d, GOOD_OLD_INODE, if INODE_HI < |d| then INODE_HI else |d|);
      if |d| >= INODE_HI + 2 {
        if !HasHigh(d) {
          SliceSame(e, d, INODE_HI, INODE_HI + 2);
        }
        SliceSame(e, d, INODE_HI + 2, |d|);
        assert e[INODE_HI + 2..] == e[INODE_HI + 2..|d|] && d[INODE_HI + 2..] == d[INODE_HI + 2..|d|];
      }
    }
  }

  /** A sealed inode verifies. */
  lemma InodeSealVerifies(seed: bv32, ino: bv32, d: Bytes)
    requires |d| >= GOOD_OLD_INODE
    ensures var e := InodeSealed(d, InodeSum(seed, ino, d)); |e| == |d| && InodeVerifies(seed, ino, e)
  {
    hide Crc, Low, High, Join, InodeSum, Le16;
    var c := InodeSum(seed, ino, d);
    InodeStable(seed, ino, d, c);
    Field16(d, INODE_LO, Low(c));
    var lo := Patched(d, INODE_LO, Le16(Low(c)));
    if HasHigh(d) {
      Field16(lo, INODE_HI, High(c));
      var e := Patched(lo, INODE_HI, Le16(High(c)));
      assert e[INODE_LO] == lo[INODE_LO] && e[INODE_LO + 1] == lo[INODE_LO + 1];
    }
  }

  method SetInodeChecksum(seed: bv32, ino: bv32, d: array<bv8>) returns (r: Option<bv32>)
    modifies d
    ensures r.None? <==> d.Length < GOOD_OLD_INODE
    ensures r.None? ==> d[..] == old(d[..])
    ensures r.Some? ==>
      && r.value == InodeSum(seed, ino, old(d[..])) && d[..] == InodeSealed(old(d[..]), r.value)
      && InodeVerifies(seed, ino, d[..])
  {
    hide Crc, Low, High, Join, InodeSum, Le16, InodeVerifies;
    if d.Length < GOOD_OLD_INODE {
      return None;
    }
    ghost var was := d[..];
    var c := InodeSum(seed, ino, d[..]);
    InodeSealVerifies(seed, ino, was);
    Field16(was, INODE_LO, Low(c));
    Write(d, INODE_LO, Le16(Low(c)));
    InodeStable(seed, ino, was, c);
    assert HasHigh(d[..]) <==> HasHigh(was) by { HighKept(was, c); }
    if HasHigh(d[..]) {
      Field16(d[..], INODE_HI, High(c));
      Write(d, INODE_HI, Le16(High(c)));
    }
    return Some(c);
  }

  lemma HighKept(d: Bytes, c: bv32)
    requires |d| >= GOOD_OLD_INODE && |Le16(Low(c))| == 2
    ensures HasHigh(Patched(d, INODE_LO, Le16(Low(c)))) <==> HasHigh(d)
  {
    hide Low, Join, Le16;
    var e := Patched(d, INODE_LO, Le16(Low(c)));
    assert |d| >= INODE_HI + 2 ==>
      e[GOOD_OLD_INODE] == d[GOOD_OLD_INODE] && e[GOOD_OLD_INODE + 1] == d[GOOD_OLD_INODE + 1];
  }

  // ---- group descriptors ----

  function GroupSum(seed: bv32, group: bv32, d: Bytes): bv16
    requires |d| >= GROUP_FIELD + 2
  {
    var front := Crc(Crc(Crc(seed, Le32(group)), d[..GROUP_FIELD]), [0, 0]);
    Low(if |d| > GROUP_FIELD + 2 then Crc(front, d[GROUP_FIELD + 2..]) else front)
  }

  lemma GroupStable(seed: bv32, group: bv32, d: Bytes, c: bv16)
    requires |d| >= GROUP_FIELD + 2
    ensures |Le16(c)| == 2
    ensures var e := Patched(d, GROUP_FIELD, Le16(c));
      |e| == |d| && GroupSum(seed, group, e) == GroupSum(seed, group, d) && U16(e, GROUP_FIELD) == c
  {
    Field16(d, GROUP_FIELD, c);
    hide Crc, Low, Join, Le16;
    var e := Patched(d, GROUP_FIELD, Le16(c));
    assert e[..GROUP_FIELD] == d[..GROUP_FIELD] && e[GROUP_FIELD + 2..] == d[GROUP_FIELD + 2..];
  }

  method SetGroupChecksum(seed: bv32, group: bv32, d: array<bv8>) returns (r: Option<bv16>)
    modifies d
    ensures r.None? <==> d.Length < GROUP_FIELD + 2
    ensures r.None? ==> d[..] == old(d[..])
    ensures r.Some? ==> |Le16(r.value)| == 2 && d[..] == Patched(old(d[..]), GROUP_FIELD, Le16(r.value))
    ensures r.Some? ==> GroupSum(seed, group, d[..]) == r.value == U16(d[..], GROUP_FIELD)
  {
    hide Crc, Low, Join, Le16, GroupSum;
    if d.Length < GROUP_FIELD + 2 {
      return None;
    }
    var c := GroupSum(seed, group, d[..]);
    GroupStable(seed, group, d[..], c);
    Write(d, GROUP_FIELD, Le16(c));
    return Some(c);
  }

  datatype BitmapKind = BlockMap | InodeMap

  function LowField(k: BitmapKind): nat { if k.BlockMap? then BLOCK_MAP_LO else INODE_MAP_LO }
  function HighField(k: BitmapKind): nat { if k.BlockMap? then BLOCK_MAP_HI else INODE_MAP_HI }

  /** The descriptor's fields hold the bitmap's checksum, as far as they exist. */
  ghost predicate BitmapVerifies(seed: bv32, bits: Bytes, d: Bytes, k: BitmapKind)
    requires |d| >= LowField(k) + 2
  {
    var c := Crc(seed, bits);
    U16(d, LowField(k)) == Low(c) && (|d| >= HighField(k) + 2 ==> U16(d, HighField(k)) == High(c))
  }

  method SetBitmapChecksum(seed: bv32, bits: Bytes, d: array<bv8>, k: BitmapKind) returns (r: Option<bv32>)
    modifies d
    ensures r.None? <==> d.Length < LowField(k) + 2
    ensures r.None? ==> d[..] == old(d[..])
    ensures r.Some? ==> r.value == Crc(seed, bits) && BitmapVerifies(seed, bits, d[..], k)
    ensures forall i ::
      0 <= i < d.Length && !(LowField(k) <= i < LowField(k) + 2) && !(HighField(k) <= i < HighField(k) + 2) ==>
        d[i] == old(d[i])
  {
    hide Crc, Low, High, Join, Le16;
    if d.Length < LowField(k) + 2 {
      return None;
    }
    var c := Compute(seed, bits);
    Field16(d[..], LowField(k), Low(c));
    Write(d, LowField(k), Le16(Low(c)));
    ghost var lo := d[..];
    if d.Length >= HighField(k) + 2 {
      Field16(d[..], HighField(k), High(c));
      Write(d, HighField(k), Le16(High(c)));
      assert d[LowField(k)] == lo[LowField(k)] && d[LowField(k) + 1] == lo[LowField(k) + 1];
    }
    return Some(c);
  }

  // ---- checksums behind what they cover ----

  /** Storing a checksum behind the bytes it covers leaves it right. */
  lemma TrailingStable(seed: bv32, d: Bytes, end: nat, at: nat, c: bv32)
    requires end <= at && at + 4 <= |d|
    ensures |Le32(c)| == 4
    ensures var e := Patched(d, at, Le32(c));
      |e| == |d| && Crc(seed, e[..end]) == Crc(seed, d[..end]) && U32(e, at) == c
  {
    Field32(d, at, c);
    hide Crc, Le32, U32;
    assert Patched(d, at, Le32(c))[..end] == d[..end];
  }

  method SealBehind(seed: bv32, d: array<bv8>, end: nat, at: nat) returns (c: bv32)
    requires end <= at && at + 4 <= d.Length
    modifies d
    ensures |Le32(c)| == 4 && d[..] == Patched(old(d[..]), at, Le32(c))
    ensures c == Crc(seed, old(d[..end])) == Crc(seed, d[..end]) == U32(d[..], at)
  {
    hide Crc, Le32, U32;
    c := Compute(seed, d[..end]);
    TrailingStable(seed, d[..], end, at, c);
    assert d[..][..end] == d[..end];
    Write(d, at, Le32(c));
    assert d[..][..end] == d[..end];
  }

  method SetSuperblockChecksum(d: array<bv8>) returns (r: Option<bv32>)
    modifies d
    ensures r.None? <==> d.Length < SUPER_SIZE
    ensures r.None? ==> d[..] == old(d[..])
    ensures r.Some? ==> |Le32(r.value)| == 4 && d[..] == Patched(old(d[..]), SUPER_FIELD, Le32(r.value))
    ensures r.Some? ==> Crc(0xffff_ffff, d[..SUPER_FIELD]) == r.value == U32(d[..], SUPER_FIELD)
  {
    hide Crc, Le32, U32;
    if d.Length < SUPER_SIZE {
      return None;
    }
    var c := SealBehind(0xffff_ffff, d, SUPER_FIELD, SUPER_FIELD);
    return Some(c);
  }

  /** The block ends in an empty checksum record. */
  predicate LeafTail(d: Bytes) {
    && |d| >= TAIL
    && var t := |d| - TAIL;
      && d[t] == 0 && d[t + 1] == 0 && d[t + 2] == 0 && d[t + 3] == 0 && U16(d, t + 4) == 12 && d[t + 6] == 0
      && d[t + 7] == 0xde
  }

  method SetDirLeafChecksum(seed: bv32, d: array<bv8>) returns (r: Option<bv32>)
    modifies d
    ensures r.None? <==> !LeafTail(old(d[..]))
    ensures r.None? ==> d[..] == old(d[..])
    ensures r.Some? ==>
      |Le32(r.value)| == 4 && d[..] == Patched(old(d[..]), d.Length - 4, Le32(r.value)) && LeafTail(d[..])
    ensures r.Some? ==> Crc(seed, d[..d.Length - TAIL]) == r.value == U32(d[..], d.Length - 4)
  {
    hide Crc, Le32, U32, Join;
    if !LeafTail(d[..]) {
      return None;
    }
    ghost var was := d[..];
    var c := SealBehind(seed, d, d.Length - TAIL, d.Length - 4);
    assert forall i :: d.Length - TAIL <= i < d.Length - 4 ==> d[i] == was[i];
    return Some(c);
  }

  /** Where the tail of an extent node starts, from the capacity in its header. */
  function ExtentTail(d: Bytes): Option<nat> {
    if |d| < TAIL then None
    else
      var at := 12 + 12 * (U16(d, 4) as nat);
      if at + 4 <= |d| then Some(at) else None
  }

  method SetExtentChecksum(seed: bv32, d: array<bv8>) returns (r: Option<bv32>)
    modifies d
    ensures r.None? <==> ExtentTail(old(d[..])).None?
    ensures r.None? ==> d[..] == old(d[..])
    ensures r.Some? ==> var at := ExtentTail(old(d[..])).value;
      && |Le32(r.value)| == 4 && d[..] == Patched(old(d[..]), at, Le32(r.value)) && ExtentTail(d[..]) == Some(at)
      && Crc(seed, d[..at]) == r.value == U32(d[..], at)
  {
    hide Crc, Le32, U32, Join;
    var tail := ExtentTail(d[..]);
    if tail.None? {
      return None;
    }
    ghost var was := d[..];
    var c := SealBehind(seed, d, tail.value, tail.value);
    assert d[4] == was[4] && d[5] == was[5];
    return Some(c);
  }
}
