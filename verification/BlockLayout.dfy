/** Bitmaps of groups that were never written, rebuilt from the layout of the file system. */
module BlockLayout {
  import opened Bitmap
  import opened AllocTable

  datatype Place = Place(blockBitmap: nat, inodeBitmap: nat, inodeTable: nat)

  datatype Layout = Layout(
    blocks: Geometry,
    inodes: Geometry,
    firstIno: nat,
    inodeSize: nat,
    blockSize: nat,
    descSize: nat,
    reservedGdt: nat,
    metaBg: bool,
    sparseSuper: bool,
    sparseSuper2: bool,
    backups: seq<nat>,
    places: seq<Place>)

  predicate GoodLayout(l: Layout) {
    && GoodGeometry(l.blocks, |l.places|) && GoodGeometry(l.inodes, |l.places|)
    && l.blockSize > 0 && l.inodes.first == 1
  }

  // ---- which groups hold a copy of the superblock ----

  function Pow(f: nat, k: nat): nat {
    if k == 0 then 1 else f * Pow(f, k - 1)
  }

  ghost predicate PowerOf(n: nat, f: nat) {
    exists k: nat :: k > 0 && n == Pow(f, k)
  }

  lemma {:induction false} PowPositive(f: nat, k: nat)
    requires f > 1
    ensures Pow(f, k) >= 1 && (k > 0 ==> Pow(f, k) >= f && Pow(f, k) % f == 0 && Pow(f, k) / f == Pow(f, k - 1))
  {
    if k > 0 {
      PowPositive(f, k - 1);
      DivUnique(f, Pow(f, k - 1), 0);
    }
  }

  /** Dividing out a factor keeps being a power of it, down to one. */
  lemma PowerStep(n: nat, f: nat)
    requires f > 1 && n > 0 && n % f == 0
    ensures PowerOf(n, f) <==> n / f == 1 || PowerOf(n / f, f)
  {
    if PowerOf(n, f) {
      var k: nat :| k > 0 && n == Pow(f, k);
      PowPositive(f, k);
      assert n / f == Pow(f, k - 1);
    }
    if n / f == 1 {
      assert n == Pow(f, 1);
    } else if PowerOf(n / f, f) {
      var k: nat :| k > 0 && n / f == Pow(f, k);
      assert n == Pow(f, k + 1);
    }
  }

  lemma NotPower(n: nat, f: nat)
    requires f > 1 && n % f != 0
    ensures !PowerOf(n, f)
  {
    forall k: nat | k > 0 ensures n != Pow(f, k) {
      PowPositive(f, k);
    }
  }

  lemma SmallNotPower(n: nat, f: nat)
    requires f > 1 && n < f
    ensures !PowerOf(n, f)
  {
    forall k: nat | k > 0 ensures n != Pow(f, k) {
      PowPositive(f, k);
    }
  }

  lemma DivLess(n: nat, f: nat)
    requires f > 1 && n > 0 && n % f == 0
    ensures 0 < n / f < n
  {
    var q := n / f;
    assert n == q * f + n % f;
    Grows(q, f);
  }

  lemma Grows(q: int, f: nat)
    requires f > 1
    ensures q > 0 ==> q * f > q
    ensures q <= 0 ==> q * f <= 0
  {
  }

  method IsPowerOfGroup(group: nat, f: nat) returns (r: bool)
    requires f > 1
    ensures r <==> PowerOf(group, f)
  {
    hide PowerOf;
    if group < f {
      SmallNotPower(group, f);
      return false;
    }
    var n := group;
    while n % f == 0
      invariant 0 < n <= group
      invariant PowerOf(group, f) <==> PowerOf(n, f) || (n == 1 && n < group)
      decreases n
    {
      PowerStep(n, f);
      DivLess(n, f);
      n := n / f;
    }
    NotPower(n, f);
    return n == 1;
  }

  ghost predicate HasBackup(l: Layout, g: nat) {
    || g == 0
    || (l.sparseSuper2 && g in l.backups)
    || (!l.sparseSuper2 && (!l.sparseSuper || g == 1 || PowerOf(g, 3) || PowerOf(g, 5) || PowerOf(g, 7)))
  }

  method GroupHasBackup(l: Layout, g: nat) returns (r: bool)
    ensures r <==> HasBackup(l, g)
  {
    if g == 0 {
      return true;
    }
    if l.sparseSuper2 {
      return g in l.backups;
    }
    if !l.sparseSuper {
      return true;
    }
    var p3 := IsPowerOfGroup(g, 3);
    var p5 := IsPowerOfGroup(g, 5);
    var p7 := IsPowerOfGroup(g, 7);
    return g == 1 || p3 || p5 || p7;
  }

  // ---- which blocks of a group are metadata ----

  function BackupBlocks(l: Layout): nat {
    1 + (|l.places| * l.descSize + BYTES - 1) / BYTES + l.reservedGdt
  }

  function TableBlocks(l: Layout): nat
    requires l.blockSize > 0
  {
    (l.inodes.perGroup * l.inodeSize + l.blockSize - 1) / l.blockSize
  }

  /** Block `bit` of group `g` belongs to the bitmaps or the inode table of group `h`. */
  predicate Reserves(l: Layout, h: nat, g: nat, bit: nat)
    requires h < |l.places| && l.blockSize > 0
  {
    var p, block := l.places[h], GroupStart(l.blocks, g) + bit;
    block == p.blockBitmap || block == p.inodeBitmap || p.inodeTable <= block < p.inodeTable + TableBlocks(l)
  }

  /** Block `bit` of group `g` holds a superblock copy, a bitmap or part of an inode table. */
  ghost predicate Metadata(l: Layout, g: nat, bit: nat)
    requires l.blockSize > 0
  {
    || (HasBackup(l, g) && bit < BackupBlocks(l))
    || exists h :: 0 <= h < |l.places| && Reserves(l, h, g, bit)
  }

  /** The bitmap of an unwritten group: metadata and the bits behind the last block are set, all others are clear. */
  ghost predicate IsBlockInitial(l: Layout, g: nat, bits: seq<bv8>)
    requires GoodLayout(l)
  {
    && |bits| == BYTES
    && forall bit :: 0 <= bit < 8 * BYTES ==>
      (Bit(bits, bit) <==> if bit < Valid(l.blocks, g) then Metadata(l, g, bit) else bit < l.blocks.perGroup)
  }

  ghost predicate IsInodeInitial(l: Layout, g: nat, bits: seq<bv8>)
    requires GoodLayout(l)
  {
    && |bits| == BYTES
    && forall bit :: 0 <= bit < 8 * BYTES ==>
      (Bit(bits, bit) <==> if bit < Valid(l.inodes, g) then g == 0 && bit + 1 < l.firstIno else bit < l.inodes.perGroup)
  }

  lemma ByteSame(x: bv8, y: bv8)
    requires forall k: nat :: k < 8 ==> Has(x, k) == Has(y, k)
    ensures x == y
  {
    assert Has(x, 0) == Has(y, 0) && Has(x, 1) == Has(y, 1) && Has(x, 2) == Has(y, 2) && Has(x, 3) == Has(y, 3);
    assert Has(x, 4) == Has(y, 4) && Has(x, 5) == Has(y, 5) && Has(x, 6) == Has(y, 6) && Has(x, 7) == Has(y, 7);
  }

  /** Bits determine bytes. */
  lemma MapSame(a: seq<bv8>, b: seq<bv8>)
    requires |a| == |b| && forall i :: 0 <= i < 8 * |a| ==> Bit(a, i) == Bit(b, i)
    ensures a == b
  {
    hide Has;
    forall j | 0 <= j < |a| ensures a[j] == b[j] {
      forall k: nat | k < 8 ensures Has(a[j], k) == Has(b[j], k) {
        assert (8 * j + k) / 8 == j && (8 * j + k) % 8 == k;
        assert Bit(a, 8 * j + k) == Bit(b, 8 * j + k);
      }
      ByteSame(a[j], b[j]);
    }
  }

  /** Set the bits of a physical range as far as it lies in the group. */
  method ReserveRange(l: Layout, g: nat, bits: seq<bv8>, start: nat, count: nat) returns (r: seq<bv8>)
    requires GoodLayout(l) && |bits| == BYTES
    ensures |r| == BYTES
    ensures forall bit :: 0 <= bit < 8 * BYTES ==>
      (Bit(r, bit) <==>
        Bit(bits, bit) || (bit < Valid(l.blocks, g) && start <= GroupStart(l.blocks, g) + bit < start + count))
  {
    hide Bit, GroupStart;
    var first := GroupStart(l.blocks, g);
    var end := first + Valid(l.blocks, g);
    var lo := if start < first then first else start;
    var hi := if end < start + count then end else start + count;
    if lo < hi {
      r := SetRange(bits, lo - first, hi - first);
    } else {
      r := bits;
    }
  }

  /** Reserve the bitmaps and the inode table of group `h` as far as they lie in group `g`. */
  method ReservePlace(l: Layout, g: nat, bits: seq<bv8>, h: nat) returns (r: seq<bv8>)
    requires GoodLayout(l) && |bits| == BYTES && h < |l.places|
    ensures |r| == BYTES
    ensures forall bit ::
      0 <= bit < 8 * BYTES ==> (Bit(r, bit) <==> Bit(bits, bit) || (bit < Valid(l.blocks, g) && Reserves(l, h, g, bit)))
  {
    hide Bit, GroupStart, TableBlocks, Valid;
    var p := l.places[h];
    r := ReserveRange(l, g, bits, p.blockBitmap, 1);
    r := ReserveRange(l, g, r, p.inodeBitmap, 1);
    r := ReserveRange(l, g, r, p.inodeTable, TableBlocks(l));
  }

  lemma BlockInitialUnique(l: Layout, g: nat, a: seq<bv8>, b: seq<bv8>)
    requires GoodLayout(l) && IsBlockInitial(l, g, a) && IsBlockInitial(l, g, b)
    ensures a == b
  {
    hide Bit, Metadata;
    MapSame(a, b);
  }

  lemma InodeInitialUnique(l: Layout, g: nat, a: seq<bv8>, b: seq<bv8>)
    requires GoodLayout(l) && IsInodeInitial(l, g, a) && IsInodeInitial(l, g, b)
    ensures a == b
  {
    hide Bit;
    MapSame(a, b);
  }

  method MaterializeBlockBitmap(l: Layout, g: nat, expected: nat) returns (ok: bool, bits: seq<bv8>)
    requires GoodLayout(l)
    ensures ok ==> IsBlockInitial(l, g, bits)
    ensures forall m :: IsBlockInitial(l, g, m) ==> (ok <==> !l.metaBg && Clear(m, Valid(l.blocks, g)) == expected)
  {
    hide Bit, GroupStart, Clear, Reserves, HasBackup, Metadata;
    if l.metaBg {
      return false, [];
    }
    var valid := Valid(l.blocks, g);
    bits := seq(BYTES, i => 0);
    NoBits(bits);
    bits := SetRange(bits, valid, l.blocks.perGroup);
    var backup := GroupHasBackup(l, g);
    if backup {
      bits := ReserveRange(l, g, bits, GroupStart(l.blocks, g), BackupBlocks(l));
    }
    for h := 0 to |l.places|
      invariant |bits| == BYTES
      invariant forall bit ::
        0 <= bit < 8 * BYTES ==>
          (Bit(bits, bit) <==> if bit < valid then MetadataBelow(l, g, h, bit) else bit < l.blocks.perGroup)
    {
      bits := ReservePlace(l, g, bits, h);
    }
    assert IsBlockInitial(l, g, bits) by { AllMetadata(l, g); }
    forall m | IsBlockInitial(l, g, m) ensures m == bits {
      BlockInitialUnique(l, g, m, bits);
    }
    var free := CountClear(bits, valid);
    ok := free == expected;
  }

  lemma AllMetadata(l: Layout, g: nat)
    requires l.blockSize > 0
    ensures forall bit: nat :: MetadataBelow(l, g, |l.places|, bit) <==> Metadata(l, g, bit)
  {
  }

  /** Metadata found in the first `n` places. */
  ghost predicate MetadataBelow(l: Layout, g: nat, n: nat, bit: nat)
    requires l.blockSize > 0 && n <= |l.places|
  {
    || (HasBackup(l, g) && bit < BackupBlocks(l))
    || exists h :: 0 <= h < n && Reserves(l, h, g, bit)
  }

  lemma NoBits(bits: seq<bv8>)
    requires |bits| == BYTES && forall i :: 0 <= i < BYTES ==> bits[i] == 0
    ensures forall bit :: 0 <= bit < 8 * BYTES ==> !Bit(bits, bit)
  {
  }

  method MaterializeInodeBitmap(l: Layout, g: nat, expected: nat) returns (ok: bool, bits: seq<bv8>)
    requires GoodLayout(l)
    ensures ok ==> IsInodeInitial(l, g, bits)
    ensures forall m :: IsInodeInitial(l, g, m) ==> (ok <==> Clear(m, Valid(l.inodes, g)) == expected)
  {
    hide Bit, Clear;
    var valid := Valid(l.inodes, g);
    bits := seq(BYTES, i => 0);
    NoBits(bits);
    bits := SetRange(bits, valid, l.inodes.perGroup);
    if g == 0 {
      var n := if l.firstIno == 0 then 0 else l.firstIno - 1;
      bits := SetRange(bits, 0, if n < valid then n else valid);
    }
    assert IsInodeInitial(l, g, bits);
    forall m | IsInodeInitial(l, g, m) ensures m == bits {
      InodeInitialUnique(l, g, m, bits);
    }
    var free := CountClear(bits, valid);
    ok := free == expected;
  }
}
