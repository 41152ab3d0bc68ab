/** The block and inode allocator of the file system. */
module Ext4Alloc {
  import opened Common
  import opened Bitmap
  import opened AllocTable
  import opened BlockLayout

  /** No inode in use lies in the never-used tail of its group's inode table. */
  ghost predicate TailClear(l: Layout, t: Table, initial: seq<seq<bv8>>, unused: seq<nat>, g: nat)
    requires g < |t.maps| == |t.uninit| == |initial| && |Effective(t, initial, g)| == BYTES
  {
    forall bit ::
      0 <= bit < Valid(l.inodes, g) && bit + NeverUsed(unused, g) >= Valid(l.inodes, g) && bit < 8 * BYTES ==>
        !Bit(Effective(t, initial, g), bit)
  }

  function NeverUsed(unused: seq<nat>, g: nat): nat {
    if g < |unused| then unused[g] else 0
  }

  /** What every operation keeps: counters that are right, or too large in groups that were never written. */
  ghost predicate Usable(l: Layout, blocks: Table, inodes: Table, unused: seq<nat>, bi: seq<seq<bv8>>,
                         ii: seq<seq<bv8>>) {
    && GoodLayout(l) && |l.places| == |blocks.maps| == |inodes.maps| == |unused|
    && Fair(l.blocks, blocks, bi) && Fair(l.inodes, inodes, ii)
    && (forall g :: 0 <= g < |bi| ==> IsBlockInitial(l, g, bi[g]))
    && (forall g :: 0 <= g < |ii| ==> IsInodeInitial(l, g, ii[g]))
    && (forall g: nat :: g < |inodes.maps| ==> TailClear(l, inodes, ii, unused, g))
  }

  /** All counters are right. */
  ghost predicate Consistent(l: Layout, blocks: Table, inodes: Table, unused: seq<nat>, bi: seq<seq<bv8>>,
                             ii: seq<seq<bv8>>) {
    Usable(l, blocks, inodes, unused, bi, ii) && Good(l.blocks, blocks, bi) && Good(l.inodes, inodes, ii)
  }

  class Allocator {
    const l: Layout
    var blocks: Table
    var inodes: Table
    /** How many inodes at the end of each group's table were never used. */
    var unused: seq<nat>
    ghost const blockInitial: seq<seq<bv8>>
    ghost const inodeInitial: seq<seq<bv8>>

    ghost predicate Sound()
      reads this
    {
      Consistent(l, blocks, inodes, unused, blockInitial, inodeInitial)
    }

    ghost predicate Ready()
      reads this
    {
      Usable(l, blocks, inodes, unused, blockInitial, inodeInitial)
    }

    constructor (l: Layout, blocks: Table, inodes: Table, unused: seq<nat>, ghost bi: seq<seq<bv8>>,
                 ghost ii: seq<seq<bv8>>)
      requires Usable(l, blocks, inodes, unused, bi, ii)
      ensures Ready() && (Sound() <==> Consistent(l, blocks, inodes, unused, bi, ii))
      ensures this.blocks == blocks && this.inodes == inodes && this.unused == unused && this.l == l
    {
      this.l, this.blocks, this.inodes, this.unused := l, blocks, inodes, unused;
      this.blockInitial, this.inodeInitial := bi, ii;
    }

    function Now(): State
      reads this
    {
      State(blocks, inodes, unused)
    }

    /** Hand out the first free block of the first group that has one. */
    method AllocBlock() returns (r: Option<nat>)
      requires Ready()
      modifies this`blocks
      ensures Ready() && (old(Sound()) ==> Sound())
      ensures r.None? ==> blocks == old(blocks)
      ensures r.None? <==> forall g: nat :: g < |old(blocks).maps| ==> !BlockGroupOpen(l, old(blocks), blockInitial, g)
      ensures r.Some? ==> Handed(l.blocks, old(blocks), blocks, blockInitial, r.value)
      ensures r.Some? ==> HandsOut(l, old(Now()), Block, r.value, Now(), blockInitial, inodeInitial)
    {
      hide Usable, Consistent, BlockGroupOpen, Handed, HandsOut;
      for g := 0 to |blocks.maps|
        invariant blocks == old(blocks)
        invariant forall h: nat :: h < g ==> !BlockGroupOpen(l, blocks, blockInitial, h)
      {
        r := TakeBlock(g);
        if r.Some? {
          return;
        }
      }
      return None;
    }

    /** Hand out the first free block of group `g`, if it has one. */
    method TakeBlock(g: nat) returns (r: Option<nat>)
      requires Ready() && g < |blocks.maps|
      modifies this`blocks
      ensures r.Some? <==> BlockGroupOpen(l, old(blocks), blockInitial, g)
      ensures r.None? ==> blocks == old(blocks)
      ensures r.Some? ==> Ready() && (old(Sound()) ==> Sound())
      ensures r.Some? ==> Handed(l.blocks, old(blocks), blocks, blockInitial, r.value)
      ensures r.Some? ==> HandsOut(l, old(Now()), Block, r.value, Now(), blockInitial, inodeInitial)
    {
      hide Bit, Clear, Usable, Consistent, Handed, SetBit, HandsOut, BlockGroupOpen, Open, Effective;
      var ok, bits := BlockBitmap(g);
      if !ok {
        return None;
      }
      var found := FindClear(bits, Valid(l.blocks, g));
      ghost var bit := found.value;
      BlockStep(l, Now(), g, bit, blockInitial, inodeInitial);
      blocks := Table(blocks.maps[g := SetBit(bits, found.value)], blocks.free[g := blocks.free[g] - 1],
                      blocks.uninit[g := false], blocks.total - 1);
      assert blocks == Took(old(blocks), blockInitial, g, bit);
      return Some(g * l.blocks.perGroup + found.value + l.blocks.first);
    }

    /** The bitmap to search in group `g`: the stored one, or the one a group starts with. */
    method BlockBitmap(g: nat) returns (ok: bool, bits: seq<bv8>)
      requires Ready() && g < |blocks.maps|
      ensures ok <==> BlockGroupOpen(l, blocks, blockInitial, g)
      ensures ok ==> Searchable(l.blocks, blocks, blockInitial, g, bits)
    {
      KeptFair(l, Now(), blockInitial, inodeInitial, Block);
      GroupFacts(l.blocks, blocks, blockInitial, g);
      InitialFacts(l, Now(), blockInitial, inodeInitial, g);
      hide Bit, Clear, Usable, Fair, Effective, IsBlockInitial;
      if blocks.free[g] == 0 {
        return false, [];
      }
      ok, bits := true, blocks.maps[g];
      if blocks.uninit[g] {
        ok, bits := MaterializeBlockBitmap(l, g, blocks.free[g]);
        if ok {
          BlockInitialUnique(l, g, bits, blockInitial[g]);
        }
      }
    }

    /** Hand out the first free inode of the first group that has one, and shrink the never-used tail if it lies
        there. */
    method AllocInode() returns (r: Option<nat>)
      requires Ready()
      modifies this`inodes, this`unused
      ensures Ready() && (old(Sound()) ==> Sound())
      ensures r.None? ==> inodes == old(inodes) && unused == old(unused)
      ensures r.None? <==> forall g: nat :: g < |old(inodes).maps| ==> !InodeGroupOpen(l, old(inodes), inodeInitial, g)
      ensures r.Some? ==> Handed(l.inodes, old(inodes), inodes, inodeInitial, r.value)
      ensures r.Some? ==> HandsOut(l, old(Now()), Inode, r.value, Now(), blockInitial, inodeInitial)
    {
      hide Usable, Consistent, InodeGroupOpen, Handed, HandsOut;
      for g := 0 to |inodes.maps|
        invariant inodes == old(inodes) && unused == old(unused)
        invariant forall h: nat :: h < g ==> !InodeGroupOpen(l, inodes, inodeInitial, h)
      {
        r := TakeInode(g);
        if r.Some? {
          return;
        }
      }
      return None;
    }

    method TakeInode(g: nat) returns (r: Option<nat>)
      requires Ready() && g < |inodes.maps|
      modifies this`inodes, this`unused
      ensures r.Some? <==> InodeGroupOpen(l, old(inodes), inodeInitial, g)
      ensures r.None? ==> inodes == old(inodes) && unused == old(unused)
      ensures r.Some? ==> Ready() && (old(Sound()) ==> Sound())
      ensures r.Some? ==> Handed(l.inodes, old(inodes), inodes, inodeInitial, r.value)
      ensures r.Some? ==> HandsOut(l, old(Now()), Inode, r.value, Now(), blockInitial, inodeInitial)
    {
      hide Bit, Clear, Usable, Consistent, Handed, SetBit, HandsOut, InodeGroupOpen, Open, Effective;
      var ok, bits := InodeBitmap(g);
      if !ok {
        return None;
      }
      InitialFacts(l, Now(), blockInitial, inodeInitial, g);
      var valid := Valid(l.inodes, g);
      var found := FindClear(bits, valid);
      var bit := found.value;
      InodeStep(l, Now(), g, bit, blockInitial, inodeInitial);
      inodes := Table(inodes.maps[g := SetBit(bits, bit)], inodes.free[g := inodes.free[g] - 1],
                      inodes.uninit[g := false], inodes.total - 1);
      assert inodes == Took(old(inodes), inodeInitial, g, bit);
      var usedBefore := valid - if unused[g] < valid then unused[g] else valid;
      if bit >= usedBefore {
        unused := unused[g := valid - (bit + 1)];
      }
      assert unused == Shortened(l, old(unused), g, bit);
      return Some(g * l.inodes.perGroup + bit + l.inodes.first);
    }

    method InodeBitmap(g: nat) returns (ok: bool, bits: seq<bv8>)
      requires Ready() && g < |inodes.maps|
      ensures ok <==> InodeGroupOpen(l, inodes, inodeInitial, g)
      ensures ok ==> Searchable(l.inodes, inodes, inodeInitial, g, bits)
    {
      KeptFair(l, Now(), blockInitial, inodeInitial, Inode);
      GroupFacts(l.inodes, inodes, inodeInitial, g);
      InitialFacts(l, Now(), blockInitial, inodeInitial, g);
      hide Bit, Clear, Usable, Fair, Effective, IsInodeInitial;
      if inodes.free[g] == 0 {
        return false, [];
      }
      ok, bits := true, inodes.maps[g];
      if inodes.uninit[g] {
        ok, bits := MaterializeInodeBitmap(l, g, inodes.free[g]);
        if ok {
          InodeInitialUnique(l, g, bits, inodeInitial[g]);
        }
      }
    }

    /** Give a block back; numbers out of range and bits already clear are ignored. */
    method DeallocBlock(id: nat)
      requires Ready()
      modifies this`blocks
      ensures blocks == Dealloced(l.blocks, old(blocks), id)
      ensures Ready() && (old(Sound()) ==> (Sound() <==> !Stale(l.blocks, old(blocks), id)))
      ensures Written(l.blocks, old(blocks), id) ==> Returned(l.blocks, old(blocks), blocks, blockInitial, id)
    {
      hide Bit, ClearBit, Stale, Written, Returned, Consistent, Usable;
      BlockGivenBack(l, blocks, inodes, unused, blockInitial, inodeInitial, id);
      if l.blocks.first <= id < l.blocks.end {
        var g, bit := GroupOf(l.blocks, id), BitOf(l.blocks, id);
        if Bit(blocks.maps[g], bit) {
          blocks := Table(blocks.maps[g := ClearBit(blocks.maps[g], bit)], blocks.free[g := blocks.free[g] + 1],
                          blocks.uninit, blocks.total + 1);
        }
      }
    }

    /** Give an inode back, in the same way. */
    method DeallocInode(id: nat)
      requires Ready()
      modifies this`inodes
      ensures inodes == Dealloced(l.inodes, old(inodes), id)
      ensures Ready() && (old(Sound()) ==> (Sound() <==> !Stale(l.inodes, old(inodes), id)))
      ensures Written(l.inodes, old(inodes), id) ==> Returned(l.inodes, old(inodes), inodes, inodeInitial, id)
    {
      hide Bit, ClearBit, Stale, Written, Returned, Consistent, Usable;
      InodeGivenBack(l, blocks, inodes, unused, blockInitial, inodeInitial, id);
      if l.inodes.first <= id < l.inodes.end {
        var g, bit := GroupOf(l.inodes, id), BitOf(l.inodes, id);
        if Bit(inodes.maps[g], bit) {
          inodes := Table(inodes.maps[g := ClearBit(inodes.maps[g], bit)], inodes.free[g := inodes.free[g] + 1],
                          inodes.uninit, inodes.total + 1);
        }
      }
    }
  }

  // ---- what the operations mean ----

  /** `bits` is what the group stands for; it has a clear bit, and each clear bit can be handed out. */
  ghost predicate Searchable(geo: Geometry, t: Table, initial: seq<seq<bv8>>, g: nat, bits: seq<bv8>) {
    && g < |t.maps| == |t.free| == |t.uninit| == |initial| && t.free[g] > 0 && t.total > 0
    && bits == Effective(t, initial, g) && Valid(geo, g) <= 8 * |bits| && Clear(bits, Valid(geo, g)) > 0
    && forall bit: nat :: bit < Valid(geo, g) && !Bit(bits, bit) ==> Open(geo, t, initial, g, bit)
  }

  /** The group has a block to hand out: it counts one, and a bitmap that was never written can be built and has the
      number of clear bits that is counted. */
  ghost predicate BlockGroupOpen(l: Layout, t: Table, initial: seq<seq<bv8>>, g: nat)
  {
    && g < |t.free| == |t.uninit| == |initial| && Valid(l.blocks, g) <= 8 * |initial[g]| && t.free[g] > 0
    && (t.uninit[g] ==> !l.metaBg && Clear(initial[g], Valid(l.blocks, g)) == t.free[g])
  }

  ghost predicate InodeGroupOpen(l: Layout, t: Table, initial: seq<seq<bv8>>, g: nat)
  {
    && g < |t.free| == |t.uninit| == |initial| && Valid(l.inodes, g) <= 8 * |initial[g]| && t.free[g] > 0
    && (t.uninit[g] ==> Clear(initial[g], Valid(l.inodes, g)) == t.free[g])
  }

  /** `id` was free and is now the only new number in use; one less is free. */
  ghost predicate Handed(geo: Geometry, t: Table, t': Table, initial: seq<seq<bv8>>, id: nat) {
    && Shaped(geo, t, initial) && Shaped(geo, t', initial)
    && !Taken(geo, t, initial, id) && t.total == t'.total + 1
    && forall j: nat :: Taken(geo, t', initial, j) <==> j == id || Taken(geo, t, initial, j)
  }

  /** `id` is free and every other number is as before. */
  ghost predicate Returned(geo: Geometry, t: Table, t': Table, initial: seq<seq<bv8>>, id: nat) {
    && Shaped(geo, t, initial) && Shaped(geo, t', initial)
    && t'.total == t.total + (if Taken(geo, t, initial, id) then 1 else 0)
    && forall j: nat :: Taken(geo, t', initial, j) <==> j != id && Taken(geo, t, initial, j)
  }

  /** The stored bit of a number in range. */
  ghost predicate Stored(geo: Geometry, t: Table, id: nat) {
    && geo.first <= id < geo.end && geo.perGroup > 0 && |t.maps| == |t.free| == |t.uninit|
    && GroupOf(geo, id) < |t.maps| && BitOf(geo, id) < 8 * |t.maps[GroupOf(geo, id)]|
    && Bit(t.maps[GroupOf(geo, id)], BitOf(geo, id))
  }

  ghost function Dealloced(geo: Geometry, t: Table, id: nat): Table {
    if Stored(geo, t, id) then Gave(t, GroupOf(geo, id), BitOf(geo, id)) else t
  }

  /** The bitmap of the number's group has been written. */
  ghost predicate Written(geo: Geometry, t: Table, id: nat) {
    geo.first <= id < geo.end && geo.perGroup > 0 && GroupOf(geo, id) < |t.uninit| && !t.uninit[GroupOf(geo, id)]
  }

  /** The group was never written and its stored bitmap happens to have the bit set. */
  ghost predicate Stale(geo: Geometry, t: Table, id: nat) {
    Stored(geo, t, id) && !Written(geo, t, id)
  }

  lemma GroupFacts(geo: Geometry, t: Table, initial: seq<seq<bv8>>, g: nat)
    requires Fair(geo, t, initial) && g < |t.maps|
    ensures Valid(geo, g) <= 8 * BYTES && |t.maps[g]| == |initial[g]| == BYTES
    ensures t.uninit[g] ==> Effective(t, initial, g) == initial[g]
    ensures !t.uninit[g] ==> Effective(t, initial, g) == t.maps[g] && Counted(geo, t, initial, g)
    ensures Counted(geo, t, initial, g) <==> t.free[g] == Clear(Effective(t, initial, g), Valid(geo, g))
  {
    assert Fairly(geo, t, initial, g);
  }

  lemma InitialFacts(l: Layout, s: State, bi: seq<seq<bv8>>, ii: seq<seq<bv8>>, g: nat)
    requires Kept(l, s, bi, ii)
    ensures GoodLayout(l) && |s.unused| == |s.inodes.maps| && s.blocks.total == Sum(s.blocks.free)
    ensures g < |s.blocks.maps| ==>
      IsBlockInitial(l, g, bi[g]) && (s.blocks.free[g] > 0 ==> s.blocks.total > 0)
    ensures g < |s.inodes.maps| ==>
      IsInodeInitial(l, g, ii[g]) && (s.inodes.free[g] > 0 ==> s.inodes.total > 0)
  {
    if g < |s.blocks.maps| {
      SumChange(s.blocks.free, g, 0);
    }
    if g < |s.inodes.maps| {
      SumChange(s.inodes.free, g, 0);
    }
  }

  lemma TookHands(geo: Geometry, t: Table, initial: seq<seq<bv8>>, g: nat, bit: nat)
    requires Fair(geo, t, initial) && g < |t.maps| && bit < Valid(geo, g) && |Effective(t, initial, g)| == BYTES
    requires Counted(geo, t, initial, g) && !Bit(Effective(t, initial, g), bit)
    ensures t.free[g] > 0 && t.total > 0 && Fair(geo, Took(t, initial, g, bit), initial)
    ensures Good(geo, t, initial) ==> Good(geo, Took(t, initial, g, bit), initial)
    ensures Handed(geo, t, Took(t, initial, g, bit), initial, Encode(geo, g, bit))
  {
    hide Bit, Clear, Sum, Taken, Effective;
    TookGood(geo, t, initial, g, bit);
    forall j: nat
      ensures Taken(geo, Took(t, initial, g, bit), initial, j) <==>
        j == Encode(geo, g, bit) || Taken(geo, t, initial, j)
    {
      TookTakes(geo, t, initial, g, bit, j);
    }
    TookTakes(geo, t, initial, g, bit, 0);
  }

  lemma TailsKept(l: Layout, t: Table, initial: seq<seq<bv8>>, unused: seq<nat>, unused2: seq<nat>, g: nat, bit: nat)
    requires Fair(l.inodes, t, initial) && g < |t.maps| == |unused| && bit < Valid(l.inodes, g) <= 8 * BYTES
    requires !Bit(Effective(t, initial, g), bit) && t.free[g] > 0 && t.total > 0
    requires forall h: nat :: h < |t.maps| ==> TailClear(l, t, initial, unused, h)
    requires var valid := Valid(l.inodes, g);
      unused2 == if bit + unused[g] >= valid then unused[g := valid - (bit + 1)] else unused
    ensures forall h: nat :: h < |t.maps| ==> TailClear(l, Took(t, initial, g, bit), initial, unused2, h)
  {
    hide Bit, SetBit, Counted, Sum, TailClear;
    var t' := Took(t, initial, g, bit);
    forall h: nat | h < |t.maps| ensures TailClear(l, t', initial, unused2, h) {
      SameLength(l.inodes, t, initial, h);
      if h == g {
        TailKept(l, t, t', initial, unused, unused2, g, bit);
      } else {
        TailSame(l, t, t', initial, unused, unused2, h);
      }
    }
  }

  lemma SameLength(geo: Geometry, t: Table, initial: seq<seq<bv8>>, h: nat)
    requires Fair(geo, t, initial) && h < |t.maps|
    ensures |Effective(t, initial, h)| == BYTES && |t.maps[h]| == |initial[h]| == BYTES
  {
  }

  lemma TailSame(l: Layout, t: Table, t': Table, initial: seq<seq<bv8>>, unused: seq<nat>, unused2: seq<nat>, h: nat)
    requires h < |t.maps| == |t.uninit| == |initial| == |t'.maps| == |t'.uninit| && |Effective(t, initial, h)| == BYTES
    requires Effective(t', initial, h) == Effective(t, initial, h) && NeverUsed(unused2, h) == NeverUsed(unused, h)
    requires TailClear(l, t, initial, unused, h)
    ensures TailClear(l, t', initial, unused2, h)
  {
  }

  lemma TailKept(l: Layout, t: Table, t': Table, initial: seq<seq<bv8>>, unused: seq<nat>, unused2: seq<nat>, g: nat,
                 bit: nat)
    requires g < |t.maps| == |t.uninit| == |initial| == |t'.maps| == |t'.uninit| && |Effective(t, initial, g)| == BYTES
    requires g < |unused|
    requires bit < Valid(l.inodes, g) <= 8 * BYTES && Effective(t', initial, g) == SetBit(Effective(t, initial, g), bit)
    requires var valid := Valid(l.inodes, g);
      unused2 == if bit + unused[g] >= valid then unused[g := valid - (bit + 1)] else unused
    requires TailClear(l, t, initial, unused, g)
    ensures TailClear(l, t', initial, unused2, g)
  {
    hide Bit, SetBit, Effective;
    forall b | 0 <= b < Valid(l.inodes, g)
      ensures Bit(SetBit(Effective(t, initial, g), bit), b) <==> b == bit || Bit(Effective(t, initial, g), b)
    {
      SetBits(Effective(t, initial, g), bit, b);
    }
  }

  lemma TailsCleared(l: Layout, t: Table, initial: seq<seq<bv8>>, unused: seq<nat>, g: nat, bit: nat)
    requires Fair(l.inodes, t, initial) && g < |t.maps| && |t.maps[g]| == BYTES && bit < 8 * BYTES
    requires forall h: nat :: h < |t.maps| ==> TailClear(l, t, initial, unused, h)
    ensures forall h: nat :: h < |t.maps| ==> TailClear(l, Gave(t, g, bit), initial, unused, h)
  {
    hide Bit, ClearBit, Counted, Sum, TailClear;
    var t' := Gave(t, g, bit);
    forall h: nat | h < |t.maps| ensures TailClear(l, t', initial, unused, h) {
      SameLength(l.inodes, t, initial, h);
      if h == g && !t.uninit[g] {
        TailCleared(l, t, t', initial, unused, g, bit);
      } else {
        TailSame(l, t, t', initial, unused, unused, h);
      }
    }
  }

  lemma TailCleared(l: Layout, t: Table, t': Table, initial: seq<seq<bv8>>, unused: seq<nat>, g: nat, bit: nat)
    requires g < |t.maps| == |t.uninit| == |initial| == |t'.maps| == |t'.uninit| && |Effective(t, initial, g)| == BYTES
    requires bit < 8 * BYTES
    requires Effective(t', initial, g) == ClearBit(Effective(t, initial, g), bit) && TailClear(l, t, initial, unused, g)
    ensures TailClear(l, t', initial, unused, g)
  {
    hide Bit, ClearBit, Effective;
    forall b | 0 <= b < 8 * BYTES
      ensures Bit(ClearBit(Effective(t, initial, g), bit), b) ==> Bit(Effective(t, initial, g), b)
    {
      ClearBits(Effective(t, initial, g), bit, b);
    }
  }

  /** Giving a number back keeps the counters right unless the stored bitmap was never written; a free number
      changes nothing. */
  lemma GivenBack(geo: Geometry, t: Table, initial: seq<seq<bv8>>, id: nat)
    requires Fair(geo, t, initial)
    ensures Fair(geo, Dealloced(geo, t, id), initial)
    ensures Good(geo, t, initial) ==> (Good(geo, Dealloced(geo, t, id), initial) <==> !Stale(geo, t, id))
    ensures Stale(geo, t, id) ==>
      forall j: nat :: Taken(geo, Dealloced(geo, t, id), initial, j) <==> Taken(geo, t, initial, j)
    ensures Written(geo, t, id) ==> Returned(geo, t, Dealloced(geo, t, id), initial, id)
    ensures Written(geo, t, id) && !Taken(geo, t, initial, id) ==> Dealloced(geo, t, id) == t
    ensures geo.first <= id < geo.end ==>
      GroupOf(geo, id) < |t.maps| && |t.maps[GroupOf(geo, id)]| == BYTES && BitOf(geo, id) < 8 * BYTES
  {
    hide Bit, ClearBit, Clear, Sum;
    if geo.first <= id < geo.end {
      InRange(geo, |t.maps|, id);
      DecodeEncodes(geo, id);
      var g, bit := GroupOf(geo, id), BitOf(geo, id);
      GroupFacts(geo, t, initial, g);
      if Bit(t.maps[g], bit) {
        GaveGood(geo, t, initial, g, bit);
        if !t.uninit[g] {
          BitReturned(geo, t, initial, id);
        }
      } else if !t.uninit[g] {
        NothingTaken(geo, t, initial, id);
      }
    }
  }

  lemma BitReturned(geo: Geometry, t: Table, initial: seq<seq<bv8>>, id: nat)
    requires Fair(geo, t, initial) && Written(geo, t, id) && Stored(geo, t, id)
    ensures Taken(geo, t, initial, id) && Returned(geo, t, Dealloced(geo, t, id), initial, id)
  {
    var g, bit := GroupOf(geo, id), BitOf(geo, id);
    InRange(geo, |t.maps|, id);
    DecodeEncodes(geo, id);
    hide Bit, Clear, Sum, GroupOf, BitOf, Encode, ClearBit;
    GaveGood(geo, t, initial, g, bit);
    forall j: nat ensures Taken(geo, Gave(t, g, bit), initial, j) <==> j != id && Taken(geo, t, initial, j) {
      GaveFrees(geo, t, initial, g, bit, j);
    }
  }

  lemma NothingTaken(geo: Geometry, t: Table, initial: seq<seq<bv8>>, id: nat)
    requires Fair(geo, t, initial) && Written(geo, t, id) && !Stored(geo, t, id)
    ensures !Taken(geo, t, initial, id) && Returned(geo, t, t, initial, id)
  {
    hide Bit, Clear, Sum;
    InRange(geo, |t.maps|, id);
  }

  lemma BlockGivenBack(l: Layout, blocks: Table, inodes: Table, unused: seq<nat>, bi: seq<seq<bv8>>, ii: seq<seq<bv8>>,
                       id: nat)
    requires Usable(l, blocks, inodes, unused, bi, ii)
    ensures var t := Dealloced(l.blocks, blocks, id);
      && Usable(l, t, inodes, unused, bi, ii)
      && (Consistent(l, blocks, inodes, unused, bi, ii) ==>
        (Consistent(l, t, inodes, unused, bi, ii) <==> !Stale(l.blocks, blocks, id)))
      && (Written(l.blocks, blocks, id) ==> Returned(l.blocks, blocks, t, bi, id))
    ensures |blocks.maps| == |blocks.free| == |blocks.uninit| && l.blocks.perGroup > 0
    ensures l.blocks.first <= id < l.blocks.end ==>
      GroupOf(l.blocks, id) < |blocks.maps| && BitOf(l.blocks, id) < 8 * |blocks.maps[GroupOf(l.blocks, id)]|
  {
    hide Bit, Stale, Written, Returned, IsBlockInitial, IsInodeInitial, TailClear, Counted, Fairly, Sum, Dealloced;
    GivenBack(l.blocks, blocks, bi, id);
    FairShape(l.blocks, blocks, bi);
  }

  lemma FairShape(geo: Geometry, t: Table, initial: seq<seq<bv8>>)
    requires Fair(geo, t, initial)
    ensures |t.maps| == |t.free| == |t.uninit| == |initial| && geo.perGroup > 0
  {
  }

  lemma InodeGivenBack(l: Layout, blocks: Table, inodes: Table, unused: seq<nat>, bi: seq<seq<bv8>>, ii: seq<seq<bv8>>,
                       id: nat)
    requires Usable(l, blocks, inodes, unused, bi, ii)
    ensures var t := Dealloced(l.inodes, inodes, id);
      && Usable(l, blocks, t, unused, bi, ii)
      && (Consistent(l, blocks, inodes, unused, bi, ii) ==>
        (Consistent(l, blocks, t, unused, bi, ii) <==> !Stale(l.inodes, inodes, id)))
      && (Written(l.inodes, inodes, id) ==> Returned(l.inodes, inodes, t, ii, id))
    ensures |inodes.maps| == |inodes.free| == |inodes.uninit| && l.inodes.perGroup > 0
    ensures l.inodes.first <= id < l.inodes.end ==>
      GroupOf(l.inodes, id) < |inodes.maps| && BitOf(l.inodes, id) < 8 * |inodes.maps[GroupOf(l.inodes, id)]|
  {
    hide Bit, Stale, Written, Returned, IsBlockInitial, IsInodeInitial, TailClear, Counted, Fairly, Sum;
    GivenBack(l.inodes, inodes, ii, id);
    FairShape(l.inodes, inodes, ii);
    if Stored(l.inodes, inodes, id) {
      TailsCleared(l, inodes, ii, unused, GroupOf(l.inodes, id), BitOf(l.inodes, id));
    }
  }

  // ---- whole runs ----

  datatype Kind = Block | Inode

  datatype State = State(blocks: Table, inodes: Table, unused: seq<nat>)

  /** A clear valid bit of a group is set, or a number is given back. */
  datatype Event = Alloc(kind: Kind, g: nat, bit: nat) | Dealloc(kind: Kind, id: nat)

  function TableOf(s: State, k: Kind): Table {
    if k.Block? then s.blocks else s.inodes
  }

  function With(s: State, k: Kind, t: Table): State {
    if k.Block? then s.(blocks := t) else s.(inodes := t)
  }

  function GeoOf(l: Layout, k: Kind): Geometry {
    if k.Block? then l.blocks else l.inodes
  }

  /** The bit can be handed out: the group has free bits and this is one of them. A bitmap that was never written is
      taken only if it has as many clear bits as are counted. */
  ghost predicate Open(geo: Geometry, t: Table, initial: seq<seq<bv8>>, g: nat, bit: nat) {
    && g < |t.maps| == |t.free| == |t.uninit| == |initial| && t.free[g] > 0 && t.total > 0
    && bit < Valid(geo, g) <= 8 * |Effective(t, initial, g)| && !Bit(Effective(t, initial, g), bit)
    && (t.uninit[g] ==> t.free[g] == Clear(initial[g], Valid(geo, g)))
  }

  /** The never-used tails after an inode was handed out. */
  function Shortened(l: Layout, unused: seq<nat>, g: nat, bit: nat): seq<nat> {
    if g < |unused| && bit < Valid(l.inodes, g) && bit + unused[g] >= Valid(l.inodes, g)
    then unused[g := Valid(l.inodes, g) - (bit + 1)] else unused
  }

  ghost predicate Step(l: Layout, s: State, e: Event, s': State, bi: seq<seq<bv8>>, ii: seq<seq<bv8>>) {
    var geo, t, initial := GeoOf(l, e.kind), TableOf(s, e.kind), if e.kind.Block? then bi else ii;
    match e
    case Alloc(k, g, bit) =>
      && Open(geo, t, initial, g, bit)
      && s' == With(s, k, Took(t, initial, g, bit)).(unused := if k.Block? then s.unused
        else Shortened(l, s.unused, g, bit))
    case Dealloc(k, id) => s' == With(s, k, Dealloced(geo, t, id))
  }

  /** The number an event is about. */
  function Subject(l: Layout, e: Event): nat {
    match e
    case Alloc(k, g, bit) => Encode(GeoOf(l, k), g, bit)
    case Dealloc(_, id) => id
  }

  ghost predicate Right(l: Layout, s: State, bi: seq<seq<bv8>>, ii: seq<seq<bv8>>) {
    Consistent(l, s.blocks, s.inodes, s.unused, bi, ii)
  }

  ghost predicate Kept(l: Layout, s: State, bi: seq<seq<bv8>>, ii: seq<seq<bv8>>) {
    Usable(l, s.blocks, s.inodes, s.unused, bi, ii)
  }

  /** Any events one after another; nothing is assumed of the states in between. */
  ghost predicate IsRun(l: Layout, ss: seq<State>, es: seq<Event>, bi: seq<seq<bv8>>, ii: seq<seq<bv8>>) {
    |ss| == |es| + 1 && forall i :: 0 <= i < |es| ==> Step(l, ss[i], es[i], ss[i + 1], bi, ii)
  }

  lemma AllocKeeps(l: Layout, s: State, e: Event, s': State, bi: seq<seq<bv8>>, ii: seq<seq<bv8>>)
    requires Kept(l, s, bi, ii) && Step(l, s, e, s', bi, ii) && e.Alloc?
    ensures Kept(l, s', bi, ii) && (Right(l, s, bi, ii) ==> Right(l, s', bi, ii))
    ensures var initial := if e.kind.Block? then bi else ii;
      Handed(GeoOf(l, e.kind), TableOf(s, e.kind), TableOf(s', e.kind), initial, Subject(l, e))
  {
    hide Bit, Clear, Sum, IsBlockInitial, IsInodeInitial, TailClear, Effective, Handed, SetBit, Counted, Fairly;
    if e.kind.Block? {
      GroupFacts(l.blocks, s.blocks, bi, e.g);
      TookHands(l.blocks, s.blocks, bi, e.g, e.bit);
    } else {
      GroupFacts(l.inodes, s.inodes, ii, e.g);
      TookHands(l.inodes, s.inodes, ii, e.g, e.bit);
      TailsKept(l, s.inodes, ii, s.unused, s'.unused, e.g, e.bit);
    }
  }

  /** The event gives back a number of a group that was never written, whose stored bitmap has the bit set. */
  ghost predicate GivesStale(l: Layout, s: State, e: Event) {
    e.Dealloc? && Stale(GeoOf(l, e.kind), TableOf(s, e.kind), e.id)
  }

  lemma DeallocKeeps(l: Layout, s: State, e: Event, s': State, bi: seq<seq<bv8>>, ii: seq<seq<bv8>>)
    requires Kept(l, s, bi, ii) && Step(l, s, e, s', bi, ii) && e.Dealloc?
    ensures Kept(l, s', bi, ii)
    ensures Right(l, s, bi, ii) ==> (Right(l, s', bi, ii) <==> !GivesStale(l, s, e))
  {
    hide Bit, Stale, Dealloced, Consistent, Usable;
    if e.kind.Block? {
      BlockGivenBack(l, s.blocks, s.inodes, s.unused, bi, ii, e.id);
    } else {
      InodeGivenBack(l, s.blocks, s.inodes, s.unused, bi, ii, e.id);
    }
  }

  /** In every state of every run no counter is too small, those of written groups are right, and no inode in use lies
      in a never-used tail. */
  lemma {:induction false} StaysKept(l: Layout, ss: seq<State>, es: seq<Event>, bi: seq<seq<bv8>>, ii: seq<seq<bv8>>,
                                     n: nat)
    requires IsRun(l, ss, es, bi, ii) && Kept(l, ss[0], bi, ii) && n <= |es|
    ensures Kept(l, ss[n], bi, ii)
    decreases n
  {
    hide Right, Kept, Step;
    if n > 0 {
      StaysKept(l, ss, es, bi, ii, n - 1);
      assert Step(l, ss[n - 1], es[n - 1], ss[n], bi, ii);
      if es[n - 1].Alloc? {
        AllocKeeps(l, ss[n - 1], es[n - 1], ss[n], bi, ii);
      } else {
        DeallocKeeps(l, ss[n - 1], es[n - 1], ss[n], bi, ii);
      }
    }
  }

  /** As long as no stale bit is given back, all counters are right. */
  lemma {:induction false} StaysRight(l: Layout, ss: seq<State>, es: seq<Event>, bi: seq<seq<bv8>>, ii: seq<seq<bv8>>,
                                      n: nat)
    requires IsRun(l, ss, es, bi, ii) && Right(l, ss[0], bi, ii) && n <= |es|
    requires forall i :: 0 <= i < n ==> !GivesStale(l, ss[i], es[i])
    ensures Right(l, ss[n], bi, ii)
    decreases n
  {
    RightKept(l, ss[0], bi, ii);
    hide Right, Kept, Step, GivesStale;
    if n > 0 {
      StaysRight(l, ss, es, bi, ii, n - 1);
      RightKept(l, ss[n - 1], bi, ii);
      assert Step(l, ss[n - 1], es[n - 1], ss[n], bi, ii);
      if es[n - 1].Alloc? {
        AllocKeeps(l, ss[n - 1], es[n - 1], ss[n], bi, ii);
      } else {
        DeallocKeeps(l, ss[n - 1], es[n - 1], ss[n], bi, ii);
      }
    }
  }

  lemma RightKept(l: Layout, s: State, bi: seq<seq<bv8>>, ii: seq<seq<bv8>>)
    requires Right(l, s, bi, ii)
    ensures Kept(l, s, bi, ii)
  {
  }

  ghost predicate InUse(l: Layout, s: State, bi: seq<seq<bv8>>, ii: seq<seq<bv8>>, k: Kind, id: nat) {
    var geo, t, initial := GeoOf(l, k), TableOf(s, k), if k.Block? then bi else ii;
    Shaped(geo, t, initial) && Taken(geo, t, initial, id)
  }

  lemma KeptFair(l: Layout, s: State, bi: seq<seq<bv8>>, ii: seq<seq<bv8>>, k: Kind)
    requires Kept(l, s, bi, ii)
    ensures Fair(GeoOf(l, k), TableOf(s, k), if k.Block? then bi else ii)
  {
  }

  /** One event leaves every number in use except the one it gives back. */
  lemma StaysInUse(l: Layout, s: State, e: Event, s': State, bi: seq<seq<bv8>>, ii: seq<seq<bv8>>, k: Kind, id: nat)
    requires Kept(l, s, bi, ii) && Step(l, s, e, s', bi, ii) && InUse(l, s, bi, ii, k, id) && e != Dealloc(k, id)
    ensures InUse(l, s', bi, ii, k, id)
  {
    hide Kept, Taken, Dealloced, Stale;
    var geo, t, initial := GeoOf(l, e.kind), TableOf(s, e.kind), if e.kind.Block? then bi else ii;
    KeptFair(l, s, bi, ii, e.kind);
    if e.Alloc? {
      AllocKeeps(l, s, e, s', bi, ii);
    } else {
      GivenBack(geo, t, initial, e.id);
      NotStale(geo, t, e.id);
    }
  }

  lemma NotStale(geo: Geometry, t: Table, id: nat)
    ensures Stale(geo, t, id) || Written(geo, t, id) || Dealloced(geo, t, id) == t
  {
  }

  /** Over any run, a number handed out stays in use until it is given back. */
  lemma {:induction false} StaysTaken(l: Layout, ss: seq<State>, es: seq<Event>, bi: seq<seq<bv8>>, ii: seq<seq<bv8>>,
                                      i: nat, j: nat)
    requires IsRun(l, ss, es, bi, ii) && Kept(l, ss[0], bi, ii) && i < j <= |es| && es[i].Alloc?
    requires forall k :: i < k < j ==> es[k] != Dealloc(es[i].kind, Subject(l, es[i]))
    ensures InUse(l, ss[j], bi, ii, es[i].kind, Subject(l, es[i]))
    decreases j
  {
    hide Kept, Taken, Step, Subject;
    var id := Subject(l, es[i]);
    StaysKept(l, ss, es, bi, ii, j - 1);
    assert Step(l, ss[j - 1], es[j - 1], ss[j], bi, ii);
    if i + 1 == j {
      AllocKeeps(l, ss[i], es[i], ss[j], bi, ii);
    } else {
      StaysTaken(l, ss, es, bi, ii, i, j - 1);
      StaysInUse(l, ss[j - 1], es[j - 1], ss[j], bi, ii, es[i].kind, id);
    }
  }

  /** Over any run, no number is handed out twice without being given back in between. */
  lemma NoDoubleHandout(l: Layout, ss: seq<State>, es: seq<Event>, bi: seq<seq<bv8>>, ii: seq<seq<bv8>>, i: nat, j: nat)
    requires IsRun(l, ss, es, bi, ii) && Kept(l, ss[0], bi, ii) && i < j < |es| && es[i].Alloc? && es[j].Alloc?
    requires es[j].kind == es[i].kind && Subject(l, es[j]) == Subject(l, es[i])
    ensures exists k :: i < k < j && es[k] == Dealloc(es[i].kind, Subject(l, es[i]))
  {
    hide Kept, Taken, Step, Subject;
    StaysKept(l, ss, es, bi, ii, j);
    assert Step(l, ss[j], es[j], ss[j + 1], bi, ii);
    AllocKeeps(l, ss[j], es[j], ss[j + 1], bi, ii);
    if forall k :: i < k < j ==> es[k] != Dealloc(es[i].kind, Subject(l, es[i])) {
      StaysTaken(l, ss, es, bi, ii, i, j);
    }
  }

  // ---- a group that is counted wrong ----

  /** The group was never written and counts more than its bitmap will have clear. */
  ghost predicate Lost(l: Layout, s: State, bi: seq<seq<bv8>>, ii: seq<seq<bv8>>, k: Kind, g: nat) {
    var geo, t, initial := GeoOf(l, k), TableOf(s, k), if k.Block? then bi else ii;
    && g < |t.maps| == |t.free| == |t.uninit| == |initial| && t.uninit[g]
    && Valid(geo, g) <= 8 * |initial[g]| && t.free[g] > Clear(initial[g], Valid(geo, g))
  }

  /** Giving back a stale bit costs the group. */
  lemma StaleLoses(l: Layout, s: State, e: Event, s': State, bi: seq<seq<bv8>>, ii: seq<seq<bv8>>)
    requires Kept(l, s, bi, ii) && Step(l, s, e, s', bi, ii) && GivesStale(l, s, e)
    ensures Lost(l, s', bi, ii, e.kind, GroupOf(GeoOf(l, e.kind), e.id))
  {
    hide Clear, Bit, ClearBit;
    var geo, t := GeoOf(l, e.kind), TableOf(s, e.kind);
    KeptFair(l, s, bi, ii, e.kind);
    GroupFacts(geo, t, if e.kind.Block? then bi else ii, GroupOf(geo, e.id));
    assert Fairly(geo, t, if e.kind.Block? then bi else ii, GroupOf(geo, e.id));
  }

  /** Nothing is handed out from a lost group, and no event brings it back. */
  lemma StaysLost(l: Layout, s: State, e: Event, s': State, bi: seq<seq<bv8>>, ii: seq<seq<bv8>>, k: Kind, g: nat)
    requires Step(l, s, e, s', bi, ii) && Lost(l, s, bi, ii, k, g)
    ensures Lost(l, s', bi, ii, k, g) && !(e.Alloc? && e.kind == k && e.g == g)
  {
    hide Clear, Bit, ClearBit, SetBit;
  }

  /** Over any run, once a stale bit of a group was given back, nothing is handed out from that group again. */
  lemma {:induction false} LostForGood(l: Layout, ss: seq<State>, es: seq<Event>, bi: seq<seq<bv8>>, ii: seq<seq<bv8>>,
                                       i: nat, j: nat)
    requires IsRun(l, ss, es, bi, ii) && Kept(l, ss[0], bi, ii) && i < j < |es| && GivesStale(l, ss[i], es[i])
    ensures GeoOf(l, es[i].kind).perGroup > 0 && GeoOf(l, es[i].kind).first <= es[i].id
    ensures var g := GroupOf(GeoOf(l, es[i].kind), es[i].id);
      Lost(l, ss[j], bi, ii, es[i].kind, g) && !(es[j].Alloc? && es[j].kind == es[i].kind && es[j].g == g)
    decreases j
  {
    hide Kept, Step, Lost;
    StaysKept(l, ss, es, bi, ii, i);
    assert Step(l, ss[i], es[i], ss[i + 1], bi, ii);
    assert Step(l, ss[j - 1], es[j - 1], ss[j], bi, ii);
    assert Step(l, ss[j], es[j], ss[j + 1], bi, ii);
    StaleLoses(l, ss[i], es[i], ss[i + 1], bi, ii);
    var k, g := es[i].kind, GroupOf(GeoOf(l, es[i].kind), es[i].id);
    if i + 1 < j {
      LostForGood(l, ss, es, bi, ii, i, j - 1);
      StaysLost(l, ss[j - 1], es[j - 1], ss[j], bi, ii, k, g);
    }
    StaysLost(l, ss[j], es[j], ss[j + 1], bi, ii, k, g);
  }

  /** The bit of the number is handed out in one step. */
  ghost predicate HandsOut(l: Layout, s: State, k: Kind, id: nat, s': State, bi: seq<seq<bv8>>, ii: seq<seq<bv8>>) {
    exists g, bit :: Step(l, s, Alloc(k, g, bit), s', bi, ii) && id == Encode(GeoOf(l, k), g, bit)
  }

  lemma Stepped(l: Layout, s: State, e: Event, s': State, bi: seq<seq<bv8>>, ii: seq<seq<bv8>>)
    requires Step(l, s, e, s', bi, ii) && e.Alloc?
    ensures HandsOut(l, s, e.kind, Subject(l, e), s', bi, ii)
  {
  }

  lemma BlockStep(l: Layout, s: State, g: nat, bit: nat, bi: seq<seq<bv8>>, ii: seq<seq<bv8>>)
    requires Kept(l, s, bi, ii) && Open(l.blocks, s.blocks, bi, g, bit)
    ensures var s' := s.(blocks := Took(s.blocks, bi, g, bit));
      && Kept(l, s', bi, ii) && (Right(l, s, bi, ii) ==> Right(l, s', bi, ii))
      && Handed(l.blocks, s.blocks, s'.blocks, bi, Encode(l.blocks, g, bit))
      && HandsOut(l, s, Block, Encode(l.blocks, g, bit), s', bi, ii)
  {
    hide Kept, Right, Handed, HandsOut, Bit, Clear, SetBit;
    var e, s' := Alloc(Block, g, bit), s.(blocks := Took(s.blocks, bi, g, bit));
    AllocKeeps(l, s, e, s', bi, ii);
    Stepped(l, s, e, s', bi, ii);
  }

  lemma InodeStep(l: Layout, s: State, g: nat, bit: nat, bi: seq<seq<bv8>>, ii: seq<seq<bv8>>)
    requires Kept(l, s, bi, ii) && Open(l.inodes, s.inodes, ii, g, bit)
    ensures var s' := s.(inodes := Took(s.inodes, ii, g, bit), unused := Shortened(l, s.unused, g, bit));
      && Kept(l, s', bi, ii) && (Right(l, s, bi, ii) ==> Right(l, s', bi, ii))
      && Handed(l.inodes, s.inodes, s'.inodes, ii, Encode(l.inodes, g, bit))
      && HandsOut(l, s, Inode, Encode(l.inodes, g, bit), s', bi, ii)
  {
    hide Kept, Right, Handed, HandsOut, Bit, Clear, SetBit;
    var e := Alloc(Inode, g, bit);
    var s' := s.(inodes := Took(s.inodes, ii, g, bit), unused := Shortened(l, s.unused, g, bit));
    AllocKeeps(l, s, e, s', bi, ii);
    Stepped(l, s, e, s', bi, ii);
  }

  // ---- giving back a number of a group that was never written ----

  lemma {:induction false} AllClear(bits: seq<bv8>, n: nat)
    requires n <= 8 * |bits| && forall j :: 0 <= j < n ==> !Bit(bits, j)
    ensures Clear(bits, n) == n
  {
    if n > 0 {
      AllClear(bits, n - 1);
    }
  }

  lemma OneGroup(blank: seq<bv8>, dirty: seq<bv8>)
    requires |blank| == |dirty| == BYTES && Clear(blank, 8) == 8
    ensures Good(Geometry(8, 0, 8), Table([dirty], [8], [true], 8), [blank])
  {
    hide Clear;
    var geo, t := Geometry(8, 0, 8), Table([dirty], [8], [true], 8);
    assert t.free[..0] == [];
    assert Valid(geo, 0) == 8;
    forall g: nat | g < 1 ensures Counted(geo, t, [blank], g) {
      assert g == 0;
    }
  }

  /** A stale set bit on disk makes the free counter exceed the group. */
  lemma StaleExample() returns (geo: Geometry, t: Table, initial: seq<seq<bv8>>, id: nat)
    ensures Good(geo, t, initial) && Stale(geo, t, id) && !Good(geo, Dealloced(geo, t, id), initial)
    ensures !Taken(geo, t, initial, id)
  {
    var blank, dirty := seq(BYTES, i => 0 as bv8), seq(BYTES, i => 255 as bv8);
    NoBits(blank);
    AllClear(blank, 8);
    assert Bit(dirty, 0) by { assert Has(255, 0); }
    hide Clear, Bit, Good, Dealloced;
    geo, t, initial, id := Geometry(8, 0, 8), Table([dirty], [8], [true], 8), [blank], 0;
    OneGroup(blank, dirty);
    GoodFair(geo, t, initial);
    GivenBack(geo, t, initial, id);
  }
}
