/** Groups of numbered objects (blocks or inodes) behind bitmaps with redundant counters. */
module AllocTable {
  import opened Bitmap

  /** Objects are numbered `first <= id < end`, `perGroup` to a group. */
  datatype Geometry = Geometry(perGroup: nat, first: nat, end: nat)

  /** The stored bitmap of each group, its free counter, whether the bitmap was never written, and the total. */
  datatype Table = Table(maps: seq<seq<bv8>>, free: seq<nat>, uninit: seq<bool>, total: nat)

  predicate GoodGeometry(geo: Geometry, groups: nat) {
    && 0 < geo.perGroup <= 8 * BYTES && geo.perGroup % 8 == 0 && geo.first <= geo.end < 0x1_0000_0000
    && geo.end <= geo.first + groups * geo.perGroup
  }

  function GroupStart(geo: Geometry, g: nat): nat {
    geo.first + g * geo.perGroup
  }

  /** How many objects group `g` has: the last group may be short. */
  function Valid(geo: Geometry, g: nat): nat {
    var left := if geo.end <= GroupStart(geo, g) then 0 else geo.end - GroupStart(geo, g);
    if left < geo.perGroup then left else geo.perGroup
  }

  /** The bitmap a group stands for: the initial layout until its first allocation. */
  function Effective(t: Table, initial: seq<seq<bv8>>, g: nat): seq<bv8>
    requires g < |t.maps| == |t.uninit| == |initial|
  {
    if t.uninit[g] then initial[g] else t.maps[g]
  }

  function Sum(free: seq<nat>): nat {
    if free == [] then 0 else Sum(free[..|free| - 1]) + free[|free| - 1]
  }

  ghost predicate Shaped(geo: Geometry, t: Table, initial: seq<seq<bv8>>) {
    && |t.maps| == |t.free| == |t.uninit| == |initial|
    && GoodGeometry(geo, |t.maps|)
    && (forall g :: 0 <= g < |t.maps| ==> |t.maps[g]| == BYTES && |initial[g]| == BYTES)
  }

  ghost predicate Counted(geo: Geometry, t: Table, initial: seq<seq<bv8>>, g: nat)
    requires Shaped(geo, t, initial) && g < |t.maps|
  {
    Valid(geo, g) <= 8 * BYTES && t.free[g] == Clear(Effective(t, initial, g), Valid(geo, g))
  }

  /** Every free counter is the number of clear bits, and the total is their sum. */
  ghost predicate Good(geo: Geometry, t: Table, initial: seq<seq<bv8>>) {
    && Shaped(geo, t, initial)
    && (forall g: nat :: g < |t.maps| ==> Counted(geo, t, initial, g))
    && t.total == Sum(t.free)
  }

  /** The counter is right, or too large in a group whose bitmap was never written. */
  ghost predicate Fairly(geo: Geometry, t: Table, initial: seq<seq<bv8>>, g: nat)
    requires Shaped(geo, t, initial) && g < |t.maps|
  {
    && Valid(geo, g) <= 8 * BYTES && t.free[g] >= Clear(Effective(t, initial, g), Valid(geo, g))
    && (!t.uninit[g] ==> Counted(geo, t, initial, g))
  }

  ghost predicate Fair(geo: Geometry, t: Table, initial: seq<seq<bv8>>) {
    && Shaped(geo, t, initial)
    && (forall g: nat :: g < |t.maps| ==> Fairly(geo, t, initial, g))
    && t.total == Sum(t.free)
  }

  lemma GoodFair(geo: Geometry, t: Table, initial: seq<seq<bv8>>)
    requires Good(geo, t, initial)
    ensures Fair(geo, t, initial)
  {
    hide Clear;
    forall g: nat | g < |t.maps| ensures Fairly(geo, t, initial, g) {
      assert Counted(geo, t, initial, g);
    }
  }

  lemma {:induction false} SumChange(free: seq<nat>, g: nat, x: nat)
    requires g < |free|
    ensures Sum(free[g := x]) == Sum(free) - free[g] + x && Sum(free) >= free[g]
    decreases |free|
  {
    var n := |free| - 1;
    if g == n {
      assert free[g := x][..n] == free[..n];
    } else {
      SumChange(free[..n], g, x);
      assert free[g := x][..n] == free[..n][g := x];
    }
  }

  // ---- numbering ----

  function Encode(geo: Geometry, g: nat, bit: nat): nat {
    g * geo.perGroup + bit + geo.first
  }

  function GroupOf(geo: Geometry, id: nat): nat
    requires geo.perGroup > 0 && geo.first <= id
  {
    (id - geo.first) / geo.perGroup
  }

  function BitOf(geo: Geometry, id: nat): nat
    requires geo.perGroup > 0 && geo.first <= id
  {
    (id - geo.first) % geo.perGroup
  }

  lemma Between(x: nat, n: nat, p: nat, q: nat)
    requires p * n <= x < (p + 1) * n && q * n <= x < (q + 1) * n
    ensures p == q
  {
    assert p < q ==> (p + 1) * n <= q * n;
    assert q < p ==> (q + 1) * n <= p * n;
  }

  lemma DivUnique(n: nat, q: nat, r: nat)
    requires r < n
    ensures (q * n + r) / n == q && (q * n + r) % n == r
  {
    var x := q * n + r;
    assert x == (x / n) * n + x % n;
    Between(x, n, q, x / n);
  }

  /** Numbers and group positions translate back and forth. */
  lemma EncodeDecodes(geo: Geometry, g: nat, bit: nat)
    requires bit < geo.perGroup
    ensures GroupOf(geo, Encode(geo, g, bit)) == g && BitOf(geo, Encode(geo, g, bit)) == bit
  {
    DivUnique(geo.perGroup, g, bit);
  }

  lemma DecodeEncodes(geo: Geometry, id: nat)
    requires geo.perGroup > 0 && geo.first <= id
    ensures Encode(geo, GroupOf(geo, id), BitOf(geo, id)) == id && BitOf(geo, id) < geo.perGroup
  {
  }

  /** A number in range belongs to an existing group and to a valid bit of it. */
  lemma InRange(geo: Geometry, groups: nat, id: nat)
    requires GoodGeometry(geo, groups) && geo.first <= id < geo.end
    ensures GroupOf(geo, id) < groups && BitOf(geo, id) < Valid(geo, GroupOf(geo, id))
  {
    var g := GroupOf(geo, id);
    DecodeEncodes(geo, id);
    assert g >= groups ==> groups * geo.perGroup <= g * geo.perGroup;
  }

  lemma ValidInRange(geo: Geometry, g: nat, bit: nat)
    requires bit < Valid(geo, g)
    ensures bit < geo.perGroup && geo.first <= Encode(geo, g, bit) < geo.end
  {
  }

  // ---- which numbers are taken ----

  ghost predicate Taken(geo: Geometry, t: Table, initial: seq<seq<bv8>>, id: nat)
    requires Shaped(geo, t, initial)
  {
    && geo.first <= id < geo.end
    && GroupOf(geo, id) < |t.maps| && BitOf(geo, id) < 8 * BYTES
    && Bit(Effective(t, initial, GroupOf(geo, id)), BitOf(geo, id))
  }

  /** The table after bit `bit` of group `g` was handed out. */
  function Took(t: Table, initial: seq<seq<bv8>>, g: nat, bit: nat): Table
    requires g < |t.maps| == |t.free| == |t.uninit| == |initial| && t.free[g] > 0 && t.total > 0
    requires bit < 8 * |Effective(t, initial, g)|
  {
    Table(t.maps[g := SetBit(Effective(t, initial, g), bit)], t.free[g := t.free[g] - 1], t.uninit[g := false],
          t.total - 1)
  }

  /** The table after the stored bit was cleared. */
  function Gave(t: Table, g: nat, bit: nat): Table
    requires g < |t.maps| == |t.free| == |t.uninit| && bit < 8 * |t.maps[g]|
  {
    Table(t.maps[g := ClearBit(t.maps[g], bit)], t.free[g := t.free[g] + 1], t.uninit, t.total + 1)
  }

  /** Handing out a free bit of a group with the right counter keeps every counter as it should be. */
  lemma TookGood(geo: Geometry, t: Table, initial: seq<seq<bv8>>, g: nat, bit: nat)
    requires Fair(geo, t, initial) && g < |t.maps| && Counted(geo, t, initial, g)
    requires bit < Valid(geo, g) && !Bit(Effective(t, initial, g), bit)
    ensures t.free[g] > 0 && t.total > 0 && Fair(geo, Took(t, initial, g, bit), initial)
    ensures Good(geo, t, initial) ==> Good(geo, Took(t, initial, g, bit), initial)
  {
    hide Bit, SetBit, Clear;
    ClearSet(Effective(t, initial, g), bit, Valid(geo, g));
    SumChange(t.free, g, t.free[g] - 1);
    var t' := Took(t, initial, g, bit);
    forall h: nat | h < |t'.maps|
      ensures Fairly(geo, t', initial, h) && (Counted(geo, t, initial, h) ==> Counted(geo, t', initial, h))
    {
      assert Fairly(geo, t, initial, h);
    }
  }

  /** Handing out a number takes exactly that number, which was free. */
  lemma TookTakes(geo: Geometry, t: Table, initial: seq<seq<bv8>>, g: nat, bit: nat, id: nat)
    requires Fair(geo, t, initial) && g < |t.maps| && Counted(geo, t, initial, g)
    requires bit < Valid(geo, g) && !Bit(Effective(t, initial, g), bit)
    ensures t.free[g] > 0 && t.total > 0 && Shaped(geo, Took(t, initial, g, bit), initial)
    ensures !Taken(geo, t, initial, Encode(geo, g, bit))
    ensures Taken(geo, Took(t, initial, g, bit), initial, id) <==>
      id == Encode(geo, g, bit) || Taken(geo, t, initial, id)
  {
    hide Bit, SetBit, Clear, Sum, GroupOf, BitOf, Encode;
    TookGood(geo, t, initial, g, bit);
    ValidInRange(geo, g, bit);
    EncodeDecodes(geo, g, bit);
    if geo.first <= id < geo.end {
      InRange(geo, |t.maps|, id);
      DecodeEncodes(geo, id);
      if GroupOf(geo, id) == g {
        SetBits(Effective(t, initial, g), bit, BitOf(geo, id));
      }
    }
  }

  /** Clearing a stored bit leaves no counter too small, and keeps them all right if and only if the bitmap had been
      written. */
  lemma GaveGood(geo: Geometry, t: Table, initial: seq<seq<bv8>>, g: nat, bit: nat)
    requires Fair(geo, t, initial) && g < |t.maps| && bit < Valid(geo, g) && Bit(t.maps[g], bit)
    ensures Fair(geo, Gave(t, g, bit), initial)
    ensures Good(geo, t, initial) ==> (Good(geo, Gave(t, g, bit), initial) <==> !t.uninit[g])
  {
    hide Bit, ClearBit, Clear;
    var t' := Gave(t, g, bit);
    SumChange(t.free, g, t.free[g] + 1);
    assert Fairly(geo, t, initial, g);
    if !t.uninit[g] {
      ClearCleared(t.maps[g], bit, Valid(geo, g));
    } else {
      assert !Counted(geo, t', initial, g);
    }
    forall h: nat | h < |t'.maps|
      ensures Fairly(geo, t', initial, h)
      ensures Counted(geo, t, initial, h) && (h != g || !t.uninit[g]) ==> Counted(geo, t', initial, h)
    {
      assert Fairly(geo, t, initial, h);
    }
  }

  /** Giving a number back frees exactly that number. */
  lemma GaveFrees(geo: Geometry, t: Table, initial: seq<seq<bv8>>, g: nat, bit: nat, id: nat)
    requires Fair(geo, t, initial) && g < |t.maps| && bit < Valid(geo, g) && Bit(t.maps[g], bit) && !t.uninit[g]
    ensures Shaped(geo, Gave(t, g, bit), initial)
    ensures Taken(geo, Gave(t, g, bit), initial, id) <==> id != Encode(geo, g, bit) && Taken(geo, t, initial, id)
  {
    hide Bit, ClearBit, Clear, Sum, GroupOf, BitOf, Encode;
    GaveGood(geo, t, initial, g, bit);
    ValidInRange(geo, g, bit);
    EncodeDecodes(geo, g, bit);
    if geo.first <= id < geo.end {
      InRange(geo, |t.maps|, id);
      DecodeEncodes(geo, id);
      if GroupOf(geo, id) == g {
        ClearBits(t.maps[g], bit, BitOf(geo, id));
      }
    }
  }
}
