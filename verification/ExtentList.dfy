/** Extents as flat lists: the reference meaning of an ext4 extent tree.

  An extent maps a run of logical blocks to a run of physical blocks.  Read from
  left to right, the leaves of an extent tree are one such list, and that list
  is what the tree stands for.
 */
module ExtentList {

  const U32: nat := 0x1_0000_0000

  /** Truncation to 32 bits. */
  function Wrap(x: nat): (r: nat)
    ensures r < U32
    ensures x < U32 ==> r == x
  {
    if x < U32 then x else x % U32
  }

  /** One leaf record; `rawLen` carries the unwritten marker as `len + 32768`. */
  datatype Extent = Extent(block: nat, rawLen: nat, start: nat)

  const MAX_WRITTEN: nat := 32768

  function ActualLen(e: Extent): nat {
    if e.rawLen > MAX_WRITTEN then e.rawLen - MAX_WRITTEN else e.rawLen
  }

  /** End of the run as the kernel computes it: a 32-bit sum that wraps. */
  function LogicalEnd(e: Extent): nat {
    Wrap(e.block + ActualLen(e))
  }

  function PhysEnd(e: Extent): nat {
    e.start + ActualLen(e)
  }

  /** The test of the leaf scan in the lookup. */
  predicate Covers(e: Extent, logical: nat) {
    e.block <= logical < LogicalEnd(e)
  }

  function PhysOf(e: Extent, logical: nat): nat
    requires e.block <= logical
  {
    Wrap(e.start + (logical - e.block))
  }

  /** Fields that fit their on-disk widths, with a run that ends inside the 32-bit block space. */
  predicate ValidExtent(e: Extent) {
    && 1 <= ActualLen(e) && e.rawLen < 0x1_0000
    && e.block + ActualLen(e) < U32
    && 1 <= e.start && PhysEnd(e) <= U32
  }

  ghost predicate Sorted(list: seq<Extent>) {
    && (forall i :: 0 <= i < |list| ==> ValidExtent(list[i]))
    && (forall i, j :: 0 <= i < j < |list| ==> list[i].block + ActualLen(list[i]) <= list[j].block)
  }

  /** First covering extent, 0 for a hole. */
  function Lookup(list: seq<Extent>, logical: nat): nat {
    if list == [] then 0
    else if Covers(list[0], logical) then PhysOf(list[0], logical)
    else Lookup(list[1..], logical)
  }

  /** Number of leading extents that start at or before `logical`. */
  function UpperBound(list: seq<Extent>, logical: nat): (n: nat)
    ensures n <= |list|
    ensures forall i :: 0 <= i < n ==> list[i].block <= logical
    ensures n < |list| ==> list[n].block > logical
  {
    if list == [] || list[0].block > logical then 0
    else 1 + UpperBound(list[1..], logical)
  }

  function MaxLen(e: Extent): nat {
    if e.rawLen > MAX_WRITTEN then 32767 else 32768
  }

  predicate CanGrow(e: Extent, logical: nat, physical: nat) {
    && ActualLen(e) < MaxLen(e)
    && LogicalEnd(e) == logical
    && PhysEnd(e) == physical
  }

  function Grow(e: Extent): Extent {
    e.(rawLen := e.rawLen + 1)
  }

  function Single(logical: nat, physical: nat): Extent {
    Extent(logical, 1, physical)
  }

  /** What one insertion means for the list: grow the predecessor or add a one-block extent after it. */
  function Insert(list: seq<Extent>, logical: nat, physical: nat): seq<Extent> {
    InsertAfter(list, UpperBound(list, logical), logical, physical)
  }

  function InsertAfter(list: seq<Extent>, c: nat, logical: nat, physical: nat): seq<Extent>
    requires c <= |list|
  {
    if c > 0 && CanGrow(list[c - 1], logical, physical) then list[c - 1 := Grow(list[c - 1])]
    else list[..c] + [Single(logical, physical)] + list[c..]
  }

  lemma {:induction false} LookupAt(list: seq<Extent>, logical: nat, i: nat)
    requires Sorted(list) && i < |list| && Covers(list[i], logical)
    ensures Lookup(list, logical) == PhysOf(list[i], logical) != 0
  {
    if i > 0 {
      assert !Covers(list[0], logical);
      LookupAt(list[1..], logical, i - 1);
    }
  }

  lemma {:induction false} LookupHole(list: seq<Extent>, logical: nat)
    requires Sorted(list)
    ensures Lookup(list, logical) == 0 <==> forall i :: 0 <= i < |list| ==> !Covers(list[i], logical)
  {
    if list != [] {
      LookupHole(list[1..], logical);
      if forall i :: 0 <= i < |list| ==> !Covers(list[i], logical) {
        assert forall i :: 0 <= i < |list[1..]| ==> list[1..][i] == list[i + 1];
      } else {
        var i :| 0 <= i < |list| && Covers(list[i], logical);
        LookupAt(list, logical, i);
      }
    }
  }

  /** The count of leading extents is determined by the two facts a binary search establishes. */
  lemma UpperBoundUnique(list: seq<Extent>, logical: nat, n: nat)
    requires n <= |list|
    requires forall i :: 0 <= i < n ==> list[i].block <= logical
    requires n < |list| ==> list[n].block > logical
    ensures n == UpperBound(list, logical)
  {
    var m := UpperBound(list, logical);
    assert !(n < m) && !(m < n);
  }

  /** Around a hole, everything left of the insertion point ends by it and everything right starts after it. */
  lemma HoleSplits(list: seq<Extent>, logical: nat)
    requires Sorted(list) && Lookup(list, logical) == 0
    ensures var c := UpperBound(list, logical);
      && (forall i :: 0 <= i < c ==> list[i].block + ActualLen(list[i]) <= logical)
      && (forall i :: c <= i < |list| ==> logical < list[i].block)
  {
    LookupHole(list, logical);
    var c := UpperBound(list, logical);
    forall i | 0 <= i < c ensures list[i].block + ActualLen(list[i]) <= logical {
      assert !Covers(list[i], logical);
    }
  }

  lemma InsertKeepsSorted(list: seq<Extent>, logical: nat, physical: nat)
    requires Sorted(list) && Lookup(list, logical) == 0
    requires logical + 1 < U32 && 1 <= physical < U32
    ensures Sorted(Insert(list, logical, physical))
  {
    HoleSplits(list, logical);
    var c := UpperBound(list, logical);
    if c > 0 && CanGrow(list[c - 1], logical, physical) {
      GrowKeepsSorted(list, c - 1, logical);
    } else {
      PlaceKeepsSorted(list, c, Single(logical, physical));
    }
  }

  lemma GrowKeepsSorted(list: seq<Extent>, k: nat, logical: nat)
    requires Sorted(list) && k < |list| && ActualLen(list[k]) < MaxLen(list[k])
    requires list[k].block + ActualLen(list[k]) == logical && logical + 1 < U32 && PhysEnd(list[k]) < U32
    requires forall i :: k < i < |list| ==> logical < list[i].block
    ensures Sorted(list[k := Grow(list[k])])
  {
    assert ActualLen(Grow(list[k])) == ActualLen(list[k]) + 1;
  }

  lemma PlaceKeepsSorted(list: seq<Extent>, k: nat, e: Extent)
    requires Sorted(list) && k <= |list| && ValidExtent(e)
    requires forall i :: 0 <= i < k ==> list[i].block + ActualLen(list[i]) <= e.block
    requires forall i :: k <= i < |list| ==> e.block + ActualLen(e) <= list[i].block
    ensures Sorted(list[..k] + [e] + list[k..])
  {
  }

  /** Lookup only depends on which extents cover a block, not on where they sit in the list. */
  lemma LookupSame(before: seq<Extent>, after: seq<Extent>, x: nat)
    requires Sorted(before) && Sorted(after)
    requires forall i :: 0 <= i < |before| && Covers(before[i], x) ==>
               exists j :: 0 <= j < |after| && Covers(after[j], x) && PhysOf(after[j], x) == PhysOf(before[i], x)
    requires forall j :: 0 <= j < |after| && Covers(after[j], x) ==>
               exists i :: 0 <= i < |before| && Covers(before[i], x)
    ensures Lookup(before, x) == Lookup(after, x)
  {
    LookupHole(before, x);
    LookupHole(after, x);
    if i :| 0 <= i < |before| && Covers(before[i], x) {
      var j :| 0 <= j < |after| && Covers(after[j], x) && PhysOf(after[j], x) == PhysOf(before[i], x);
      LookupAt(before, x, i);
      LookupAt(after, x, j);
    }
  }

  /** An insertion binds `logical` to `physical` and leaves every other block as it was. */
  lemma InsertLookup(list: seq<Extent>, logical: nat, physical: nat, x: nat)
    requires Sorted(list) && Lookup(list, logical) == 0
    requires logical + 1 < U32 && 1 <= physical < U32
    ensures Lookup(Insert(list, logical, physical), x) == if x == logical then physical else Lookup(list, x)
  {
    InsertKeepsSorted(list, logical, physical);
    HoleSplits(list, logical);
    var c := UpperBound(list, logical);
    var after := Insert(list, logical, physical);
    if c > 0 && CanGrow(list[c - 1], logical, physical) {
      GrowLookup(list, c - 1, logical, x);
    } else {
      PlaceLookup(list, c, Single(logical, physical), x);
    }
  }

  lemma GrowLookup(list: seq<Extent>, k: nat, logical: nat, x: nat)
    requires k < |list| && ActualLen(list[k]) < MaxLen(list[k])
    requires list[k].block + ActualLen(list[k]) == logical && logical + 1 < U32
    requires Sorted(list) && Sorted(list[k := Grow(list[k])])
    ensures Lookup(list[k := Grow(list[k])], x) == if x == logical then PhysEnd(list[k]) else Lookup(list, x)
  {
    var after := list[k := Grow(list[k])];
    assert ActualLen(after[k]) == ActualLen(list[k]) + 1;
    if x == logical {
      LookupAt(after, x, k);
    } else {
      forall i | 0 <= i < |list|
        ensures Covers(list[i], x) <==> Covers(after[i], x)
        ensures Covers(list[i], x) ==> PhysOf(after[i], x) == PhysOf(list[i], x)
      {
      }
      LookupSame(list, after, x);
    }
  }

  lemma PlaceLookup(list: seq<Extent>, k: nat, e: Extent, x: nat)
    requires k <= |list| && e.rawLen == 1
    requires Sorted(list) && Sorted(list[..k] + [e] + list[k..])
    ensures Lookup(list[..k] + [e] + list[k..], x) == if x == e.block then e.start else Lookup(list, x)
  {
    hide Lookup;
    var after := list[..k] + [e] + list[k..];
    assert after[k] == e;
    if x == e.block {
      LookupAt(after, x, k);
    } else {
      forall i | 0 <= i < |list| ensures list[i] == after[if i < k then i else i + 1] {
      }
      forall j | 0 <= j < |after| && j != k ensures after[j] == list[if j < k then j else j - 1] {
      }
      LookupSame(list, after, x);
    }
  }
}
