/** Shrinking a file whose extents all fit in the inode: records are trimmed, dropped and compacted in place. */
module ExtentTruncate {
  import opened Common
  import opened ExtentList
  import opened ExtentTree
  import opened ExtentDisk
  import opened ExtentInode
  import opened ExtentTeardown

  const ZERO: Extent := Extent(0, 0, 0)

  /** The first `keep` blocks of an extent, with its unwritten marker. */
  function Trim(e: Extent, keep: nat): Extent {
    e.(rawLen := if e.rawLen > MAX_WRITTEN then keep + MAX_WRITTEN else keep)
  }

  /** What is left of one record when the file ends before logical block `end`. */
  function KeepOne(e: Extent, end: nat): seq<Extent> {
    if LogicalEnd(e) <= end then [e]
    else if e.block < end then [Trim(e, end - e.block)]
    else []
  }

  /** The physical blocks one record gives up. */
  function DropOne(e: Extent, end: nat): seq<nat> {
    if LogicalEnd(e) <= end then []
    else if e.block < end && end - e.block <= ActualLen(e) then
      Run(e.start + (end - e.block), ActualLen(e) - (end - e.block))
    else Run(e.start, ActualLen(e))
  }

  function Keep(list: seq<Extent>, end: nat): (r: seq<Extent>)
    ensures |r| <= |list|
  {
    if list == [] then []
    else Keep(list[..|list| - 1], end) + KeepOne(list[|list| - 1], end)
  }

  function Drop(list: seq<Extent>, end: nat): seq<nat> {
    if list == [] then []
    else Drop(list[..|list| - 1], end) + DropOne(list[|list| - 1], end)
  }

  /** Append a record to the compacted front of the array. */
  method Put(a: array<Extent>, kept: nat, e: Extent)
    requires kept < a.Length
    modifies a
    ensures a[..kept + 1] == old(a[..kept]) + [e]
    ensures forall j :: kept < j < a.Length ==> a[j] == old(a[j])
  {
    a[kept] := e;
  }

  lemma TruncateNone(list: seq<Extent>, end: nat)
    requires list == []
    ensures Keep(list, end) == [] && Drop(list, end) == []
  {
  }

  lemma TruncateStep(list: seq<Extent>, i: nat, end: nat)
    requires i < |list|
    ensures Keep(list[..i + 1], end) == Keep(list[..i], end) + KeepOne(list[i], end)
    ensures Drop(list[..i + 1], end) == Drop(list[..i], end) + DropOne(list[i], end)
  {
    assert list[..i + 1][..i] == list[..i];
  }

  /** The compaction loop over the inode's records; `a[..n]` is in use. */
  method CompactRecords(a: array<Extent>, n: nat, end: nat) returns (kept: nat, freed: seq<nat>)
    requires n <= a.Length && forall i :: 0 <= i < n ==> ValidExtent(a[i])
    modifies a
    ensures kept <= n && a[..kept] == Keep(old(a[..n]), end) && freed == Drop(old(a[..n]), end)
  {
    hide Keep, Drop, Run;
    kept, freed := 0, [];
    ghost var was := a[..n];
    TruncateNone(was[..0], end);
    for i := 0 to n
      invariant kept <= i && a[..kept] == Keep(was[..i], end) && freed == Drop(was[..i], end)
      invariant forall j :: i <= j < n ==> a[j] == was[j]
    {
      var leaf := a[i];
      TruncateStep(was, i, end);
      if LogicalEnd(leaf) <= end {
        Put(a, kept, leaf);
        kept := kept + 1;
      } else if leaf.block < end {
        Put(a, kept, Trim(leaf, end - leaf.block));
        kept := kept + 1;
        freed := freed + Run(leaf.start + (end - leaf.block), ActualLen(leaf) - (end - leaf.block));
      } else {
        freed := freed + Run(leaf.start, ActualLen(leaf));
      }
    }
    assert was[..n] == was;
  }

  /** Partial truncation of the inode's records: compact what is kept and clear the rest. */
  method TruncateRecords(a: array<Extent>, n: nat, end: nat) returns (kept: nat, freed: seq<nat>)
    requires n <= a.Length && forall i :: 0 <= i < n ==> ValidExtent(a[i])
    modifies a
    ensures kept <= n && a[..kept] == Keep(old(a[..n]), end)
    ensures forall i :: kept <= i < a.Length ==> a[i] == ZERO
    ensures freed == Drop(old(a[..n]), end)
  {
    kept, freed := CompactRecords(a, n, end);
    ghost var front := a[..kept];
    for i := kept to a.Length
      invariant a[..kept] == front
      invariant forall j :: kept <= j < i ==> a[j] == ZERO
    {
      a[i] := ZERO;
    }
  }

  /** Looking up in two parts: the first part wins. */
  lemma {:induction false} LookupParts(a: seq<Extent>, b: seq<Extent>, x: nat)
    requires forall i :: 0 <= i < |a| ==> ValidExtent(a[i])
    ensures Lookup(a + b, x) == if Lookup(a, x) != 0 then Lookup(a, x) else Lookup(b, x)
  {
    if a == [] {
      assert a + b == b;
    } else {
      assert (a + b)[1..] == a[1..] + b;
      LookupParts(a[1..], b, x);
    }
  }

  lemma KeepOneValid(e: Extent, end: nat, x: nat)
    requires ValidExtent(e)
    ensures forall k :: k in KeepOne(e, end) ==> ValidExtent(k)
    ensures Lookup(KeepOne(e, end), x) == if x < end then Lookup([e], x) else 0
  {
    assert Lookup([e], x) == if Covers(e, x) then PhysOf(e, x) else 0;
    if LogicalEnd(e) > end && e.block < end {
      var k := Trim(e, end - e.block);
      assert ActualLen(k) == end - e.block;
      assert Lookup([k], x) == if Covers(k, x) then PhysOf(k, x) else 0;
    }
  }

  /** Truncation restricts the block map to the blocks before the new end. */
  lemma {:induction false} TruncateLookup(list: seq<Extent>, end: nat, x: nat)
    requires forall i :: 0 <= i < |list| ==> ValidExtent(list[i])
    ensures forall k :: k in Keep(list, end) ==> ValidExtent(k)
    ensures Lookup(Keep(list, end), x) == if x < end then Lookup(list, x) else 0
  {
    if list != [] {
      var n := |list| - 1;
      TruncateLookup(list[..n], end, x);
      KeepOneValid(list[n], end, x);
      LookupParts(Keep(list[..n], end), KeepOne(list[n], end), x);
      LookupParts(list[..n], [list[n]], x);
      assert list == list[..n] + [list[n]];
    }
  }

  /** A record that starts after everything before it keeps the list sorted. */
  lemma AppendSorted(pre: seq<Extent>, k: Extent)
    requires Sorted(pre) && ValidExtent(k)
    requires pre != [] ==> pre[|pre| - 1].block + ActualLen(pre[|pre| - 1]) <= k.block
    ensures Sorted(pre + [k])
  {
    hide ActualLen;
    var all := pre + [k];
    forall i, j | 0 <= i < j < |all| ensures all[i].block + ActualLen(all[i]) <= all[j].block {
      if j == |pre| && i < |pre| - 1 {
        assert pre[i].block + ActualLen(pre[i]) <= pre[|pre| - 1].block;
      }
    }
  }

  lemma PrefixSorted(list: seq<Extent>)
    requires Sorted(list) && list != []
    ensures var n := |list| - 1; Sorted(list[..n]) && ValidExtent(list[n])
    ensures var n := |list| - 1; n > 0 ==> list[n - 1].block + ActualLen(list[n - 1]) <= list[n].block
  {
  }

  /** What is kept of a record starts where it did and ends no later. */
  lemma KeepOneEnd(e: Extent, end: nat)
    requires ValidExtent(e)
    ensures |KeepOne(e, end)| <= 1
    ensures KeepOne(e, end) != [] ==>
      var k := KeepOne(e, end)[0];
      ValidExtent(k) && k.block == e.block && k.block + ActualLen(k) <= e.block + ActualLen(e)
  {
    KeepOneValid(e, end, 0);
  }

  lemma KeepLast(list: seq<Extent>, end: nat)
    requires list != []
    ensures var n := |list| - 1;
      && list == list[..n] + [list[n]]
      && Keep(list, end) == Keep(list[..n], end) + KeepOne(list[n], end)
      && Drop(list, end) == Drop(list[..n], end) + DropOne(list[n], end)
  {
  }

  /** The last record kept ends no later than the last record did. */
  ghost predicate EndsWithin(kept: seq<Extent>, list: seq<Extent>) {
    list != [] && kept != [] ==>
      var m, l := kept[|kept| - 1], list[|list| - 1];
      m.block + ActualLen(m) <= l.block + ActualLen(l)
  }

  lemma SortedStep(list: seq<Extent>, end: nat)
    requires Sorted(list) && list != []
    requires Sorted(Keep(list[..|list| - 1], end)) && EndsWithin(Keep(list[..|list| - 1], end), list[..|list| - 1])
    ensures Sorted(Keep(list, end)) && EndsWithin(Keep(list, end), list)
  {
    hide Sorted, Keep, KeepOne, ActualLen, ValidExtent;
    var n := |list| - 1;
    PrefixSorted(list);
    KeepLast(list, end);
    KeepOneEnd(list[n], end);
    var pre, one := Keep(list[..n], end), KeepOne(list[n], end);
    if one == [] {
      assert pre + one == pre;
    } else {
      assert one == [one[0]];
      AppendSorted(pre, one[0]);
    }
  }

  /** What is left is still sorted. */
  lemma {:induction false} TruncateSorted(list: seq<Extent>, end: nat)
    requires Sorted(list)
    ensures Sorted(Keep(list, end)) && EndsWithin(Keep(list, end), list)
  {
    if list != [] {
      PrefixSorted(list);
      TruncateSorted(list[..|list| - 1], end);
      SortedStep(list, end);
    }
  }

  lemma DropOneMembers(e: Extent, end: nat, b: nat)
    requires ValidExtent(e)
    ensures b in DropOne(e, end) <==> exists x: nat :: end <= x && Covers(e, x) && PhysOf(e, x) == b
  {
    InRun(e.start, ActualLen(e), b);
    if LogicalEnd(e) > end && e.block < end {
      InRun(e.start + (end - e.block), ActualLen(e) - (end - e.block), b);
    }
    if b in DropOne(e, end) {
      var x: nat := e.block + (b - e.start);
      assert end <= x && Covers(e, x) && PhysOf(e, x) == b;
    }
  }

  /** Some logical block at or after `end` is mapped to `b`. */
  ghost predicate MappedFrom(list: seq<Extent>, end: nat, b: nat) {
    b != 0 && exists x: nat :: end <= x && Lookup(list, x) == b
  }

  lemma LookupLast(list: seq<Extent>, x: nat)
    requires Sorted(list) && list != []
    ensures var e := list[|list| - 1]; var pre := list[..|list| - 1];
      && (Covers(e, x) ==> Lookup(pre, x) == 0)
      && Lookup(list, x) == if Covers(e, x) then PhysOf(e, x) else Lookup(pre, x)
  {
    var n := |list| - 1;
    LookupParts(list[..n], [list[n]], x);
    assert list == list[..n] + [list[n]];
    assert Lookup([list[n]], x) == if Covers(list[n], x) then PhysOf(list[n], x) else 0;
    LookupHole(list[..n], x);
  }

  /** One more record adds its own removed images. */
  lemma MappedLast(list: seq<Extent>, end: nat, b: nat)
    requires Sorted(list) && list != []
    ensures var n := |list| - 1;
      MappedFrom(list, end, b) <==> b in DropOne(list[n], end) || MappedFrom(list[..n], end, b)
  {
    hide Sorted, DropOne, ValidExtent, PhysOf;
    var n := |list| - 1;
    var e := list[n];
    PrefixSorted(list);
    DropOneMembers(e, end, b);
    if b in DropOne(e, end) {
      var x: nat :| end <= x && Covers(e, x) && PhysOf(e, x) == b;
      LookupLast(list, x);
      PhysNotZero(e, x);
    } else if MappedFrom(list[..n], end, b) {
      var x: nat :| end <= x && Lookup(list[..n], x) == b;
      LookupLast(list, x);
    } else if MappedFrom(list, end, b) {
      var x: nat :| end <= x && Lookup(list, x) == b;
      LookupLast(list, x);
    }
  }

  lemma PhysNotZero(e: Extent, x: nat)
    requires ValidExtent(e) && Covers(e, x)
    ensures PhysOf(e, x) != 0
  {
  }

  /** Exactly the images of the removed logical blocks are freed. */
  lemma {:induction false} TruncateFrees(list: seq<Extent>, end: nat, b: nat)
    requires Sorted(list)
    ensures b in Drop(list, end) <==> MappedFrom(list, end, b)
  {
    if list != [] {
      hide Sorted, Drop, DropOne, MappedFrom;
      PrefixSorted(list);
      KeepLast(list, end);
      TruncateFrees(list[..|list| - 1], end, b);
      MappedLast(list, end, b);
    }
  }

  lemma TruncateOneCount(e: Extent, end: nat)
    requires ValidExtent(e)
    ensures DataBlocks(KeepOne(e, end)) + |DropOne(e, end)| == DataBlocks([e]) == ActualLen(e)
  {
    assert DataBlocks([e]) == ActualLen(e) + DataBlocks([]);
    if KeepOne(e, end) != [] {
      var k := KeepOne(e, end)[0];
      assert DataBlocks([k]) == ActualLen(k) + DataBlocks([]);
    }
  }

  /** Conservation: kept and freed blocks add up to the old count, so `i_blocks` drops by what was freed. */
  lemma {:induction false} TruncateCount(list: seq<Extent>, end: nat)
    requires forall i :: 0 <= i < |list| ==> ValidExtent(list[i])
    ensures DataBlocks(Keep(list, end)) + |Drop(list, end)| == DataBlocks(list)
  {
    if list != [] {
      hide Keep, Drop, KeepOne, DropOne, DataBlocks, ActualLen;
      var n := |list| - 1;
      KeepLast(list, end);
      TruncateCount(list[..n], end);
      DataConcat(Keep(list[..n], end), KeepOne(list[n], end));
      DataConcat(list[..n], [list[n]]);
      TruncateOneCount(list[n], end);
    }
  }

  // ---- the whole operation ----

  /** Whether shrinking to `end` blocks gives physical block `b` back. */
  ghost predicate GivesBack(t: Tree, end: nat, b: nat) {
    if end == 0 then Belongs(t, b) else MappedFrom(Flatten(t), end, b)
  }

  /** The tree after shrinking: restricted to the blocks before `end`, and counted by `sectors` if it was counted
      before. */
  ghost predicate Shrunk(t: Tree, end: nat, after: Tree, before: nat, sectors: nat) {
    && WellFormed(after)
    && (forall x :: 0 <= x ==> Find(after, x) == if x < end then Find(t, x) else 0)
    && (before == Sectors(t) ==> sectors == Sectors(after))
  }

  /** Shrink a file to `end` blocks: through the collector when nothing stays, or within the records of the inode. */
  method Truncate(area: Area, disk: Disk, unsealed: set<nat>, root: Node, iBlocks: nat, end: nat, ghost t: Tree)
    returns (ok: bool, next: Node, sectors: nat, freed: seq<nat>, ghost after: Tree)
    requires WellFormed(t) && root == NodeOf(t) && Holds(disk, t)
    ensures ok <==>
      if end == 0
      then Sound(area, disk, unsealed, root, Depth(t), ROOT_ENTRIES) && NoRepeats(BlocksOf(disk, root, Depth(t)))
      else t.Leaf?
    ensures !ok ==> next == root && sectors == iBlocks
    ensures ok ==> next == NodeOf(after) && Shrunk(t, end, after, iBlocks, sectors)
    ensures ok ==> forall b :: b in freed <==> GivesBack(t, end, b)
  {
    hide Sound, NoRepeats, BlocksOf, WellFormed, Holds, Shrunk, Belongs, MappedFrom, Flatten;
    next, sectors, freed, after := root, iBlocks, [], t;
    if end == 0 {
      ok, freed := CollectWhole(area, disk, unsealed, root, t);
      if ok {
        next, sectors, after := LeafNode(ROOT_ENTRIES, []), 0, Leaf(ROOT_ENTRIES, []);
        Emptied(t, iBlocks);
      }
    } else if root.IndexNode? {
      ok := false;
    } else {
      ok := true;
      var kept;
      kept, freed := TruncateLeaf(root.extents, end, t);
      next, after := LeafNode(root.max, kept), Leaf(root.max, kept);
      sectors := if iBlocks < |freed| * SECTORS then 0 else iBlocks - |freed| * SECTORS;
      Restricted(t, end, iBlocks, sectors);
      forall b ensures b in freed <==> MappedFrom(Flatten(t), end, b) {
        LeafFrees(t, end, b);
      }
    }
  }

  /** The records of the inode on their way through the compaction. */
  method TruncateLeaf(extents: seq<Extent>, end: nat, ghost t: Tree) returns (kept: seq<Extent>, freed: seq<nat>)
    requires WellFormed(t) && t.Leaf? && t.extents == extents
    ensures kept == Keep(extents, end) && freed == Drop(extents, end)
  {
    var a := new Extent[ROOT_ENTRIES](i => if 0 <= i < |extents| then extents[i] else ZERO);
    assert a[..|extents|] == extents;
    var n;
    n, freed := TruncateRecords(a, |extents|, end);
    kept := a[..n];
  }

  lemma Emptied(t: Tree, before: nat)
    ensures Shrunk(t, 0, Leaf(ROOT_ENTRIES, []), before, 0)
  {
  }

  lemma LeafFrees(t: Tree, end: nat, b: nat)
    requires WellFormed(t) && t.Leaf?
    ensures b in Drop(t.extents, end) <==> MappedFrom(Flatten(t), end, b)
  {
    TruncateFrees(t.extents, end, b);
  }

  lemma Restricted(t: Tree, end: nat, before: nat, sectors: nat)
    requires WellFormed(t) && t.Leaf?
    requires var n := |Drop(t.extents, end)| * SECTORS; sectors == if before < n then 0 else before - n
    ensures Shrunk(t, end, Leaf(t.max, Keep(t.extents, end)), before, sectors)
  {
    hide Keep, Drop, Lookup, Sorted;
    var after := Leaf(t.max, Keep(t.extents, end));
    TruncateSorted(t.extents, end);
    SortedValid(t.extents);
    forall x: nat ensures Find(after, x) == if x < end then Find(t, x) else 0 {
      TruncateLookup(t.extents, end, x);
    }
    TruncateCount(t.extents, end);
  }

  lemma SortedValid(list: seq<Extent>)
    requires Sorted(list)
    ensures forall i :: 0 <= i < |list| ==> ValidExtent(list[i])
  {
  }
}
