/** Tearing an extent tree down: collecting its blocks before they are freed, and partial truncation. */
module ExtentTeardown {
  import opened Common
  import opened ExtentList
  import opened ExtentTree
  import opened ExtentDisk
  import opened ExtentInode

  /** The file system's data area: block numbers in `[first, total)`. */
  datatype Area = Area(first: nat, total: nat)

  function Run(start: nat, len: nat): (s: seq<nat>)
    ensures |s| == len && forall i :: 0 <= i < len ==> s[i] == start + i
  {
    seq(len, i => start + i)
  }

  predicate GoodExtent(area: Area, e: Extent) {
    ActualLen(e) > 0 && area.first <= e.start && PhysEnd(e) <= area.total && PhysEnd(e) <= U32
  }

  predicate GoodPointer(area: Area, disk: Disk, blk: nat) {
    blk < U32 && area.first <= blk < area.total && blk in disk
  }

  function NodeDepth(node: Node): nat {
    if node.LeafNode? then 0 else node.depth
  }

  /** The header checks: depth, capacity and entry count. */
  predicate GoodHeader(node: Node, depth: nat, capacity: nat) {
    && NodeDepth(node) == depth && (node.IndexNode? ==> depth > 0)
    && 0 < node.max <= capacity && |Keys(node)| <= node.max
  }

  /** Everything the collector checks about a subtree, apart from repeated blocks: `disk` has the blocks with the magic
      number of a node, `unsealed` those whose node does not match its stored checksum. */
  ghost predicate Sound(area: Area, disk: Disk, unsealed: set<nat>, node: Node, depth: nat, capacity: nat)
    decreases depth, 0
  {
    && GoodHeader(node, depth, capacity)
    && (node.LeafNode? ==> forall i :: 0 <= i < |node.extents| ==> GoodExtent(area, node.extents[i]))
    && (node.IndexNode? ==> SoundRecords(area, disk, unsealed, node.records, depth))
  }

  ghost predicate SoundRecords(area: Area, disk: Disk, unsealed: set<nat>, records: seq<Pointer>, depth: nat)
    requires depth > 0
    decreases depth - 1, 2
  {
    forall i :: 0 <= i < |records| ==> SoundChild(area, disk, unsealed, records[i].blk, depth)
  }

  ghost predicate SoundChild(area: Area, disk: Disk, unsealed: set<nat>, blk: nat, depth: nat)
    requires depth > 0
    decreases depth - 1, 1
  {
    && GoodPointer(area, disk, blk) && blk !in unsealed
    && Sound(area, disk, unsealed, disk[blk], depth - 1, BLOCK_ENTRIES)
  }

  function RunsOf(extents: seq<Extent>): seq<nat> {
    if extents == [] then []
    else RunsOf(extents[..|extents| - 1]) + Run(extents[|extents| - 1].start, ActualLen(extents[|extents| - 1]))
  }

  /** Data and node blocks of a subtree in the order they are collected: a node follows its own subtree. */
  ghost function BlocksOf(disk: Disk, node: Node, depth: nat): seq<nat>
    decreases depth, 1, 0
  {
    if node.LeafNode? then RunsOf(node.extents)
    else if depth == 0 then []
    else RecordBlocks(disk, node.records, depth)
  }

  ghost function RecordBlocks(disk: Disk, records: seq<Pointer>, depth: nat): seq<nat>
    requires depth > 0
    decreases depth, 0, |records|
  {
    if records == [] then []
    else
      RecordBlocks(disk, records[..|records| - 1], depth) + ChildBlocks(disk, records[|records| - 1].blk, depth)
  }

  ghost function ChildBlocks(disk: Disk, blk: nat, depth: nat): seq<nat>
    requires depth > 0
    decreases depth - 1, 2, 0
  {
    (if blk in disk then BlocksOf(disk, disk[blk], depth - 1) else []) + [blk]
  }

  ghost function Members(s: seq<nat>): set<nat> {
    set x | x in s
  }

  /** Repetition-free, and nothing that was seen before. */
  ghost predicate Fresh(s: seq<nat>, seen: set<nat>) {
    NoRepeats(s) && Members(s) !! seen
  }

  /** Adding a part at the end keeps freshness exactly when the part is fresh with respect to what came before. */
  lemma FreshConcat(a: seq<nat>, b: seq<nat>, seen: set<nat>)
    ensures Fresh(a + b, seen) <==> Fresh(a, seen) && Fresh(b, seen + Members(a))
    ensures Members(a + b) == Members(a) + Members(b)
  {
    var all := a + b;
    assert forall i :: 0 <= i < |a| ==> all[i] == a[i];
    assert forall i :: 0 <= i < |b| ==> all[|a| + i] == b[i];
    assert forall x :: x in all <==> x in a || x in b;
    if Fresh(all, seen) {
      assert NoRepeats(b);
      forall x | x in Members(b) ensures x !in Members(a) {
        var j :| 0 <= j < |b| && b[j] == x;
        assert forall i :: 0 <= i < |a| ==> all[i] != all[|a| + j];
      }
    }
    if Fresh(a, seen) && Fresh(b, seen + Members(a)) {
      forall i, j | 0 <= i < j < |all| ensures all[i] != all[j] {
        if i < |a| <= j {
          assert all[i] in Members(a) && all[j] in Members(b);
        }
      }
    }
  }

  /** One step of a collection loop over `all`: `done` was collected, `more` comes next. */
  lemma FreshStep(done: seq<nat>, more: seq<nat>, rest: seq<nat>, all: seq<nat>, seen: set<nat>)
    requires all == done + more + rest && Fresh(done, seen)
    ensures Fresh(done + more, seen) <==> Fresh(more, seen + Members(done))
    ensures Fresh(all, seen) ==> Fresh(more, seen + Members(done))
    ensures seen + Members(done) + Members(more) == seen + Members(done + more)
  {
    FreshConcat(done, more, seen);
    FreshConcat(done + more, rest, seen);
  }

  class Collector {
    const area: Area
    const disk: Disk
    const unsealed: set<nat>
    var seen: set<nat>
    var blocks: seq<nat>

    constructor (area: Area, disk: Disk, unsealed: set<nat>)
      ensures this.area == area && this.disk == disk && this.unsealed == unsealed && seen == {} && blocks == []
    {
      this.area, this.disk, this.unsealed := area, disk, unsealed;
      seen, blocks := {}, [];
    }

    /** Collect one run of data blocks, stopping at the first block that was seen before. */
    method AddRun(start: nat, len: nat) returns (ok: bool)
      modifies this`seen, this`blocks
      ensures ok <==> Fresh(Run(start, len), old(seen))
      ensures ok ==> seen == old(seen) + Members(Run(start, len)) && blocks == old(blocks) + Run(start, len)
    {
      var i := 0;
      assert blocks == blocks + Run(start, 0);
      while i < len
        invariant 0 <= i <= len
        invariant seen == old(seen) + Members(Run(start, i)) && blocks == old(blocks) + Run(start, i)
        invariant Fresh(Run(start, i), old(seen))
      {
        var block := start + i;
        assert Run(start, i + 1) == Run(start, i) + [block];
        FreshConcat(Run(start, i), [block], old(seen));
        if block in seen {
          assert Run(start, len) == Run(start, i + 1) + Run(start + i + 1, len - i - 1);
          FreshConcat(Run(start, i + 1), Run(start + i + 1, len - i - 1), old(seen));
          assert block in Members([block]);
          return false;
        }
        seen, blocks := seen + {block}, blocks + [block];
        i := i + 1;
      }
      return true;
    }

    method CollectLeaf(extents: seq<Extent>) returns (ok: bool)
      modifies this`seen, this`blocks
      ensures ok <==> (forall i :: 0 <= i < |extents| ==> GoodExtent(area, extents[i]))
                      && Fresh(RunsOf(extents), old(seen))
      ensures ok ==> seen == old(seen) + Members(RunsOf(extents)) && blocks == old(blocks) + RunsOf(extents)
    {
      var i := 0;
      assert blocks == blocks + RunsOf([]);
      while i < |extents|
        invariant 0 <= i <= |extents|
        invariant forall j :: 0 <= j < i ==> GoodExtent(area, extents[j])
        invariant Fresh(RunsOf(extents[..i]), old(seen))
        invariant seen == old(seen) + Members(RunsOf(extents[..i])) && blocks == old(blocks) + RunsOf(extents[..i])
      {
        var e := extents[i];
        if !GoodExtent(area, e) {
          return false;
        }
        ghost var done, more := RunsOf(extents[..i]), Run(e.start, ActualLen(e));
        ghost var rest := RunsNext(extents, i);
        FreshStep(done, more, rest, RunsOf(extents), old(seen));
        var added := AddRun(e.start, ActualLen(e));
        if !added {
          return false;
        }
        Assoc(old(blocks), done, more);
        i := i + 1;
      }
      assert extents[..|extents|] == extents;
      return true;
    }

    /** Collect a node and everything below it; the caller expects the node at `depth`. */
    method Collect(node: Node, depth: nat, capacity: nat) returns (ok: bool)
      modifies this`seen, this`blocks
      ensures ok <==>
        Sound(area, disk, unsealed, node, depth, capacity) && Fresh(BlocksOf(disk, node, depth), old(seen))
      ensures ok ==> seen == old(seen) + Members(BlocksOf(disk, node, depth))
      ensures ok ==> blocks == old(blocks) + BlocksOf(disk, node, depth)
      decreases depth, 1
    {
      if !GoodHeader(node, depth, capacity) {
        return false;
      }
      if depth == 0 {
        ok := CollectLeaf(node.extents);
      } else {
        ok := CollectIndex(node, depth);
      }
    }

    /** Mark a node block, collect what is below it, and then list the node block itself. */
    method CollectChild(blk: nat, depth: nat) returns (ok: bool)
      requires depth > 0
      modifies this`seen, this`blocks
      ensures ok <==> SoundChild(area, disk, unsealed, blk, depth) && Fresh(ChildBlocks(disk, blk, depth), old(seen))
      ensures ok ==> seen == old(seen) + Members(ChildBlocks(disk, blk, depth))
      ensures ok ==> blocks == old(blocks) + ChildBlocks(disk, blk, depth)
      decreases depth - 1, 2
    {
      if !GoodPointer(area, disk, blk) {
        return false;
      }
      ghost var below := BlocksOf(disk, disk[blk], depth - 1);
      NodeLast(below, blk, seen);
      if blk in seen {
        return false;
      }
      seen := seen + {blk};
      if blk in unsealed {
        return false;
      }
      ok := Collect(disk[blk], depth - 1, BLOCK_ENTRIES);
      if ok {
        Assoc(blocks[..|old(blocks)|], below, [blk]);
        blocks := blocks + [blk];
      }
    }

    method CollectIndex(node: Node, depth: nat) returns (ok: bool)
      requires node.IndexNode? && depth > 0
      modifies this`seen, this`blocks
      ensures ok <==> SoundRecords(area, disk, unsealed, node.records, depth)
                      && Fresh(RecordBlocks(disk, node.records, depth), old(seen))
      ensures ok ==> seen == old(seen) + Members(RecordBlocks(disk, node.records, depth))
      ensures ok ==> blocks == old(blocks) + RecordBlocks(disk, node.records, depth)
      decreases depth, 0
    {
      var records := node.records;
      var i := 0;
      assert blocks == blocks + RecordBlocks(disk, [], depth);
      while i < |records|
        invariant 0 <= i <= |records|
        invariant SoundRecords(area, disk, unsealed, records[..i], depth)
        invariant Fresh(RecordBlocks(disk, records[..i], depth), old(seen))
        invariant seen == old(seen) + Members(RecordBlocks(disk, records[..i], depth))
        invariant blocks == old(blocks) + RecordBlocks(disk, records[..i], depth)
      {
        var blk := records[i].blk;
        ghost var done, more := RecordBlocks(disk, records[..i], depth), ChildBlocks(disk, blk, depth);
        ghost var rest := RecordsNext(disk, records, depth, i);
        FreshStep(done, more, rest, RecordBlocks(disk, records, depth), old(seen));
        SoundNext(area, disk, unsealed, records, depth, i);
        var good := CollectChild(blk, depth);
        if !good {
          return false;
        }
        Assoc(old(blocks), done, more);
        i := i + 1;
      }
      assert records[..|records|] == records;
      return true;
    }
  }

  lemma {:induction false} RunsTail(extents: seq<Extent>, i: nat) returns (rest: seq<nat>)
    requires i <= |extents|
    ensures RunsOf(extents) == RunsOf(extents[..i]) + rest
  {
    if i == |extents| {
      assert extents[..i] == extents;
      rest := [];
    } else {
      var n := |extents| - 1;
      var inner := RunsTail(extents[..n], i);
      assert extents[..n][..i] == extents[..i];
      rest := inner + Run(extents[n].start, ActualLen(extents[n]));
    }
  }

  lemma RunsNext(extents: seq<Extent>, i: nat) returns (rest: seq<nat>)
    requires i < |extents|
    ensures RunsOf(extents[..i + 1]) == RunsOf(extents[..i]) + Run(extents[i].start, ActualLen(extents[i]))
    ensures RunsOf(extents) == RunsOf(extents[..i]) + Run(extents[i].start, ActualLen(extents[i])) + rest
  {
    rest := RunsTail(extents, i + 1);
    assert extents[..i + 1][..i] == extents[..i];
  }

  lemma SoundNext(area: Area, disk: Disk, unsealed: set<nat>, records: seq<Pointer>, depth: nat, i: nat)
    requires depth > 0 && i < |records| && SoundRecords(area, disk, unsealed, records[..i], depth)
    ensures SoundRecords(area, disk, unsealed, records[..i + 1], depth) <==>
      SoundChild(area, disk, unsealed, records[i].blk, depth)
    ensures SoundRecords(area, disk, unsealed, records, depth) ==>
      SoundChild(area, disk, unsealed, records[i].blk, depth)
  {
    assert records[..i + 1][i] == records[i];
    assert forall j :: 0 <= j < i ==> records[..i][j] == records[..i + 1][j];
  }

  lemma RecordsNext(disk: Disk, records: seq<Pointer>, depth: nat, i: nat) returns (rest: seq<nat>)
    requires i < |records| && depth > 0
    ensures var more := ChildBlocks(disk, records[i].blk, depth);
      && RecordBlocks(disk, records[..i + 1], depth) == RecordBlocks(disk, records[..i], depth) + more
      && RecordBlocks(disk, records, depth) == RecordBlocks(disk, records[..i], depth) + more + rest
  {
    rest := RecordsTail(disk, records, depth, i + 1);
    assert records[..i + 1][..i] == records[..i];
  }

  lemma {:induction false} RecordsTail(disk: Disk, records: seq<Pointer>, depth: nat, i: nat) returns (rest: seq<nat>)
    requires i <= |records| && depth > 0
    ensures RecordBlocks(disk, records, depth) == RecordBlocks(disk, records[..i], depth) + rest
    decreases |records|
  {
    if i == |records| {
      assert records[..i] == records;
      rest := [];
    } else {
      var n := |records| - 1;
      var inner := RecordsTail(disk, records[..n], depth, i);
      assert records[..n][..i] == records[..i];
      rest := inner + ChildBlocks(disk, records[n].blk, depth);
    }
  }

  /** Marking the node as seen before its subtree amounts to collecting it after the subtree. */
  lemma NodeLast(below: seq<nat>, blk: nat, seen: set<nat>)
    ensures Fresh(below + [blk], seen) <==> blk !in seen && Fresh(below, seen + {blk})
    ensures Members(below + [blk]) == Members(below) + {blk}
  {
    FreshConcat(below, [blk], seen);
    assert Members([blk]) == {blk};
  }

  // ---- what the collected list contains ----

  /** Block `b` is mapped by one of the extents. */
  ghost predicate InRuns(list: seq<Extent>, b: nat) {
    exists i :: 0 <= i < |list| && list[i].start <= b < PhysEnd(list[i])
  }

  lemma InRunsConcat(a: seq<Extent>, c: seq<Extent>, b: nat)
    ensures InRuns(a + c, b) <==> InRuns(a, b) || InRuns(c, b)
  {
    var all := a + c;
    if i :| 0 <= i < |a| && a[i].start <= b < PhysEnd(a[i]) {
      assert all[i] == a[i];
    }
    if i :| 0 <= i < |c| && c[i].start <= b < PhysEnd(c[i]) {
      assert all[|a| + i] == c[i];
    }
  }

  lemma InRun(start: nat, len: nat, b: nat)
    ensures b in Run(start, len) <==> start <= b < start + len
  {
    if start <= b < start + len {
      assert Run(start, len)[b - start] == b;
    }
  }

  lemma {:induction false} RunsMembers(list: seq<Extent>, b: nat)
    ensures b in RunsOf(list) <==> InRuns(list, b)
  {
    if list != [] {
      var n := |list| - 1;
      RunsMembers(list[..n], b);
      InRun(list[n].start, ActualLen(list[n]), b);
      InRunsConcat(list[..n], [list[n]], b);
      assert list == list[..n] + [list[n]];
      assert [list[n]][0] == list[n];
    }
  }

  /** Exactly the node blocks and the mapped data blocks are listed. */
  lemma {:induction false} TreeMembers(disk: Disk, t: Tree, b: nat)
    requires Holds(disk, t) && (t.Leaf? || Shape(t, BLOCK_ENTRIES))
    ensures b in BlocksOf(disk, NodeOf(t), Depth(t)) <==> Uses(t, b) > 0 || InRuns(Flatten(t), b)
    decreases t, 1
  {
    if t.Leaf? {
      RunsMembers(t.extents, b);
    } else {
      KidsMembers(disk, t, |t.kids|, b);
      assert t.kids[..|t.kids|] == t.kids;
    }
  }

  lemma {:induction false} KidsMembers(disk: Disk, t: Tree, n: nat, b: nat)
    requires t.Index? && Holds(disk, t) && Shape(t, BLOCK_ENTRIES) && n <= |t.kids|
    ensures b in RecordBlocks(disk, Records(t.kids[..n]), t.depth)
       <==> CountKids(t.kids[..n], Only(b)) > 0 || InRuns(FlattenKids(t.kids[..n]), b)
    decreases t, 0, n
  {
    if n > 0 {
      var k := t.kids[n - 1];
      var pre := t.kids[..n - 1];
      assert t.kids[..n] == pre + [k];
      assert Records(pre + [k])[..n - 1] == Records(pre);
      KidsMembers(disk, t, n - 1, b);
      TreeMembers(disk, k.child, b);
      CountConcat(pre, [k], Only(b));
      CountAround([k], 0, Only(b));
      FlattenConcat(pre, [k]);
      FlattenOne(k);
      InRunsConcat(FlattenKids(pre), Flatten(k.child), b);
      assert RecordBlocks(disk, Records(pre + [k]), t.depth)
          == RecordBlocks(disk, Records(pre), t.depth) + ChildBlocks(disk, k.blk, t.depth);
    }
  }

  /** Block `b` holds data of the file: some logical block is mapped to it. */
  ghost predicate Mapped(t: Tree, b: nat) {
    b != 0 && exists logical: nat :: Find(t, logical) == b
  }

  /** Block `b` belongs to the file, as a node of its tree or as data. */
  ghost predicate Belongs(t: Tree, b: nat) {
    Uses(t, b) > 0 || Mapped(t, b)
  }

  /** A physical block is in some run exactly when the lookup maps a logical block to it. */
  lemma MappedIsInRuns(t: Tree, b: nat)
    requires WellFormed(t)
    ensures InRuns(Flatten(t), b) <==> Mapped(t, b)
  {
    var list := Flatten(t);
    if InRuns(list, b) {
      var i :| 0 <= i < |list| && list[i].start <= b < PhysEnd(list[i]);
      var logical := list[i].block + (b - list[i].start);
      LookupAt(list, logical, i);
      FindInTree(t, logical);
    }
    if Mapped(t, b) {
      var logical: nat :| Find(t, logical) == b;
      FindInTree(t, logical);
      LookupHole(list, logical);
      var i :| 0 <= i < |list| && Covers(list[i], logical);
      LookupAt(list, logical, i);
    }
  }

  /** On a tree whose nodes all match their checksums, such as insertions leave, the checksum test refuses nothing. */
  lemma {:induction false} SealedSound(area: Area, disk: Disk, unsealed: set<nat>, t: Tree, depth: nat, capacity: nat)
    requires Holds(disk, t) && AllSealed(unsealed, t)
    ensures Sound(area, disk, unsealed, NodeOf(t), depth, capacity) <==>
      Sound(area, disk, {}, NodeOf(t), depth, capacity)
    decreases t
  {
    if t.Index? && depth > 0 {
      forall i | 0 <= i < |t.kids|
        ensures SoundChild(area, disk, unsealed, t.kids[i].blk, depth) <==>
          SoundChild(area, disk, {}, t.kids[i].blk, depth)
      {
        UsesKid(t, i, 0);
        forall b | Uses(t.kids[i].child, b) > 0 ensures b !in unsealed {
          UsesKid(t, i, b);
        }
        SealedSound(area, disk, unsealed, t.kids[i].child, depth - 1, BLOCK_ENTRIES);
      }
    }
  }

  /** Main theorem: a successful collection lists each block the file owns once, and nothing else. */
  method CollectWhole(area: Area, disk: Disk, unsealed: set<nat>, root: Node, ghost t: Tree)
    returns (ok: bool, blocks: seq<nat>)
    requires WellFormed(t) && root == NodeOf(t) && Holds(disk, t)
    ensures ok <==>
      Sound(area, disk, unsealed, root, Depth(t), ROOT_ENTRIES) && NoRepeats(BlocksOf(disk, root, Depth(t)))
    ensures AllSealed(unsealed, t) ==>
      (ok <==> Sound(area, disk, {}, root, Depth(t), ROOT_ENTRIES) && NoRepeats(BlocksOf(disk, root, Depth(t))))
    ensures ok ==> NoRepeats(blocks)
    ensures ok ==> forall b :: b in blocks <==> Belongs(t, b)
  {
    if AllSealed(unsealed, t) {
      SealedSound(area, disk, unsealed, t, Depth(t), ROOT_ENTRIES);
    }
    var c := new Collector(area, disk, unsealed);
    ok := c.Collect(root, NodeDepth(root), ROOT_ENTRIES);
    blocks := c.blocks;
    if ok {
      forall b ensures b in blocks <==> Belongs(t, b) {
        TreeMembers(disk, t, b);
        MappedIsInRuns(t, b);
      }
    }
  }
}
