/** The in-place algorithms over the on-disk layout: lookup, insertion and growth of the inode's root. */
module ExtentInode {
  import opened Common
  import opened ExtentList
  import opened ExtentTree
  import opened ExtentDisk

  const U32_MAX: nat := U32 - 1
  /** 512-byte sectors per 4096-byte block. */
  const SECTORS: nat := 8

  function Keys(node: Node): seq<nat> {
    if node.LeafNode? then seq(|node.extents|, i requires 0 <= i < |node.extents| => node.extents[i].block)
    else seq(|node.records|, i requires 0 <= i < |node.records| => node.records[i].key)
  }

  ghost predicate Increasing(keys: seq<nat>) {
    forall i, j :: 0 <= i < j < |keys| ==> keys[i] < keys[j]
  }

  function SaturatingAdd(a: nat, b: nat): nat {
    if a + b > U32_MAX then U32_MAX else a + b
  }

  /** What the pool of free blocks must look like for a node stored in `home` (0: in the inode). */
  ghost predicate Ready(disk: Disk, pool: seq<nat>, home: nat, t: Tree) {
    && Holds(disk, t) && Distinct(t) && Uses(t, home) == 0 && Uses(t, 0) == 0
    && (home != 0 ==> home in disk && disk[home] == NodeOf(t))
    && NoRepeats(pool)
    && forall b :: b in pool ==> b != 0 && b != home && Uses(t, b) == 0 && b !in disk
  }

  /** The layout after an insertion below the node stored in `home`, and what was reported upwards. */
  ghost predicate Outcome(disk: Disk, home: nat, next: Node, split: Option<Pointer>, r: Insertion) {
    && (home != 0 ==> home in disk && disk[home] == next)
    && match r {
         case Done(t, _) => next == NodeOf(t) && Holds(disk, t) && split == None
         case Split(l, blk, rt, _) =>
           && next == NodeOf(l) && Holds(disk, l)
           && blk in disk && disk[blk] == NodeOf(rt) && Holds(disk, rt)
           && Entries(rt) > 0 && split == Some(Pointer(FirstKey(rt), blk))
       }
  }

  // ---- facts about keys and pools ----

  lemma AdjacentIncrease(keys: seq<nat>)
    requires forall i :: 0 < i < |keys| ==> keys[i - 1] < keys[i]
    ensures Increasing(keys)
  {
    forall i, j | 0 <= i < j < |keys| ensures keys[i] < keys[j] {
      var k := i + 1;
      while k < j
        invariant i < k <= j && keys[i] < keys[k]
      {
        k := k + 1;
      }
    }
  }

  /** The keys of every node of a sorted tree are increasing, which the binary search relies on. */
  lemma KeysIncrease(t: Tree, capacity: nat)
    requires Sorted(Flatten(t)) && (t.Leaf? || Shape(t, capacity))
    ensures Increasing(Keys(NodeOf(t)))
  {
    var keys := Keys(NodeOf(t));
    if t.Index? {
      forall i | 0 < i < |keys| ensures keys[i - 1] < keys[i] {
        ChildWindow(t, capacity, i - 1);
        FlattenAround(t.kids, i - 1);
        SortedSplit(FlattenKids(t.kids[..i - 1]), Flatten(t.kids[i - 1].child), FlattenKids(t.kids[i..]));
      }
      AdjacentIncrease(keys);
    }
  }

  lemma KidBoundUnique(kids: seq<Kid>, logical: nat, n: nat)
    requires n <= |kids|
    requires forall i :: 0 <= i < n ==> kids[i].key <= logical
    requires n < |kids| ==> kids[n].key > logical
    ensures n == KidBound(kids, logical)
  {
    var m := KidBound(kids, logical);
    assert !(n < m) && !(m < n);
  }

  lemma {:induction false} TakenAtMost(before: seq<nat>, after: seq<nat>, b: nat)
    requires Suffix(after, before) && NoRepeats(before)
    ensures b !in before ==> Taken(before, after, Only(b)) == 0
    ensures b in after ==> Taken(before, after, Only(b)) == 0
    ensures Taken(before, after, Only(b)) <= 1
  {
    if |after| < |before| {
      TakenAtMost(before[1..], after, b);
      if before[0] == b {
        assert b !in before[1..];
        assert Taken(before[1..], after, Only(b)) == 0;
      }
    }
  }

  /** After an insertion the node blocks are still distinct, and none of them is still in the pool. */
  lemma StillDistinct(disk: Disk, pool: seq<nat>, home: nat, t: Tree, r: Insertion, b: nat)
    requires Ready(disk, pool, home, t) && Suffix(r.pool, pool)
    requires UsesOf(r, b) == Uses(t, b) + Taken(pool, r.pool, Only(b))
    ensures UsesOf(r, b) <= 1
    ensures b == home || b == 0 || b in r.pool ==> UsesOf(r, b) == 0
  {
    TakenAtMost(pool, r.pool, b);
    if b in r.pool {
      assert b in pool;
    }
  }

  /** Insertion below any node: an index node needs a predecessor, a leaf does not. */
  ghost function InsertAt(t: Tree, logical: nat, physical: nat, pool: seq<nat>): Insertion
    requires Admissible(t, logical, pool)
  {
    if t.Leaf? then InsertLeaf(t, logical, physical, pool) else InsertInto(t, logical, physical, pool)
  }

  ghost predicate Admissible(t: Tree, logical: nat, pool: seq<nat>) {
    && Sorted(Flatten(t)) && EnoughBelow(t, pool)
    && (t.Leaf? ==> |t.extents| <= t.max <= BLOCK_ENTRIES && t.max > 0)
    && (t.Index? ==> Shape(t, BLOCK_ENTRIES) && FirstKey(t) <= logical)
  }

  /** The child that the walk descends into meets the same conditions as its parent. */
  lemma DescendReady(disk: Disk, pool: seq<nat>, home: nat, t: Tree, logical: nat, a: nat)
    requires t.Index? && Ready(disk, pool, home, t) && Admissible(t, logical, pool)
    requires a == KidBound(t.kids, logical) - 1
    ensures Ready(disk, pool, t.kids[a].blk, t.kids[a].child) && Admissible(t.kids[a].child, logical, pool)
    ensures t.kids[a].blk != 0
  {
    var k := t.kids[a];
    forall b ensures One(k.blk, Only(b)) + Uses(k.child, b) <= Uses(t, b) {
      CountAround(t.kids, a, Only(b));
    }
    assert One(k.blk, Only(k.blk)) == 1 && One(k.blk, Only(0)) <= Uses(t, 0);
    ChildWindow(t, BLOCK_ENTRIES, a);
  }

  /** Writing a block that a tree does not use leaves its layout alone. */
  lemma WriteHolds(disk: Disk, b: nat, node: Node, t: Tree)
    requires Holds(disk, t) && Uses(t, b) == 0
    ensures Holds(disk[b := node], t)
  {
    HoldsFrame(disk, disk[b := node], t);
  }

  /** No node block occurs twice, is the node's own block, or is still in the pool. */
  ghost predicate Clean(r: Insertion, home: nat, pool: seq<nat>) {
    && Suffix(r.pool, pool)
    && forall b :: UsesOf(r, b) <= 1 && (b == home || b == 0 || b in r.pool ==> UsesOf(r, b) == 0)
  }

  lemma InsertClean(disk: Disk, pool: seq<nat>, home: nat, t: Tree, logical: nat, physical: nat, r: Insertion)
    requires Ready(disk, pool, home, t) && Admissible(t, logical, pool) && r == InsertAt(t, logical, physical, pool)
    ensures Clean(r, home, pool)
  {
    forall b ensures Suffix(r.pool, pool) && UsesOf(r, b) == Uses(t, b) + Taken(pool, r.pool, Only(b)) {
      if t.Leaf? {
        LeafCount(t, logical, physical, pool, Only(b));
      } else {
        InsertCount(t, logical, physical, pool, Only(b));
      }
    }
    forall b ensures UsesOf(r, b) <= 1 && (b == home || b == 0 || b in r.pool ==> UsesOf(r, b) == 0) {
      assert UsesOf(r, b) == Uses(t, b) + Taken(pool, r.pool, Only(b));
      StillDistinct(disk, pool, home, t, r, b);
    }
    assert UsesOf(r, 0) == Uses(t, 0) + Taken(pool, r.pool, Only(0));
  }

  /** One level of the recursion. */
  lemma InsertStep(t: Tree, logical: nat, physical: nat, pool: seq<nat>, a: nat, below: Insertion)
    requires t.Index? && Admissible(t, logical, pool) && a == KidBound(t.kids, logical) - 1
    requires Admissible(t.kids[a].child, logical, pool)
    requires below == InsertAt(t.kids[a].child, logical, physical, pool)
    ensures below.Split? ==> Entries(below.right) > 0 && below.pool != []
    ensures InsertAt(t, logical, physical, pool) == Rebuild(t, a, below)
  {
    assert below == InsertInto(t.kids[a].child, logical, physical, pool);
  }

  /** An edited node, with the right half when it was cut in two. */
  datatype Edit = Edit(next: Node, right: Option<Node>)

  ghost predicate Edits(e: Edit, r: Insertion) {
    match r
    case Done(t, _) => e == Edit(NodeOf(t), None)
    case Split(l, _, rt, _) => e == Edit(NodeOf(l), Some(NodeOf(rt))) && Entries(rt) > 0
  }

  /** The layout once an edit is written back. */
  ghost function Committed(disk: Disk, home: nat, e: Edit, pool: seq<nat>): Disk
    requires e.right.Some? ==> pool != []
  {
    var written := if home != 0 then disk[home := e.next] else disk;
    if e.right.Some? then written[pool[0] := e.right.value] else written
  }

  ghost predicate Untouched(before: Disk, after: Disk, home: nat, t: Tree) {
    forall b :: b in before && b != home && Uses(t, b) == 0 ==> b in after && after[b] == before[b]
  }

  ghost predicate FromPool(before: Disk, after: Disk, pool: seq<nat>, rest: seq<nat>) {
    forall b :: b in after && b !in before ==> b in pool && b !in rest
  }

  /** Every block that was written holds a node with the right checksum, and no other block lost its own. */
  ghost predicate Sealed(before: Disk, was: set<nat>, after: Disk, unsealed: set<nat>) {
    && unsealed <= was
    && forall b :: b in after && (b !in before || after[b] != before[b]) ==> b !in unsealed
  }

  /** The blocks an edit is written to. */
  ghost function Targets(home: nat, e: Edit, pool: seq<nat>): set<nat>
    requires e.right.Some? ==> pool != []
  {
    (if home != 0 then {home} else {}) + (if e.right.Some? then {pool[0]} else {})
  }

  lemma CommitSealed(before: Disk, was: set<nat>, disk: Disk, unsealed: set<nat>, home: nat, e: Edit, pool: seq<nat>)
    requires Sealed(before, was, disk, unsealed) && (e.right.Some? ==> pool != [])
    ensures Sealed(before, was, Committed(disk, home, e, pool), unsealed - Targets(home, e, pool))
  {
  }

  lemma SealedYet(disk: Disk, unsealed: set<nat>)
    ensures Sealed(disk, unsealed, disk, unsealed)
  {
  }

  /** Every node block of the tree matches its stored checksum. */
  ghost predicate AllSealed(unsealed: set<nat>, t: Tree) {
    forall b :: Uses(t, b) > 0 ==> b !in unsealed
  }

  /** Before the write-back, every subtree of the result is already in place. */
  lemma CommitOutcome(disk: Disk, home: nat, e: Edit, pool: seq<nat>, r: Insertion)
    requires Edits(e, r) && (home != 0 ==> home in disk)
    requires r.Done? ==> Holds(disk, r.tree)
    requires r.Split? ==> Holds(disk, r.left) && Holds(disk, r.right) && pool != [] && r.blk == pool[0] != home
    requires UsesOf(r, home) == 0
    requires r.Split? ==> UsesOf(r, r.blk) <= 1
    ensures Outcome(Committed(disk, home, e, pool), home, e.next,
                    if r.Done? then None else Some(Pointer(FirstKey(r.right), r.blk)), r)
    ensures r.Split? ==> Keys(e.right.value) != [] && Keys(e.right.value)[0] == FirstKey(r.right)
  {
    var written := if home != 0 then disk[home := e.next] else disk;
    if r.Done? {
      WriteHolds(disk, home, e.next, r.tree);
    } else {
      WriteHolds(disk, home, e.next, r.left);
      WriteHolds(disk, home, e.next, r.right);
      assert One(r.blk, Only(r.blk)) == 1;
      WriteHolds(written, r.blk, e.right.value, r.left);
      WriteHolds(written, r.blk, e.right.value, r.right);
    }
  }

  lemma AimIsBound(t: Tree, logical: nat, n: nat)
    requires t.Index? && n <= |t.kids|
    requires forall i :: 0 <= i < n ==> Keys(NodeOf(t))[i] <= logical
    requires forall i :: n <= i < |t.kids| ==> Keys(NodeOf(t))[i] > logical
    ensures n == KidBound(t.kids, logical)
  {
    assert forall i :: 0 <= i < |t.kids| ==> Keys(NodeOf(t))[i] == t.kids[i].key;
    KidBoundUnique(t.kids, logical, n);
  }

  /** What a child's insertion leaves alone includes everything outside its parent's subtree. */
  lemma BelowUntouched(before: Disk, after: Disk, home: nat, t: Tree, a: nat)
    requires t.Index? && a < |t.kids| && Uses(t, home) == 0
    requires Untouched(before, after, t.kids[a].blk, t.kids[a].child)
    ensures Untouched(before, after, home, t)
    ensures home in before ==> home in after && after[home] == before[home]
  {
    forall b ensures One(t.kids[a].blk, Only(b)) + Uses(t.kids[a].child, b) <= Uses(t, b) {
      CountAround(t.kids, a, Only(b));
    }
    assert One(t.kids[a].blk, Only(t.kids[a].blk)) == 1;
  }

  ghost predicate HoldsPieces(disk: Disk, r: Insertion) {
    if r.Done? then Holds(disk, r.tree) else Holds(disk, r.left) && Holds(disk, r.right)
  }

  /** The layout between a child's insertion and its parent's write-back. */
  lemma AfterChild(before: Disk, after: Disk, home: nat, t: Tree, a: nat, child: Node, split: Option<Pointer>,
                   below: Insertion, o: Insertion)
    requires t.Index? && a < |t.kids| && Holds(before, t) && Distinct(t) && Uses(t, home) == 0 && t.kids[a].blk != 0
    requires home != 0 ==> home in before && before[home] == NodeOf(t)
    requires below.Split? ==> Entries(below.right) > 0 && below.pool != []
    requires o == Rebuild(t, a, below) && Outcome(after, t.kids[a].blk, child, split, below)
    requires Untouched(before, after, t.kids[a].blk, t.kids[a].child)
    ensures HoldsPieces(after, o) && Untouched(before, after, home, t)
    ensures home != 0 ==> home in after && after[home] == NodeOf(t)
    ensures below.Done? ==> o.Done? && NodeOf(o.tree) == NodeOf(t)
    ensures o.Done? ==> o.pool == below.pool
    ensures o.Split? ==> below.Split? && o.blk == below.pool[0] && o.pool == below.pool[1..]
  {
    RebuildHolds(before, after, t, a, below);
    BelowUntouched(before, after, home, t, a);
    if below.Done? {
      assert Records(o.tree.kids) == Records(t.kids);
    }
  }

  lemma CommitUntouched(before: Disk, disk: Disk, home: nat, t: Tree, e: Edit, whole: seq<nat>, pool: seq<nat>)
    requires Untouched(before, disk, home, t) && FromPool(before, disk, whole, pool)
    requires Suffix(pool, whole) && NoRepeats(whole) && (home != 0 ==> home in before)
    requires forall b :: b in whole ==> b !in before
    requires e.right.Some? ==> pool != []
    ensures var rest := if e.right.Some? then pool[1..] else pool;
      var after := Committed(disk, home, e, pool);
      Untouched(before, after, home, t) && FromPool(before, after, whole, rest)
  {
  }

  lemma UntouchedYet(disk: Disk, home: nat, t: Tree, pool: seq<nat>)
    ensures Untouched(disk, disk, home, t) && FromPool(disk, disk, pool, pool)
  {
  }

  /** Everything that the write-back of an edited leaf relies on. */
  lemma LeafFacts(disk: Disk, pool: seq<nat>, home: nat, t: Tree, logical: nat, physical: nat, r: Insertion)
    requires t.Leaf? && Ready(disk, pool, home, t) && Admissible(t, logical, pool)
    requires r == InsertAt(t, logical, physical, pool)
    ensures pool != [] && |t.extents| <= t.max && t.max > 0 && r == InsertLeaf(t, logical, physical, pool)
    ensures (home != 0 ==> home in disk) && HoldsPieces(disk, r) && UsesOf(r, home) == 0
    ensures r.Done? ==> r.pool == pool
    ensures r.Split? ==> r.blk == pool[0] != home && UsesOf(r, r.blk) <= 1 && r.pool == pool[1..]
    ensures Suffix(pool, pool) && NoRepeats(pool) && forall b :: b in pool ==> b !in disk
  {
    InsertClean(disk, pool, home, t, logical, physical, r);
    assert pool[|pool| - |pool|..] == pool;
  }

  class ExtentFile {
    /** The node stored in the inode's `i_block`. */
    var root: Node
    /** Blocks that hold extent nodes, recognised by their magic number. */
    var disk: Disk
    /** Blocks whose node does not match its stored checksum; none where the file system keeps no checksums. */
    var unsealed: set<nat>
    /** Free blocks in the order the allocator will hand them out. */
    var pool: seq<nat>
    var iBlocks: nat

    constructor ()
      ensures root == LeafNode(ROOT_ENTRIES, []) && disk == map[] && pool == [] && iBlocks == 0
      ensures unsealed == {}
    {
      root, disk, unsealed, pool, iBlocks := LeafNode(ROOT_ENTRIES, []), map[], {}, [], 0;
    }

    /** Binary search: the number of entries whose key is at or before `logical`. */
    method FindAim(node: Node, capacity: nat, logical: nat) returns (n: nat)
      requires Increasing(Keys(node)) && |Keys(node)| <= capacity
      ensures n <= |Keys(node)|
      ensures forall i :: 0 <= i < n ==> Keys(node)[i] <= logical
      ensures forall i :: n <= i < |Keys(node)| ==> Keys(node)[i] > logical
    {
      var keys := Keys(node);
      var entries := if |keys| < capacity then |keys| else capacity;
      var lo, hi := 0, entries;
      while lo < hi
        invariant 0 <= lo <= hi <= |keys|
        invariant forall i :: 0 <= i < lo ==> keys[i] <= logical
        invariant forall i :: hi <= i < |keys| ==> keys[i] > logical
      {
        var mid := (lo + hi) / 2;
        if keys[mid] <= logical {
          lo := mid + 1;
        } else {
          hi := mid;
        }
      }
      n := lo;
    }

    /** Nodes in the inode are updated in place; other nodes go back to their block, with a new checksum. */
    method WriteBack(home: nat, node: Node)
      modifies this`disk, this`unsealed
      ensures disk == if home != 0 then old(disk)[home := node] else old(disk)
      ensures unsealed == if home != 0 then old(unsealed) - {home} else old(unsealed)
    {
      if home != 0 {
        disk, unsealed := disk[home := node], unsealed - {home};
      }
    }

    method AllocBlock() returns (b: nat)
      requires pool != []
      modifies this`pool
      ensures b == old(pool)[0] && pool == old(pool)[1..]
    {
      b, pool := pool[0], pool[1..];
    }

    /** Walk from the root to the leaf that may cover `logical`. */
    method FindPhysicalBlock(logical: nat, ghost t: Tree) returns (physical: nat)
      requires WellFormed(t) && root == NodeOf(t) && Holds(disk, t)
      ensures physical == Find(t, logical)
    {
      var node := root;
      ghost var here := t;
      while node.IndexNode?
        invariant node == NodeOf(here) && Holds(disk, here)
        invariant here == Leaf(ROOT_ENTRIES, []) || Shape(here, BLOCK_ENTRIES)
        invariant Find(here, logical) == Find(t, logical)
        decreases here
      {
        var found, i := 0, 0;
        while i < |node.records| && logical >= node.records[i].key
          invariant 0 <= i <= |node.records|
          invariant found == if i == 0 then 0 else i - 1
          invariant forall j :: 0 <= j < i ==> node.records[j].key <= logical
        {
          found := i;
          i := i + 1;
        }
        KidBoundUnique(here.kids, logical, i);
        node := disk[node.records[found].blk];
        here := here.kids[found].child;
      }
      physical := ScanLeaf(node.extents, logical);
    }

    method ScanLeaf(extents: seq<Extent>, logical: nat) returns (physical: nat)
      ensures physical == Lookup(extents, logical)
    {
      var i := 0;
      while i < |extents|
        invariant 0 <= i <= |extents|
        invariant Lookup(extents, logical) == Lookup(extents[i..], logical)
      {
        if logical >= extents[i].block && logical < LogicalEnd(extents[i]) {
          return PhysOf(extents[i], logical);
        }
        i := i + 1;
      }
      return 0;
    }

    /** The binary search on a node of a sorted tree counts what the walk over the tree counts. */
    method Aim(logical: nat, cur: Node, ghost t: Tree) returns (n: nat)
      requires cur == NodeOf(t) && Admissible(t, logical, pool)
      ensures n == if t.Leaf? then UpperBound(t.extents, logical) else KidBound(t.kids, logical)
    {
      KeysIncrease(t, BLOCK_ENTRIES);
      n := FindAim(cur, BLOCK_ENTRIES, logical);
      if cur.LeafNode? {
        assert forall i :: 0 <= i < |t.extents| ==> Keys(cur)[i] == t.extents[i].block;
        UpperBoundUnique(t.extents, logical, n);
      } else {
        AimIsBound(t, logical, n);
      }
    }

    /** Leaf case on the node buffer: grow the predecessor, insert after it, or cut the full node in two. */
    method EditLeaf(logical: nat, physical: nat, cur: Node, n: nat) returns (e: Edit)
      requires cur.LeafNode? && n == UpperBound(cur.extents, logical) && |cur.extents| <= cur.max && cur.max > 0
      requires pool != []
      ensures Edits(e, InsertLeaf(Leaf(cur.max, cur.extents), logical, physical, pool))
    {
      var es := cur.extents;
      if n > 0 && CanGrow(es[n - 1], logical, physical) {
        return Edit(cur.(extents := es[n - 1 := Grow(es[n - 1])]), None);
      }
      var extent := Single(logical, physical);
      if |es| < cur.max {
        return Edit(cur.(extents := es[..n] + [extent] + es[n..]), None);
      }
      // Full: the aim record defaults to the first one when there is no predecessor.
      var aim := if n > 0 then n - 1 else 0;
      var combined := es[..aim + 1] + [extent] + es[aim + 1..];
      var mid := |combined| / 2;
      var left := if aim + 1 < mid then combined[..mid] else es[..mid];
      assert left == combined[..mid];
      return Edit(cur.(extents := left), Some(LeafNode(BLOCK_ENTRIES, combined[mid..])));
    }

    /** Index case on the node buffer: insert the record of a child's new sibling after record `a`. */
    method EditIndex(cur: Node, a: nat, record: Pointer, ghost t: Tree, ghost r: Insertion) returns (e: Edit)
      requires t.Index? && cur == NodeOf(t) && a < |t.kids| && |t.kids| <= t.max
      requires r.Split? && Entries(r.right) > 0 && r.pool != [] && record == Pointer(FirstKey(r.right), r.blk)
      ensures Edits(e, Rebuild(t, a, r))
    {
      var combined := cur.records[..a + 1] + [record] + cur.records[a + 1..];
      assert combined == Records(Spliced(t.kids, a, r));
      if |cur.records| < cur.max {
        return Edit(cur.(records := combined), None);
      }
      var mid := |combined| / 2;
      var left := if a + 1 < mid then combined[..mid] else cur.records[..mid];
      assert left == combined[..mid];
      ghost var all := Spliced(t.kids, a, r);
      assert Records(all[..mid]) == combined[..mid] && Records(all[mid..]) == combined[mid..];
      return Edit(cur.(records := left), Some(IndexNode(BLOCK_ENTRIES, cur.depth, combined[mid..])));
    }

    /** Write the edited node back and put a cut-off right half into a newly allocated block. */
    method Commit(home: nat, e: Edit) returns (split: Option<Pointer>, added: nat)
      requires e.right.Some? ==> pool != [] && Keys(e.right.value) != []
      modifies this`disk, this`unsealed, this`pool
      ensures disk == Committed(old(disk), home, e, old(pool))
      ensures unsealed == old(unsealed) - Targets(home, e, old(pool))
      ensures e.right.None? ==> split == None && added == 0 && pool == old(pool)
      ensures e.right.Some? ==>
        split == Some(Pointer(Keys(e.right.value)[0], old(pool)[0])) && added == 1 && pool == old(pool)[1..]
    {
      WriteBack(home, e.next);
      if e.right == None {
        return None, 0;
      }
      var blk := AllocBlock();
      disk, unsealed := disk[blk := e.right.value], unsealed - {blk};
      return Some(Pointer(Keys(e.right.value)[0], blk)), 1;
    }

    /** The recursive insertion below the node `cur`, which is stored in block `home` (0: the inode). */
    method AddInTree(logical: nat, physical: nat, home: nat, cur: Node, ghost t: Tree)
      returns (next: Node, split: Option<Pointer>, added: nat, ghost r: Insertion)
      requires cur == NodeOf(t) && Ready(disk, pool, home, t) && Admissible(t, logical, pool)
      modifies this`disk, this`unsealed, this`pool
      ensures r == InsertAt(t, logical, physical, old(pool)) && Clean(r, home, old(pool))
      ensures pool == r.pool && added == |old(pool)| - |pool| && Outcome(disk, home, next, split, r)
      ensures Untouched(old(disk), disk, home, t) && FromPool(old(disk), disk, old(pool), pool)
      ensures Sealed(old(disk), old(unsealed), disk, unsealed)
      decreases t, 1
    {
      if cur.LeafNode? {
        next, split, added, r := AddInLeaf(logical, physical, home, cur, t);
      } else {
        next, split, added, r := AddInIndex(logical, physical, home, cur, t);
      }
    }

    method AddInLeaf(logical: nat, physical: nat, home: nat, cur: Node, ghost t: Tree)
      returns (next: Node, split: Option<Pointer>, added: nat, ghost r: Insertion)
      requires t.Leaf? && cur == NodeOf(t) && Ready(disk, pool, home, t) && Admissible(t, logical, pool)
      modifies this`disk, this`unsealed, this`pool
      ensures r == InsertAt(t, logical, physical, old(pool)) && Clean(r, home, old(pool))
      ensures pool == r.pool && added == |old(pool)| - |pool| && Outcome(disk, home, next, split, r)
      ensures Untouched(old(disk), disk, home, t) && FromPool(old(disk), disk, old(pool), pool)
      ensures Sealed(old(disk), old(unsealed), disk, unsealed)
      decreases t, 0
    {
      hide InsertAt, InsertLeaf, Ready, Admissible, Clean, Outcome;
      hide Holds, Untouched, FromPool, Committed, NoRepeats, Suffix, Sealed, Targets;
      r := InsertAt(t, logical, physical, pool);
      InsertClean(disk, pool, home, t, logical, physical, r);
      LeafFacts(disk, pool, home, t, logical, physical, r);
      var n := Aim(logical, cur, t);
      var e := EditLeaf(logical, physical, cur, n);
      CommitOutcome(disk, home, e, pool, r);
      UntouchedYet(disk, home, t, pool);
      CommitUntouched(disk, disk, home, t, e, pool, pool);
      SealedYet(disk, unsealed);
      CommitSealed(disk, unsealed, disk, unsealed, home, e, pool);
      split, added := Commit(home, e);
      next := e.next;
    }

    method AddInIndex(logical: nat, physical: nat, home: nat, cur: Node, ghost t: Tree)
      returns (next: Node, split: Option<Pointer>, added: nat, ghost r: Insertion)
      requires t.Index? && cur == NodeOf(t) && Ready(disk, pool, home, t) && Admissible(t, logical, pool)
      modifies this`disk, this`unsealed, this`pool
      ensures r == InsertAt(t, logical, physical, old(pool)) && Clean(r, home, old(pool))
      ensures pool == r.pool && added == |old(pool)| - |pool| && Outcome(disk, home, next, split, r)
      ensures Untouched(old(disk), disk, home, t) && FromPool(old(disk), disk, old(pool), pool)
      ensures Sealed(old(disk), old(unsealed), disk, unsealed)
      decreases t, 0
    {
      var n := Aim(logical, cur, t);
      var a := n - 1;
      DescendReady(disk, pool, home, t, logical, a);
      var blk := cur.records[a].blk;
      ghost var below;
      next, split, added, below := AddInTree(logical, physical, blk, disk[blk], t.kids[a].child);
      InsertStep(t, logical, physical, old(pool), a, below);
      r := Rebuild(t, a, below);
      InsertClean(old(disk), old(pool), home, t, logical, physical, r);
      AfterChild(old(disk), disk, home, t, a, next, split, below, r);
      if split == None {
        next := cur;
      } else {
        next, split, added := FinishIndex(home, cur, a, split.value, added, old(disk), old(unsealed), old(pool), t,
                                          below, r);
      }
    }

    /** Insert the record of the child's new sibling, and split this node in turn when it is full. */
    method FinishIndex(home: nat, cur: Node, a: nat, record: Pointer, below: nat,
                       ghost before: Disk, ghost was: set<nat>, ghost whole: seq<nat>, ghost t: Tree,
                       ghost inner: Insertion, ghost r: Insertion)
      returns (next: Node, split: Option<Pointer>, added: nat)
      requires t.Index? && cur == NodeOf(t) && a < |t.kids| && |t.kids| <= t.max
      requires inner.Split? && Entries(inner.right) > 0 && record == Pointer(FirstKey(inner.right), inner.blk)
      requires pool == inner.pool != [] && r == Rebuild(t, a, inner) && HoldsPieces(disk, r)
      requires Suffix(pool, whole) && NoRepeats(whole) && Clean(r, home, whole) && below == |whole| - |pool|
      requires forall b :: b in whole ==> b != home && b !in before
      requires home != 0 ==> home in before && home in disk
      requires Untouched(before, disk, home, t) && FromPool(before, disk, whole, pool)
      requires Sealed(before, was, disk, unsealed)
      modifies this`disk, this`unsealed, this`pool
      ensures pool == r.pool && added == |whole| - |pool| && Outcome(disk, home, next, split, r)
      ensures Untouched(before, disk, home, t) && FromPool(before, disk, whole, pool)
      ensures Sealed(before, was, disk, unsealed)
    {
      var e := EditIndex(cur, a, record, t, inner);
      SuffixParts(pool, whole);
      CommitOutcome(disk, home, e, pool, r);
      CommitUntouched(before, disk, home, t, e, whole, pool);
      CommitSealed(before, was, disk, unsealed, home, e, pool);
      split, added := Commit(home, e);
      next, added := e.next, below + added;
    }

    /** Move the left half out of the inode and leave two index records in its place. */
    method GrowInode(next: Node, right: Pointer, ghost r: Insertion)
      requires r.Split? && Entries(r.left) > 0 && Entries(r.right) > 0 && pool == r.pool != []
      requires next == NodeOf(r.left) && right == Pointer(FirstKey(r.right), r.blk)
      modifies this`root, this`disk, this`unsealed, this`pool
      ensures pool == old(pool)[1..] && disk == old(disk)[old(pool)[0] := next.(max := BLOCK_ENTRIES)]
      ensures unsealed == old(unsealed) - {old(pool)[0]}
      ensures root == NodeOf(GrowRoot(r).tree)
    {
      FirstOfKeys(r.left);
      var blk := AllocBlock();
      disk, unsealed := disk[blk := next.(max := BLOCK_ENTRIES)], unsealed - {blk};
      var depth := if next.LeafNode? then 1 else next.depth + 1;
      root := IndexNode(ROOT_ENTRIES, depth, [Pointer(Keys(next)[0], blk), right]);
      assert Records(GrowRoot(r).tree.kids) == root.records;
    }

    /** Insert one block and let the root in the inode grow by a level when it was cut in two. */
    method AddExtentEntry(logical: nat, physical: nat, ghost t: Tree) returns (ghost after: Tree)
      requires WellFormed(t) && root == NodeOf(t) && Ready(disk, pool, 0, t) && |pool| > Depth(t) + 1
      requires t.Index? ==> FirstKey(t) <= logical
      modifies this
      ensures InsertRoot(t, logical, physical, old(pool)) == Rooted(after, pool) && |pool| <= |old(pool)|
      ensures root == NodeOf(after) && Ready(disk, pool, 0, after)
      ensures iBlocks == SaturatingAdd(old(iBlocks), SECTORS * (1 + |old(pool)| - |pool|))
      ensures Sealed(old(disk), old(unsealed), disk, unsealed)
      ensures AllSealed(old(unsealed), t) ==> AllSealed(unsealed, after)
    {
      hide InsertAt, InsertRoot, InsertLeaf, InsertInto, WellFormed, Admissible, Clean, Untouched, FromPool, NoRepeats;
      hide AllSealed;
      RootAdmissible(t, logical, pool);
      var next, split, added, r := AddInTree(logical, physical, 0, root, t);
      RootResult(t, logical, physical, old(pool), r);
      if split == None {
        RootStays(old(disk), disk, old(pool), next, r);
        root := next;
        after := r.tree;
      } else {
        RootGrows(old(disk), disk, old(pool), next, r);
        after := GrowRoot(r).tree;
        GrowInode(next, split.value, r);
        added := added + 1;
      }
      iBlocks := SaturatingAdd(iBlocks, (1 + added) * SECTORS);
      if AllSealed(old(unsealed), t) {
        StaysSealed(old(disk), old(unsealed), old(pool), t, logical, physical, disk, unsealed, pool, after);
      }
    }
  }

  /** Every node block of a tree is on disk. */
  lemma {:induction false} HoldsUsed(disk: Disk, t: Tree, b: nat)
    requires Holds(disk, t) && Uses(t, b) > 0
    ensures b in disk
    decreases t, 1
  {
    assert t.kids[..|t.kids|] == t.kids;
    KidsUsed(disk, t, |t.kids|, b);
  }

  lemma {:induction false} KidsUsed(disk: Disk, t: Tree, n: nat, b: nat)
    requires t.Index? && Holds(disk, t) && n <= |t.kids| && CountKids(t.kids[..n], Only(b)) > 0
    ensures b in disk
    decreases t, 0, n
  {
    if n > 0 {
      var k := t.kids[n - 1];
      assert t.kids[..n] == t.kids[..n - 1] + [k];
      CountConcat(t.kids[..n - 1], [k], Only(b));
      CountAround([k], 0, Only(b));
      if Uses(k.child, b) > 0 {
        HoldsUsed(disk, k.child, b);
      } else if k.blk != b {
        KidsUsed(disk, t, n - 1, b);
      }
    }
  }

  /** Each node block of the new tree was one of the old tree or came from the pool. */
  lemma RootUses(t: Tree, logical: nat, physical: nat, pool: seq<nat>, after: Tree, rest: seq<nat>, b: nat)
    requires WellFormed(t) && |pool| > Depth(t) + 1 && (t.Index? ==> FirstKey(t) <= logical)
    requires NoRepeats(pool) && InsertRoot(t, logical, physical, pool) == Rooted(after, rest)
    ensures Uses(after, b) > 0 ==> Uses(t, b) > 0 || b in pool
  {
    RootAdmissible(t, logical, pool);
    var r := InsertAt(t, logical, physical, pool);
    RootResult(t, logical, physical, pool, r);
    if t.Leaf? {
      LeafCount(t, logical, physical, pool, Only(b));
    } else {
      InsertCount(t, logical, physical, pool, Only(b));
    }
    TakenAtMost(pool, r.pool, b);
    if r.Split? {
      GrowRootCount(r, Only(b));
      SuffixParts(r.pool, pool);
    }
  }

  lemma StaysSealed(before: Disk, was: set<nat>, pool: seq<nat>, t: Tree, logical: nat, physical: nat, disk: Disk,
                    unsealed: set<nat>, rest: seq<nat>, after: Tree)
    requires WellFormed(t) && |pool| > Depth(t) + 1 && (t.Index? ==> FirstKey(t) <= logical)
    requires Ready(before, pool, 0, t) && InsertRoot(t, logical, physical, pool) == Rooted(after, rest)
    requires Holds(disk, after) && Sealed(before, was, disk, unsealed) && AllSealed(was, t)
    ensures AllSealed(unsealed, after)
  {
    forall b | Uses(after, b) > 0 ensures b !in unsealed {
      HoldsUsed(disk, after, b);
      RootUses(t, logical, physical, pool, after, rest, b);
    }
  }

  lemma RootAdmissible(t: Tree, logical: nat, pool: seq<nat>)
    requires WellFormed(t) && |pool| > Depth(t) + 1
    requires t.Index? && Entries(t) > 0 ==> FirstKey(t) <= logical
    ensures Admissible(t, logical, pool)
  {
  }

  lemma RootResult(t: Tree, logical: nat, physical: nat, pool: seq<nat>, r: Insertion)
    requires WellFormed(t) && |pool| > Depth(t) + 1 && Admissible(t, logical, pool)
    requires r == InsertAt(t, logical, physical, pool)
    ensures r.Split? ==> Entries(r.left) > 0 && Entries(r.right) > 0 && r.pool != []
    ensures InsertRoot(t, logical, physical, pool) == if r.Done? then Rooted(r.tree, r.pool) else GrowRoot(r)
  {
  }

  /** A suffix of a pool without repeats keeps its members and has none itself. */
  lemma SuffixParts(after: seq<nat>, before: seq<nat>)
    requires Suffix(after, before) && NoRepeats(before)
    ensures NoRepeats(after) && (forall b :: b in after ==> b in before)
    ensures after != [] ==> after[0] !in after[1..] && Suffix(after[1..], before)
  {
  }

  lemma RootStays(before: Disk, disk: Disk, pool: seq<nat>, next: Node, r: Insertion)
    requires r.Done? && Clean(r, 0, pool) && Outcome(disk, 0, next, None, r) && FromPool(before, disk, pool, r.pool)
    requires NoRepeats(pool) && forall b :: b in pool ==> b != 0 && b !in before
    ensures Ready(disk, r.pool, 0, r.tree)
  {
    SuffixParts(r.pool, pool);
    assert forall b :: Uses(r.tree, b) == UsesOf(r, b);
  }

  lemma GrownHolds(disk: Disk, next: Node, r: Insertion)
    requires r.Split? && Entries(r.left) > 0 && Entries(r.right) > 0 && r.pool != []
    requires next == NodeOf(r.left) && Holds(disk, r.left)
    requires r.blk in disk && disk[r.blk] == NodeOf(r.right) && Holds(disk, r.right)
    requires r.pool[0] !in disk && UsesOf(r, r.pool[0]) == 0
    ensures Holds(disk[r.pool[0] := next.(max := BLOCK_ENTRIES)], GrowRoot(r).tree)
  {
    var blk := r.pool[0];
    var after := disk[blk := next.(max := BLOCK_ENTRIES)];
    var left := r.left.(max := BLOCK_ENTRIES);
    WriteHolds(disk, blk, after[blk], r.left);
    WriteHolds(disk, blk, after[blk], r.right);
    assert Holds(after, left) && NodeOf(left) == after[blk];
    assert forall i :: 0 <= i < 2 ==> HoldsKid(after, GrowRoot(r).tree.kids[i]);
  }

  lemma GrownClean(pool: seq<nat>, r: Insertion)
    requires r.Split? && Clean(r, 0, pool) && NoRepeats(pool) && 0 !in pool
    requires Entries(r.left) > 0 && Entries(r.right) > 0 && r.pool != []
    ensures forall b :: Uses(GrowRoot(r).tree, b) <= 1
                     && (b == 0 || b in r.pool[1..] ==> Uses(GrowRoot(r).tree, b) == 0)
  {
    SuffixParts(r.pool, pool);
    forall b ensures Uses(GrowRoot(r).tree, b) <= 1
                  && (b == 0 || b in r.pool[1..] ==> Uses(GrowRoot(r).tree, b) == 0)
    {
      assert UsesOf(r, b) <= 1 && (b in r.pool ==> UsesOf(r, b) == 0);
      GrowRootCount(r, Only(b));
    }
  }

  /** The grown root: both halves are in place, and the new blocks are not used below them. */
  lemma RootGrows(before: Disk, disk: Disk, pool: seq<nat>, next: Node, r: Insertion)
    requires r.Split? && Clean(r, 0, pool) && FromPool(before, disk, pool, r.pool)
    requires Entries(r.left) > 0 && Entries(r.right) > 0 && r.pool != []
    requires Outcome(disk, 0, next, Some(Pointer(FirstKey(r.right), r.blk)), r)
    requires NoRepeats(pool) && forall b :: b in pool ==> b != 0 && b !in before
    ensures Ready(disk[r.pool[0] := next.(max := BLOCK_ENTRIES)], r.pool[1..], 0, GrowRoot(r).tree)
  {
    SuffixParts(r.pool, pool);
    SuffixParts(r.pool[1..], pool);
    assert r.pool[0] in r.pool && r.pool[0] !in disk && UsesOf(r, r.pool[0]) == 0;
    GrownHolds(disk, next, r);
    GrownClean(pool, r);
  }

  lemma FirstOfKeys(t: Tree)
    requires Entries(t) > 0
    ensures Keys(NodeOf(t)) != [] && Keys(NodeOf(t))[0] == FirstKey(t)
  {
  }

  // ---- conservation of the inode's block count ----

  /** Data blocks mapped by a list of extents. */
  ghost function DataBlocks(list: seq<Extent>): nat {
    if list == [] then 0 else ActualLen(list[0]) + DataBlocks(list[1..])
  }

  /** What `i_blocks` stands for: data blocks and external node blocks, in sectors. */
  ghost function Sectors(t: Tree): nat {
    SECTORS * (DataBlocks(Flatten(t)) + Count(t, Every))
  }

  lemma {:induction false} DataConcat(a: seq<Extent>, b: seq<Extent>)
    ensures DataBlocks(a + b) == DataBlocks(a) + DataBlocks(b)
  {
    if a == [] {
      assert a + b == b;
    } else {
      DataConcat(a[1..], b);
      assert (a + b)[1..] == a[1..] + b;
    }
  }

  lemma InsertAddsOne(list: seq<Extent>, logical: nat, physical: nat)
    ensures DataBlocks(Insert(list, logical, physical)) == DataBlocks(list) + 1
  {
    var c := UpperBound(list, logical);
    if c > 0 && CanGrow(list[c - 1], logical, physical) {
      var g := Grow(list[c - 1]);
      assert list == list[..c - 1] + ([list[c - 1]] + list[c..]);
      assert list[c - 1 := g] == list[..c - 1] + ([g] + list[c..]);
      DataConcat(list[..c - 1], [list[c - 1]] + list[c..]);
      DataConcat(list[..c - 1], [g] + list[c..]);
      assert ActualLen(g) == ActualLen(list[c - 1]) + 1;
    } else {
      var e := Single(logical, physical);
      assert list == list[..c] + list[c..];
      DataConcat(list[..c], list[c..]);
      DataConcat(list[..c] + [e], list[c..]);
      DataConcat(list[..c], [e]);
      assert DataBlocks([e]) == ActualLen(e) + DataBlocks([]);
    }
  }

  lemma {:induction false} TakenEvery(before: seq<nat>, after: seq<nat>)
    requires Suffix(after, before)
    ensures Taken(before, after, Every) == |before| - |after|
  {
    if |after| < |before| {
      TakenEvery(before[1..], after);
    }
  }

  /** The sectors added to `i_blocks` are exactly the sectors the file gained. */
  lemma InsertSectors(t: Tree, logical: nat, physical: nat, pool: seq<nat>)
    requires WellFormed(t) && |pool| > Depth(t) + 1 && Insertable(t, logical)
    ensures var o := InsertRoot(t, logical, physical, pool);
      o.Rooted? && Sectors(o.tree) == Sectors(t) + SECTORS * (1 + |pool| - |o.pool|)
  {
    hide InsertRoot, InsertAt, InsertInto, InsertLeaf, Count, Flatten, WellFormed, Sorted;
    InsertRootRefines(t, logical, physical, pool);
    RootAdmissible(t, logical, pool);
    InsertAddsOne(Flatten(t), logical, physical);
    var r := InsertAt(t, logical, physical, pool);
    RootResult(t, logical, physical, pool, r);
    InsertNodes(t, logical, physical, pool, r);
    if r.Split? {
      GrowRootCount(r, Every);
    }
  }

  lemma InsertNodes(t: Tree, logical: nat, physical: nat, pool: seq<nat>, r: Insertion)
    requires Admissible(t, logical, pool) && r == InsertAt(t, logical, physical, pool)
    ensures |r.pool| <= |pool| && CountOf(r, Every) == Count(t, Every) + |pool| - |r.pool|
  {
    if t.Leaf? {
      LeafCount(t, logical, physical, pool, Every);
    } else {
      InsertCount(t, logical, physical, pool, Every);
    }
    TakenEvery(pool, r.pool);
  }

  lemma GrowRootCount(r: Insertion, b: Which)
    requires r.Split? && Entries(r.left) > 0 && Entries(r.right) > 0 && r.pool != []
    ensures Count(GrowRoot(r).tree, b) == CountOf(r, b) + One(r.pool[0], b)
  {
    var kids := GrowRoot(r).tree.kids;
    assert CountKids(kids, b) == One(kids[0].blk, b) + Count(kids[0].child, b) + CountKids(kids[1..], b);
    assert kids[1..] == [kids[1]];
    assert CountKids([kids[1]], b) == One(kids[1].blk, b) + Count(kids[1].child, b) + CountKids([], b);
  }
}
