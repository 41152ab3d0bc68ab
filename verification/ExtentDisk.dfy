/** The extent tree as it lies on disk: a root node in the inode and one node per block.

  `ExtentInode` carries the in-place algorithms of the kernel.  A disk layout
  represents a tree when every index record leads to a block that holds the
  node of the corresponding subtree; the blocks a tree owns form a multiset.
 */
module ExtentDisk {
  import opened ExtentList
  import opened ExtentTree

  /** An index record: first logical block and block number of the child node. */
  datatype Pointer = Pointer(key: nat, blk: nat)

  datatype Node =
    | LeafNode(max: nat, extents: seq<Extent>)
    | IndexNode(max: nat, depth: nat, records: seq<Pointer>)

  type Disk = map<nat, Node>

  function NodeOf(t: Tree): Node {
    if t.Leaf? then LeafNode(t.max, t.extents)
    else IndexNode(t.max, t.depth, Records(t.kids))
  }

  function Records(kids: seq<Kid>): (r: seq<Pointer>)
    ensures |r| == |kids|
    ensures forall i :: 0 <= i < |r| ==> r[i] == Pointer(kids[i].key, kids[i].blk)
  {
    seq(|kids|, i requires 0 <= i < |kids| => Pointer(kids[i].key, kids[i].blk))
  }

  /** Every record of `t` leads to the node of its subtree. */
  ghost predicate Holds(disk: Disk, t: Tree)
    decreases t
  {
    t.Index? ==> forall i :: 0 <= i < |t.kids| ==>
      && t.kids[i].blk in disk
      && disk[t.kids[i].blk] == NodeOf(t.kids[i].child)
      && Holds(disk, t.kids[i].child)
  }

  // ---- ownership ----

  /** Which blocks to count: all of them, or one block number. */
  datatype Which = Every | Only(blk: nat)

  /** Number of node blocks below the root of `t` that `b` selects. */
  ghost function Count(t: Tree, b: Which): nat
    decreases t, 0
  {
    if t.Leaf? then 0 else CountKids(t.kids, b)
  }

  ghost function CountKids(kids: seq<Kid>, b: Which): nat
    decreases kids, 1
  {
    if kids == [] then 0
    else
      assert kids[0] decreases to kids[0].child;
      One(kids[0].blk, b) + Count(kids[0].child, b) + CountKids(kids[1..], b)
  }

  function One(x: nat, b: Which): nat {
    if b == Every || b == Only(x) then 1 else 0
  }

  lemma {:induction false} CountConcat(a: seq<Kid>, c: seq<Kid>, b: Which)
    ensures CountKids(a + c, b) == CountKids(a, b) + CountKids(c, b)
  {
    if a == [] {
      assert a + c == c;
    } else {
      CountConcat(a[1..], c, b);
      assert (a + c)[1..] == a[1..] + c;
    }
  }

  lemma CountAround(kids: seq<Kid>, a: nat, b: Which)
    requires a < |kids|
    ensures CountKids(kids, b)
         == CountKids(kids[..a], b) + One(kids[a].blk, b) + Count(kids[a].child, b) + CountKids(kids[a + 1..], b)
  {
    assert kids == kids[..a] + kids[a..];
    CountConcat(kids[..a], kids[a..], b);
    assert kids[a..][0] == kids[a] && kids[a..][1..] == kids[a + 1..];
  }

  ghost function CountOf(r: Insertion, b: Which): nat {
    if r.Done? then Count(r.tree, b) else Count(r.left, b) + One(r.blk, b) + Count(r.right, b)
  }

  /** How many of the selected blocks were taken from the front of the pool to get from `before` to `after`. */
  ghost function Taken(before: seq<nat>, after: seq<nat>, b: Which): nat {
    if |before| <= |after| then 0 else One(before[0], b) + Taken(before[1..], after, b)
  }

  /** `after` is what is left of `before` once some blocks were taken from its front. */
  predicate Suffix(after: seq<nat>, before: seq<nat>) {
    |after| <= |before| && after == before[|before| - |after|..]
  }

  lemma {:induction false} TakeOne(before: seq<nat>, now: seq<nat>, b: Which)
    requires Suffix(now, before) && now != []
    ensures Suffix(now[1..], before) && Taken(before, now[1..], b) == Taken(before, now, b) + One(now[0], b)
  {
    if |before| == |now| {
      assert Taken(before, now[1..], b) == One(before[0], b) + Taken(before[1..], now[1..], b);
    } else {
      TakeOne(before[1..], now, b);
    }
  }

  lemma SplicedCount(kids: seq<Kid>, a: nat, r: Insertion, b: Which)
    requires a < |kids| && r.Split? && Entries(r.right) > 0
    ensures CountKids(Spliced(kids, a, r), b)
         == CountKids(kids[..a], b) + One(kids[a].blk, b) + CountOf(r, b) + CountKids(kids[a + 1..], b)
  {
    var l, n := kids[a].(child := r.left), Kid(FirstKey(r.right), r.blk, r.right);
    CountConcat(kids[..a] + [l, n], kids[a + 1..], b);
    CountConcat(kids[..a], [l, n], b);
    assert CountKids([l, n], b) == One(l.blk, b) + Count(l.child, b) + CountKids([n], b) by {
      assert [l, n][1..] == [n];
    }
    assert CountKids([n], b) == One(n.blk, b) + Count(n.child, b) + CountKids([], b);
  }

  lemma RebuildCount(t: Tree, a: nat, r: Insertion, pool: seq<nat>, b: Which)
    requires t.Index? && a < |t.kids| && (r.Split? ==> Entries(r.right) > 0 && r.pool != [])
    requires Suffix(r.pool, pool) && CountOf(r, b) == Count(t.kids[a].child, b) + Taken(pool, r.pool, b)
    ensures var o := Rebuild(t, a, r);
      Suffix(o.pool, pool) && CountOf(o, b) == Count(t, b) + Taken(pool, o.pool, b)
  {
    CountAround(t.kids, a, b);
    if r.Done? {
      var all := t.kids[a := t.kids[a].(child := r.tree)];
      CountAround(all, a, b);
      assert all[..a] == t.kids[..a] && all[a + 1..] == t.kids[a + 1..];
    } else {
      var all := Spliced(t.kids, a, r);
      SplicedCount(t.kids, a, r, b);
      if |t.kids| >= t.max {
        var mid := |all| / 2;
        assert all == all[..mid] + all[mid..];
        CountConcat(all[..mid], all[mid..], b);
        TakeOne(pool, r.pool, b);
      }
    }
  }

  lemma LeafCount(t: Tree, logical: nat, physical: nat, pool: seq<nat>, b: Which)
    requires t.Leaf? && pool != [] && |t.extents| <= t.max && (|t.extents| == t.max ==> t.max > 0)
    ensures var r := InsertLeaf(t, logical, physical, pool);
      Suffix(r.pool, pool) && CountOf(r, b) == Count(t, b) + Taken(pool, r.pool, b)
  {
    TakeOne(pool, pool, b);
  }

  /** Conservation: an insertion keeps every node block and adds exactly the blocks it took. */
  lemma {:induction false} InsertCount(t: Tree, logical: nat, physical: nat, pool: seq<nat>, b: Which)
    requires Shape(t, BLOCK_ENTRIES) && FirstKey(t) <= logical && EnoughBelow(t, pool)
    ensures var r := InsertInto(t, logical, physical, pool);
      Suffix(r.pool, pool) && CountOf(r, b) == Count(t, b) + Taken(pool, r.pool, b)
    decreases t
  {
    if t.Leaf? {
      LeafCount(t, logical, physical, pool, b);
    } else {
      var a := KidBound(t.kids, logical) - 1;
      InsertCount(t.kids[a].child, logical, physical, pool, b);
      RebuildCount(t, a, InsertInto(t.kids[a].child, logical, physical, pool), pool, b);
    }
  }

  /** How often block `b` occurs below the root of `t`. */
  ghost function Uses(t: Tree, b: nat): nat {
    Count(t, Only(b))
  }

  ghost function UsesOf(r: Insertion, b: nat): nat {
    CountOf(r, Only(b))
  }

  // ---- framing ----

  lemma UsesKid(t: Tree, i: nat, b: nat)
    requires t.Index? && i < |t.kids|
    ensures Uses(t, t.kids[i].blk) >= 1 && Uses(t, b) >= Uses(t.kids[i].child, b)
  {
    CountAround(t.kids, i, Only(t.kids[i].blk));
    CountAround(t.kids, i, Only(b));
  }

  lemma UsesTwoKids(t: Tree, i: nat, j: nat, b: nat)
    requires t.Index? && i < j < |t.kids|
    ensures Uses(t, b) >= One(t.kids[i].blk, Only(b)) + Uses(t.kids[i].child, b)
                        + One(t.kids[j].blk, Only(b)) + Uses(t.kids[j].child, b)
  {
    CountAround(t.kids, i, Only(b));
    CountAround(t.kids[i + 1..], j - i - 1, Only(b));
  }

  /** A layout keeps representing a tree while the tree's own blocks stay as they are. */
  lemma {:induction false} HoldsFrame(before: Disk, after: Disk, t: Tree)
    requires Holds(before, t)
    requires forall b :: b in before && Uses(t, b) > 0 ==> b in after && after[b] == before[b]
    ensures Holds(after, t)
    decreases t
  {
    if t.Index? {
      forall i | 0 <= i < |t.kids|
        ensures t.kids[i].blk in after && after[t.kids[i].blk] == NodeOf(t.kids[i].child)
        ensures Holds(after, t.kids[i].child)
      {
        UsesKid(t, i, 0);
        forall b | b in before && Uses(t.kids[i].child, b) > 0 ensures b in after && after[b] == before[b] {
          UsesKid(t, i, b);
        }
        HoldsFrame(before, after, t.kids[i].child);
      }
    }
  }

  ghost predicate Distinct(t: Tree) {
    forall b :: Uses(t, b) <= 1
  }

  /** The layout represents the outcome of an insertion whose node sits in block `home`. */
  ghost predicate HoldsResult(disk: Disk, home: nat, r: Insertion) {
    if r.Done? then home in disk && disk[home] == NodeOf(r.tree) && Holds(disk, r.tree)
    else
      && home in disk && disk[home] == NodeOf(r.left) && Holds(disk, r.left)
      && r.blk in disk && disk[r.blk] == NodeOf(r.right) && Holds(disk, r.right)
  }

  ghost predicate HoldsKids(disk: Disk, kids: seq<Kid>) {
    forall i :: 0 <= i < |kids| ==> HoldsKid(disk, kids[i])
  }

  ghost predicate HoldsKid(disk: Disk, k: Kid) {
    k.blk in disk && disk[k.blk] == NodeOf(k.child) && Holds(disk, k.child)
  }

  /** Only the subtree under record `a` may have changed. */
  ghost predicate OnlyBelow(before: Disk, after: Disk, k: Kid) {
    forall b :: b in before && b != k.blk && Uses(k.child, b) == 0 ==> b in after && after[b] == before[b]
  }

  lemma SiblingHolds(before: Disk, after: Disk, t: Tree, a: nat, i: nat)
    requires t.Index? && Holds(before, t) && Distinct(t) && a < |t.kids| && i < |t.kids| && i != a
    requires OnlyBelow(before, after, t.kids[a])
    ensures HoldsKid(after, t.kids[i])
  {
    var k := t.kids[i];
    forall b
      ensures One(k.blk, Only(b)) + Uses(k.child, b) > 0 ==> b != t.kids[a].blk && Uses(t.kids[a].child, b) == 0
    {
      UsesTwoKids(t, if i < a then i else a, if i < a then a else i, b);
    }
    assert One(k.blk, Only(k.blk)) == 1;
    HoldsFrame(before, after, k.child);
  }

  /** Records of the rebuilt node lead to the right nodes again. */
  lemma RebuildHolds(before: Disk, after: Disk, t: Tree, a: nat, r: Insertion)
    requires t.Index? && Holds(before, t) && Distinct(t) && a < |t.kids|
    requires r.Split? ==> Entries(r.right) > 0 && r.pool != []
    requires OnlyBelow(before, after, t.kids[a]) && HoldsResult(after, t.kids[a].blk, r)
    ensures var o := Rebuild(t, a, r);
      if o.Done? then Holds(after, o.tree) else Holds(after, o.left) && Holds(after, o.right)
  {
    forall i | 0 <= i < |t.kids| && i != a ensures HoldsKid(after, t.kids[i]) {
      SiblingHolds(before, after, t, a, i);
    }
    if r.Done? {
      assert HoldsKids(after, t.kids[a := t.kids[a].(child := r.tree)]);
    } else {
      var all := Spliced(t.kids, a, r);
      assert HoldsKid(after, t.kids[a].(child := r.left));
      assert HoldsKid(after, Kid(FirstKey(r.right), r.blk, r.right));
      assert HoldsKids(after, all);
      var mid := |all| / 2;
      assert HoldsKids(after, all[..mid]) && HoldsKids(after, all[mid..]);
    }
  }
}
