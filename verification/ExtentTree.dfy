/** The recursive B+-tree insertion of the extent code, on trees.

  `InsertInto` is the insertion below one node and `InsertRoot` adds the growth
  of the in-inode root.  Both are related to `ExtentList.Insert` on the list of
  extents that the leaves spell out.
 */
module ExtentTree {
  import opened ExtentList

  /** Entries that fit in a 4096-byte block and in the 60 bytes of the inode. */
  const BLOCK_ENTRIES: nat := 340
  const ROOT_ENTRIES: nat := 4

  /** `max` is the capacity written in the node's header. */
  datatype Tree =
    | Leaf(max: nat, extents: seq<Extent>)
    | Index(max: nat, depth: nat, kids: seq<Kid>)

  /** An index record and the subtree stored in block `blk`. */
  datatype Kid = Kid(key: nat, blk: nat, child: Tree)

  /** Outcome below one node: rewritten in place, or split with a new right sibling in `blk`. */
  datatype Insertion =
    | Done(tree: Tree, pool: seq<nat>)
    | Split(left: Tree, blk: nat, right: Tree, pool: seq<nat>)

  function Depth(t: Tree): nat {
    if t.Leaf? then 0 else t.depth
  }

  function Entries(t: Tree): nat {
    if t.Leaf? then |t.extents| else |t.kids|
  }

  function FirstKey(t: Tree): nat
    requires Entries(t) > 0
  {
    if t.Leaf? then t.extents[0].block else t.kids[0].key
  }

  /** The extents of the leaves, left to right. */
  function Flatten(t: Tree): seq<Extent>
    decreases t, 0
  {
    if t.Leaf? then t.extents else FlattenKids(t.kids)
  }

  function FlattenKids(kids: seq<Kid>): seq<Extent>
    decreases kids, 1
  {
    if kids == [] then []
    else
      assert kids[0] decreases to kids[0].child;
      Flatten(kids[0].child) + FlattenKids(kids[1..])
  }

  /** Uniform depth, no empty node below the root, capacities respected, and index keys equal to first keys. */
  ghost predicate Shape(t: Tree, capacity: nat)
    decreases t
  {
    && 1 <= Entries(t) <= t.max <= capacity
    && (t.Index? ==>
          && t.depth >= 1
          && forall i :: 0 <= i < |t.kids| ==>
               && Depth(t.kids[i].child) == t.depth - 1
               && Shape(t.kids[i].child, BLOCK_ENTRIES)
               && t.kids[i].key == FirstKey(t.kids[i].child))
  }

  /** A whole extent tree: an empty leaf, or a shaped root, over one sorted list of extents. */
  ghost predicate WellFormed(t: Tree) {
    && t.max == ROOT_ENTRIES
    && (Shape(t, ROOT_ENTRIES) || t == Leaf(ROOT_ENTRIES, []))
    && Sorted(Flatten(t))
  }

  /** Number of leading index records whose key is at or before `logical`. */
  function KidBound(kids: seq<Kid>, logical: nat): (n: nat)
    ensures n <= |kids|
    ensures forall i :: 0 <= i < n ==> kids[i].key <= logical
    ensures n < |kids| ==> kids[n].key > logical
  {
    if kids == [] || kids[0].key > logical then 0 else 1 + KidBound(kids[1..], logical)
  }

  /** Lookup as the kernel walks it: the last index record at or before the block, or the first record. */
  function Find(t: Tree, logical: nat): nat
    decreases t
  {
    if t.Leaf? then Lookup(t.extents, logical)
    else
      var n := KidBound(t.kids, logical);
      var i := if n == 0 then 0 else n - 1;
      if i < |t.kids| then Find(t.kids[i].child, logical) else 0
  }

  /** Full node plus one entry, cut in the middle; the right half goes to a new block. */
  function SplitLeaf(max: nat, all: seq<Extent>, pool: seq<nat>): Insertion
    requires pool != []
  {
    var mid := |all| / 2;
    Split(Leaf(max, all[..mid]), pool[0], Leaf(BLOCK_ENTRIES, all[mid..]), pool[1..])
  }

  function SplitIndex(max: nat, depth: nat, all: seq<Kid>, pool: seq<nat>): Insertion
    requires pool != []
  {
    var mid := |all| / 2;
    Split(Index(max, depth, all[..mid]), pool[0], Index(BLOCK_ENTRIES, depth, all[mid..]), pool[1..])
  }

  function InsertLeaf(t: Tree, logical: nat, physical: nat, pool: seq<nat>): Insertion
    requires t.Leaf? && pool != [] && |t.extents| <= t.max && (|t.extents| == t.max ==> t.max > 0)
  {
    var es := t.extents;
    var c := UpperBound(es, logical);
    if c > 0 && CanGrow(es[c - 1], logical, physical) then
      Done(t.(extents := es[c - 1 := Grow(es[c - 1])]), pool)
    else if |es| < t.max then
      Done(t.(extents := es[..c] + [Single(logical, physical)] + es[c..]), pool)
    else
      // The split path inserts after the first record even when there is no predecessor.
      var q := if c == 0 then 1 else c;
      SplitLeaf(t.max, es[..q] + [Single(logical, physical)] + es[q..], pool)
  }

  /** Pool entries needed below a node: one per level that may split. */
  ghost predicate EnoughBelow(t: Tree, pool: seq<nat>) {
    |pool| > Depth(t)
  }

  /** Records of an index node after child `a` split. */
  function Spliced(kids: seq<Kid>, a: nat, r: Insertion): seq<Kid>
    requires a < |kids| && r.Split? && Entries(r.right) > 0
  {
    kids[..a] + [kids[a].(child := r.left), Kid(FirstKey(r.right), r.blk, r.right)] + kids[a + 1..]
  }

  /** Put the outcome of child `a` back into its parent's records. */
  function Rebuild(t: Tree, a: nat, r: Insertion): Insertion
    requires t.Index? && a < |t.kids| && (r.Split? ==> Entries(r.right) > 0 && r.pool != [])
  {
    var k := t.kids[a];
    if r.Done? then
      Done(t.(kids := t.kids[a := k.(child := r.tree)]), r.pool)
    else
      var all := Spliced(t.kids, a, r);
      if |t.kids| < t.max then Done(t.(kids := all), r.pool)
      else SplitIndex(t.max, t.depth, all, r.pool)
  }

  /** Insertion below a node whose first key is not above the new block. */
  function InsertInto(t: Tree, logical: nat, physical: nat, pool: seq<nat>): (r: Insertion)
    requires Shape(t, BLOCK_ENTRIES) && FirstKey(t) <= logical && EnoughBelow(t, pool)
    ensures r.Split? ==> Entries(r.left) > 0 && Entries(r.right) > 0
    ensures r.Done? ==> |r.pool| + Depth(t) >= |pool|
    ensures r.Split? ==> |r.pool| + Depth(t) + 1 >= |pool|
    decreases t
  {
    if t.Leaf? then InsertLeaf(t, logical, physical, pool)
    else
      var a := KidBound(t.kids, logical) - 1;
      Rebuild(t, a, InsertInto(t.kids[a].child, logical, physical, pool))
  }

  // ---- flattening ----

  lemma {:induction false} FlattenConcat(a: seq<Kid>, b: seq<Kid>)
    ensures FlattenKids(a + b) == FlattenKids(a) + FlattenKids(b)
  {
    hide Flatten, FlattenKids;
    if a == [] {
      FlattenNone();
      assert a + b == b;
    } else {
      FlattenConcat(a[1..], b);
      FlattenCons(a);
      FlattenCons(a + b);
      assert (a + b)[1..] == a[1..] + b;
      Assoc(Flatten(a[0].child), FlattenKids(a[1..]), FlattenKids(b));
    }
  }

  lemma FlattenNone()
    ensures FlattenKids([]) == []
  {
  }

  lemma FlattenCons(kids: seq<Kid>)
    requires kids != []
    ensures FlattenKids(kids) == Flatten(kids[0].child) + FlattenKids(kids[1..])
  {
  }

  lemma Assoc<T>(a: seq<T>, b: seq<T>, c: seq<T>)
    ensures a + (b + c) == (a + b) + c
  {
  }

  lemma FlattenOne(k: Kid)
    ensures FlattenKids([k]) == Flatten(k.child)
  {
    assert FlattenKids([k]) == Flatten(k.child) + FlattenKids([]);
  }

  /** The list of an index node around its child `a`. */
  lemma FlattenAround(kids: seq<Kid>, a: nat)
    requires a < |kids|
    ensures FlattenKids(kids) == FlattenKids(kids[..a]) + Flatten(kids[a].child) + FlattenKids(kids[a + 1..])
  {
    var pre, post := kids[..a], kids[a..];
    assert kids == pre + post;
    FlattenConcat(pre, post);
    assert post[0] == kids[a] && post[1..] == kids[a + 1..];
    Assoc(FlattenKids(pre), Flatten(kids[a].child), FlattenKids(kids[a + 1..]));
  }

  /** A shaped subtree is not empty and starts with its first key. */
  lemma {:induction false} FlattenFirst(t: Tree, capacity: nat)
    requires Shape(t, capacity)
    ensures Flatten(t) != [] && Flatten(t)[0].block == FirstKey(t)
    decreases t
  {
    if t.Index? {
      FlattenFirst(t.kids[0].child, BLOCK_ENTRIES);
    }
  }

  lemma SortedSplit(pre: seq<Extent>, mid: seq<Extent>, post: seq<Extent>)
    requires Sorted(pre + mid + post)
    ensures Sorted(pre) && Sorted(mid) && Sorted(post)
    ensures mid != [] ==> forall i :: 0 <= i < |pre| ==> pre[i].block + ActualLen(pre[i]) <= mid[0].block
    ensures post != [] ==> forall i :: 0 <= i < |mid| ==> mid[i].block + ActualLen(mid[i]) <= post[0].block
  {
    var all := pre + mid + post;
    assert forall i :: 0 <= i < |pre| ==> pre[i] == all[i];
    assert forall i :: 0 <= i < |mid| ==> mid[i] == all[|pre| + i];
    assert forall i :: 0 <= i < |post| ==> post[i] == all[|pre| + |mid| + i];
  }

  /** Everything in the child that the walk picks lies between its key and the next key. */
  lemma ChildWindow(t: Tree, capacity: nat, a: nat)
    requires t.Index? && Shape(t, capacity) && Sorted(Flatten(t)) && a < |t.kids|
    ensures var child := t.kids[a].child;
      && Sorted(Flatten(child)) && Flatten(child) != [] && Flatten(child)[0].block == t.kids[a].key
      && (a + 1 < |t.kids| ==>
            var post := FlattenKids(t.kids[a + 1..]);
            post != [] && post[0].block == t.kids[a + 1].key)
      && (a + 1 == |t.kids| ==> FlattenKids(t.kids[a + 1..]) == [])
  {
    FlattenAround(t.kids, a);
    SortedSplit(FlattenKids(t.kids[..a]), Flatten(t.kids[a].child), FlattenKids(t.kids[a + 1..]));
    FlattenFirst(t.kids[a].child, BLOCK_ENTRIES);
    if a + 1 < |t.kids| {
      FlattenFirst(t.kids[a + 1].child, BLOCK_ENTRIES);
    }
  }

  // ---- lookup ----

  lemma {:induction false} LookupMiss(list: seq<Extent>, rest: seq<Extent>, logical: nat)
    requires forall i :: 0 <= i < |list| ==> !Covers(list[i], logical)
    ensures Lookup(list + rest, logical) == Lookup(rest, logical)
  {
    if list == [] {
      assert list + rest == rest;
    } else {
      assert (list + rest)[1..] == list[1..] + rest;
      LookupMiss(list[1..], rest, logical);
    }
  }

  lemma {:induction false} LookupHead(list: seq<Extent>, rest: seq<Extent>, logical: nat)
    requires forall i :: 0 <= i < |rest| ==> !Covers(rest[i], logical)
    ensures Lookup(list + rest, logical) == Lookup(list, logical)
  {
    if list == [] {
      assert list + rest == rest;
      LookupMiss(rest, [], logical);
      assert rest + [] == rest;
    } else {
      assert (list + rest)[1..] == list[1..] + rest;
      LookupHead(list[1..], rest, logical);
    }
  }

  lemma LookupWindow(pre: seq<Extent>, mid: seq<Extent>, post: seq<Extent>, logical: nat)
    requires Sorted(pre + mid + post)
    requires pre != [] ==> mid != [] && mid[0].block <= logical
    requires post != [] ==> logical < post[0].block
    ensures Lookup(pre + mid + post, logical) == Lookup(mid, logical)
  {
    SortedSplit(pre, mid, post);
    assert pre + mid + post == pre + (mid + post);
    LookupMiss(pre, mid + post, logical);
    LookupHead(mid, post, logical);
  }

  /** The walk over the tree finds exactly what the flat list holds. */
  lemma {:induction false} FindIsLookup(t: Tree, capacity: nat, logical: nat)
    requires Shape(t, capacity) && Sorted(Flatten(t))
    ensures Find(t, logical) == Lookup(Flatten(t), logical)
    decreases t
  {
    if t.Index? {
      var n := KidBound(t.kids, logical);
      var a := if n == 0 then 0 else n - 1;
      ChildWindow(t, capacity, a);
      FlattenAround(t.kids, a);
      FindIsLookup(t.kids[a].child, BLOCK_ENTRIES, logical);
      SortedSplit(FlattenKids(t.kids[..a]), Flatten(t.kids[a].child), FlattenKids(t.kids[a + 1..]));
      LookupWindow(FlattenKids(t.kids[..a]), Flatten(t.kids[a].child), FlattenKids(t.kids[a + 1..]), logical);
    }
  }

  // ---- insertion ----

  function Spelled(r: Insertion): seq<Extent> {
    if r.Done? then Flatten(r.tree) else Flatten(r.left) + Flatten(r.right)
  }

  ghost predicate ShapedResult(t: Tree, capacity: nat, r: Insertion)
    requires Entries(t) > 0
  {
    if r.Done? then
      Shape(r.tree, capacity) && Depth(r.tree) == Depth(t) && FirstKey(r.tree) == FirstKey(t)
    else
      && Shape(r.left, capacity) && Depth(r.left) == Depth(t) && FirstKey(r.left) == FirstKey(t)
      && Shape(r.right, BLOCK_ENTRIES) && Depth(r.right) == Depth(t)
  }

  lemma BoundWindow(pre: seq<Extent>, mid: seq<Extent>, post: seq<Extent>, logical: nat)
    requires Sorted(pre + mid + post)
    requires mid != [] && mid[0].block <= logical
    requires post != [] ==> logical < post[0].block
    ensures 0 < UpperBound(mid, logical)
    ensures UpperBound(pre + mid + post, logical) == |pre| + UpperBound(mid, logical)
  {
    SortedSplit(pre, mid, post);
    var all := pre + mid + post;
    var c := UpperBound(mid, logical);
    forall i | 0 <= i < |pre| + c ensures all[i].block <= logical {
      if i < |pre| {
        assert all[i] == pre[i];
      } else {
        assert all[i] == mid[i - |pre|];
      }
    }
    UpperBoundUnique(all, logical, |pre| + c);
  }

  lemma PutWindow<T>(pre: seq<T>, mid: seq<T>, post: seq<T>, k: nat, x: T)
    requires k < |mid|
    ensures (pre + mid + post)[|pre| + k := x] == pre + mid[k := x] + post
  {
  }

  lemma AddWindow<T>(pre: seq<T>, mid: seq<T>, post: seq<T>, k: nat, x: T)
    requires k <= |mid|
    ensures var all := pre + mid + post;
      all[..|pre| + k] + [x] + all[|pre| + k..] == pre + (mid[..k] + [x] + mid[k..]) + post
  {
  }

  lemma InsertAfterWindow(pre: seq<Extent>, mid: seq<Extent>, post: seq<Extent>, c: nat, logical: nat, physical: nat)
    requires 0 < c <= |mid|
    ensures InsertAfter(pre + mid + post, |pre| + c, logical, physical)
         == pre + InsertAfter(mid, c, logical, physical) + post
  {
    assert (pre + mid + post)[|pre| + c - 1] == mid[c - 1];
    if CanGrow(mid[c - 1], logical, physical) {
      PutWindow(pre, mid, post, c - 1, Grow(mid[c - 1]));
    } else {
      AddWindow(pre, mid, post, c, Single(logical, physical));
    }
  }

  /** Inserting into a list only rewrites the part that holds the predecessor. */
  lemma InsertWindow(pre: seq<Extent>, mid: seq<Extent>, post: seq<Extent>, logical: nat, physical: nat)
    requires Sorted(pre + mid + post)
    requires mid != [] && mid[0].block <= logical
    requires post != [] ==> logical < post[0].block
    ensures Insert(pre + mid + post, logical, physical) == pre + Insert(mid, logical, physical) + post
  {
    hide Sorted, UpperBound, InsertAfter;
    BoundWindow(pre, mid, post, logical);
    InsertAfterWindow(pre, mid, post, UpperBound(mid, logical), logical, physical);
  }

  lemma InsertLeafRefines(t: Tree, capacity: nat, logical: nat, physical: nat, pool: seq<nat>)
    requires t.Leaf? && Shape(t, capacity) && capacity <= BLOCK_ENTRIES && FirstKey(t) <= logical && pool != []
    ensures var r := InsertLeaf(t, logical, physical, pool);
      ShapedResult(t, capacity, r) && Spelled(r) == Insert(t.extents, logical, physical)
  {
    var es := t.extents;
    var c := UpperBound(es, logical);
    var all := es[..c] + [Single(logical, physical)] + es[c..];
    assert all[..|all| / 2] + all[|all| / 2..] == all;
  }

  lemma SplicedFlatten(kids: seq<Kid>, a: nat, r: Insertion)
    requires a < |kids| && r.Split? && Entries(r.right) > 0
    ensures FlattenKids(Spliced(kids, a, r))
         == FlattenKids(kids[..a]) + (Flatten(r.left) + Flatten(r.right)) + FlattenKids(kids[a + 1..])
  {
    var l, n := kids[a].(child := r.left), Kid(FirstKey(r.right), r.blk, r.right);
    FlattenConcat(kids[..a] + [l, n], kids[a + 1..]);
    FlattenConcat(kids[..a], [l, n]);
    assert [l, n] == [l] + [n];
    FlattenConcat([l], [n]);
    FlattenOne(l);
    FlattenOne(n);
  }

  /** Each record of an index node points to a shaped subtree of the right depth that starts at its key. */
  ghost predicate GoodKids(kids: seq<Kid>, depth: nat) {
    forall i :: 0 <= i < |kids| ==> GoodKid(kids[i], depth)
  }

  ghost predicate GoodKid(k: Kid, depth: nat) {
    && Depth(k.child) == depth - 1
    && Shape(k.child, BLOCK_ENTRIES)
    && k.key == FirstKey(k.child)
  }

  lemma RebuildShape(t: Tree, capacity: nat, a: nat, r: Insertion)
    requires t.Index? && Shape(t, capacity) && capacity <= BLOCK_ENTRIES && a < |t.kids|
    requires Entries(t.kids[a].child) > 0 && ShapedResult(t.kids[a].child, BLOCK_ENTRIES, r)
    requires r.Split? ==> r.pool != []
    ensures ShapedResult(t, capacity, Rebuild(t, a, r))
  {
    assert GoodKids(t.kids, t.depth);
    if r.Done? {
      assert GoodKids(t.kids[a := t.kids[a].(child := r.tree)], t.depth);
    } else {
      var all := Spliced(t.kids, a, r);
      assert GoodKid(t.kids[a].(child := r.left), t.depth) && GoodKid(Kid(FirstKey(r.right), r.blk, r.right), t.depth);
      assert GoodKids(all, t.depth);
      var mid := |all| / 2;
      assert GoodKids(all[..mid], t.depth) && GoodKids(all[mid..], t.depth);
    }
  }

  lemma RebuildSpelled(t: Tree, a: nat, r: Insertion)
    requires t.Index? && a < |t.kids| && (r.Split? ==> Entries(r.right) > 0 && r.pool != [])
    ensures Spelled(Rebuild(t, a, r)) == FlattenKids(t.kids[..a]) + Spelled(r) + FlattenKids(t.kids[a + 1..])
  {
    if r.Done? {
      var all := t.kids[a := t.kids[a].(child := r.tree)];
      FlattenAround(all, a);
      assert all[..a] == t.kids[..a] && all[a + 1..] == t.kids[a + 1..];
    } else {
      var all := Spliced(t.kids, a, r);
      SplicedFlatten(t.kids, a, r);
      var mid := |all| / 2;
      FlattenConcat(all[..mid], all[mid..]);
      assert all[..mid] + all[mid..] == all;
    }
  }

  /** Insertion below a node spells out the list insertion, and keeps the shape on both halves. */
  lemma {:induction false} InsertIntoRefines(t: Tree, capacity: nat, logical: nat, physical: nat, pool: seq<nat>)
    requires Shape(t, capacity) && capacity <= BLOCK_ENTRIES && Sorted(Flatten(t))
    requires FirstKey(t) <= logical && EnoughBelow(t, pool)
    ensures Shape(t, BLOCK_ENTRIES)
    ensures var r := InsertInto(t, logical, physical, pool);
      ShapedResult(t, capacity, r) && Spelled(r) == Insert(Flatten(t), logical, physical)
    decreases t
  {
    if t.Leaf? {
      InsertLeafRefines(t, capacity, logical, physical, pool);
    } else {
      var a := KidBound(t.kids, logical) - 1;
      ChildWindow(t, capacity, a);
      FlattenAround(t.kids, a);
      InsertIntoRefines(t.kids[a].child, BLOCK_ENTRIES, logical, physical, pool);
      var r := InsertInto(t.kids[a].child, logical, physical, pool);
      RebuildShape(t, capacity, a, r);
      RebuildSpelled(t, a, r);
      InsertWindow(FlattenKids(t.kids[..a]), Flatten(t.kids[a].child), FlattenKids(t.kids[a + 1..]),
                   logical, physical);
    }
  }

  // ---- the root in the inode ----

  datatype Rooted = Panic | Rooted(tree: Tree, pool: seq<nat>)

  /** The two records of a root that has just grown by one level. */
  function GrowRoot(r: Insertion): Rooted
    requires r.Split? && Entries(r.left) > 0 && Entries(r.right) > 0 && r.pool != []
  {
    Rooted(Index(ROOT_ENTRIES, Depth(r.left) + 1,
                 [Kid(FirstKey(r.left), r.pool[0], r.left.(max := BLOCK_ENTRIES)),
                  Kid(FirstKey(r.right), r.blk, r.right)]),
           r.pool[1..])
  }

  /** Insertion into a whole tree; an index root without a predecessor makes the kernel panic. */
  function InsertRoot(t: Tree, logical: nat, physical: nat, pool: seq<nat>): Rooted
    requires WellFormed(t) && |pool| > Depth(t) + 1
  {
    if t.Index? && logical < t.kids[0].key then Panic
    else
      var r := if t.Leaf? then InsertLeaf(t, logical, physical, pool) else InsertInto(t, logical, physical, pool);
      if r.Done? then Rooted(r.tree, r.pool) else GrowRoot(r)
  }

  /** What a caller can check beforehand for the insertion to leave a well-formed tree. */
  predicate Insertable(t: Tree, logical: nat) {
    && logical + 1 < U32
    && (Entries(t) == 0 || FirstKey(t) <= logical || (t.Leaf? && |t.extents| < t.max))
  }

  lemma FindInTree(t: Tree, logical: nat)
    requires WellFormed(t)
    ensures Find(t, logical) == Lookup(Flatten(t), logical)
  {
    if Entries(t) > 0 {
      FindIsLookup(t, ROOT_ENTRIES, logical);
    }
  }

  lemma GrowRootRefines(t: Tree, r: Insertion)
    requires Entries(t) > 0 && ShapedResult(t, ROOT_ENTRIES, r) && r.Split? && r.pool != []
    ensures var o := GrowRoot(r).tree;
      Shape(o, ROOT_ENTRIES) && o.max == ROOT_ENTRIES && Flatten(o) == Spelled(r)
  {
    var o := GrowRoot(r).tree;
    assert o.kids == [o.kids[0]] + [o.kids[1]];
    FlattenConcat([o.kids[0]], [o.kids[1]]);
    FlattenOne(o.kids[0]);
    FlattenOne(o.kids[1]);
    assert Shape(o.kids[0].child, BLOCK_ENTRIES);
  }

  /** With a predecessor, or a root leaf with room, the new tree spells out the list insertion. */
  lemma InsertRootRefines(t: Tree, logical: nat, physical: nat, pool: seq<nat>)
    requires WellFormed(t) && |pool| > Depth(t) + 1
    requires Entries(t) == 0 || FirstKey(t) <= logical || (t.Leaf? && |t.extents| < t.max)
    ensures var o := InsertRoot(t, logical, physical, pool);
      && o.Rooted? && Flatten(o.tree) == Insert(Flatten(t), logical, physical)
      && Shape(o.tree, ROOT_ENTRIES) && o.tree.max == ROOT_ENTRIES
  {
    if Entries(t) > 0 && FirstKey(t) <= logical {
      InsertIntoRefines(t, ROOT_ENTRIES, logical, physical, pool);
      var r := InsertInto(t, logical, physical, pool);
      if r.Split? {
        GrowRootRefines(t, r);
      }
    }
  }

  /** A root leaf that is full and starts above the new block: its halves as the kernel writes them. */
  lemma NoPredecessorSplit(t: Tree, logical: nat, physical: nat, pool: seq<nat>)
    requires WellFormed(t) && |pool| > Depth(t) + 1
    requires t.Leaf? && |t.extents| == t.max && logical < FirstKey(t)
    ensures var o := InsertRoot(t, logical, physical, pool); var es := t.extents;
      && o.Rooted?
      && o.tree.kids[0].child.extents == [es[0], Single(logical, physical)]
      && o.tree.kids[1].child.extents == [es[1], es[2], es[3]]
      && o.tree.kids[0].key == es[0].block && o.tree.kids[1].key == es[1].block
      && Flatten(o.tree) == [es[0], Single(logical, physical), es[1], es[2], es[3]]
  {
    var es := t.extents;
    var all := es[..1] + [Single(logical, physical)] + es[1..];
    assert all == [es[0], Single(logical, physical), es[1], es[2], es[3]];
    assert all[..2] == [es[0], Single(logical, physical)] && all[2..] == [es[1], es[2], es[3]];
    var o := InsertRoot(t, logical, physical, pool).tree;
    assert o.kids == [o.kids[0]] + [o.kids[1]];
    FlattenConcat([o.kids[0]], [o.kids[1]]);
    FlattenOne(o.kids[0]);
    FlattenOne(o.kids[1]);
  }

  /** Inserting an unmapped block leaves a well-formed tree exactly when the block is insertable. */
  lemma InsertRootExact(t: Tree, logical: nat, physical: nat, pool: seq<nat>)
    requires WellFormed(t) && |pool| > Depth(t) + 1
    requires logical < U32 && 1 <= physical < U32 && Find(t, logical) == 0
    ensures var o := InsertRoot(t, logical, physical, pool);
      o.Rooted? && WellFormed(o.tree) <==> Insertable(t, logical)
  {
    FindInTree(t, logical);
    if Insertable(t, logical) {
      InsertRootRefines(t, logical, physical, pool);
      InsertKeepsSorted(Flatten(t), logical, physical);
    } else if logical + 1 == U32 {
      if Entries(t) > 0 {
        FlattenFirst(t, ROOT_ENTRIES);
        assert ValidExtent(Flatten(t)[0]);
      }
      InsertRootRefines(t, logical, physical, pool);
      LastBlockUnsorted(Flatten(t), logical, physical);
    } else if t.Leaf? {
      NoPredecessorSplit(t, logical, physical, pool);
      var list := Flatten(InsertRoot(t, logical, physical, pool).tree);
      assert list[0].block > list[1].block;
    }
  }

  /** The last 32-bit block number cannot be stored: the end of its extent wraps to zero. */
  lemma LastBlockUnsorted(list: seq<Extent>, logical: nat, physical: nat)
    requires Sorted(list) && logical + 1 == U32
    ensures !Sorted(Insert(list, logical, physical))
  {
    var c := UpperBound(list, logical);
    var after := Insert(list, logical, physical);
    if c > 0 && CanGrow(list[c - 1], logical, physical) {
      assert !ValidExtent(after[c - 1]);
    } else {
      assert !ValidExtent(after[c]);
    }
  }

  /** Main theorem: the block map after an insertion is the old map with one binding added. */
  lemma InsertRootMap(t: Tree, logical: nat, physical: nat, pool: seq<nat>, x: nat)
    requires WellFormed(t) && |pool| > Depth(t) + 1
    requires logical < U32 && 1 <= physical < U32 && Find(t, logical) == 0
    requires Insertable(t, logical)
    ensures var o := InsertRoot(t, logical, physical, pool);
      && o.Rooted? && WellFormed(o.tree)
      && Find(o.tree, x) == if x == logical then physical else Find(t, x)
  {
    InsertRootExact(t, logical, physical, pool);
    InsertRootRefines(t, logical, physical, pool);
    FindInTree(t, logical);
    FindInTree(t, x);
    FindInTree(InsertRoot(t, logical, physical, pool).tree, x);
    InsertLookup(Flatten(t), logical, physical, x);
  }

  /** A root leaf filled from block 10 upwards, then written at block 5: the kernel leaves it unsorted. */
  lemma UnsortedExample()
    ensures var t := Leaf(ROOT_ENTRIES,
                          [Extent(10, 1, 100), Extent(20, 1, 101), Extent(30, 1, 102), Extent(40, 1, 103)]);
      && WellFormed(t) && Find(t, 5) == 0
      && var o := InsertRoot(t, 5, 104, [200, 201]);
         o.Rooted? && !WellFormed(o.tree) && o.tree.kids[0].child.extents == [Extent(10, 1, 100), Extent(5, 1, 104)]
  {
    var t := Leaf(ROOT_ENTRIES, [Extent(10, 1, 100), Extent(20, 1, 101), Extent(30, 1, 102), Extent(40, 1, 103)]);
    LookupHole(t.extents, 5);
    InsertRootExact(t, 5, 104, [200, 201]);
    NoPredecessorSplit(t, 5, 104, [200, 201]);
  }
}
