/** The names a list of directory records binds. */
module DirNames {
  import opened Common
  import opened DirRecords

  type Name = seq<Byte>

  datatype Target = Target(inode: nat, kind: Byte)

  predicate Live(e: Entry) {
    e.inode != 0
  }

  predicate Names(e: Entry, n: Name) {
    Live(e) && e.name == n
  }

  /** How many live records have the name. */
  function Count(es: seq<Entry>, n: Name): nat {
    if es == [] then 0 else (if Names(es[0], n) then 1 else 0) + Count(es[1..], n)
  }

  /** The first live record with the name. */
  function Find(es: seq<Entry>, n: Name): Option<Target> {
    if es == [] then None
    else if Names(es[0], n) then Some(Target(es[0].inode, es[0].kind))
    else Find(es[1..], n)
  }

  /** Live names are unique. */
  ghost predicate Unique(es: seq<Entry>) {
    forall n :: Count(es, n) <= 1
  }

  lemma {:induction false} CountAppend(xs: seq<Entry>, ys: seq<Entry>, n: Name)
    ensures Count(xs + ys, n) == Count(xs, n) + Count(ys, n)
  {
    if xs == [] {
      assert xs + ys == ys;
    } else {
      assert (xs + ys)[1..] == xs[1..] + ys;
      CountAppend(xs[1..], ys, n);
    }
  }

  lemma {:induction false} FindAppend(xs: seq<Entry>, ys: seq<Entry>, n: Name)
    ensures Find(xs + ys, n) == if Find(xs, n).Some? then Find(xs, n) else Find(ys, n)
  {
    if xs == [] {
      assert xs + ys == ys;
    } else {
      assert (xs + ys)[1..] == xs[1..] + ys;
      FindAppend(xs[1..], ys, n);
    }
  }

  lemma {:induction false} CountFind(es: seq<Entry>, n: Name)
    ensures Count(es, n) == 0 <==> Find(es, n) == None
  {
    if es != [] {
      CountFind(es[1..], n);
    }
  }

  /** Replacing a run of records changes counts and lookups by that run alone. */
  lemma Splice(xs: seq<Entry>, mid: seq<Entry>, mid': seq<Entry>, ys: seq<Entry>, n: Name)
    ensures Count(xs + mid' + ys, n) == Count(xs + mid + ys, n) - Count(mid, n) + Count(mid', n)
    ensures Count(xs + mid' + ys, n) >= 0
    ensures Find(mid', n) == Find(mid, n) ==> Find(xs + mid' + ys, n) == Find(xs + mid + ys, n)
    ensures Count(xs + mid + ys, n) == Count(mid, n) ==> Find(xs + mid' + ys, n) == Find(mid', n)
  {
    CountAppend(xs + mid, ys, n);
    CountAppend(xs, mid, n);
    CountAppend(xs + mid', ys, n);
    CountAppend(xs, mid', n);
    FindAppend(xs + mid, ys, n);
    FindAppend(xs, mid, n);
    FindAppend(xs + mid', ys, n);
    FindAppend(xs, mid', n);
    CountFind(xs, n);
    CountFind(ys, n);
  }

  /** In a list without repeated names, a name in the middle is nowhere else. */
  lemma SpliceUnique(xs: seq<Entry>, mid: seq<Entry>, ys: seq<Entry>, n: Name)
    requires Unique(xs + mid + ys)
    ensures Count(mid, n) <= 1 && (Count(mid, n) == 1 ==> Count(xs + mid + ys, n) == 1)
  {
    CountAppend(xs + mid, ys, n);
    CountAppend(xs, mid, n);
    assert Count(xs + mid + ys, n) <= 1;
  }

  lemma OneEntry(e: Entry, n: Name)
    ensures Count([e], n) == if Names(e, n) then 1 else 0
    ensures Find([e], n) == if Names(e, n) then Some(Target(e.inode, e.kind)) else None
  {
    assert [e][1..] == [];
  }

  lemma TwoEntries(p: Entry, e: Entry, n: Name)
    ensures Count([p, e], n) == Count([p], n) + Count([e], n)
    ensures Find([p, e], n) == if Names(p, n) then Find([p], n) else Find([e], n)
  {
    assert [p, e] == [p] + [e];
    CountAppend([p], [e], n);
    FindAppend([p], [e], n);
    OneEntry(p, n);
  }

  // ---- what each edit does to the names ----

  /** The names of `es'` are those of `es` except that `n` is bound to `t`. */
  ghost predicate Binds(es: seq<Entry>, es': seq<Entry>, n: Name, t: Option<Target>) {
    Unique(es') && forall m :: Find(es', m) == if m == n then t else Find(es, m)
  }

  /** A record of its own for a name that was not there. */
  lemma Inserted(xs: seq<Entry>, e: Entry, ys: seq<Entry>, added: Entry, short: nat)
    requires Unique(xs + [e] + ys) && Count(xs + [e] + ys, added.name) == 0 && Live(added)
    ensures Binds(xs + [e] + ys, xs + [e.(recLen := short), added] + ys, added.name,
                  Some(Target(added.inode, added.kind)))
  {
    var mid, mid' := [e], [e.(recLen := short), added];
    forall m ensures Count(xs + mid' + ys, m) <= 1 && Find(xs + mid' + ys, m)
      == if m == added.name then Some(Target(added.inode, added.kind)) else Find(xs + mid + ys, m)
    {
      Splice(xs, mid, mid', ys, m);
      TwoEntries(e.(recLen := short), added, m);
      OneEntry(e, m);
      OneEntry(e.(recLen := short), m);
      OneEntry(added, m);
      CountAppend(xs + mid, ys, m);
      CountAppend(xs, mid, m);
    }
  }

  /** The record goes, and its bytes become slack of the record before it. */
  lemma Merged(xs: seq<Entry>, p: Entry, e: Entry, ys: seq<Entry>, n: nat)
    requires Unique(xs + [p, e] + ys) && Live(e)
    ensures Binds(xs + [p, e] + ys, xs + [p.(recLen := n)] + ys, e.name, None)
  {
    var mid, mid' := [p, e], [p.(recLen := n)];
    forall m
      ensures Count(xs + mid' + ys, m) <= 1
      ensures Find(xs + mid' + ys, m) == if m == e.name then None else Find(xs + mid + ys, m)
    {
      Splice(xs, mid, mid', ys, m);
      TwoEntries(p, e, m);
      OneEntry(p, m);
      OneEntry(e, m);
      OneEntry(p.(recLen := n), m);
      SpliceUnique(xs, mid, ys, m);
      assert Count(xs + mid + ys, m) <= 1;
      CountFind(xs + mid' + ys, m);
    }
  }

  /** A record at the front of a block stays as a free one. */
  lemma Freed(xs: seq<Entry>, e: Entry, ys: seq<Entry>)
    requires Unique(xs + [e] + ys) && Live(e)
    ensures Binds(xs + [e] + ys, xs + [e.(inode := 0)] + ys, e.name, None)
  {
    var mid, mid' := [e], [e.(inode := 0)];
    forall m
      ensures Count(xs + mid' + ys, m) <= 1
      ensures Find(xs + mid' + ys, m) == if m == e.name then None else Find(xs + mid + ys, m)
    {
      Splice(xs, mid, mid', ys, m);
      OneEntry(e, m);
      OneEntry(e.(inode := 0), m);
      assert Count(xs + mid + ys, m) <= 1;
      CountFind(xs + mid' + ys, m);
    }
  }

  lemma Replaced(xs: seq<Entry>, e: Entry, ys: seq<Entry>, inode: nat, kind: Byte)
    requires Unique(xs + [e] + ys) && Live(e) && inode != 0
    ensures Binds(xs + [e] + ys, xs + [e.(inode := inode, kind := kind)] + ys, e.name, Some(Target(inode, kind)))
  {
    var mid, mid' := [e], [e.(inode := inode, kind := kind)];
    forall m ensures Count(xs + mid' + ys, m) <= 1 && Find(xs + mid' + ys, m)
      == if m == e.name then Some(Target(inode, kind)) else Find(xs + mid + ys, m)
    {
      Splice(xs, mid, mid', ys, m);
      OneEntry(e, m);
      OneEntry(e.(inode := inode, kind := kind), m);
      SpliceUnique(xs, mid, ys, m);
    }
  }
}
