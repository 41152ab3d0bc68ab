/** Directory entries of a file system, and the link counts kept beside them. */
module LinkCount {
  import opened Common

  type Ino = int

  /** A file name; the two dot names are told apart from all others. */
  datatype Name = Dot | DotDot | Plain(text: string) {
    function Length(): nat {
      match this
      case Dot => 1
      case DotDot => 2
      case Plain(text) => |text|
    }
  }

  /** A directory and a name in it. */
  type Slot = (Ino, Name)

  /** The entries of all live directories. */
  type Entries = map<Slot, Ino>

  const MAX_NAME: nat := 255
  const LINK_LIMIT: nat := 65535

  predicate IsDot(n: Name) {
    !n.Plain?
  }

  function Get(es: Entries, e: Slot): Option<Ino> {
    if e in es then Some(es[e]) else None
  }

  function Put(es: Entries, e: Slot, t: Option<Ino>): Entries {
    if t.Some? then es[e := t.value] else es - {e}
  }

  /** The entries that name an inode. */
  ghost function Refs(es: Entries, i: Ino): set<Slot> {
    set e | e in es && es[e] == i
  }

  ghost function Count(es: Entries, i: Ino): nat {
    |Refs(es, i)|
  }

  function One(b: bool): nat {
    if b then 1 else 0
  }

  lemma RefsPut(es: Entries, e: Slot, t: Option<Ino>, i: Ino)
    ensures Refs(Put(es, e, t), i) == (Refs(es, i) - {e}) + (if t == Some(i) then {e} else {})
    ensures e in Refs(es, i) <==> Get(es, e) == Some(i)
  {
  }

  lemma Swapped(s: set<Slot>, e: Slot, kept: bool)
    ensures |(s - {e}) + (if kept then {e} else {})| == |s| - One(e in s) + One(kept)
  {
    assert |s - {e}| == |s| - One(e in s);
    if !kept {
      assert (s - {e}) + {} == s - {e};
    }
  }

  /** Changing one entry changes the count of what it named and of what it names now. */
  lemma PutCounts(es: Entries, e: Slot, t: Option<Ino>, i: Ino)
    ensures Count(Put(es, e, t), i) == Count(es, i) - One(Get(es, e) == Some(i)) + One(t == Some(i))
  {
    RefsPut(es, e, t, i);
    hide Refs, Put, Get;
    Swapped(Refs(es, i), e, t == Some(i));
  }

  // ---- the invariant ----

  /** The two dot entries of a directory. */
  ghost predicate HasDots(es: Entries, d: Ino) {
    Get(es, (d, Dot)) == Some(d) && Get(es, (d, DotDot)).Some?
  }

  /** An entry with an ordinary name. */
  predicate Ordinary(es: Entries, e: Slot) {
    e in es && !IsDot(e.1)
  }

  /** Entries belong to live directories; dot-dot of a child directory is the directory that names it, and no
      directory has two names. */
  ghost predicate Tree(dirs: set<Ino>, es: Entries) {
    && (forall e :: e in es ==> e.0 in dirs)
    && (forall d :: d in dirs ==> HasDots(es, d))
    && (forall e :: Ordinary(es, e) && es[e] in dirs ==> Get(es, (es[e], DotDot)) == Some(e.0))
    && (forall e, f :: Ordinary(es, e) && Ordinary(es, f) && es[e] == es[f] && es[e] in dirs ==> e == f)
  }

  /** Dot-dot of the directory is a live one that names it, or itself as in a root. */
  ghost predicate Placed(dirs: set<Ino>, es: Entries, d: Ino) {
    var p := Get(es, (d, DotDot));
    p.Some? && p.value in dirs && (p.value == d || exists n :: Names(es, p.value, n, d))
  }

  predicate Names(es: Entries, d: Ino, n: Name, i: Ino) {
    n.Plain? && Get(es, (d, n)) == Some(i)
  }

  ghost predicate AllPlaced(dirs: set<Ino>, es: Entries) {
    forall d :: d in dirs ==> Placed(dirs, es, d)
  }

  /** Every link count is the number of entries that name the inode. */
  ghost predicate Counted(es: Entries, links: map<Ino, int>) {
    && (forall e :: e in es ==> es[e] in links)
    && (forall i :: i in links ==> links[i] == Count(es, i) <= LINK_LIMIT)
  }

  ghost predicate Good(dirs: set<Ino>, es: Entries, links: map<Ino, int>) {
    Tree(dirs, es) && AllPlaced(dirs, es) && Counted(es, links)
  }

  /** The inode number is not in use: nothing was ever counted for it, or its count went down to zero. */
  predicate Free(links: map<Ino, int>, i: Ino) {
    i in links ==> links[i] == 0
  }

  /** The directory has only its dot entries. */
  predicate Bare(es: Entries, d: Ino) {
    forall e :: e in es && e.0 == d ==> IsDot(e.1)
  }

  class Namespace {
    var dirs: set<Ino>
    var es: Entries
    var links: map<Ino, int>
    /** Directories whose index the kernel cannot rewrite. */
    const frozen: set<Ino>

    ghost predicate Valid()
      reads this
    {
      Good(dirs, es, links)
    }

    constructor (root: Ino, frozen: set<Ino>)
      ensures Valid() && dirs == {root} && links == map[root := 2] && this.frozen == frozen
    {
      this.frozen, dirs, es, links := frozen, {root}, map[(root, Dot) := root, (root, DotDot) := root], map[root := 2];
      new;
      assert Refs(es, root) == {(root, Dot), (root, DotDot)};
    }

    /** Add an entry; `room` says whether the directory has slack for it or can grow. */
    method AddEntry(d: Ino, n: Name, i: Ino, room: bool) returns (ok: bool)
      modifies this`es
      ensures ok <==> d !in frozen && n.Length() <= MAX_NAME && (d, n) !in old(es) && room
      ensures es == if ok then Put(old(es), (d, n), Some(i)) else old(es)
    {
      ok := d !in frozen && n.Length() <= MAX_NAME && (d, n) !in es && room;
      if ok {
        es := es[(d, n) := i];
      }
    }

    /** Remove an entry; `shielded` says whether it stands behind a record that looks like a checksum record. */
    method RemoveEntry(d: Ino, n: Name, shielded: bool) returns (was: Option<Ino>)
      modifies this`es
      ensures was == if d in frozen || shielded then None else Get(old(es), (d, n))
      ensures es == if was.Some? then Put(old(es), (d, n), None) else old(es)
    {
      if d in frozen || shielded || (d, n) !in es {
        return None;
      }
      was := Some(es[(d, n)]);
      es := es - {(d, n)};
    }

    method ReplaceEntry(d: Ino, n: Name, i: Ino) returns (was: Option<Ino>)
      modifies this`es
      ensures was == if d in frozen then None else Get(old(es), (d, n))
      ensures es == if was.Some? then Put(old(es), (d, n), Some(i)) else old(es)
    {
      if d in frozen || (d, n) !in es {
        return None;
      }
      was := Some(es[(d, n)]);
      es := es[(d, n) := i];
    }

    /** Adjust a 16-bit count by one, saturating at its ends. */
    method AdjustLink(i: Ino, up: bool)
      requires i in links
      modifies this`links
      ensures links == old(links)[i := if up then Up(old(links)[i]) else Down(old(links)[i])]
    {
      links := links[i := if up then Up(links[i]) else Down(links[i])];
    }

    /** Create a file named `n`; `ino` is the inode the allocator handed out, or none. */
    method CreateFile(d: Ino, n: Name, ino: Option<Ino>, room: bool) returns (ok: bool)
      requires Valid() && (ino.Some? ==> Free(links, ino.value) && ino.value !in dirs)
      modifies this
      ensures Valid() && dirs == old(dirs)
      ensures ok <==> d in dirs && (d, n) !in old(es) && ino.Some? && d !in frozen && n.Length() <= MAX_NAME && room
      ensures ok ==> es == old(es)[(d, n) := ino.value] && links == old(links)[ino.value := 1]
      ensures !ok ==> es == old(es) && links == old(links)
    {
      if d !in dirs || (d, n) in es || ino.None? {
        return false;
      }
      var was := links;
      links := links[ino.value := 1];
      ok := AddEntry(d, n, ino.value, room);
      if !ok {
        links := was;
      } else {
        FileCreated(old(dirs), old(es), old(links), d, n, ino.value);
      }
    }

    /** Create a directory named `n`; the inode and the first block come from the allocator. */
    method CreateDir(d: Ino, n: Name, ino: Option<Ino>, block: bool, room: bool) returns (ok: bool)
      requires Valid() && (ino.Some? ==> Free(links, ino.value) && ino.value !in dirs)
      modifies this
      ensures ok <==>
        d in old(dirs) && (d, n) !in old(es) && ino.Some? && block && d !in frozen && n.Length() <= MAX_NAME && room
      ensures ok ==> d in old(links) && (Valid() <==> old(links)[d] < LINK_LIMIT)
      ensures ok ==> dirs == old(dirs) + {ino.value} && es == NewDir(old(es), d, n, ino.value)
      ensures !ok ==> dirs == old(dirs) && es == old(es) && links == old(links)
    {
      hide Tree, AllPlaced, Counted, NewDir;
      if d !in dirs || (d, n) in es || ino.None? || !block {
        return false;
      }
      var i := ino.value;
      ok := AddEntry(d, n, i, room);
      if ok {
        DirCreated(dirs, old(es), links, d, n, i);
        NewDirIs(old(es), d, n, i);
        es := Put(Put(es, (i, Dot), Some(i)), (i, DotDot), Some(d));
        dirs := dirs + {i};
        links := links[i := 2][d := (links[d] + 1) % (LINK_LIMIT + 1)];
      }
    }

    /** Remove a file's name. */
    method Unlink(d: Ino, n: Name, shielded: bool) returns (ok: bool)
      requires Valid() && d in dirs
      modifies this
      ensures Valid() && dirs == old(dirs)
      ensures ok <==> (d, n) in old(es) && old(es)[(d, n)] !in dirs && d !in frozen && !shielded
      ensures es == if ok then old(es) - {(d, n)} else old(es)
      ensures !ok ==> links == old(links)
    {
      hide Tree, AllPlaced, Counted;
      if (d, n) !in es || es[(d, n)] in dirs {
        return false;
      }
      var i := es[(d, n)];
      var was := RemoveEntry(d, n, shielded);
      if was.None? {
        return false;
      }
      NameRemoved(dirs, old(es), links, d, n);
      AdjustLink(i, false);
      return true;
    }

    /** Remove an empty directory. Nothing keeps the name from being a dot name: then that entry alone goes, and the
        directory loses three links while it still has its name. */
    method Rmdir(d: Ino, n: Name, shielded: bool) returns (ok: bool)
      requires Valid() && d in dirs
      modifies this
      ensures ok <==>
        && (d, n) in old(es) && old(es)[(d, n)] in old(dirs) && Bare(old(es), old(es)[(d, n)])
        && d !in frozen && !shielded
      ensures ok ==> dirs == DirsWithout(old(dirs), old(es), d, n) && es == EntriesWithout(old(es), d, n)
      ensures ok ==> (Valid() <==> n.Plain?) && (Counted(es, links) <==> n.Plain?)
      ensures !ok ==> dirs == old(dirs) && es == old(es) && links == old(links)
    {
      hide Tree, AllPlaced, Counted, WithoutDots, Bare;
      if (d, n) !in es || es[(d, n)] !in dirs || !Bare(es, es[(d, n)]) {
        return false;
      }
      var i := es[(d, n)];
      var was := RemoveEntry(d, n, shielded);
      if was.None? {
        return false;
      }
      DirRemoved(dirs, old(es), links, d, n);
      AdjustLink(i, false);
      AdjustLink(i, false);
      AdjustLink(d, false);
      assert links == LinksWithout(old(links), i, d);
      if n.Plain? {
        dirs, es := dirs - {i}, WithoutDots(es, i);
      }
      return true;
    }

    /** The three entry changes of a rename, undone in reverse when one of them fails. */
    method MoveEntries(d: Ino, from: Name, nd: Ino, to: Name, source: Ino, target: Option<Ino>, cross: bool, room: bool,
                       shielded: bool) returns (ok: bool)
      requires Get(es, (d, from)) == Some(source) && Get(es, (nd, to)) == target && (d, from) != (nd, to)
      requires from.Plain? && to.Plain? && to.Length() <= MAX_NAME
      requires cross ==> Get(es, (source, DotDot)) == Some(d)
      modifies this`es
      ensures ok <==>
        d !in frozen && nd !in frozen && (cross ==> source !in frozen) && (target.None? ==> room) && !shielded
      ensures es == if ok then Moved(old(es), d, from, nd, to, source, cross) else old(es)
    {
      if cross {
        var was := ReplaceEntry(source, DotDot, nd);
        if was.None? {
          return false;
        }
      }
      ghost var one := es;
      if target.Some? {
        var was := ReplaceEntry(nd, to, source);
        ok := was.Some?;
      } else {
        ok := AddEntry(nd, to, source, room);
      }
      if ok {
        var was := RemoveEntry(d, from, shielded);
        ok := was.Some?;
        if !ok {
          if target.Some? {
            was := ReplaceEntry(nd, to, target.value);
          } else {
            was := RemoveEntry(nd, to, false);
          }
          assert es == one;
        }
      }
      if !ok && cross {
        var was := ReplaceEntry(source, DotDot, d);
        assert es == old(es);
      }
    }

    /** The count changes of a rename, in the order the kernel makes them. */
    method MoveLinks(d: Ino, nd: Ino, sourceIsDir: bool, target: Option<Ino>, targetIsDir: bool)
      requires d in links && nd in links && (target.Some? ==> target.value in links)
      modifies this`links
      ensures links == MovedLinks(old(links), d, nd, sourceIsDir, target, targetIsDir)
    {
      if sourceIsDir && d != nd {
        AdjustLink(d, false);
        if target.None? {
          AdjustLink(nd, true);
        }
      } else if sourceIsDir && target.Some? {
        AdjustLink(d, false);
      }
      if target.Some? {
        AdjustLink(target.value, false);
        if targetIsDir {
          AdjustLink(target.value, false);
        }
      }
    }

    /** Rename an entry, replacing a file or an empty directory if there is one. */
    method Rename(d: Ino, from: Name, nd: Ino, to: Name, noReplace: bool, room: bool, shielded: bool)
      returns (r: RenameResult)
      requires Valid()
      modifies this
      ensures r.Ok? ==> (Valid() <==> !Overflows(old(dirs), old(es), old(links), d, from, nd, to))
      ensures r.Ok? ==> MayRename(old(dirs), old(es), d, from, nd, to)
      ensures MayRename(old(dirs), old(es), d, from, nd, to) ==>
        r == RenameAnswer(old(dirs), old(es), frozen, d, from, nd, to, noReplace, room, shielded)
      ensures r.Ok? && (d, from) == (nd, to) ==> dirs == old(dirs) && es == old(es) && links == old(links)
      ensures r.Ok? && (d, from) != (nd, to) ==> Renamed(old(dirs), old(es), d, from, nd, to, dirs, es)
      ensures !r.Ok? ==> dirs == old(dirs) && es == old(es) && links == old(links)
    {
      hide Tree, AllPlaced, Counted, Moved, MovedLinks, Bare, WithoutDots, Put;
      if d !in dirs || nd !in dirs {
        return NotDir;
      }
      if !ValidName(from) || !ValidName(to) {
        return Invalid;
      }
      if (d, from) !in es {
        return NotFound;
      }
      var source, target := es[(d, from)], Get(es, (nd, to));
      if noReplace && target.Some? {
        return Exists;
      }
      if (d, from) == (nd, to) {
        return Ok;
      }
      var sourceIsDir := source in dirs;
      var targetIsDir := target.Some? && target.value in dirs;
      if target.Some? {
        if sourceIsDir && !targetIsDir {
          return NotDir;
        }
        if !sourceIsDir && targetIsDir {
          return IsDirectory;
        }
        if targetIsDir && !Bare(es, target.value) {
          return NotEmpty;
        }
      }
      var cross := sourceIsDir && d != nd;
      RenameFacts(dirs, es, links, d, from, nd, to);
      var ok := MoveEntries(d, from, nd, to, source, target, cross, room, shielded);
      if !ok {
        return Io;
      }
      MoveLinks(d, nd, sourceIsDir, target, targetIsDir);
      RenameKeeps(old(dirs), old(es), old(links), d, from, nd, to);
      if targetIsDir {
        dirs, es := dirs - {target.value}, WithoutDots(es, target.value);
      }
      return Ok;
    }
  }

  function Up(x: int): int {
    if x < LINK_LIMIT then x + 1 else x
  }

  function Down(x: int): int {
    if x > 0 then x - 1 else 0
  }

  /** An inode nothing names. */
  lemma Unnamed(es: Entries, links: map<Ino, int>, i: Ino)
    requires Counted(es, links) && Free(links, i)
    ensures Count(es, i) == 0 && forall e :: e in es ==> es[e] != i
  {
    assert i in links ==> links[i] == Count(es, i);
    assert Refs(es, i) == {};
    forall e | e in es ensures es[e] != i {
      assert e in Refs(es, es[e]);
    }
  }

  lemma FileCreated(dirs: set<Ino>, es: Entries, links: map<Ino, int>, d: Ino, n: Name, i: Ino)
    requires Good(dirs, es, links) && d in dirs && (d, n) !in es && Free(links, i) && i !in dirs
    ensures Good(dirs, es[(d, n) := i], links[i := 1])
  {
    hide Count;
    var es', links' := es[(d, n) := i], links[i := 1];
    forall j | j in links' ensures links'[j] == Count(es', j) <= LINK_LIMIT {
      PutCounts(es, (d, n), Some(i), j);
      if j == i {
        Unnamed(es, links, i);
      }
    }
    assert HasDots(es, d);
    forall c | c in dirs ensures HasDots(es', c) {
      assert HasDots(es, c);
    }
    AddedPlaced(dirs, es, (d, n), i);
  }

  /** A new entry takes no directory its place. */
  lemma AddedPlaced(dirs: set<Ino>, es: Entries, e: Slot, i: Ino)
    requires AllPlaced(dirs, es) && e !in es
    ensures AllPlaced(dirs, es[e := i])
  {
    forall c | c in dirs ensures Placed(dirs, es[e := i], c) {
      assert Placed(dirs, es, c);
      var p := es[(c, DotDot)];
      if n :| Names(es, p, n, c) {
        assert Names(es[e := i], p, n, c);
      }
    }
  }

  function NewDir(es: Entries, d: Ino, n: Name, i: Ino): Entries {
    Put(Put(Put(es, (d, n), Some(i)), (i, Dot), Some(i)), (i, DotDot), Some(d))
  }

  lemma NewDirIs(es: Entries, d: Ino, n: Name, i: Ino)
    ensures NewDir(es, d, n, i) == Put(Put(Put(es, (d, n), Some(i)), (i, Dot), Some(i)), (i, DotDot), Some(d))
  {
  }

  function WithoutDots(es: Entries, i: Ino): Entries {
    Put(Put(es, (i, Dot), None), (i, DotDot), None)
  }

  lemma LinkOf(dirs: set<Ino>, es: Entries, links: map<Ino, int>, d: Ino)
    requires Good(dirs, es, links) && d in dirs
    ensures d in links && Get(es, (d, Dot)) == Some(d)
  {
    assert HasDots(es, d);
  }

  lemma NewDirCounts(es: Entries, d: Ino, n: Name, i: Ino, j: Ino)
    requires (d, n) !in es && (i, Dot) !in es && (i, DotDot) !in es && i != d
    ensures Count(NewDir(es, d, n, i), j) == Count(es, j) + (if j == i then 2 else 0) + One(j == d)
  {
    hide Count;
    var one := Put(es, (d, n), Some(i));
    var two := Put(one, (i, Dot), Some(i));
    PutCounts(es, (d, n), Some(i), j);
    PutCounts(one, (i, Dot), Some(i), j);
    PutCounts(two, (i, DotDot), Some(d), j);
  }

  lemma DirCreated(dirs: set<Ino>, es: Entries, links: map<Ino, int>, d: Ino, n: Name, i: Ino)
    requires Good(dirs, es, links) && d in dirs && (d, n) !in es && Free(links, i) && i !in dirs
    ensures d in links
    ensures Good(dirs + {i}, NewDir(es, d, n, i), links[i := 2][d := (links[d] + 1) % (LINK_LIMIT + 1)]) <==>
      links[d] < LINK_LIMIT
  {
    hide Tree, AllPlaced, Counted, NewDir;
    LinkOf(dirs, es, links, d);
    DirCreatedPlaced(dirs, es, links, d, n, i);
    DirCreatedTree(dirs, es, links, d, n, i);
    DirCreatedCounts(dirs, es, links, d, n, i);
  }

  lemma DirCreatedTree(dirs: set<Ino>, es: Entries, links: map<Ino, int>, d: Ino, n: Name, i: Ino)
    requires Good(dirs, es, links) && d in dirs && (d, n) !in es && Free(links, i) && i !in dirs
    ensures Tree(dirs + {i}, NewDir(es, d, n, i))
  {
    hide Counted;
    var es' := NewDir(es, d, n, i);
    assert HasDots(es, d);
    forall c | c in dirs + {i} ensures HasDots(es', c) {
      if c != i {
        assert HasDots(es, c);
      }
    }
    forall e ensures Ordinary(es', e) <==> e == (d, n) || Ordinary(es, e) {
      NewDirOrdinary(dirs, es, links, d, n, i, e);
    }
    forall e | Ordinary(es, e) ensures es'[e] == es[e] != i {
      NewDirOrdinary(dirs, es, links, d, n, i, e);
    }
  }

  lemma DirCreatedPlaced(dirs: set<Ino>, es: Entries, links: map<Ino, int>, d: Ino, n: Name, i: Ino)
    requires Good(dirs, es, links) && d in dirs && (d, n) !in es && Free(links, i) && i !in dirs
    ensures AllPlaced(dirs + {i}, NewDir(es, d, n, i))
  {
    hide Counted;
    var es' := NewDir(es, d, n, i);
    assert HasDots(es, d);
    assert Names(es', d, n, i);
    forall c | c in dirs + {i} ensures Placed(dirs + {i}, es', c) {
      if c != i {
        assert Placed(dirs, es, c);
        var p := es[(c, DotDot)];
        if m :| Names(es, p, m, c) {
          assert Names(es', p, m, c);
        }
      }
    }
  }

  lemma NewDirOrdinary(dirs: set<Ino>, es: Entries, links: map<Ino, int>, d: Ino, n: Name, i: Ino, e: Slot)
    requires Good(dirs, es, links) && d in dirs && (d, n) !in es && Free(links, i) && i !in dirs
    ensures var es' := NewDir(es, d, n, i);
      && (Ordinary(es', e) <==> e == (d, n) || Ordinary(es, e))
      && (Ordinary(es, e) ==> e in es' && es'[e] == es[e] != i && e != (d, n))
      && es'[(d, n)] == i
  {
    assert HasDots(es, d);
    Unnamed(es, links, i);
  }

  lemma DirCreatedCounts(dirs: set<Ino>, es: Entries, links: map<Ino, int>, d: Ino, n: Name, i: Ino)
    requires Good(dirs, es, links) && d in dirs && (d, n) !in es && Free(links, i) && i !in dirs && d in links
    ensures Counted(NewDir(es, d, n, i), links[i := 2][d := (links[d] + 1) % (LINK_LIMIT + 1)]) <==>
      links[d] < LINK_LIMIT
  {
    hide Count;
    var es', links' := NewDir(es, d, n, i), links[i := 2][d := (links[d] + 1) % (LINK_LIMIT + 1)];
    Unnamed(es, links, i);
    forall j ensures Count(es', j) == Count(es, j) + (if j == i then 2 else 0) + One(j == d) {
      NewDirCounts(es, d, n, i, j);
    }
    assert links'[d] == Count(es', d) <==> links[d] < LINK_LIMIT;
  }

  lemma NameRemoved(dirs: set<Ino>, es: Entries, links: map<Ino, int>, d: Ino, n: Name)
    requires Good(dirs, es, links) && (d, n) in es && es[(d, n)] !in dirs
    ensures es[(d, n)] in links && n.Plain?
    ensures Good(dirs, es - {(d, n)}, links[es[(d, n)] := Down(links[es[(d, n)]])])
  {
    hide Count;
    var i := es[(d, n)];
    var es' := Put(es, (d, n), None);
    assert HasDots(es, d) && Placed(dirs, es, d);
    RemovedPlaced(dirs, es, d, n);
    forall j ensures Count(es', j) == Count(es, j) - One(j == i) {
      PutCounts(es, (d, n), None, j);
    }
    forall c | c in dirs ensures HasDots(es', c) {
      assert HasDots(es, c);
    }
    forall e | Ordinary(es', e) ensures Ordinary(es, e) {
    }
  }

  lemma RemovedPlaced(dirs: set<Ino>, es: Entries, d: Ino, n: Name)
    requires AllPlaced(dirs, es) && n.Plain? && (d, n) in es && es[(d, n)] !in dirs
    ensures AllPlaced(dirs, es - {(d, n)})
  {
    forall c | c in dirs ensures Placed(dirs, es - {(d, n)}, c) {
      assert Placed(dirs, es, c);
      var p := es[(c, DotDot)];
      if m :| Names(es, p, m, c) {
        assert Names(es - {(d, n)}, p, m, c);
      }
    }
  }

  lemma DropDirTree(dirs: set<Ino>, es: Entries, i: Ino)
    requires Tree(dirs, es) && i in dirs && Bare(es, i) && forall e :: Ordinary(es, e) ==> es[e] != i
    ensures Tree(dirs - {i}, WithoutDots(es, i))
  {
    var es' := WithoutDots(es, i);
    forall e | e in es' ensures e.0 in dirs - {i} {
      assert e in es;
    }
    forall c | c in dirs - {i} ensures HasDots(es', c) {
      assert HasDots(es, c);
    }
    forall e | Ordinary(es', e) ensures Ordinary(es, e) {
    }
  }

  lemma DropDirCounts(es: Entries, i: Ino, p: Ino, j: Ino)
    requires Get(es, (i, Dot)) == Some(i) && Get(es, (i, DotDot)) == Some(p)
    ensures Count(WithoutDots(es, i), j) == Count(es, j) - One(j == i) - One(j == p)
  {
    hide Count;
    PutCounts(es, (i, Dot), None, j);
    PutCounts(Put(es, (i, Dot), None), (i, DotDot), None, j);
  }

  lemma NameGone(dirs: set<Ino>, es: Entries, d: Ino, n: Name)
    requires Tree(dirs, es) && (d, n) in es && !IsDot(n) && es[(d, n)] in dirs
    ensures Tree(dirs, es - {(d, n)}) && forall e :: Ordinary(es - {(d, n)}, e) ==> (es - {(d, n)})[e] != es[(d, n)]
  {
    var es' := es - {(d, n)};
    assert Ordinary(es, (d, n));
    forall c | c in dirs ensures HasDots(es', c) {
      assert HasDots(es, c);
    }
    forall e | Ordinary(es', e) ensures Ordinary(es, e) && es'[e] == es[e] && e != (d, n) {
    }
  }

  /** The directories, entries and counts after the empty directory named `n` was removed from `d`. */
  function DirsWithout(dirs: set<Ino>, es: Entries, d: Ino, n: Name): set<Ino> {
    if n.Plain? && (d, n) in es then dirs - {es[(d, n)]} else dirs
  }

  function EntriesWithout(es: Entries, d: Ino, n: Name): Entries {
    if n.Plain? && (d, n) in es then WithoutDots(es - {(d, n)}, es[(d, n)]) else es - {(d, n)}
  }

  function LinksWithout(links: map<Ino, int>, i: Ino, d: Ino): map<Ino, int>
    requires i in links && d in links
  {
    var less := links[i := Down(Down(links[i]))];
    less[d := Down(less[d])]
  }

  /** Removing an empty directory keeps the counts right if and only if it is not named by a dot. */
  lemma DirRemoved(dirs: set<Ino>, es: Entries, links: map<Ino, int>, d: Ino, n: Name)
    requires Good(dirs, es, links) && (d, n) in es && es[(d, n)] in dirs && Bare(es, es[(d, n)])
    ensures es[(d, n)] in links && d in links
    ensures var es', links' := EntriesWithout(es, d, n), LinksWithout(links, es[(d, n)], d);
      (Good(DirsWithout(dirs, es, d, n), es', links') <==> n.Plain?) && (Counted(es', links') <==> n.Plain?)
  {
    var i := es[(d, n)];
    LinkOf(dirs, es, links, d);
    LinkOf(dirs, es, links, i);
    if n.Plain? {
      PlainRemoved(dirs, es, links, d, n);
    } else {
      DotRemoved(dirs, es, links, d, n);
    }
  }

  lemma PlainRemoved(dirs: set<Ino>, es: Entries, links: map<Ino, int>, d: Ino, n: Name)
    requires Good(dirs, es, links) && (d, n) in es && n.Plain? && es[(d, n)] in dirs && Bare(es, es[(d, n)])
    ensures var i := es[(d, n)];
      && i in links && d in links && i != d
      && Good(dirs - {i}, WithoutDots(es - {(d, n)}, i), links[i := Down(Down(links[i]))][d := Down(links[d])])
  {
    var i := es[(d, n)];
    assert Ordinary(es, (d, n)) && HasDots(es, i);
    hide Count, WithoutDots, Bare, AllPlaced;
    NameGone(dirs, es, d, n);
    var mid := es - {(d, n)};
    assert Bare(mid, i) by { BareLess(es, (d, n), i); }
    DropDirTree(dirs, mid, i);
    LinkOf(dirs, es, links, d);
    LinkOf(dirs, es, links, i);
    assert i != d by { NotBare(es, d, n); }
    DirRemovedCounts(dirs, es, links, d, n);
    DirRemovedPlaced(dirs, es, d, n);
  }

  lemma DirRemovedPlaced(dirs: set<Ino>, es: Entries, d: Ino, n: Name)
    requires AllPlaced(dirs, es) && (d, n) in es && n.Plain? && es[(d, n)] in dirs && Bare(es, es[(d, n)])
    ensures AllPlaced(dirs - {es[(d, n)]}, WithoutDots(es - {(d, n)}, es[(d, n)]))
  {
    var i := es[(d, n)];
    var es' := WithoutDots(es - {(d, n)}, i);
    forall c | c in dirs - {i} ensures Placed(dirs - {i}, es', c) {
      assert Placed(dirs, es, c);
      var p := es[(c, DotDot)];
      if p != c {
        var m :| Names(es, p, m, c);
        assert p != i by { assert (p, m) in es && !IsDot(m); }
        assert Names(es', p, m, c);
      }
    }
  }

  /** Every directory has at least two names: its own dot, and dot-dot or an ordinary one. */
  lemma TwoNames(dirs: set<Ino>, es: Entries, d: Ino)
    requires Tree(dirs, es) && AllPlaced(dirs, es) && d in dirs
    ensures Count(es, d) >= 2
  {
    assert HasDots(es, d) && Placed(dirs, es, d);
    var p := es[(d, DotDot)];
    if p == d {
      CountTwo(es, (d, Dot), (d, DotDot));
    } else {
      var n :| Names(es, p, n, d);
      CountTwo(es, (d, Dot), (p, n));
    }
  }

  /** Taking a dot entry away and lowering the count three times leaves the count too small. */
  lemma DotRemoved(dirs: set<Ino>, es: Entries, links: map<Ino, int>, d: Ino, n: Name)
    requires Good(dirs, es, links) && (d, n) in es && IsDot(n) && es[(d, n)] in dirs && Bare(es, es[(d, n)])
    ensures es[(d, n)] == d && d in links
    ensures !Counted(es - {(d, n)}, LinksWithout(links, d, d))
  {
    hide Bare;
    assert HasDots(es, d) && Placed(dirs, es, d);
    var p := es[(d, n)];
    if p != d {
      var m :| Names(es, p, m, d);
      assert Ordinary(es, (p, m));
      NotBare(es, p, m);
    }
    TwoNames(dirs, es, d);
    PutCounts(es, (d, n), None, d);
    assert links[d] == Count(es, d);
    assert LinksWithout(links, d, d)[d] != Count(es - {(d, n)}, d);
  }

  lemma BareLess(es: Entries, e: Slot, i: Ino)
    requires Bare(es, i)
    ensures Bare(es - {e}, i)
  {
  }

  lemma NotBare(es: Entries, d: Ino, n: Name)
    requires Ordinary(es, (d, n))
    ensures !Bare(es, d)
  {
  }

  lemma DirRemovedCounts(dirs: set<Ino>, es: Entries, links: map<Ino, int>, d: Ino, n: Name)
    requires Counted(es, links) && (d, n) in es && es[(d, n)] in links && d in links && es[(d, n)] != d && n.Plain?
    requires Get(es, (es[(d, n)], Dot)) == Some(es[(d, n)]) && Get(es, (es[(d, n)], DotDot)) == Some(d)
    ensures var i := es[(d, n)];
      Counted(WithoutDots(es - {(d, n)}, i), links[i := Down(Down(links[i]))][d := Down(links[d])])
  {
    hide Count;
    var i := es[(d, n)];
    var mid := Put(es, (d, n), None);
    var es', links' := WithoutDots(mid, i), links[i := Down(Down(links[i]))][d := Down(links[d])];
    forall j | j in links' ensures links'[j] == Count(es', j) <= LINK_LIMIT {
      PutCounts(es, (d, n), None, j);
      DropDirCounts(mid, i, d, j);
    }
  }

  // ---- rename ----

  datatype RenameResult = Ok | NotDir | Invalid | NotFound | Exists | IsDirectory | NotEmpty | Io

  predicate ValidName(n: Name) {
    n.Plain? && 0 < n.Length() <= MAX_NAME
  }

  function Moved(es: Entries, d: Ino, from: Name, nd: Ino, to: Name, source: Ino, cross: bool): Entries {
    var one := if cross then Put(es, (source, DotDot), Some(nd)) else es;
    Put(Put(one, (nd, to), Some(source)), (d, from), None)
  }

  function MovedLinks(links: map<Ino, int>, d: Ino, nd: Ino, sourceIsDir: bool, target: Option<Ino>,
                      targetIsDir: bool): map<Ino, int>
    requires d in links && nd in links && (target.Some? ==> target.value in links)
  {
    var one :=
      if sourceIsDir && d != nd then
        var less := links[d := Down(links[d])];
        if target.None? then less[nd := Up(less[nd])] else less
      else if sourceIsDir && target.Some? then links[d := Down(links[d])]
      else links;
    if target.None? then one
    else if targetIsDir then one[target.value := Down(Down(one[target.value]))]
    else one[target.value := Down(one[target.value])]
  }

  /** The source exists, and the target, if any, is of the same kind and can go. */
  ghost predicate MayRename(dirs: set<Ino>, es: Entries, d: Ino, from: Name, nd: Ino, to: Name) {
    && d in dirs && nd in dirs && ValidName(from) && ValidName(to) && (d, from) in es
    && ((d, from) != (nd, to) && (nd, to) in es ==>
      (es[(d, from)] in dirs <==> es[(nd, to)] in dirs) && (es[(nd, to)] in dirs ==> Bare(es, es[(nd, to)])))
  }

  /** The new parent gains a child directory while its count is at the limit. */
  ghost predicate Overflows(dirs: set<Ino>, es: Entries, links: map<Ino, int>, d: Ino, from: Name, nd: Ino, to: Name) {
    && (d, from) in es && es[(d, from)] in dirs && d != nd && (nd, to) !in es
    && nd in links && links[nd] >= LINK_LIMIT
  }

  /** The entry moved, its directory's dot-dot followed, and a replaced directory is gone. */
  ghost predicate Renamed(dirs: set<Ino>, es: Entries, d: Ino, from: Name, nd: Ino, to: Name, dirs': set<Ino>,
                          es': Entries)
    requires (d, from) in es
  {
    var source, target := es[(d, from)], Get(es, (nd, to));
    var mid := Moved(es, d, from, nd, to, source, source in dirs && d != nd);
    if target.Some? && target.value in dirs
    then dirs' == dirs - {target.value} && es' == WithoutDots(mid, target.value)
    else dirs' == dirs && es' == mid
  }

  /** The answer to a rename that is possible: refused if nothing may be replaced, or if a directory cannot be
      changed. */
  function RenameAnswer(dirs: set<Ino>, es: Entries, frozen: set<Ino>, d: Ino, from: Name, nd: Ino, to: Name,
                        noReplace: bool, room: bool, shielded: bool): RenameResult
    requires (d, from) in es
  {
    var source := es[(d, from)];
    if noReplace && (nd, to) in es then Exists
    else if (d, from) == (nd, to) then Ok
    else if d in frozen || nd in frozen || (source in dirs && d != nd && source in frozen) then Io
    else if shielded || ((nd, to) !in es && !room) then Io
    else Ok
  }

  lemma RenameFacts(dirs: set<Ino>, es: Entries, links: map<Ino, int>, d: Ino, from: Name, nd: Ino, to: Name)
    requires Good(dirs, es, links) && MayRename(dirs, es, d, from, nd, to) && (d, from) != (nd, to)
    ensures var source, target := es[(d, from)], Get(es, (nd, to));
      && d in links && nd in links && source in links && (target.Some? ==> target.value in links)
      && (source in dirs ==> Get(es, (source, DotDot)) == Some(d) && HasDots(es, source))
      && (target.Some? && target.value in dirs ==>
        && Get(es, (target.value, DotDot)) == Some(nd) && HasDots(es, target.value)
        && target.value != source && target.value != d && target.value != nd)
  {
    LinkOf(dirs, es, links, d);
    LinkOf(dirs, es, links, nd);
    assert Ordinary(es, (d, from));
    NotBare(es, d, from);
    if (nd, to) in es {
      assert Ordinary(es, (nd, to));
      NotBare(es, nd, to);
    }
  }

  lemma RenameKeeps(dirs: set<Ino>, es: Entries, links: map<Ino, int>, d: Ino, from: Name, nd: Ino, to: Name)
    requires Good(dirs, es, links) && MayRename(dirs, es, d, from, nd, to) && (d, from) != (nd, to)
    requires d in links && nd in links && ((nd, to) in es ==> es[(nd, to)] in links)
    ensures var source, target := es[(d, from)], Get(es, (nd, to));
      var isDir := target.Some? && target.value in dirs;
      var mid := Moved(es, d, from, nd, to, source, source in dirs && d != nd);
      var links' := MovedLinks(links, d, nd, source in dirs, target, isDir);
      var dirs', es' := if isDir then dirs - {target.value} else dirs, if isDir then WithoutDots(mid, target.value)
        else mid;
      Good(dirs', es', links') <==> !Overflows(dirs, es, links, d, from, nd, to)
  {
    hide Tree, AllPlaced, Counted, Moved, MovedLinks, Bare, WithoutDots;
    RenameFacts(dirs, es, links, d, from, nd, to);
    RenamePlaced(dirs, es, links, d, from, nd, to);
    RenameTree(dirs, es, links, d, from, nd, to);
    RenameCounted(dirs, es, links, d, from, nd, to);
  }

  lemma MovedOrdinary(es: Entries, d: Ino, from: Name, nd: Ino, to: Name, source: Ino, cross: bool, e: Slot)
    requires Get(es, (d, from)) == Some(source) && (d, from) != (nd, to) && from.Plain? && to.Plain?
    ensures var mid := Moved(es, d, from, nd, to, source, cross);
      && (Ordinary(mid, e) <==> e == (nd, to) || (Ordinary(es, e) && e != (d, from)))
      && (Ordinary(mid, e) ==> mid[e] == if e == (nd, to) then source else es[e])
      && (IsDot(e.1) ==> Get(mid, e) == if cross && e == (source, DotDot) then Some(nd) else Get(es, e))
      && (e in mid ==> e == (nd, to) || e in es || e == (source, DotDot))
  {
  }

  lemma MovedTree(dirs: set<Ino>, es: Entries, d: Ino, from: Name, nd: Ino, to: Name, source: Ino)
    requires Tree(dirs, es) && d in dirs && nd in dirs && Get(es, (d, from)) == Some(source) && (d, from) != (nd, to)
    requires from.Plain? && to.Plain?
    ensures Tree(dirs, Moved(es, d, from, nd, to, source, source in dirs && d != nd))
  {
    var cross := source in dirs && d != nd;
    var mid := Moved(es, d, from, nd, to, source, cross);
    assert Ordinary(es, (d, from));
    hide Moved;
    forall e | e in mid ensures e.0 in dirs {
      MovedOrdinary(es, d, from, nd, to, source, cross, e);
    }
    forall c | c in dirs ensures HasDots(mid, c) {
      assert HasDots(es, c);
      MovedOrdinary(es, d, from, nd, to, source, cross, (c, Dot));
      MovedOrdinary(es, d, from, nd, to, source, cross, (c, DotDot));
    }
    forall e | Ordinary(mid, e) && mid[e] in dirs ensures Get(mid, (mid[e], DotDot)) == Some(e.0) {
      MovedOrdinary(es, d, from, nd, to, source, cross, e);
      MovedOrdinary(es, d, from, nd, to, source, cross, (mid[e], DotDot));
    }
    forall e, f | Ordinary(mid, e) && Ordinary(mid, f) && mid[e] == mid[f] && mid[e] in dirs ensures e == f {
      MovedOrdinary(es, d, from, nd, to, source, cross, e);
      MovedOrdinary(es, d, from, nd, to, source, cross, f);
    }
  }

  lemma RenameTree(dirs: set<Ino>, es: Entries, links: map<Ino, int>, d: Ino, from: Name, nd: Ino, to: Name)
    requires Good(dirs, es, links) && MayRename(dirs, es, d, from, nd, to) && (d, from) != (nd, to)
    ensures var source, target := es[(d, from)], Get(es, (nd, to));
      var isDir := target.Some? && target.value in dirs;
      var mid := Moved(es, d, from, nd, to, source, source in dirs && d != nd);
      if isDir then Tree(dirs - {target.value}, WithoutDots(mid, target.value)) else Tree(dirs, mid)
  {
    var source, target := es[(d, from)], Get(es, (nd, to));
    var cross := source in dirs && d != nd;
    var mid := Moved(es, d, from, nd, to, source, cross);
    RenameFacts(dirs, es, links, d, from, nd, to);
    MovedTree(dirs, es, d, from, nd, to, source);
    if target.Some? && target.value in dirs {
      var t := target.value;
      assert Ordinary(es, (nd, to)) && Ordinary(es, (d, from));
      hide Moved;
      forall e | Ordinary(mid, e) ensures mid[e] != t && e.0 != t {
        MovedOrdinary(es, d, from, nd, to, source, cross, e);
      }
      DropDirTree(dirs, mid, t);
    }
  }

  lemma RenamePlaced(dirs: set<Ino>, es: Entries, links: map<Ino, int>, d: Ino, from: Name, nd: Ino, to: Name)
    requires Good(dirs, es, links) && MayRename(dirs, es, d, from, nd, to) && (d, from) != (nd, to)
    ensures var source, target := es[(d, from)], Get(es, (nd, to));
      var isDir := target.Some? && target.value in dirs;
      var mid := Moved(es, d, from, nd, to, source, source in dirs && d != nd);
      if isDir then AllPlaced(dirs - {target.value}, WithoutDots(mid, target.value)) else AllPlaced(dirs, mid)
  {
    hide Counted;
    var source, target := es[(d, from)], Get(es, (nd, to));
    var isDir := target.Some? && target.value in dirs;
    var mid := Moved(es, d, from, nd, to, source, source in dirs && d != nd);
    var dirs', es' := if isDir then dirs - {target.value} else dirs, if isDir then WithoutDots(mid, target.value)
      else mid;
    RenameFacts(dirs, es, links, d, from, nd, to);
    forall c | c in dirs' ensures Placed(dirs', es', c) {
      assert Placed(dirs, es, c);
      if c == source {
        assert Names(es', nd, to, c);
      } else {
        StaysPlaced(dirs, es, d, from, nd, to, c, dirs', es');
      }
    }
  }

  lemma StaysPlaced(dirs: set<Ino>, es: Entries, d: Ino, from: Name, nd: Ino, to: Name, c: Ino, dirs': set<Ino>,
                    es': Entries)
    requires MayRename(dirs, es, d, from, nd, to) && (d, from) != (nd, to)
    requires Placed(dirs, es, c) && c != es[(d, from)] && c in dirs' && Renamed(dirs, es, d, from, nd, to, dirs', es')
    ensures Placed(dirs', es', c)
  {
    var p := es[(c, DotDot)];
    assert Get(es', (c, DotDot)) == Some(p);
    if p != c {
      var m :| Names(es, p, m, c);
      assert (p, m) != (d, from) && (p, m) != (nd, to);
      assert Names(es', p, m, c);
    }
  }

  lemma MovedCounts(es: Entries, d: Ino, from: Name, nd: Ino, to: Name, source: Ino, cross: bool, j: Ino)
    requires Get(es, (d, from)) == Some(source) && (d, from) != (nd, to) && from.Plain? && to.Plain?
    requires cross ==> Get(es, (source, DotDot)) == Some(d)
    ensures Count(Moved(es, d, from, nd, to, source, cross), j)
         == Count(es, j) - One(cross && j == d) + One(cross && j == nd) - One(Get(es, (nd, to)) == Some(j))
  {
    hide Count;
    var one := if cross then Put(es, (source, DotDot), Some(nd)) else es;
    if cross {
      PutCounts(es, (source, DotDot), Some(nd), j);
    }
    PutCounts(one, (nd, to), Some(source), j);
    PutCounts(Put(one, (nd, to), Some(source)), (d, from), None, j);
  }

  /** How a rename changes the count of inode `j`. */
  function Delta(d: Ino, nd: Ino, sourceIsDir: bool, target: Option<Ino>, targetIsDir: bool, j: Ino): int {
    One(sourceIsDir && d != nd && j == nd) - One(sourceIsDir && d != nd && j == d) - One(target == Some(j))
    - (if targetIsDir then One(target == Some(j)) + One(j == nd) else 0)
  }

  lemma RenameCounts(dirs: set<Ino>, es: Entries, links: map<Ino, int>, d: Ino, from: Name, nd: Ino, to: Name, j: Ino)
    requires Good(dirs, es, links) && MayRename(dirs, es, d, from, nd, to) && (d, from) != (nd, to)
    ensures var source, target := es[(d, from)], Get(es, (nd, to));
      var isDir := target.Some? && target.value in dirs;
      var mid := Moved(es, d, from, nd, to, source, source in dirs && d != nd);
      var es' := if isDir then WithoutDots(mid, target.value) else mid;
      Count(es', j) == Count(es, j) + Delta(d, nd, source in dirs, target, isDir, j)
  {
    hide Count, Tree, AllPlaced, Counted, WithoutDots, Bare;
    var source, target := es[(d, from)], Get(es, (nd, to));
    var cross := source in dirs && d != nd;
    var mid := Moved(es, d, from, nd, to, source, cross);
    RenameFacts(dirs, es, links, d, from, nd, to);
    MovedCounts(es, d, from, nd, to, source, cross, j);
    if target.Some? && target.value in dirs {
      MovedOrdinary(es, d, from, nd, to, source, cross, (target.value, Dot));
      MovedOrdinary(es, d, from, nd, to, source, cross, (target.value, DotDot));
      DropDirCounts(mid, target.value, nd, j);
    }
  }

  /** The new counts follow the change unless the new parent's count is at its limit. */
  lemma LinksFollow(links: map<Ino, int>, d: Ino, nd: Ino, sourceIsDir: bool, target: Option<Ino>, targetIsDir: bool,
                    j: Ino)
    requires d in links && nd in links && (target.Some? ==> target.value in links) && j in links
    requires target.Some? ==> (sourceIsDir <==> targetIsDir)
    requires targetIsDir ==> target.Some? && target.value != d && target.value != nd && links[target.value] >= 2
    requires target.Some? ==> links[target.value] >= 1
    requires sourceIsDir && (d != nd || target.Some?) ==> links[d] >= 1
    requires forall i :: i in links ==> 0 <= links[i] <= LINK_LIMIT
    ensures MovedLinks(links, d, nd, sourceIsDir, target, targetIsDir).Keys == links.Keys
    ensures MovedLinks(links, d, nd, sourceIsDir, target, targetIsDir)[j] <= LINK_LIMIT
    ensures MovedLinks(links, d, nd, sourceIsDir, target, targetIsDir)[j]
         == links[j] + Delta(d, nd, sourceIsDir, target, targetIsDir, j)
            - One(sourceIsDir && d != nd && target.None? && j == nd && links[nd] == LINK_LIMIT)
  {
  }

  lemma CountPositive(es: Entries, e: Slot)
    requires e in es
    ensures Count(es, es[e]) >= 1
  {
    assert e in Refs(es, es[e]);
  }

  lemma CountTwo(es: Entries, e: Slot, f: Slot)
    requires e in es && f in es && e != f && es[e] == es[f]
    ensures Count(es, es[e]) >= 2
  {
    assert {e, f} <= Refs(es, es[e]);
    SubsetSize({e, f}, Refs(es, es[e]));
  }

  lemma {:induction false} SubsetSize(a: set<Slot>, b: set<Slot>)
    requires a <= b
    ensures |a| <= |b|
    decreases a
  {
    if a != {} {
      var x :| x in a;
      SubsetSize(a - {x}, b - {x});
    }
  }

  /** The source's and the target's counts are large enough to go down. */
  lemma RenamePositive(dirs: set<Ino>, es: Entries, links: map<Ino, int>, d: Ino, from: Name, nd: Ino, to: Name)
    requires Good(dirs, es, links) && MayRename(dirs, es, d, from, nd, to) && (d, from) != (nd, to)
    ensures d in links && links[d] >= 1 && nd in links
    ensures (nd, to) in es ==> es[(nd, to)] in links && links[es[(nd, to)]] >= if es[(nd, to)] in dirs then 2 else 1
  {
    hide Count, Tree, AllPlaced, Bare;
    RenameFacts(dirs, es, links, d, from, nd, to);
    LinkOf(dirs, es, links, d);
    CountPositive(es, (d, Dot));
    if (nd, to) in es {
      CountPositive(es, (nd, to));
      if es[(nd, to)] in dirs {
        CountTwo(es, (nd, to), (es[(nd, to)], Dot));
      }
    }
  }

  lemma LinksBounded(es: Entries, links: map<Ino, int>)
    requires Counted(es, links)
    ensures forall i :: i in links ==> 0 <= links[i] <= LINK_LIMIT
  {
  }

  lemma RenameLink(dirs: set<Ino>, es: Entries, links: map<Ino, int>, d: Ino, from: Name, nd: Ino, to: Name, j: Ino)
    requires Good(dirs, es, links) && MayRename(dirs, es, d, from, nd, to) && (d, from) != (nd, to) && j in links
    requires d in links && nd in links && ((nd, to) in es ==> es[(nd, to)] in links)
    ensures var source, target := es[(d, from)], Get(es, (nd, to));
      var isDir := target.Some? && target.value in dirs;
      var mid := Moved(es, d, from, nd, to, source, source in dirs && d != nd);
      var links' := MovedLinks(links, d, nd, source in dirs, target, isDir);
      var over := Overflows(dirs, es, links, d, from, nd, to);
      && links'.Keys == links.Keys && links'[j] <= LINK_LIMIT
      && links'[j] == Count(if isDir then WithoutDots(mid, target.value) else mid, j) - One(over && j == nd)
  {
    var source, target := es[(d, from)], Get(es, (nd, to));
    RenameFacts(dirs, es, links, d, from, nd, to);
    RenamePositive(dirs, es, links, d, from, nd, to);
    LinksBounded(es, links);
    assert links[j] == Count(es, j);
    hide Count, Tree, AllPlaced, Counted, Moved, MovedLinks, WithoutDots, Bare;
    RenameCounts(dirs, es, links, d, from, nd, to, j);
    LinksFollow(links, d, nd, source in dirs, target, target.Some? && target.value in dirs, j);
  }

  lemma RenameNamed(dirs: set<Ino>, es: Entries, links: map<Ino, int>, d: Ino, from: Name, nd: Ino, to: Name, e: Slot)
    requires Good(dirs, es, links) && MayRename(dirs, es, d, from, nd, to) && (d, from) != (nd, to) && nd in links
    ensures var source, target := es[(d, from)], Get(es, (nd, to));
      var isDir := target.Some? && target.value in dirs;
      var mid := Moved(es, d, from, nd, to, source, source in dirs && d != nd);
      var es' := if isDir then WithoutDots(mid, target.value) else mid;
      e in es' ==> es'[e] in links
  {
  }

  lemma CountedUnless(es: Entries, links: map<Ino, int>, over: bool, nd: Ino)
    requires forall e :: e in es ==> es[e] in links
    requires forall j :: j in links ==> links[j] <= LINK_LIMIT && links[j] == Count(es, j) - One(over && j == nd)
    requires nd in links
    ensures Counted(es, links) <==> !over
  {
    hide Count;
    assert links[nd] == Count(es, nd) - One(over);
  }

  lemma RenameCounted(dirs: set<Ino>, es: Entries, links: map<Ino, int>, d: Ino, from: Name, nd: Ino, to: Name)
    requires Good(dirs, es, links) && MayRename(dirs, es, d, from, nd, to) && (d, from) != (nd, to)
    requires d in links && nd in links && ((nd, to) in es ==> es[(nd, to)] in links)
    ensures var source, target := es[(d, from)], Get(es, (nd, to));
      var isDir := target.Some? && target.value in dirs;
      var mid := Moved(es, d, from, nd, to, source, source in dirs && d != nd);
      var links' := MovedLinks(links, d, nd, source in dirs, target, isDir);
      var es' := if isDir then WithoutDots(mid, target.value) else mid;
      Counted(es', links') <==> !Overflows(dirs, es, links, d, from, nd, to)
  {
    hide Count, Tree, AllPlaced, Counted, Moved, MovedLinks, WithoutDots, MayRename;
    assert (d, from) in es by { SourceIn(dirs, es, d, from, nd, to); }
    var source, target := es[(d, from)], Get(es, (nd, to));
    var isDir := target.Some? && target.value in dirs;
    var mid := Moved(es, d, from, nd, to, source, source in dirs && d != nd);
    var links' := MovedLinks(links, d, nd, source in dirs, target, isDir);
    var es' := if isDir then WithoutDots(mid, target.value) else mid;
    var over := Overflows(dirs, es, links, d, from, nd, to);
    RenameLink(dirs, es, links, d, from, nd, to, d);
    forall j | j in links' ensures links'[j] <= LINK_LIMIT && links'[j] == Count(es', j) - One(over && j == nd) {
      RenameLink(dirs, es, links, d, from, nd, to, j);
    }
    forall e | e in es' ensures es'[e] in links' {
      RenameNamed(dirs, es, links, d, from, nd, to, e);
    }
    CountedUnless(es', links', over, nd);
  }

  lemma SourceIn(dirs: set<Ino>, es: Entries, d: Ino, from: Name, nd: Ino, to: Name)
    requires MayRename(dirs, es, d, from, nd, to)
    ensures (d, from) in es
  {
  }

  // ---- removing a directory by its dot name ----

  /** The empty directory 1, named in the root, is removed as its own entry dot: the name stays and the count
      says that there is none. */
  lemma DotExample() returns (dirs: set<Ino>, es: Entries, links: map<Ino, int>, a: Name)
    ensures Good(dirs, es, links) && 1 in dirs && Get(es, (1, Dot)) == Some(1) && Bare(es, 1)
    ensures 1 in links && links[1] == 2
    ensures var es', links' := EntriesWithout(es, 1, Dot), LinksWithout(links, 1, 1);
      Get(es', (0, a)) == Some(1) && links'[1] == 0 && !Counted(es', links')
  {
    dirs, es, links := WideExists(0);
    a := NameOf(1);
    WideStep(1, dirs, es, links);
    dirs, es, links := dirs + {1}, NewDir(es, 0, a, 1), links[1 := 2][0 := links[0] + 1];
    hide Counted, Tree, AllPlaced;
    DotRemoved(dirs, es, links, 1, Dot);
  }

  // ---- at the limit ----

  /** Two characters tell 65536 names apart. */
  function NameOf(i: nat): Name
    requires i < 65536
  {
    Plain([(i % 256) as char, (i / 256) as char])
  }

  lemma NamesDiffer(i: nat, j: nat)
    requires i < 65536 && j < 65536 && NameOf(i) == NameOf(j)
    ensures i == j
  {
    assert [(i % 256) as char, (i / 256) as char][0] == [(j % 256) as char, (j / 256) as char][0];
    assert [(i % 256) as char, (i / 256) as char][1] == [(j % 256) as char, (j / 256) as char][1];
  }

  /** A root directory 0 with child directories 1 to `n`. */
  ghost predicate Wide(n: nat, dirs: set<Ino>, es: Entries, links: map<Ino, int>) {
    && Good(dirs, es, links) && 0 in dirs && 0 in links && links[0] == n + 2
    && (forall i :: i in dirs || i in links ==> 0 <= i <= n)
    && (forall i :: 1 <= i <= n ==> i in dirs && i in links && links[i] == 2)
    && (forall i: nat :: n < i < 65536 ==> (0, NameOf(i)) !in es)
    && (forall e :: e in es && e.0 != 0 ==> IsDot(e.1))
  }

  lemma {:induction false} WideExists(n: nat) returns (dirs: set<Ino>, es: Entries, links: map<Ino, int>)
    requires n + 2 <= LINK_LIMIT
    ensures Wide(n, dirs, es, links)
  {
    if n == 0 {
      dirs, es, links := {0}, map[(0, Dot) := 0, (0, DotDot) := 0], map[0 := 2];
      assert Refs(es, 0) == {(0, Dot), (0, DotDot)};
    } else {
      dirs, es, links := WideExists(n - 1);
      WideStep(n, dirs, es, links);
      dirs, es, links := dirs + {n}, NewDir(es, 0, NameOf(n), n), links[n := 2][0 := links[0] + 1];
    }
  }

  lemma WideStep(n: nat, dirs: set<Ino>, es: Entries, links: map<Ino, int>)
    requires 0 < n && n + 2 <= LINK_LIMIT && Wide(n - 1, dirs, es, links)
    ensures Wide(n, dirs + {n}, NewDir(es, 0, NameOf(n), n), links[n := 2][0 := links[0] + 1])
  {
    hide Good;
    DirCreated(dirs, es, links, 0, NameOf(n), n);
    forall i: nat | n < i < 65536 ensures (0, NameOf(i)) !in NewDir(es, 0, NameOf(n), n) {
      if NameOf(i) == NameOf(n) {
        NamesDiffer(i, n);
      }
    }
  }

  /** A directory with 65535 links and no room for one more: creating a directory in it wraps its count to zero. */
  lemma CreateAtLimit() returns (dirs: set<Ino>, es: Entries, links: map<Ino, int>, n: Name, i: Ino)
    ensures Good(dirs, es, links) && 0 in dirs && (0, n) !in es && i !in links && i !in dirs && 0 in links
    ensures links[0] == LINK_LIMIT && (links[0] + 1) % (LINK_LIMIT + 1) == 0
    ensures !Good(dirs + {i}, NewDir(es, 0, n, i), links[i := 2][0 := 0])
  {
    dirs, es, links := WideExists(65533);
    n, i := NameOf(65534), 65534;
    hide Good;
    DirCreated(dirs, es, links, 0, n, i);
  }

  /** Moving a directory into such a directory leaves its count too small. */
  lemma RenameAtLimit() returns (dirs: set<Ino>, es: Entries, links: map<Ino, int>, d: Ino, from: Name, to: Name)
    ensures Good(dirs, es, links) && MayRename(dirs, es, d, from, 0, to) && d in links && 0 in links
    ensures links[0] == LINK_LIMIT
    ensures (0, to) !in es && es[(d, from)] in dirs && d != 0
    ensures var source := es[(d, from)];
      !Good(dirs, Moved(es, d, from, 0, to, source, true), MovedLinks(links, d, 0, true, None, false))
  {
    dirs, es, links := WideExists(65533);
    d, from, to := 1, NameOf(65534), NameOf(65535);
    Grandchild(dirs, es, links, from, to);
    dirs, es, links := dirs + {65534}, NewDir(es, 1, from, 65534), links[65534 := 2][1 := 3];
    hide Good, Moved, MovedLinks, NewDir;
    RenameKeeps(dirs, es, links, d, from, 0, to);
  }

  lemma Grandchild(dirs: set<Ino>, es: Entries, links: map<Ino, int>, from: Name, to: Name)
    requires Wide(65533, dirs, es, links) && from == NameOf(65534) && to == NameOf(65535)
    ensures var dirs', es', links' := dirs + {65534}, NewDir(es, 1, from, 65534), links[65534 := 2][1 := 3];
      && Good(dirs', es', links') && MayRename(dirs', es', 1, from, 0, to) && 1 in links' && 0 in links'
      && links'[0] == LINK_LIMIT
      && (0, to) !in es' && es'[(1, from)] == 65534 && 65534 in dirs'
  {
    hide Good;
    DirCreated(dirs, es, links, 1, from, 65534);
  }
}
