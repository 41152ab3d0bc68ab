/** One directory of the name cache: positive, negative and mounted children over a backing directory. */
module Dentry {
  import opened Common

  type Name = string
  type Ino = nat

  const NEGATIVE_LIMIT: nat := 256

  function Get(m: map<Name, Ino>, name: Name): Option<Ino> {
    if name in m then Some(m[name]) else None
  }

  /** No negative entry hides an existing name, every positive entry is the backing binding, and misses are bounded. */
  ghost predicate Coherent(backing: map<Name, Ino>, children: map<Name, Ino>, negative: set<Name>) {
    && (forall n :: n in children ==> n in backing && backing[n] == children[n])
    && (forall n :: n in negative ==> n !in backing)
    && |negative| <= NEGATIVE_LIMIT
  }

  /** What a name means: a mount first, the backing directory second. */
  function Meaning(mounted: map<Name, Ino>, backing: map<Name, Ino>, name: Name): Option<Ino> {
    if name in mounted then Some(mounted[name]) else Get(backing, name)
  }

  datatype Created = Made(ino: Ino) | Existing(ino: Ino) | Panicked

  const MAX_NAME: nat := 255

  /** What the backing file system has for a creation: an inode, a first block for a directory, a parent that is a
      directory in a form that can be changed, and room for the entry in it. */
  datatype Supply = Supply(ino: Option<Ino>, block: bool, changeable: bool, room: bool)

  /** The backing file system makes the name: it is not there, short enough, and nothing runs out. */
  predicate Makes(backing: map<Name, Ino>, name: Name, isDir: bool, supply: Supply) {
    && name !in backing && |name| <= MAX_NAME && supply.ino.Some? && (isDir ==> supply.block)
    && supply.changeable && supply.room
  }

  class Directory {
    /** Whether lookups in the backing directory may be cached. */
    const cacheable: bool
    var backing: map<Name, Ino>
    var children: map<Name, Ino>
    var mounted: map<Name, Ino>
    var negative: set<Name>

    ghost predicate Valid()
      reads this
    {
      Coherent(backing, children, negative)
    }

    constructor (cacheable: bool, backing: map<Name, Ino>)
      ensures Valid() && this.backing == backing && mounted == map[] && this.cacheable == cacheable && children == map[]
    {
      this.cacheable, this.backing, children, mounted, negative := cacheable, backing, map[], map[], {};
    }

    /** Remember a miss; a full set of misses is emptied first. */
    method RememberNegative(name: Name)
      requires Valid() && name !in backing
      modifies this`negative
      ensures Valid() && name in negative
    {
      if |negative| >= NEGATIVE_LIMIT {
        negative := {};
      }
      negative := negative + {name};
    }

    /** Look in the backing directory through the caches; `failed` is a lookup error, which is never cached. */
    method FindLowerChild(name: Name, failed: bool) returns (r: Option<Ino>)
      requires Valid()
      modifies this`children, this`negative
      ensures Valid()
      ensures !failed ==> r == Get(backing, name)
      ensures r.Some? ==> r == Get(backing, name)
      ensures failed ==> negative == old(negative)
      ensures old(children).Keys <= children.Keys
    {
      if cacheable {
        if name in children {
          return Some(children[name]);
        }
        if name in negative {
          return None;
        }
      }
      if failed {
        return None;
      }
      if name !in backing {
        if cacheable {
          RememberNegative(name);
        }
        return None;
      }
      if cacheable {
        Shrinks(negative, name);
        negative := negative - {name};
        children := children[name := backing[name]];
      }
      return Some(backing[name]);
    }

    /** A mount wins over anything below it. */
    method FindChild(name: Name, failed: bool) returns (r: Option<Ino>)
      requires Valid()
      modifies this`children, this`negative
      ensures Valid()
      ensures !failed ==> r == Meaning(mounted, backing, name)
      ensures r.Some? ==> r == Meaning(mounted, backing, name)
      ensures old(children).Keys <= children.Keys
    {
      if name in mounted {
        return Some(mounted[name]);
      }
      if cacheable && name in children {
        return Some(children[name]);
      }
      if cacheable && name in negative {
        return None;
      }
      r := FindLowerChild(name, failed);
    }

    /** Mount over a name; a second mount on the same name gives the first one. */
    method MountChild(name: Name, ino: Ino) returns (r: Ino)
      requires Valid()
      modifies this`mounted, this`negative
      ensures Valid() && r == if name in old(mounted) then old(mounted)[name] else ino
      ensures mounted == old(mounted)[name := r]
    {
      Shrinks(negative, name);
      negative := negative - {name};
      if name in mounted {
        r := mounted[name];
        assert mounted == mounted[name := r];
      } else {
        mounted := mounted[name := ino];
        r := ino;
      }
    }

    /** The creation in the backing file system, with what it can fail for. */
    method CreateBacking(name: Name, isDir: bool, supply: Supply) returns (r: Option<Ino>)
      modifies this`backing
      ensures r == if Makes(old(backing), name, isDir, supply) then supply.ino else None
      ensures backing == if r.Some? then old(backing)[name := r.value] else old(backing)
    {
      if name in backing || supply.ino.None? || (isDir && !supply.block) {
        return None;
      }
      if |name| > MAX_NAME || !supply.changeable || !supply.room {
        return None;
      }
      backing := backing[name := supply.ino.value];
      return supply.ino;
    }

    /** Create below a directory unless the name is known already; any failure below is a panic. */
    method CreateChild(name: Name, isDir: bool, supply: Supply) returns (r: Created)
      requires Valid()
      modifies this`backing, this`children, this`negative
      ensures Valid()
      ensures r.Made? <==> name !in old(mounted) && name !in old(children) && Makes(old(backing), name, isDir, supply)
      ensures r.Made? ==> supply.ino == Some(r.ino) && backing == old(backing)[name := r.ino]
      ensures r.Made? ==> Meaning(mounted, backing, name) == Some(r.ino) && name in children
      ensures r.Existing? ==> Meaning(mounted, old(backing), name) == Some(r.ino)
      ensures !r.Made? ==> backing == old(backing) && children == old(children) && negative == old(negative)
      ensures r.Panicked? <==>
        name !in old(mounted) && name !in old(children) && !Makes(old(backing), name, isDir, supply)
    {
      if name in mounted {
        return Existing(mounted[name]);
      }
      if name in children {
        return Existing(children[name]);
      }
      var made := CreateBacking(name, isDir, supply);
      if made.None? {
        return Panicked;
      }
      Shrinks(negative, name);
      negative := negative - {name};
      children := children[name := made.value];
      return Made(made.value);
    }

    /** Look a name up and create it on a miss, as opening with creation does; `failed` is an error of that lookup. */
    method FindOrCreate(name: Name, failed: bool, isDir: bool, supply: Supply) returns (r: Created)
      requires Valid()
      modifies this`backing, this`children, this`negative
      ensures Valid()
      ensures !r.Panicked? ==> Meaning(mounted, backing, name) == Some(r.ino)
      ensures !r.Made? ==> backing == old(backing)
      ensures !failed ==> (r.Existing? <==> Meaning(mounted, old(backing), name).Some?)
      ensures !failed ==>
        (r.Panicked? <==> Meaning(mounted, old(backing), name) == None && !Makes(old(backing), name, isDir, supply))
      ensures r.Panicked? && Makes(old(backing) - {name}, name, isDir, supply) ==>
        failed && name in old(backing) && name !in mounted && name !in old(children)
    {
      var found := FindChild(name, failed);
      if found.Some? {
        return Existing(found.value);
      }
      r := CreateChild(name, isDir, supply);
    }

    /** Remove a name that is not mounted over. */
    method UnlinkChild(name: Name) returns (r: Option<Ino>)
      requires Valid()
      modifies this`backing, this`children, this`negative
      ensures Valid()
      ensures r == if name in mounted then None else Get(old(backing), name)
      ensures backing == if r.Some? then old(backing) - {name} else old(backing)
    {
      if name in mounted {
        return None;
      }
      r := FindLowerChild(name, false);
      if r.Some? {
        backing := backing - {name};
        children := children - {name};
        Shrinks(negative, name);
        negative := negative - {name};
      }
    }
  }

  lemma Shrinks(s: set<Name>, x: Name)
    ensures |s - {x}| <= |s|
  {
    if x in s {
      assert |s - {x}| == |s| - 1;
    } else {
      assert s - {x} == s;
    }
  }

  /** A name nobody has, looked up and found missing, and still a panic: the disk has no inode left. */
  method NoInodeLeft() returns (d: Directory, r: Created)
    ensures d.Valid() && d.backing == map[] && r.Panicked?
  {
    d := new Directory(true, map[]);
    r := d.FindOrCreate("a", false, false, Supply(None, true, true, true));
  }

  /** A name that is on disk but neither mounted nor cached panics however much the disk has left. */
  method ExistingName() returns (d: Directory, r: Created)
    ensures d.Valid() && d.backing == map["a" := 1] && r.Panicked?
  {
    d := new Directory(true, map["a" := 1]);
    r := d.CreateChild("a", false, Supply(Some(2), true, true, true));
  }
}
