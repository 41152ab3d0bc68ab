/** The operations on a whole directory. */
module DirFile {
  import opened Common
  import opened DirRecords
  import opened DirNames
  import opened DirBlock
  import opened Directory

  /** Every block is a good one and no live name occurs twice; the blocks of a hash index have no checksum record. */
  ghost predicate GoodBlocks(blocks: seq<seq<Byte>>, csum: bool, indexed: bool) {
    && (forall i :: 0 <= i < |blocks| ==> GoodBlock(blocks[i], csum && !(indexed && MayIndex(blocks, i))))
    && AllTiled(blocks)
    && Unique(All(blocks))
  }

  /** A block that may belong to the index: the root, and any block of an index with inner nodes. */
  predicate MayIndex(blocks: seq<seq<Byte>>, i: nat)
    requires i < |blocks|
  {
    i == 0 || !Convertible(blocks[0])
  }

  /** The two lists bind every name alike. */
  ghost predicate SameNames(es: seq<Entry>, es': seq<Entry>) {
    forall m :: Find(es', m) == Find(es, m)
  }

  /** Some block has a record with slack for a name of `n` bytes. */
  ghost predicate HasSlack(blocks: seq<seq<Byte>>, n: nat)
    requires AllTiled(blocks)
  {
    exists i :: 0 <= i < |blocks| && Slack(Entries(blocks[i]), n)
  }

  /** The name stands behind a record that looks like a checksum record. */
  ghost predicate Shielded(blocks: seq<seq<Byte>>, name: Name)
    requires AllTiled(blocks)
  {
    exists i :: 0 <= i < |blocks| && Behind(Entries(blocks[i]), name)
  }

  /** A directory made ready for changes: every name means what it did, stands behind a checksum record as it did, and
      a converted index has room for any name. */
  ghost predicate Prepared(blocks: seq<seq<Byte>>, indexed: bool, after: seq<seq<Byte>>)
    requires AllTiled(blocks) && AllTiled(after)
  {
    && SameNames(All(blocks), All(after))
    && (forall m :: Shielded(after, m) <==> Shielded(blocks, m))
    && (forall n: nat :: n <= MAX_NAME ==> (HasSlack(after, n) <==> indexed || HasSlack(blocks, n)))
  }

  /** A unique name is in one block. */
  lemma OneHolder(blocks: seq<seq<Byte>>, i: nat, j: nat, name: Name)
    requires AllTiled(blocks) && Unique(All(blocks)) && i < j < |blocks|
    ensures Find(Entries(blocks[i]), name) == None || Find(Entries(blocks[j]), name) == None
  {
    hide Tiled, Entries, Count, Find;
    var a, c := blocks[..i], blocks[i + 1..];
    AllAround(blocks, i, blocks[i]);
    AllAround(c, j - i - 1, blocks[j]);
    CountAppend(All(a), Entries(blocks[i]), name);
    CountAppend(All(a) + Entries(blocks[i]), All(c), name);
    CountAppend(All(c[..j - i - 1]), Entries(blocks[j]), name);
    CountAppend(All(c[..j - i - 1]) + Entries(blocks[j]), All(c[j - i..]), name);
    CountFind(Entries(blocks[i]), name);
    CountFind(Entries(blocks[j]), name);
    assert Count(All(blocks), name) <= 1;
  }

  /** With the name found removable in block `i`, and not before it, nothing shields it. */
  lemma NotShielded(blocks: seq<seq<Byte>>, i: nat, name: Name)
    requires AllTiled(blocks) && Unique(All(blocks)) && i < |blocks| && Find(Entries(blocks[i]), name).Some?
    requires forall j :: 0 <= j <= i ==> !Behind(Entries(blocks[j]), name)
    ensures !Shielded(blocks, name)
  {
    hide Tiled, Entries, Behind, Find, Unique;
    forall j | 0 <= j < |blocks| ensures !Behind(Entries(blocks[j]), name) {
      if i < j {
        OneHolder(blocks, i, j, name);
        NotBehind(Entries(blocks[j]), name);
      }
    }
  }

  /** Writing block `i` after an edit that changed one binding. */
  lemma BlockBinds(blocks: seq<seq<Byte>>, i: nat, b: seq<Byte>, csum: bool, name: Name, t: Option<Target>)
    requires GoodBlocks(blocks, csum, false) && i < |blocks| && GoodBlock(b, csum)
    requires var a, c := blocks[..i], blocks[i + 1..];
      AllTiled(a) && AllTiled(c) && Binds(All(a) + Entries(blocks[i]) + All(c), All(a) + Entries(b) + All(c), name, t)
    ensures GoodBlocks(blocks[i := b], csum, false) && Binds(All(blocks), All(blocks[i := b]), name, t)
  {
    hide Tiled, Entries, HasTail, Binds;
    AllAround(blocks, i, b);
    BindsUnique(All(blocks), All(blocks[i := b]), name, t);
  }

  lemma BindsUnique(es: seq<Entry>, es': seq<Entry>, name: Name, t: Option<Target>)
    requires Binds(es, es', name, t)
    ensures Unique(es')
  {
  }

  /** A name is bound by the block that binds it. */
  lemma FindInBlocks(blocks: seq<seq<Byte>>, i: nat, name: Name)
    requires AllTiled(blocks) && i < |blocks|
    ensures AllTiled(blocks[..i]) && AllTiled(blocks[..i + 1])
    ensures Find(All(blocks[..i]), name) == None && Find(Entries(blocks[i]), name).Some? ==>
      Find(All(blocks), name) == Find(Entries(blocks[i]), name)
    ensures Find(All(blocks[..i]), name) == None && Find(Entries(blocks[i]), name).None? ==>
      Find(All(blocks[..i + 1]), name) == None
  {
    hide Tiled, Entries, Find;
    var a, b, c := blocks[..i], blocks[i], blocks[i + 1..];
    AllAround(blocks, i, b);
    assert blocks[i := b] == blocks;
    FindAppend(All(a), Entries(b), name);
    FindAppend(All(a) + Entries(b), All(c), name);
    AllOne(b);
    AllAppend(a, [b]);
    assert a + [b] == blocks[..i + 1];
  }

  class Dir {
    var blocks: seq<seq<Byte>>
    /** The directory has a hash index in its first block. */
    var indexed: bool
    /** The file system keeps metadata checksums. */
    const csum: bool
    /** The checksum of a block. */
    const sum: seq<Byte> -> nat

    ghost predicate Valid()
      reads this
    {
      GoodBlocks(blocks, csum, indexed)
    }

    constructor (csum: bool, sum: seq<Byte> -> nat)
      ensures Valid() && blocks == [] && !indexed && this.csum == csum
    {
      this.csum, this.sum, blocks, indexed := csum, sum, [], false;
    }

    /** Look a name up without assuming anything about the blocks. */
    method Lookup(name: Name) returns (r: Scanned)
      ensures Valid() ==> r == AsScanned(Find(All(blocks), name))
      ensures r.Malformed? ==> exists i :: 0 <= i < |blocks| && !Tiled(blocks[i])
    {
      hide Tiled, Entries, Find, GoodBlock, Unique;
      NoBlocks(blocks[..0], name);
      for i := 0 to |blocks|
        invariant AllTiled(blocks) ==> AllTiled(blocks[..i]) && Find(All(blocks[..i]), name) == None
      {
        r := ScanBlock(blocks[i], name);
        if AllTiled(blocks) {
          FindInBlocks(blocks, i, name);
        }
        if !r.Absent? {
          return;
        }
      }
      assert blocks[..|blocks|] == blocks;
      return Absent;
    }

    /** Store the checksum of a block that ends in a checksum record. */
    method SealBlock(buf: array<Byte>)
      requires GoodBlock(buf[..], csum)
      modifies buf
      ensures GoodBlock(buf[..], csum) && Entries(buf[..]) == old(Entries(buf[..]))
    {
      hide Tiled, Entries, HasTail;
      if csum && LooksSealed(buf[..]) {
        var b := buf[..];
        Write(buf, BLOCK - 4, Le32(0));
        var x := sum(buf[..]) % 0x1_0000_0000;
        Write(buf, BLOCK - 4, Le32(x));
        assert buf[..] == Seal(b, x) by { SealBytes(b, x); }
        SealKeeps(b, x);
      }
    }

    /** A copy of block `i` to work on. */
    method ReadBlock(i: nat) returns (buf: array<Byte>)
      requires i < |blocks| && |blocks[i]| == BLOCK
      ensures fresh(buf) && buf[..] == blocks[i]
    {
      var b := blocks[i];
      buf := new Byte[BLOCK](j requires 0 <= j < BLOCK => b[j]);
    }

    /** Bind a new name in the slack of the first record that has enough. */
    method AddInSlack(name: Name, t: Target) returns (done: bool)
      requires Valid() && !indexed && 0 < t.inode < 0x1_0000_0000 && |name| <= MAX_NAME
      requires Find(All(blocks), name) == None
      modifies this
      ensures Valid() && !indexed
      ensures done <==> HasSlack(old(blocks), |name|)
      ensures done ==> Binds(All(old(blocks)), All(blocks), name, Some(t))
      ensures !done ==> blocks == old(blocks)
    {
      hide Tiled, Entries, Find, GoodBlock, Unique, Binds, SplitIn, All, Slack;
      for i := 0 to |blocks|
        invariant blocks == old(blocks) && !indexed
        invariant forall j :: 0 <= j < i ==> !Slack(Entries(blocks[j]), |name|)
      {
        BlockLength(blocks, csum, i);
        var buf := ReadBlock(i);
        done := InsertIntoBlock(buf, t.inode, name, t.kind, csum);
        if done {
          ghost var b := buf[..];
          SealBlock(buf);
          AddedBinds(blocks, i, b, buf[..], csum, name, t);
          blocks := blocks[i := buf[..]];
          return;
        }
      }
      return false;
    }

    /** Bind a new name in a block of its own at the end, if the directory can grow. */
    method AddInNewBlock(name: Name, t: Target, grows: bool) returns (ok: bool)
      requires Valid() && !indexed && 0 < t.inode < 0x1_0000_0000 && |name| <= MAX_NAME
      requires Find(All(blocks), name) == None
      modifies this
      ensures Valid() && !indexed && (ok <==> grows)
      ensures ok ==> Binds(All(old(blocks)), All(blocks), name, Some(t))
      ensures !ok ==> blocks == old(blocks)
    {
      hide Tiled, Entries, Find, GoodBlock, Unique, Binds, All, Encoded, FreshBlock;
      var buf := new Byte[BLOCK](_ => 0);
      var lim := Limit(csum);
      assert buf[..] == Zeros(BLOCK);
      NameFits(name);
      FreshBytes(t, name, csum);
      ok := WriteTo(buf, 0, t.inode, lim, name, t.kind);
      if csum {
        Write(buf, lim, Zeros(TAIL));
        Write(buf, lim + 4, Le16(TAIL));
        Write(buf, lim + 7, [TAIL_KIND]);
      }
      FreshGood(t, name, csum);
      SealBlock(buf);
      if !grows {
        return false;
      }
      ExtendedBinds(blocks, buf[..], csum, name, t);
      blocks := blocks + [buf[..]];
      return true;
    }

    /** Bind a new name: in the slack of a record, or in a new block if the disk has one. */
    method AddLinear(name: Name, t: Target, grows: bool) returns (ok: bool)
      requires Valid() && !indexed && 0 < t.inode < 0x1_0000_0000
      modifies this
      ensures Valid() && !indexed
      ensures ok <==>
        |name| <= MAX_NAME && Find(All(old(blocks)), name) == None && (HasSlack(old(blocks), |name|) || grows)
      ensures ok ==> Binds(All(old(blocks)), All(blocks), name, Some(t))
      ensures !ok ==> blocks == old(blocks)
    {
      hide Tiled, Entries, Find, GoodBlock, Unique, Binds, All, HasSlack;
      if |name| > MAX_NAME {
        return false;
      }
      var seen := Lookup(name);
      if !seen.Absent? {
        return false;
      }
      ok := AddInSlack(name, t);
      if !ok {
        ok := AddInNewBlock(name, t, grows);
      }
    }

    /** Take a name out of the first block that binds it, unless it stands behind a checksum record. */
    method RemoveLinear(name: Name) returns (gone: Option<Target>)
      requires Valid() && !indexed
      modifies this
      ensures Valid() && !indexed
      ensures gone == if Shielded(old(blocks), name) then None else Find(All(old(blocks)), name)
      ensures gone.Some? ==> Binds(All(old(blocks)), All(blocks), name, None)
      ensures gone.None? ==> blocks == old(blocks)
    {
      hide Tiled, Entries, Find, GoodBlock, Unique, Binds, GoneFrom, Behind;
      NoBlocks(blocks[..0], name);
      for i := 0 to |blocks|
        invariant blocks == old(blocks) && !indexed && AllTiled(blocks[..i]) && Find(All(blocks[..i]), name) == None
        invariant forall j :: 0 <= j < i ==> !Behind(Entries(blocks[j]), name)
      {
        BlockLength(blocks, csum, i);
        var buf := ReadBlock(i);
        FindInBlocks(blocks, i, name);
        var refused;
        gone, refused := RemoveFromBlock(buf, name, csum);
        if refused {
          return None;
        }
        if gone.Some? {
          NotShielded(blocks, i, name);
          ghost var b := buf[..];
          SealBlock(buf);
          RemovedBinds(blocks, i, b, buf[..], csum, name, gone.value);
          blocks := blocks[i := buf[..]];
          return;
        }
      }
      assert blocks[..|blocks|] == blocks;
      return None;
    }

    /** Point a name somewhere else, in place. */
    method ReplaceLinear(name: Name, t: Target) returns (was: Option<Target>)
      requires Valid() && !indexed && 0 < t.inode < 0x1_0000_0000
      modifies this
      ensures Valid() && !indexed
      ensures was == Find(All(old(blocks)), name)
      ensures was.Some? ==> Binds(All(old(blocks)), All(blocks), name, Some(t))
      ensures was.None? ==> blocks == old(blocks)
    {
      hide Tiled, Entries, Find, GoodBlock, Unique, Binds, ChangedIn;
      NoBlocks(blocks[..0], name);
      for i := 0 to |blocks|
        invariant blocks == old(blocks) && !indexed && AllTiled(blocks[..i]) && Find(All(blocks[..i]), name) == None
      {
        BlockLength(blocks, csum, i);
        var buf := ReadBlock(i);
        FindInBlocks(blocks, i, name);
        was := ReplaceInBlock(buf, name, t, csum);
        if was.Some? {
          ghost var b := buf[..];
          SealBlock(buf);
          ChangedBlockBinds(blocks, i, b, buf[..], csum, name, was.value, t);
          blocks := blocks[i := buf[..]];
          return;
        }
      }
      assert blocks[..|blocks|] == blocks;
      return None;
    }

    /** Turn the root of a one-level hash index into an ordinary block; refuse any other index. */
    method Prepare() returns (ok: bool)
      requires Valid()
      modifies this
      ensures Valid()
      ensures ok <==> !old(indexed) || (old(blocks) != [] && Convertible(old(blocks)[0]))
      ensures ok ==> !indexed && Prepared(old(blocks), old(indexed), blocks)
      ensures !ok ==> blocks == old(blocks) && indexed == old(indexed)
    {
      hide Tiled, Entries, Find, GoodBlock, Unique, Convertible, Shielded, HasSlack;
      hide SameNames, Prepared, All, Converted, Patched, DotEntry, DotDotEntry, GoodBlocks;
      if !indexed {
        PreparedAlready(blocks, csum);
        return true;
      }
      if blocks == [] || !Convertible(blocks[0]) {
        return false;
      }
      ghost var was := blocks;
      ConvertibleLength(blocks[0]);
      var buf := ReadBlock(0);
      var lim := Limit(csum);
      Write(buf, 16, Le16(lim - 12));
      Write(buf, 24, Zeros(lim - 24));
      if csum {
        Write(buf, lim, Zeros(TAIL));
        Write(buf, lim + 4, Le16(TAIL));
        Write(buf, lim + 7, [TAIL_KIND]);
      }
      assert buf[..] == Converted(was[0], csum) by { ConvertedBytes(was[0], csum); }
      ConvertedGood(was[0], csum);
      SealBlock(buf);
      ConvertedPrepared(was, buf[..], csum, was[0 := buf[..]]);
      blocks := blocks[0 := buf[..]];
      indexed := false;
      return true;
    }

    /** Bind a new name; `grows` says whether the disk has a block for the directory to grow by. */
    method AddEntry(name: Name, t: Target, grows: bool) returns (ok: bool)
      requires Valid() && 0 < t.inode < 0x1_0000_0000
      modifies this
      ensures Valid()
      ensures ok <==>
        && Changeable(old(blocks), old(indexed)) && |name| <= MAX_NAME && Find(All(old(blocks)), name) == None
        && (old(indexed) || HasSlack(old(blocks), |name|) || grows)
      ensures ok ==> !indexed && Binds(All(old(blocks)), All(blocks), name, Some(t))
      ensures !ok ==> SameNames(All(old(blocks)), All(blocks))
    {
      hide Unique, Find, Convertible, GoodBlock, Tiled, Entries, All, HasSlack, Shielded;
      ok := Prepare();
      if ok {
        ghost var es := All(blocks);
        ok := AddLinear(name, t, grows);
        if ok {
          BindsSame(All(old(blocks)), es, All(blocks), name, Some(t));
        }
      }
    }

    /** Unbind a name and say what it was bound to. */
    method RemoveEntry(name: Name) returns (gone: Option<Target>)
      requires Valid()
      modifies this
      ensures Valid()
      ensures gone ==
        if Changeable(old(blocks), old(indexed)) && !Shielded(old(blocks), name) then Find(All(old(blocks)), name)
          else None
      ensures gone.Some? ==> !indexed && Binds(All(old(blocks)), All(blocks), name, None)
      ensures gone.None? ==> SameNames(All(old(blocks)), All(blocks))
    {
      hide Unique, Find, Convertible, GoodBlock, Tiled, Entries, All, HasSlack, Shielded;
      var ok := Prepare();
      if !ok {
        return None;
      }
      ghost var es := All(blocks);
      gone := RemoveLinear(name);
      if gone.Some? {
        BindsSame(All(old(blocks)), es, All(blocks), name, None);
      }
    }

    /** Rebind a bound name and say what it was bound to. */
    method ReplaceEntry(name: Name, t: Target) returns (was: Option<Target>)
      requires Valid() && 0 < t.inode < 0x1_0000_0000
      modifies this
      ensures Valid()
      ensures was == if Changeable(old(blocks), old(indexed)) then Find(All(old(blocks)), name) else None
      ensures was.Some? ==> !indexed && Binds(All(old(blocks)), All(blocks), name, Some(t))
      ensures was.None? ==> SameNames(All(old(blocks)), All(blocks))
    {
      hide Unique, Find, Convertible, GoodBlock, Tiled, Entries, All, HasSlack, Shielded;
      var ok := Prepare();
      if !ok {
        return None;
      }
      ghost var es := All(blocks);
      was := ReplaceLinear(name, t);
      if was.Some? {
        BindsSame(All(old(blocks)), es, All(blocks), name, Some(t));
      }
    }
  }

  lemma BlockLength(blocks: seq<seq<Byte>>, csum: bool, i: nat)
    requires GoodBlocks(blocks, csum, false) && i < |blocks|
    ensures |blocks[i]| == BLOCK && GoodBlock(blocks[i], csum)
  {
  }

  lemma SealBytes(b: seq<Byte>, x: nat)
    requires |b| == BLOCK && x < 0x1_0000_0000
    ensures Patched(Patched(b, BLOCK - 4, Le32(0)), BLOCK - 4, Le32(x)) == Seal(b, x)
  {
  }

  lemma NameFits(name: Name)
    requires |name| <= MAX_NAME
    ensures RecordLen(|name|) <= BLOCK - TAIL
  {
  }

  lemma AddedBinds(blocks: seq<seq<Byte>>, i: nat, b: seq<Byte>, b': seq<Byte>, csum: bool, name: Name, t: Target)
    requires GoodBlocks(blocks, csum, false) && i < |blocks| && GoodBlock(b, csum) && GoodBlock(b', csum)
    requires Entries(b') == Entries(b)
    requires exists n :: SplitIn(Entries(blocks[i]), Entries(b), Entry(t.inode, n, name, t.kind))
    requires t.inode != 0 && Find(All(blocks), name) == None
    ensures GoodBlocks(blocks[i := b'], csum, false) && Binds(All(blocks), All(blocks[i := b']), name, Some(t))
  {
    hide Tiled, Entries, Find, HasTail, Unique, Binds, SplitIn;
    var n :| SplitIn(Entries(blocks[i]), Entries(b), Entry(t.inode, n, name, t.kind));
    AllAround(blocks, i, b');
    SplitBinds(All(blocks[..i]), Entries(blocks[i]), Entries(b), All(blocks[i + 1..]), Entry(t.inode, n, name, t.kind));
    BlockBinds(blocks, i, b', csum, name, Some(t));
  }

  lemma NoBlocks(blocks: seq<seq<Byte>>, name: Name)
    requires blocks == []
    ensures AllTiled(blocks) && Find(All(blocks), name) == None
  {
  }

  // ---- a new block ----

  function TailRecord(): seq<Byte> {
    Zeros(4) + Le16(TAIL) + [0, TAIL_KIND] + Zeros(4)
  }

  function Limit(csum: bool): nat {
    if csum then BLOCK - TAIL else BLOCK
  }

  /** One record over the whole block, followed by the checksum record where there is one. */
  function FreshBlock(t: Target, name: Name, csum: bool): seq<Byte>
    requires t.inode < 0x1_0000_0000 && |name| <= MAX_NAME
  {
    Encoded(t.inode, Limit(csum), name, t.kind) + if csum then TailRecord() else []
  }

  lemma FreshBytes(t: Target, name: Name, csum: bool)
    requires t.inode < 0x1_0000_0000 && |name| <= MAX_NAME
    ensures var lim := Limit(csum);
      && |Encoded(t.inode, lim, name, t.kind)| == lim
      && var b := Patched(Zeros(BLOCK), 0, Encoded(t.inode, lim, name, t.kind));
        FreshBlock(t, name, csum)
          == if csum then Patched(Patched(Patched(b, lim, Zeros(TAIL)), lim + 4, Le16(TAIL)), lim + 7, [TAIL_KIND])
            else b
  {
    EncodedDecodes(t.inode, Limit(csum), name, t.kind);
    TailPatched(Encoded(t.inode, Limit(csum), name, t.kind), Limit(csum), csum);
  }

  lemma TailPatched(r: seq<Byte>, lim: nat, csum: bool)
    requires |r| == lim == Limit(csum)
    ensures var b := Patched(Zeros(BLOCK), 0, r);
      r + (if csum then TailRecord() else [])
        == if csum then Patched(Patched(Patched(b, lim, Zeros(TAIL)), lim + 4, Le16(TAIL)), lim + 7, [TAIL_KIND]) else b
  {
  }

  lemma TailIs()
    ensures |TailRecord()| == TAIL && IsRecord(TailRecord()) && First(TailRecord()) == Entry(0, TAIL, [], TAIL_KIND)
  {
  }

  lemma FreshGood(t: Target, name: Name, csum: bool)
    requires t.inode < 0x1_0000_0000 && |name| <= MAX_NAME
    ensures GoodBlock(FreshBlock(t, name, csum), csum)
    ensures Entries(FreshBlock(t, name, csum))
         == [Entry(t.inode, Limit(csum), name, t.kind)] + if csum then [Entry(0, TAIL, [], TAIL_KIND)] else []
  {
    var r := Encoded(t.inode, Limit(csum), name, t.kind);
    EncodedDecodes(t.inode, Limit(csum), name, t.kind);
    hide Tiled, Entries, Encoded, First, Decodes, TailRecord;
    OneRecord(r);
    if csum {
      TailIs();
      OneRecord(TailRecord());
      Append(r, TailRecord());
      var b := FreshBlock(t, name, csum);
      assert b[..BLOCK - TAIL] == r && b[BLOCK - TAIL..] == TailRecord();
    } else {
      assert r + [] == r;
    }
  }

  lemma ExtendedBinds(blocks: seq<seq<Byte>>, b: seq<Byte>, csum: bool, name: Name, t: Target)
    requires GoodBlocks(blocks, csum, false) && GoodBlock(b, csum) && t.inode != 0 && Find(All(blocks), name) == None
    requires Entries(b) == [Entry(t.inode, Limit(csum), name, t.kind)] + if csum then [Entry(0, TAIL, [], TAIL_KIND)]
      else []
    ensures GoodBlocks(blocks + [b], csum, false) && Binds(All(blocks), All(blocks + [b]), name, Some(t))
  {
    hide Tiled, Entries, Unique;
    AllOne(b);
    AllAppend(blocks, [b]);
    var es, e := All(blocks), Entry(t.inode, Limit(csum), name, t.kind);
    var free := Entry(0, TAIL, [], TAIL_KIND);
    forall m ensures Count(es + Entries(b), m) == Count(es, m) + (if m == name then 1 else 0) {
      CountAppend(es, Entries(b), m);
      OneEntry(e, m);
      OneEntry(free, m);
      CountAppend([e], if csum then [free] else [], m);
    }
    forall m ensures Find(es + Entries(b), m) == if m == name then Some(t) else Find(es, m) {
      FindAppend(es, Entries(b), m);
      OneEntry(e, m);
      OneEntry(free, m);
      FindAppend([e], if csum then [free] else [], m);
    }
    OneMore(es, es + Entries(b), name);
  }

  lemma OneMore(es: seq<Entry>, es': seq<Entry>, name: Name)
    requires Unique(es) && Find(es, name) == None
    requires forall m :: Count(es', m) == Count(es, m) + (if m == name then 1 else 0)
    ensures Unique(es')
  {
    CountFind(es, name);
    forall m ensures Count(es', m) <= 1 {
      assert Count(es, m) <= 1;
    }
  }

  lemma RemovedBinds(blocks: seq<seq<Byte>>, i: nat, b: seq<Byte>, b': seq<Byte>, csum: bool, name: Name, t: Target)
    requires GoodBlocks(blocks, csum, false) && i < |blocks| && GoodBlock(b, csum) && GoodBlock(b', csum)
    requires Entries(b') == Entries(b)
    requires exists n :: GoneFrom(Entries(blocks[i]), Entries(b), Entry(t.inode, n, name, t.kind))
    requires Find(Entries(blocks[i]), name) == Some(t)
    ensures GoodBlocks(blocks[i := b'], csum, false) && Binds(All(blocks), All(blocks[i := b']), name, None)
  {
    FoundIsLive(Entries(blocks[i]), name);
    hide Tiled, Entries, Find, HasTail, Unique, Binds, GoneFrom;
    var n :| GoneFrom(Entries(blocks[i]), Entries(b), Entry(t.inode, n, name, t.kind));
    AllAround(blocks, i, b');
    GoneBinds(All(blocks[..i]), Entries(blocks[i]), Entries(b), All(blocks[i + 1..]), Entry(t.inode, n, name, t.kind));
    BlockBinds(blocks, i, b', csum, name, None);
  }

  lemma ChangedBlockBinds(blocks: seq<seq<Byte>>, i: nat, b: seq<Byte>, b': seq<Byte>, csum: bool, name: Name,
                          was: Target, t: Target)
    requires GoodBlocks(blocks, csum, false) && i < |blocks| && GoodBlock(b, csum) && GoodBlock(b', csum)
    requires Entries(b') == Entries(b)
    requires exists n :: ChangedIn(Entries(blocks[i]), Entries(b), Entry(was.inode, n, name, was.kind), t)
    requires Find(Entries(blocks[i]), name) == Some(was) && t.inode != 0
    ensures GoodBlocks(blocks[i := b'], csum, false) && Binds(All(blocks), All(blocks[i := b']), name, Some(t))
  {
    FoundIsLive(Entries(blocks[i]), name);
    hide Tiled, Entries, Find, HasTail, Unique, Binds, ChangedIn;
    var n :| ChangedIn(Entries(blocks[i]), Entries(b), Entry(was.inode, n, name, was.kind), t);
    AllAround(blocks, i, b');
    ChangedBinds(All(blocks[..i]), Entries(blocks[i]), Entries(b), All(blocks[i + 1..]),
                 Entry(was.inode, n, name, was.kind), t);
    BlockBinds(blocks, i, b', csum, name, Some(t));
  }

  lemma {:induction false} FoundIsLive(es: seq<Entry>, name: Name)
    ensures Find(es, name).Some? ==> Find(es, name).value.inode != 0
  {
    if es != [] {
      FoundIsLive(es[1..], name);
    }
  }

  lemma BindsSame(es: seq<Entry>, mid: seq<Entry>, es': seq<Entry>, name: Name, t: Option<Target>)
    requires SameNames(es, mid) && Binds(mid, es', name, t)
    ensures Binds(es, es', name, t)
  {
  }

  // ---- hash-indexed directories ----

  predicate Changeable(blocks: seq<seq<Byte>>, indexed: bool) {
    !indexed || (blocks != [] && Convertible(blocks[0]))
  }

  /** The root of a hash tree without inner nodes: dot, dot-dot over the rest of the block, and the index header
      behind its name. */
  predicate Convertible(b: seq<Byte>) {
    && |b| == BLOCK
    && Decodes(b) && First(b).inode != 0 && First(b).name == [DOT] && First(b).recLen == 12
    && Decodes(b[12..]) && First(b[12..]).inode != 0 && First(b[12..]).name == [DOT, DOT]
    && First(b[12..]).recLen == BLOCK - 12
    && b[24..28] == [0, 0, 0, 0] && b[29] == 8 && b[30] == 0
  }

  lemma ConvertibleLength(b: seq<Byte>)
    requires Convertible(b)
    ensures |b| == BLOCK
  {
  }

  function Converted(b: seq<Byte>, csum: bool): seq<Byte>
    requires |b| == BLOCK
  {
    b[..12] + WithRecLen(b[12..24] + Zeros(Limit(csum) - 24), Limit(csum) - 12) + if csum then TailRecord() else []
  }

  lemma ConvertedBytes(b: seq<Byte>, csum: bool)
    requires |b| == BLOCK
    ensures var lim := Limit(csum);
      var c := Patched(Patched(b, 16, Le16(lim - 12)), 24, Zeros(lim - 24));
      Converted(b, csum)
        == if csum then Patched(Patched(Patched(c, lim, Zeros(TAIL)), lim + 4, Le16(TAIL)), lim + 7, [TAIL_KIND]) else c
  {
    var lim := Limit(csum);
    var c := Patched(Patched(b, 16, Le16(lim - 12)), 24, Zeros(lim - 24));
    var body := b[..12] + WithRecLen(b[12..24] + Zeros(lim - 24), lim - 12);
    RootBody(b, lim);
    if csum {
      TailOver(body, c, lim);
    }
  }

  lemma RootBody(b: seq<Byte>, lim: nat)
    requires |b| == BLOCK && 24 <= lim <= BLOCK
    ensures Patched(Patched(b, 16, Le16(lim - 12)), 24, Zeros(lim - 24))
         == b[..12] + WithRecLen(b[12..24] + Zeros(lim - 24), lim - 12) + b[lim..]
  {
    var c := Patched(Patched(b, 16, Le16(lim - 12)), 24, Zeros(lim - 24));
    var r := WithRecLen(b[12..24] + Zeros(lim - 24), lim - 12);
    assert r == b[12..16] + Le16(lim - 12) + b[18..24] + Zeros(lim - 24);
    assert c == b[..16] + Le16(lim - 12) + b[18..24] + Zeros(lim - 24) + b[lim..];
    assert b[..12] + b[12..16] == b[..16];
  }

  lemma TailOver(body: seq<Byte>, c: seq<Byte>, lim: nat)
    requires |c| == BLOCK && lim == BLOCK - TAIL == |body| && c[..lim] == body
    ensures Patched(Patched(Patched(c, lim, Zeros(TAIL)), lim + 4, Le16(TAIL)), lim + 7,
                    [TAIL_KIND]) == body + TailRecord()
  {
    assert c == body + c[lim..];
  }

  function DotEntry(b: seq<Byte>): Entry
    requires Convertible(b)
  {
    First(b)
  }

  function DotDotEntry(b: seq<Byte>): Entry
    requires Convertible(b)
  {
    First(b[12..])
  }

  lemma DotRecord(b: seq<Byte>)
    requires Convertible(b)
    ensures IsRecord(b[..12]) && First(b[..12]) == DotEntry(b)
  {
    assert b[..12][HEADER..HEADER + 1] == b[HEADER..HEADER + 1];
  }

  lemma DotDotRecord(b: seq<Byte>, csum: bool)
    requires Convertible(b)
    ensures var r := WithRecLen(b[12..24] + Zeros(Limit(csum) - 24), Limit(csum) - 12);
      |r| == Limit(csum) - 12 && IsRecord(r) && First(r) == DotDotEntry(b).(recLen := Limit(csum) - 12)
  {
    var r := b[12..24] + Zeros(Limit(csum) - 24);
    Resized(r, Limit(csum) - 12);
    assert forall i :: 0 <= i < 12 ==> r[i] == b[12..][i];
    assert r[6] == 2 && r[HEADER..HEADER + 2] == b[12..][HEADER..HEADER + 2];
  }

  lemma ConvertedGood(b: seq<Byte>, csum: bool)
    requires Convertible(b)
    ensures GoodBlock(Converted(b, csum), csum)
    ensures Entries(Converted(b, csum))
         == [DotEntry(b), DotDotEntry(b).(recLen := Limit(csum) - 12)] + if csum then [Entry(0, TAIL, [], TAIL_KIND)]
           else []
  {
    ConvertibleLength(b);
    DotRecord(b);
    DotDotRecord(b, csum);
    hide Tiled, Entries, First, Decodes, TailRecord, WithRecLen, Convertible, DotEntry, DotDotEntry;
    var r := WithRecLen(b[12..24] + Zeros(Limit(csum) - 24), Limit(csum) - 12);
    OneRecord(b[..12]);
    OneRecord(r);
    Append(b[..12], r);
    var body := b[..12] + r;
    if csum {
      TailIs();
      OneRecord(TailRecord());
      Append(body, TailRecord());
      assert (body + TailRecord())[..BLOCK - TAIL] == body && (body + TailRecord())[BLOCK - TAIL..] == TailRecord();
    } else {
      assert body + [] == body;
    }
  }

  lemma RootEntries(b: seq<Byte>)
    requires Convertible(b) && Tiled(b)
    ensures Entries(b) == [DotEntry(b), DotDotEntry(b)]
  {
    Peel(b);
    Peel(b[12..]);
    assert b[12..][BLOCK - 12..] == [];
  }

  /** The old root and the new one bind the same names, and stand for the same counts. */
  lemma RootNames(dot: Entry, dotdot: Entry, n: nat, csum: bool, m: Name)
    ensures var es := [dot, dotdot];
      var es' := [dot, dotdot.(recLen := n)] + if csum then [Entry(0, TAIL, [], TAIL_KIND)] else [];
      Count(es', m) == Count(es, m) && Find(es', m) == Find(es, m)
  {
    TwoEntries(dot, dotdot, m);
    TwoEntries(dot, dotdot.(recLen := n), m);
    OneEntry(dotdot, m);
    OneEntry(dotdot.(recLen := n), m);
    OneEntry(Entry(0, TAIL, [], TAIL_KIND), m);
    CountAppend([dot, dotdot.(recLen := n)], if csum then [Entry(0, TAIL, [], TAIL_KIND)] else [], m);
    FindAppend([dot, dotdot.(recLen := n)], if csum then [Entry(0, TAIL, [], TAIL_KIND)] else [], m);
  }

  lemma ConvertedNames(blocks: seq<seq<Byte>>, b: seq<Byte>, csum: bool)
    requires GoodBlocks(blocks, csum, true) && blocks != [] && Convertible(blocks[0]) && GoodBlock(b, csum)
    requires Entries(b) == [DotEntry(blocks[0]), DotDotEntry(blocks[0]).(recLen := Limit(csum) - 12)]
                         + if csum then [Entry(0, TAIL, [], TAIL_KIND)] else []
    ensures GoodBlocks(blocks[0 := b], csum, false) && SameNames(All(blocks), All(blocks[0 := b]))
  {
    RootEntries(blocks[0]);
    hide Tiled, Entries, First, Decodes, Convertible, HasTail, Count, Find;
    AllAround(blocks, 0, b);
    var x, y := All(blocks[..0]), All(blocks[1..]);
    forall m
      ensures Count(All(blocks[0 := b]), m) == Count(All(blocks), m)
      ensures Find(All(blocks[0 := b]), m) == Find(All(blocks), m)
    {
      RootNames(DotEntry(blocks[0]), DotDotEntry(blocks[0]), Limit(csum) - 12, csum, m);
      SameAround(x, Entries(blocks[0]), Entries(b), y, m);
    }
    UniqueSame(All(blocks), All(blocks[0 := b]));
  }

  lemma PreparedAlready(blocks: seq<seq<Byte>>, csum: bool)
    requires GoodBlocks(blocks, csum, false)
    ensures Prepared(blocks, false, blocks)
  {
  }

  lemma ConvertedPrepared(blocks: seq<seq<Byte>>, b: seq<Byte>, csum: bool, after: seq<seq<Byte>>)
    requires GoodBlocks(blocks, csum, true) && blocks != [] && Convertible(blocks[0]) && GoodBlock(b, csum)
    requires after == blocks[0 := b]
    requires Entries(b) == [DotEntry(blocks[0]), DotDotEntry(blocks[0]).(recLen := Limit(csum) - 12)]
                         + if csum then [Entry(0, TAIL, [], TAIL_KIND)] else []
    ensures GoodBlocks(after, csum, false) && Prepared(blocks, true, after)
  {
    hide Tiled, Entries, Convertible, Find, Shielded, HasSlack;
    ConvertedNames(blocks, b, csum);
    ConvertedRest(blocks, b, csum, after);
  }

  /** The converted root shields no name, as before, and has room for any. */
  lemma ConvertedRest(blocks: seq<seq<Byte>>, b: seq<Byte>, csum: bool, after: seq<seq<Byte>>)
    requires AllTiled(blocks) && blocks != [] && Tiled(b) && after == blocks[0 := b] && AllTiled(after)
    requires Convertible(blocks[0])
    requires Entries(b) == [DotEntry(blocks[0]), DotDotEntry(blocks[0]).(recLen := Limit(csum) - 12)]
                         + if csum then [Entry(0, TAIL, [], TAIL_KIND)] else []
    ensures forall m :: Shielded(after, m) <==> Shielded(blocks, m)
    ensures forall n: nat :: n <= MAX_NAME ==> HasSlack(after, n)
  {
    RootEntries(blocks[0]);
    var dot, dotdot := DotEntry(blocks[0]), DotDotEntry(blocks[0]);
    var es := Entries(b);
    RootShields(Entries(blocks[0]), dot);
    RootShields(es, dot);
    forall n: nat | n <= MAX_NAME ensures HasSlack(after, n) {
      assert Roomy(es[1], n);
      assert Slack(Entries(after[0]), n);
    }
    hide Tiled, Entries, Convertible, Behind;
    forall m ensures Shielded(after, m) <==> Shielded(blocks, m) {
      assert forall i :: 0 < i < |blocks| ==> after[i] == blocks[i];
      if i :| 0 <= i < |blocks| && Behind(Entries(blocks[i]), m) {
        assert Behind(Entries(after[i]), m);
      }
    }
  }

  lemma RootShields(es: seq<Entry>, dot: Entry)
    requires 2 <= |es| <= 3 && es[0] == dot && dot.name == [DOT] && es[1].name == [DOT, DOT]
    requires (|es| == 3 ==> es[2].inode == 0)
    ensures forall m :: !Behind(es, m)
  {
  }

  lemma SameAround(x: seq<Entry>, es: seq<Entry>, es': seq<Entry>, y: seq<Entry>, m: Name)
    requires Count(es', m) == Count(es, m) && Find(es', m) == Find(es, m)
    ensures Count(x + es' + y, m) == Count(x + es + y, m) && Find(x + es' + y, m) == Find(x + es + y, m)
  {
    Splice(x, es, es', y, m);
  }

  lemma UniqueSame(es: seq<Entry>, es': seq<Entry>)
    requires Unique(es) && forall m :: Count(es', m) == Count(es, m)
    ensures Unique(es')
  {
    forall m ensures Count(es', m) <= 1 {
      assert Count(es, m) <= 1;
    }
  }
}
