/** A directory as a list of blocks, and the map from names to targets that it stands for. */
module Directory {
  import opened Common
  import opened DirRecords
  import opened DirNames
  import opened DirBlock

  const DOT: Byte := 46

  // ---- all records of a directory ----

  ghost predicate AllTiled(blocks: seq<seq<Byte>>) {
    forall i :: 0 <= i < |blocks| ==> Tiled(blocks[i])
  }

  function All(blocks: seq<seq<Byte>>): seq<Entry>
    requires AllTiled(blocks)
  {
    if blocks == [] then [] else Entries(blocks[0]) + All(blocks[1..])
  }

  lemma {:induction false} AllAppend(xs: seq<seq<Byte>>, ys: seq<seq<Byte>>)
    requires AllTiled(xs) && AllTiled(ys)
    ensures AllTiled(xs + ys) && All(xs + ys) == All(xs) + All(ys)
  {
    if xs == [] {
      assert xs + ys == ys;
    } else {
      assert (xs + ys)[1..] == xs[1..] + ys;
      AllAppend(xs[1..], ys);
    }
  }

  lemma AllOne(b: seq<Byte>)
    requires Tiled(b)
    ensures AllTiled([b]) && All([b]) == Entries(b)
  {
    assert [b][1..] == [];
  }

  /** The records around block `i`, whatever stands in it. */
  lemma AllAround(blocks: seq<seq<Byte>>, i: nat, b: seq<Byte>)
    requires AllTiled(blocks) && i < |blocks| && Tiled(b)
    ensures AllTiled(blocks[i := b]) && AllTiled(blocks[..i]) && AllTiled(blocks[i + 1..])
    ensures All(blocks[i := b]) == All(blocks[..i]) + Entries(b) + All(blocks[i + 1..])
    ensures All(blocks) == All(blocks[..i]) + Entries(blocks[i]) + All(blocks[i + 1..])
  {
    hide Tiled, Entries;
    AroundOne(blocks, i, b);
    AroundOne(blocks, i, blocks[i]);
    assert blocks[i := blocks[i]] == blocks;
  }

  lemma AroundOne(blocks: seq<seq<Byte>>, i: nat, b: seq<Byte>)
    requires AllTiled(blocks) && i < |blocks| && Tiled(b)
    ensures AllTiled(blocks[i := b]) && AllTiled(blocks[..i]) && AllTiled(blocks[i + 1..])
    ensures All(blocks[i := b]) == All(blocks[..i]) + Entries(b) + All(blocks[i + 1..])
  {
    hide Tiled, Entries;
    AllOne(b);
    AllAppend(blocks[..i], [b]);
    AllAppend(blocks[..i] + [b], blocks[i + 1..]);
    assert blocks[..i] + [b] + blocks[i + 1..] == blocks[i := b];
  }

  // ---- edits of a record list ----

  /** A record is cut short and another one follows it. */
  ghost predicate SplitIn(es: seq<Entry>, es': seq<Entry>, added: Entry) {
    exists xs, e, ys, n :: es == xs + [e] + ys && es' == xs + [e.(recLen := n), added] + ys
  }

  /** The record is swallowed by the one before it, or marked free. */
  ghost predicate GoneFrom(es: seq<Entry>, es': seq<Entry>, e: Entry) {
    || (exists xs, p, ys, n :: es == xs + [p, e] + ys && es' == xs + [p.(recLen := n)] + ys)
    || (exists xs, ys :: es == xs + [e] + ys && es' == xs + [e.(inode := 0)] + ys)
  }

  ghost predicate ChangedIn(es: seq<Entry>, es': seq<Entry>, e: Entry, t: Target) {
    exists xs, ys :: es == xs + [e] + ys && es' == xs + [e.(inode := t.inode, kind := t.kind)] + ys
  }

  lemma SplitBinds(a: seq<Entry>, es: seq<Entry>, es': seq<Entry>, c: seq<Entry>, added: Entry)
    requires SplitIn(es, es', added) && Live(added) && Unique(a + es + c) && Find(a + es + c, added.name) == None
    ensures Binds(a + es + c, a + es' + c, added.name, Some(Target(added.inode, added.kind)))
  {
    var xs, e, ys, n :| es == xs + [e] + ys && es' == xs + [e.(recLen := n), added] + ys;
    assert a + es + c == (a + xs) + [e] + (ys + c);
    assert a + es' + c == (a + xs) + [e.(recLen := n), added] + (ys + c);
    CountFind(a + es + c, added.name);
    Inserted(a + xs, e, ys + c, added, n);
  }

  lemma MergedAround(a: seq<Entry>, xs: seq<Entry>, p: Entry, e: Entry, ys: seq<Entry>, n: nat, c: seq<Entry>)
    requires Live(e) && Unique(a + (xs + [p, e] + ys) + c)
    ensures Binds(a + (xs + [p, e] + ys) + c, a + (xs + [p.(recLen := n)] + ys) + c, e.name, None)
  {
    assert a + (xs + [p, e] + ys) + c == (a + xs) + [p, e] + (ys + c);
    assert a + (xs + [p.(recLen := n)] + ys) + c == (a + xs) + [p.(recLen := n)] + (ys + c);
    Merged(a + xs, p, e, ys + c, n);
  }

  lemma FreedAround(a: seq<Entry>, xs: seq<Entry>, e: Entry, ys: seq<Entry>, c: seq<Entry>)
    requires Live(e) && Unique(a + (xs + [e] + ys) + c)
    ensures Binds(a + (xs + [e] + ys) + c, a + (xs + [e.(inode := 0)] + ys) + c, e.name, None)
  {
    assert a + (xs + [e] + ys) + c == (a + xs) + [e] + (ys + c);
    assert a + (xs + [e.(inode := 0)] + ys) + c == (a + xs) + [e.(inode := 0)] + (ys + c);
    Freed(a + xs, e, ys + c);
  }

  lemma GoneBinds(a: seq<Entry>, es: seq<Entry>, es': seq<Entry>, c: seq<Entry>, e: Entry)
    requires GoneFrom(es, es', e) && Live(e) && Unique(a + es + c)
    ensures Binds(a + es + c, a + es' + c, e.name, None)
  {
    hide Binds, Unique;
    if xs, p, ys, n :| es == xs + [p, e] + ys && es' == xs + [p.(recLen := n)] + ys {
      MergedAround(a, xs, p, e, ys, n, c);
    } else {
      var xs, ys :| es == xs + [e] + ys && es' == xs + [e.(inode := 0)] + ys;
      FreedAround(a, xs, e, ys, c);
    }
  }

  lemma ChangedBinds(a: seq<Entry>, es: seq<Entry>, es': seq<Entry>, c: seq<Entry>, e: Entry, t: Target)
    requires ChangedIn(es, es', e, t) && Live(e) && t.inode != 0 && Unique(a + es + c)
    ensures Binds(a + es + c, a + es' + c, e.name, Some(t))
  {
    var xs, ys :| es == xs + [e] + ys && es' == xs + [e.(inode := t.inode, kind := t.kind)] + ys;
    assert a + es + c == (a + xs) + [e] + (ys + c);
    assert a + es' + c == (a + xs) + [e.(inode := t.inode, kind := t.kind)] + (ys + c);
    Replaced(a + xs, e, ys + c, t.inode, t.kind);
  }

  // ---- scanning one block ----

  datatype Scanned = Found(target: Target) | Absent | Malformed

  /** The first live record with the name, or the first byte that starts no record. */
  function Scan(s: seq<Byte>, name: Name): Scanned
    decreases |s|
  {
    if s == [] then Absent
    else if !Decodes(s) then Malformed
    else if Names(First(s), name) then Found(Target(First(s).inode, First(s).kind))
    else Scan(s[U16(s, 4)..], name)
  }

  function AsScanned(t: Option<Target>): Scanned {
    if t.Some? then Found(t.value) else Absent
  }

  lemma {:induction false} ScanFinds(s: seq<Byte>, name: Name)
    requires Tiled(s)
    ensures Scan(s, name) == AsScanned(Find(Entries(s), name))
    decreases |s|
  {
    if s != [] {
      ScanFinds(s[U16(s, 4)..], name);
      assert Entries(s)[1..] == Entries(s[U16(s, 4)..]);
    }
  }

  method ScanBlock(b: seq<Byte>, name: Name) returns (r: Scanned)
    ensures r == Scan(b, name)
    ensures Tiled(b) ==> r == AsScanned(Find(Entries(b), name))
  {
    var off := 0;
    if Tiled(b) {
      ScanFinds(b, name);
    }
    assert b[0..] == b;
    while off < |b|
      invariant 0 <= off <= |b| && Scan(b[off..], name) == Scan(b, name)
    {
      var s := b[off..];
      if !Decodes(s) {
        return Malformed;
      }
      var e := First(s);
      if Names(e, name) {
        return Found(Target(e.inode, e.kind));
      }
      assert s[e.recLen..] == b[off + e.recLen..];
      off := off + e.recLen;
    }
    assert b[off..] == [];
    return Absent;
  }

  // ---- editing one block ----

  /** The record before the first live one with the name looks like a checksum record: such a name cannot be removed. */
  ghost predicate Behind(es: seq<Entry>, name: Name) {
    exists k :: 0 < k < |es| && Names(es[k], name) && IsTail(es[k - 1]) && Find(es[..k], name) == None
  }

  /** The record can give up enough of its length for a name of `n` bytes. */
  predicate Roomy(e: Entry, n: nat) {
    !IsTail(e) && e.recLen >= RecordLen(|e.name|) + RecordLen(n)
  }

  ghost predicate Slack(es: seq<Entry>, n: nat) {
    exists k :: 0 <= k < |es| && Roomy(es[k], n)
  }

  lemma SlackStep(es: seq<Entry>, e: Entry, n: nat)
    ensures Slack(es + [e], n) <==> Slack(es, n) || Roomy(e, n)
  {
    var all := es + [e];
    assert all[|es|] == e;
    if Slack(es, n) {
      var k :| 0 <= k < |es| && Roomy(es[k], n);
      assert all[k] == es[k];
    }
  }

  lemma SlackIn(xs: seq<Entry>, e: Entry, ys: seq<Entry>, n: nat)
    requires Roomy(e, n)
    ensures Slack(xs + [e] + ys, n)
  {
    assert (xs + [e] + ys)[|xs|] == e;
  }

  lemma {:induction false} FindMember(es: seq<Entry>, name: Name, k: nat)
    requires k < |es| && Names(es[k], name)
    ensures Find(es, name).Some?
  {
    if k > 0 {
      FindMember(es[1..], name, k - 1);
    }
  }

  /** Around the first live record with the name, the record before it decides. */
  lemma BehindSplit(xs: seq<Entry>, e: Entry, ys: seq<Entry>, name: Name)
    requires Find(xs, name) == None && Names(e, name)
    ensures Behind(xs + [e] + ys, name) <==> xs != [] && IsTail(xs[|xs| - 1])
  {
    var es := xs + [e] + ys;
    assert es[..|xs|] == xs && es[|xs|] == e;
    forall k | 0 <= k < |es| && Names(es[k], name) && Find(es[..k], name) == None ensures k == |xs| {
      if k < |xs| {
        FindMember(xs, name, k);
      } else if k > |xs| {
        assert es[..k][|xs|] == e;
        FindMember(es[..k], name, |xs|);
      }
    }
  }

  lemma NotBehind(es: seq<Entry>, name: Name)
    requires Find(es, name) == None
    ensures !Behind(es, name)
  {
    forall k | 0 <= k < |es| ensures !Names(es[k], name) {
      if Names(es[k], name) {
        FindMember(es, name, k);
      }
    }
  }

  /** The same for the record at `off` of a block, behind the one at `prev`. */
  lemma BehindAt(b: seq<Byte>, prev: Option<nat>, off: nat, name: Name)
    requires At(b, off) && off < |b| && Find(Entries(b[..off]), name) == None && Decodes(b[off..])
    requires Names(First(b[off..]), name)
    requires prev.None? ==> off == 0
    requires prev.Some? ==>
      prev.value < off && At(b, prev.value) && prev.value + 6 <= |b| && off == prev.value + U16(b[prev.value..], 4)
    ensures prev.Some? ==> Decodes(b[prev.value..])
    ensures Tiled(b) && (Behind(Entries(b), name) <==> prev.Some? && IsTail(First(b[prev.value..])))
  {
    hide Tiled, Entries, First, Decodes, Find, Behind, IsTail;
    AtRecord(b, off);
    var xs := Entries(b[..off]);
    BehindSplit(xs, First(b[off..]), Entries(b[off + U16(b[off..], 4)..]), name);
    if prev.Some? {
      AtRecord(b, prev.value);
      assert xs[|xs| - 1] == First(b[prev.value..]);
    } else {
      NothingBefore(b);
    }
  }

  lemma NothingBefore(b: seq<Byte>)
    ensures Tiled(b[..0]) && Entries(b[..0]) == []
  {
    assert b[..0] == [];
  }

  /** A whole block of records, with its checksum record where there is one. */
  ghost predicate GoodBlock(b: seq<Byte>, tail: bool) {
    |b| == BLOCK && Tiled(b) && (tail ==> HasTail(b))
  }

  /** Put a record into the slack of the first one that has enough. */
  method InsertIntoBlock(buf: array<Byte>, inode: nat, name: Name, kind: Byte, ghost tail: bool) returns (done: bool)
    requires GoodBlock(buf[..], tail) && 0 < inode < 0x1_0000_0000 && |name| <= MAX_NAME
    modifies buf
    ensures !done ==> buf[..] == old(buf[..])
    ensures done <==> Slack(Entries(old(buf[..])), |name|)
    ensures done ==> GoodBlock(buf[..], tail)
    ensures done ==> exists n :: SplitIn(Entries(old(buf[..])), Entries(buf[..]), Entry(inode, n, name, kind))
  {
    hide Tiled, Entries, First, Decodes, Encoded, HasTail, SplitIn, Live, Slack;
    var b := buf[..];
    var off := 0;
    AtStart(b);
    NoSlack(b, |name|);
    while off < BLOCK
      invariant 0 <= off <= BLOCK && At(b, off) && buf[..] == b && !Slack(Entries(b[..off]), |name|)
      decreases BLOCK - off
    {
      AtRecord(b, off);
      HeaderFits(b[off..]);
      var e := First(b[off..]);
      assert e.recLen == U16(b[off..], 4) && |e.name| == b[off + 6] && buf[off..] == b[off..] by {
        FirstFields(b, off);
      }
      var short := RecordLen(|e.name|);
      if !IsTail(e) && e.recLen >= short + RecordLen(|name|) {
        SlackIn(Entries(b[..off]), e, Entries(b[off + e.recLen..]), |name|);
        PutAt(buf, off, e.recLen, short, inode, name, kind, tail);
        return true;
      }
      SlackStep(Entries(b[..off]), e, |name|);
      off := off + e.recLen;
    }
    assert b[..BLOCK] == b;
    return false;
  }

  /** Cut the record at `off` back to `short` bytes and write a new one behind it. */
  method PutAt(buf: array<Byte>, off: nat, rec: nat, short: nat, inode: nat, name: Name, kind: Byte, ghost tail: bool)
    requires GoodBlock(buf[..], tail) && At(buf[..], off) && off < buf.Length
    requires 0 < inode < 0x1_0000_0000 && |name| <= MAX_NAME
    requires Decodes(buf[off..]) && !IsTail(First(buf[off..])) && off + rec <= buf.Length
    requires rec == U16(buf[off..], 4) && short == RecordLen(buf[off + 6]) && rec >= short + RecordLen(|name|)
    modifies buf
    ensures GoodBlock(buf[..], tail)
    ensures SplitIn(Entries(old(buf[..])), Entries(buf[..]), Entry(inode, rec - short, name, kind))
  {
    hide Tiled, Entries, First, Decodes, Encoded, HasTail, SplitIn, Live, At;
    ghost var b := buf[..];
    assert buf[off..] == b[off..];
    InsertAt(b, off, rec, short, inode, name, kind, tail);
    var done := SetRecLen(buf, off, short);
    done := WriteTo(buf, off + short, inode, rec - short, name, kind);
  }

  lemma NoSlack(b: seq<Byte>, n: nat)
    ensures Tiled(b[..0]) && !Slack(Entries(b[..0]), n)
  {
    assert b[..0] == [];
  }

  lemma FirstFields(b: seq<Byte>, off: nat)
    requires off <= |b| && Decodes(b[off..])
    ensures First(b[off..]).recLen == U16(b[off..], 4) && |First(b[off..]).name| == b[off + 6]
  {
  }

  lemma InsertAt(b: seq<Byte>, off: nat, rec: nat, short: nat, inode: nat, name: Name, kind: Byte, tail: bool)
    requires GoodBlock(b, tail) && At(b, off) && off < |b| && 0 < inode < 0x1_0000_0000 && |name| <= MAX_NAME
    requires Decodes(b[off..]) && !IsTail(First(b[off..]))
    requires rec == U16(b[off..], 4) && short == RecordLen(b[off + 6]) && rec >= short + RecordLen(|name|)
    requires off + rec <= |b|
    ensures HEADER <= short && (rec - short) % 4 == 0 && short % 4 == 0 && rec < 65536
    ensures |Encoded(inode, rec - short, name, kind)| == rec - short
    ensures var b' := SplitBlock(b, off, short, Encoded(inode, rec - short, name, kind));
      GoodBlock(b', tail) && SplitIn(Entries(b), Entries(b'), Entry(inode, rec - short, name, kind))
  {
    hide Tiled, Entries, First, Encoded, HasTail, SplitBlock;
    AtRecord(b, off);
    FirstFields(b, off);
    RealLenFits(b[off..]);
    EncodedDecodes(inode, rec - short, name, kind);
    var added := Encoded(inode, rec - short, name, kind);
    assert HasRoom(b[off..], HEADER) by { Room(b, off, |name|); }
    SplitRecords(b, off, rec, short, added);
    if tail {
      BeforeTail(b, off);
      TailKept(b, SplitBlock(b, off, short, added), off + rec);
    }
  }

  lemma Room(b: seq<Byte>, off: nat, n: nat)
    requires off <= |b| <= BLOCK && Decodes(b[off..]) && U16(b[off..], 4) >= RecordLen(b[off + 6]) + RecordLen(n)
    ensures HasRoom(b[off..], HEADER)
  {
  }

  /** Remove the live record with the name: merge it into the one before it, or free it at the front of the block. It is
      refused behind a record that looks like a checksum record. */
  method RemoveFromBlock(buf: array<Byte>, name: Name, ghost tail: bool)
    returns (gone: Option<Target>, refused: bool)
    requires GoodBlock(buf[..], tail)
    modifies buf
    ensures refused <==> Behind(Entries(old(buf[..])), name)
    ensures gone == if refused then None else Find(Entries(old(buf[..])), name)
    ensures gone.None? ==> buf[..] == old(buf[..])
    ensures gone.Some? ==> GoodBlock(buf[..], tail)
    ensures gone.Some? ==>
      exists n :: GoneFrom(Entries(old(buf[..])), Entries(buf[..]), Entry(gone.value.inode, n, name, gone.value.kind))
  {
    hide Tiled, Entries, First, Decodes, HasTail, GoneFrom, Find, Behind, IsTail;
    var b := buf[..];
    var off, prev: Option<nat> := 0, None;
    AtStart(b);
    FindNone(b, name);
    while off < BLOCK
      invariant 0 <= off <= BLOCK && At(b, off) && buf[..] == b
      invariant Find(Entries(b[..off]), name) == None
      invariant prev.None? ==> off == 0
      invariant prev.Some? ==>
        prev.value < off && At(b, prev.value) && prev.value + 6 <= |b| && off == prev.value + U16(b[prev.value..], 4)
      decreases BLOCK - off
    {
      AtRecord(b, off);
      HeaderFits(b[off..]);
      FindStep(b, off, name);
      var e := First(b[off..]);
      assert e.recLen == U16(b[off..], 4) && buf[off..] == b[off..] by { FirstFields(b, off); }
      if Names(e, name) {
        BehindAt(b, prev, off, name);
        refused := EraseAt(buf, b, prev, off, tail);
        return if refused then None else Some(Target(e.inode, e.kind)), refused;
      }
      prev, off := Some(off), off + e.recLen;
    }
    assert b[..BLOCK] == b;
    NotBehind(Entries(b), name);
    return None, false;
  }

  /** The edit that takes the record at `off` out, given where the record before it starts; a checksum record takes
      nothing in. */
  method EraseAt(buf: array<Byte>, b: seq<Byte>, prev: Option<nat>, off: nat, ghost tail: bool) returns (refused: bool)
    requires buf[..] == b && GoodBlock(b, tail) && At(b, off) && off < |b| && Decodes(b[off..]) && Live(First(b[off..]))
    requires prev.Some? ==>
      prev.value < off && At(b, prev.value) && prev.value + 6 <= |b| && off == prev.value + U16(b[prev.value..], 4)
    modifies buf
    ensures prev.Some? ==> Decodes(b[prev.value..])
    ensures refused <==> prev.Some? && IsTail(First(b[prev.value..]))
    ensures refused ==> buf[..] == b
    ensures !refused ==> GoodBlock(buf[..], tail) && GoneFrom(Entries(b), Entries(buf[..]), First(b[off..]))
  {
    hide Tiled, Entries, Decodes, First, HasTail, GoneFrom, IsTail;
    assert buf[off..] == b[off..];
    if prev.Some? {
      MergeAt(b, prev.value, off, tail);
      if IsTail(First(b[prev.value..])) {
        return true;
      }
      FirstFields(b, prev.value);
      FirstFields(b, off);
      assert buf[prev.value..] == b[prev.value..];
      var ok := SetRecLen(buf, prev.value, First(b[prev.value..]).recLen + First(b[off..]).recLen);
    } else {
      FreeAt(b, off, tail);
      var ok := SetInode(buf, off, 0);
    }
    return false;
  }

  lemma FindNone(b: seq<Byte>, name: Name)
    requires At(b, 0)
    ensures Find(Entries(b[..0]), name) == None
  {
    assert b[..0] == [];
  }

  lemma FindStep(b: seq<Byte>, off: nat, name: Name)
    requires At(b, off) && off < |b| && Find(Entries(b[..off]), name) == None
    ensures Decodes(b[off..]) && Tiled(b)
    ensures var e, n := First(b[off..]), U16(b[off..], 4);
      && off + n <= |b| && At(b, off + n)
      && (Names(e, name) ==> Find(Entries(b), name) == Some(Target(e.inode, e.kind)))
      && (!Names(e, name) ==> Find(Entries(b[..off + n]), name) == None)
  {
    hide First, Decodes, Tiled, Entries, Find;
    AtRecord(b, off);
    var e, n := First(b[off..]), U16(b[off..], 4);
    OneEntry(e, name);
    FindAppend(Entries(b[..off]), [e], name);
    FindAppend(Entries(b[..off]) + [e], Entries(b[off + n..]), name);
  }

  lemma MergeAt(b: seq<Byte>, prev: nat, off: nat, tail: bool)
    requires GoodBlock(b, tail) && At(b, prev) && At(b, off) && prev < off < |b| && off == prev + U16(b[prev..], 4)
    requires Decodes(b[off..]) && Live(First(b[off..]))
    ensures Decodes(b[prev..])
    ensures var sum := U16(b[prev..], 4) + U16(b[off..], 4);
      && prev + sum <= |b| && sum % 4 == 0 && sum < 65536 && RecordLen(b[prev + 6]) <= sum
      && GoodBlock(Patched(b, prev + 4, Le16(sum)), tail)
      && GoneFrom(Entries(b), Entries(Patched(b, prev + 4, Le16(sum))), First(b[off..]))
  {
    hide Tiled, Entries, First, HasTail, Patched;
    AtRecord(b, prev);
    AtRecord(b, off);
    MergeRecords(b, prev, off, off + U16(b[off..], 4));
    RealLenFits(b[prev..]);
    FirstFields(b, prev);
    var sum := U16(b[prev..], 4) + U16(b[off..], 4);
    if tail {
      BeforeTail(b, off);
      TailKept(b, Patched(b, prev + 4, Le16(sum)), prev + sum);
    }
  }

  lemma FreeAt(b: seq<Byte>, off: nat, tail: bool)
    requires GoodBlock(b, tail) && At(b, off) && off < |b| && Decodes(b[off..]) && Live(First(b[off..]))
    ensures off + 4 <= |b| && GoodBlock(Patched(b, off, Le32(0)), tail)
    ensures GoneFrom(Entries(b), Entries(Patched(b, off, Le32(0))), First(b[off..]))
  {
    hide Tiled, Entries, First, HasTail, Patched, Decodes, U16, GoneFrom;
    HeaderFits(b[off..]);
    AtRecord(b, off);
    ClearInode(b, off);
    RetargetRecords(b, off, off + U16(b[off..], 4), 0, b[off + 7]);
    KindAt(b, off);
    var b', n := Patched(b, off, Le32(0)), U16(b[off..], 4);
    assert GoneFrom(Entries(b), Entries(b'), First(b[off..])) by {
      FreedHere(Entries(b), Entries(b'), Entries(b[..off]), First(b[off..]), Entries(b[off + n..]));
    }
    if tail {
      NotTail(First(b[off..]));
      BeforeTail(b, off);
      TailKept(b, b', off + n);
    }
  }

  lemma FreedHere(es: seq<Entry>, es': seq<Entry>, xs: seq<Entry>, e: Entry, ys: seq<Entry>)
    requires es == xs + [e] + ys && es' == xs + [e.(inode := 0)] + ys
    ensures GoneFrom(es, es', e)
  {
  }

  lemma NotTail(e: Entry)
    requires Live(e)
    ensures !IsTail(e)
  {
  }

  lemma KindAt(b: seq<Byte>, off: nat)
    requires off <= |b| && Decodes(b[off..])
    ensures First(b[off..]).(inode := 0, kind := b[off + 7]) == First(b[off..]).(inode := 0)
  {
  }

  /** Point the live record with the name somewhere else. */
  method ReplaceInBlock(buf: array<Byte>, name: Name, t: Target, ghost tail: bool) returns (was: Option<Target>)
    requires GoodBlock(buf[..], tail) && 0 < t.inode < 0x1_0000_0000
    modifies buf
    ensures was == Find(Entries(old(buf[..])), name)
    ensures was.None? ==> buf[..] == old(buf[..])
    ensures was.Some? ==> GoodBlock(buf[..], tail)
    ensures was.Some? ==>
      exists n :: ChangedIn(Entries(old(buf[..])), Entries(buf[..]), Entry(was.value.inode, n, name, was.value.kind), t)
  {
    hide Tiled, Entries, First, Decodes, HasTail, ChangedIn, Find;
    var b := buf[..];
    var off := 0;
    AtStart(b);
    FindNone(b, name);
    while off < BLOCK
      invariant 0 <= off <= BLOCK && At(b, off) && buf[..] == b
      invariant Find(Entries(b[..off]), name) == None
      decreases BLOCK - off
    {
      AtRecord(b, off);
      HeaderFits(b[off..]);
      FindStep(b, off, name);
      var e := First(b[off..]);
      assert e.recLen == U16(b[off..], 4) && buf[off..] == b[off..] by { FirstFields(b, off); }
      if Names(e, name) {
        ReplaceAt(b, off, t, tail);
        var ok := SetInode(buf, off, t.inode);
        assert buf[off..] == Patched(b, off, Le32(t.inode))[off..];
        ok := SetFileType(buf, off, t.kind);
        return Some(Target(e.inode, e.kind));
      }
      off := off + e.recLen;
    }
    assert b[..BLOCK] == b;
    return None;
  }

  lemma ReplaceAt(b: seq<Byte>, off: nat, t: Target, tail: bool)
    requires GoodBlock(b, tail) && At(b, off) && off < |b| && Decodes(b[off..]) && Live(First(b[off..]))
    requires t.inode < 0x1_0000_0000
    ensures var b' := Patched(Patched(b, off, Le32(t.inode)), off + 7, [t.kind]);
      GoodBlock(b', tail) && ChangedIn(Entries(b), Entries(b'), First(b[off..]), t)
    ensures Decodes(Patched(b, off, Le32(t.inode))[off..])
  {
    hide Tiled, Entries, HasTail;
    AtRecord(b, off);
    RetargetRecords(b, off, off + U16(b[off..], 4), t.inode, t.kind);
    StillDecodes(b, off, t.inode);
    if tail {
      BeforeTail(b, off);
      TailKept(b, Patched(Patched(b, off, Le32(t.inode)), off + 7, [t.kind]), off + U16(b[off..], 4));
    }
  }

  lemma StillDecodes(b: seq<Byte>, off: nat, inode: nat)
    requires off <= |b| && Decodes(b[off..]) && inode < 0x1_0000_0000
    ensures Decodes(Patched(b, off, Le32(inode))[off..])
  {
    var s, s' := b[off..], Patched(b, off, Le32(inode))[off..];
    assert forall i :: 4 <= i < |s| ==> s'[i] == s[i];
  }

  lemma ThreeRecords(x: seq<Byte>, y: seq<Byte>, z: seq<Byte>)
    requires IsRecord(x) && IsRecord(y) && IsRecord(z)
    ensures Tiled(x + y + z) && Entries(x + y + z) == [First(x), First(y)] + [First(z)] + []
  {
    hide Tiled, Entries, First;
    OneRecord(x);
    OneRecord(y);
    OneRecord(z);
    Append(x, y);
    Append(x + y, z);
  }

  lemma ThirdFound(p: Entry, q: Entry, e: Entry, name: Name)
    requires p.name != name && !Live(q) && Names(e, name)
    ensures Find([p, q], name) == None && Find([p, q] + [e] + [], name) == Some(Target(e.inode, e.kind))
  {
    TwoEntries(p, q, name);
    OneEntry(q, name);
    OneEntry(e, name);
    FindAppend([p, q], [e], name);
    assert [p, q] + [e] + [] == [p, q] + [e];
  }

  /** A name behind a record that looks like a checksum record: it is bound, and cannot be removed. */
  lemma BehindExample() returns (b: seq<Byte>, name: Name)
    ensures GoodBlock(b, false) && Find(Entries(b), name) == Some(Target(6, 1)) && Behind(Entries(b), name)
  {
    name := [98];
    var x, y, z := Encoded(5, 12, [97], 1), Encoded(0, 12, [], TAIL_KIND), Encoded(6, 4072, name, 1);
    EncodedDecodes(5, 12, [97], 1);
    EncodedDecodes(0, 12, [], TAIL_KIND);
    EncodedDecodes(6, 4072, name, 1);
    hide Encoded, IsRecord, First, Tiled, Entries, Find, Behind;
    b := x + y + z;
    ThreeRecords(x, y, z);
    ThirdFound(First(x), First(y), First(z), name);
    BehindSplit([First(x), First(y)], First(z), [], name);
  }
}
