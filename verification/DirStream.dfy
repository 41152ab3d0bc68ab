/** The directory stream a program reads: lower records with mounts laid over them, then the other mounts. */
module DirStream {
  import opened Common
  import opened DirRecords
  import opened DirNames
  import opened DirBlock
  import opened Directory
  import opened Getdents

  datatype Mount = Mount(name: Name, inode: nat, kind: Byte)

  /** One record of the stream, with the type code programs see. */
  datatype Dirent = Dirent(name: Name, inode: nat, kind: Byte)

  /** The type code for a type stored on disk. */
  function TypeCode(kind: Byte): Byte {
    match kind
    case 1 => 8
    case 2 => 4
    case 3 => 2
    case 4 => 6
    case 5 => 1
    case 6 => 12
    case 7 => 10
    case _ => 0
  }

  /** The first mount with the name. */
  function MountOf(mounts: seq<Mount>, name: Name): Option<Mount> {
    if mounts == [] then None else if mounts[0].name == name then Some(mounts[0]) else MountOf(mounts[1..], name)
  }

  /** A lower record as reported: a mount of the same name takes its place. */
  function Overlay(mounts: seq<Mount>, e: Entry): Dirent {
    var m := MountOf(mounts, e.name);
    if m.Some? then Dirent(e.name, m.value.inode, m.value.kind) else Dirent(e.name, e.inode, TypeCode(e.kind))
  }

  function OverlayAll(mounts: seq<Mount>, es: seq<Entry>): (ds: seq<Dirent>)
    ensures |ds| == |es|
  {
    seq(|es|, i requires 0 <= i < |es| => Overlay(mounts, es[i]))
  }

  lemma OverlayName(mounts: seq<Mount>, e: Entry)
    ensures Overlay(mounts, e).name == e.name
  {
  }

  lemma OverlayAppend(mounts: seq<Mount>, xs: seq<Entry>, ys: seq<Entry>)
    ensures OverlayAll(mounts, xs + ys) == OverlayAll(mounts, xs) + OverlayAll(mounts, ys)
  {
  }

  predicate NameIn(es: seq<Entry>, name: Name) {
    exists i :: 0 <= i < |es| && es[i].name == name
  }

  /** The first `n` mounts that no lower record stands for. */
  function Others(mounts: seq<Mount>, es: seq<Entry>, n: nat): seq<Dirent>
    requires n <= |mounts|
  {
    if n == 0 then []
    else Others(mounts, es, n - 1) + if NameIn(es, mounts[n - 1].name) then []
      else [Dirent(mounts[n - 1].name, mounts[n - 1].inode, mounts[n - 1].kind)]
  }

  /** The whole stream. */
  function Listing(mounts: seq<Mount>, es: seq<Entry>): seq<Dirent> {
    OverlayAll(mounts, ShownOf(es)) + Others(mounts, ShownOf(es), |mounts|)
  }

  ghost predicate Marked(mounts: seq<Mount>, shadowed: seq<bool>, es: seq<Entry>) {
    |shadowed| == |mounts| && forall i :: 0 <= i < |mounts| ==> (shadowed[i] <==> NameIn(es, mounts[i].name))
  }

  lemma OthersStep(mounts: seq<Mount>, shadowed: seq<bool>, es: seq<Entry>, n: nat)
    requires Marked(mounts, shadowed, es) && n < |mounts|
    ensures |shadowed| == |mounts|
    ensures Others(mounts, es, n + 1)
         == Others(mounts, es, n) + if shadowed[n] then []
           else [Dirent(mounts[n].name, mounts[n].inode, mounts[n].kind)]
  {
  }

  lemma MarkedSize(mounts: seq<Mount>, shadowed: seq<bool>, es: seq<Entry>)
    requires Marked(mounts, shadowed, es)
    ensures |shadowed| == |mounts|
  {
  }

  datatype Result = Records(records: seq<Dirent>) | TooSmallBuffer

  function Size(ds: seq<Dirent>): nat {
    if ds == [] then 0 else Size(ds[..|ds| - 1]) + DirentLen(ds[|ds| - 1].name)
  }

  class Stream {
    const blocks: seq<seq<Byte>>
    const mounts: seq<Mount>
    var offset: nat
    var lowerDone: bool
    var mountedOffset: nat
    var shadowed: seq<bool>
    /** The lower records the cursor has passed, and everything reported so far. */
    ghost var seen: seq<Entry>
    ghost var out: seq<Dirent>

    ghost predicate Valid()
      reads this
    {
      && AtRecordStart(blocks, offset) && All(blocks) == seen + Rest(blocks, offset)
      && Marked(mounts, shadowed, ShownOf(seen))
      && mountedOffset <= |mounts| && (!lowerDone ==> mountedOffset == 0) && (lowerDone ==> offset == BLOCK * |blocks|)
      && out == OverlayAll(mounts, ShownOf(seen)) + Others(mounts, ShownOf(seen), mountedOffset)
    }

    constructor (blocks: seq<seq<Byte>>, mounts: seq<Mount>)
      requires GoodBlocks(blocks)
      ensures Valid() && out == [] && this.blocks == blocks && this.mounts == mounts
    {
      this.blocks, this.mounts := blocks, mounts;
      offset, lowerDone, mountedOffset, shadowed := 0, false, 0, seq(|mounts|, i => false);
      seen, out := [], [];
      new;
      RestAtStart(blocks);
    }

    /** Mark the mounts the records stand for. */
    method MarkShadowed(records: seq<Entry>)
      requires Marked(mounts, shadowed, ShownOf(seen))
      modifies this`shadowed
      ensures Marked(mounts, shadowed, ShownOf(seen) + records)
    {
      ghost var before := ShownOf(seen);
      assert before + records[..0] == before;
      for i := 0 to |records|
        invariant Marked(mounts, shadowed, before + records[..i])
      {
        assert before + records[..i + 1] == before + records[..i] + [records[i]];
        MarkStep(mounts, shadowed, before + records[..i], records[i]);
        shadowed := seq(|mounts|, j requires 0 <= j < |mounts| && |shadowed| == |mounts| reads this =>
          shadowed[j] || mounts[j].name == records[i].name);
      }
      assert records[..|records|] == records;
    }

    /** Report the mounts that no lower record stood for, as far as they fit. */
    method ReadMounts(used: nat, limit: nat) returns (more: seq<Dirent>)
      requires Valid() && lowerDone
      modifies this`mountedOffset, this`out
      ensures Valid() && lowerDone && out == old(out) + more
      ensures |shadowed| == |mounts|
      ensures mountedOffset < |mounts| ==>
        !shadowed[mountedOffset] && used + Size(more) + DirentLen(mounts[mountedOffset].name) > limit
      ensures used + Size(more) <= limit || more == []
    {
      hide Rest, All, AtRecordStart, ShownOf, Overlay, OverlayAll, Others, Marked;
      more := [];
      var filled := used;
      assert out == out + [];
      MarkedSize(mounts, shadowed, ShownOf(seen));
      while mountedOffset < |mounts|
        invariant Valid() && lowerDone && out == old(out) + more && filled == used + Size(more)
        invariant filled <= limit || more == []
        decreases |mounts| - mountedOffset
      {
        var m := mounts[mountedOffset];
        OthersStep(mounts, shadowed, ShownOf(seen), mountedOffset);
        if !shadowed[mountedOffset] {
          if filled + DirentLen(m.name) > limit {
            return;
          }
          ghost var was := more;
          more := more + [Dirent(m.name, m.inode, m.kind)];
          SizeStep(was, Dirent(m.name, m.inode, m.kind));
          filled := filled + DirentLen(m.name);
          out := out + [Dirent(m.name, m.inode, m.kind)];
        }
        mountedOffset := mountedOffset + 1;
      }
    }

    /** One call with a buffer of `limit` bytes. */
    method Getdents(limit: nat) returns (r: Result)
      requires Valid()
      modifies this
      ensures Valid()
      ensures r.Records? ==> out == old(out) + r.records && Size(r.records) <= limit
      ensures r.TooSmallBuffer? ==> out == old(out) && Blocked(mounts, blocks, out, limit)
      ensures r == Records([]) && limit > 0 ==> out == Listing(mounts, All(blocks))
    {
      hide Rest, All, AtRecordStart, ShownOf, Overlay, OverlayAll, Others, IsLower, Bytes, Marked, Size;
      StartTiled(blocks, offset);
      SizeNone();
      var records: seq<Entry> := [];
      var got: seq<Dirent> := [];
      if !lowerDone {
        var lower := ReadLower(blocks, offset, limit);
        if lower.TooSmall? {
          LowerBlocked(limit);
          return TooSmallBuffer;
        }
        records := lower.records;
        LowerFacts(blocks, offset, limit, lower, seen);
        if records == [] && lower.next < BLOCK * |blocks| && lower.next == offset {
          return Records([]);
        }
        got := OverlayAll(mounts, records);
        SizeOverlay(mounts, records);
        MarkShadowed(records);
        ghost var more := LowerTaken(blocks, offset, limit, lower, seen, mounts);
        OthersNone(mounts, ShownOf(seen + more), ShownOf(seen));
        seen := seen + more;
        out := out + got;
        offset := lower.next;
        if offset < BLOCK * |blocks| {
          return Records(got);
        }
        lowerDone := true;
      }
      var more := ReadMounts(Bytes(records), limit);
      AtEnd(blocks, offset);
      assert seen + [] == seen;
      if got == [] && more == [] && mountedOffset < |mounts| {
        MountBlocked(limit);
        return TooSmallBuffer;
      }
      SizeAppend(got, more);
      return Records(got + more);
    }

    lemma LowerBlocked(limit: nat)
      requires Valid() && !lowerDone && IsLower(blocks, offset, limit, TooSmall) && AllTiled(blocks)
      ensures Blocked(mounts, blocks, out, limit)
    {
      hide AtRecordStart, ShownOf, Marked, All, Rest, Overlay, Others;
      var xs, e, ys :|
        Rest(blocks, offset) == xs + [e] + ys && ShownOf(xs) == [] && Shown(e) && DirentLen(e.name) > limit;
      var front, back := ShownOf(seen), ShownOf(ys);
      ShownAppend(seen, xs + [e] + ys);
      ShownAppend(xs + [e], ys);
      ShownAppend(xs, [e]);
      ShownOne(e);
      assert ShownOf(All(blocks)) == front + ([e] + back);
      assert ShownOf(All(blocks))[|front|] == e;
      OthersNone(mounts, front, front);
      OverlayName(mounts, e);
    }

    lemma MountBlocked(limit: nat)
      requires Valid() && lowerDone && |shadowed| == |mounts| && AllTiled(blocks)
      requires mountedOffset < |mounts| && !shadowed[mountedOffset] && DirentLen(mounts[mountedOffset].name) > limit
      ensures Blocked(mounts, blocks, out, limit)
    {
      hide AtRecordStart, ShownOf, Marked, All, Rest, Others, OverlayAll;
      AtEnd(blocks, offset);
      assert seen + [] == seen;
      OthersStep(mounts, shadowed, ShownOf(seen), mountedOffset);
      OthersPrefix(mounts, ShownOf(seen), mountedOffset + 1, |mounts|);
    }

    /** At any time, what was reported so far is the beginning of the whole stream. */
    lemma ReportedIsPrefix()
      requires Valid()
      ensures out <= Listing(mounts, All(blocks))
    {
      hide AtRecordStart, OverlayAll, ShownOf, Marked, All, Rest;
      StartTiled(blocks, offset);
      var front, rest := ShownOf(seen), ShownOf(Rest(blocks, offset));
      ShownAppend(seen, Rest(blocks, offset));
      OverlayAppend(mounts, front, rest);
      if lowerDone {
        AtEnd(blocks, offset);
        assert seen + [] == seen;
        OthersPrefix(mounts, front, mountedOffset, |mounts|);
      } else {
        OthersNone(mounts, front, front);
        assert out == OverlayAll(mounts, front);
      }
    }
  }

  /** The next record of the stream does not fit into the buffer. */
  ghost predicate Blocked(mounts: seq<Mount>, blocks: seq<seq<Byte>>, out: seq<Dirent>, limit: nat)
    requires AllTiled(blocks)
  {
    var all := Listing(mounts, All(blocks));
    |out| < |all| && DirentLen(all[|out|].name) > limit
  }

  lemma {:induction false} OthersPrefix(mounts: seq<Mount>, es: seq<Entry>, m: nat, n: nat)
    requires m <= n <= |mounts|
    ensures Others(mounts, es, m) <= Others(mounts, es, n)
    decreases n
  {
    if m < n {
      OthersPrefix(mounts, es, m, n - 1);
    }
  }

  lemma SizeNone()
    ensures Size([]) == 0 && Bytes([]) == 0
  {
  }

  lemma {:induction false} SizeOverlay(mounts: seq<Mount>, es: seq<Entry>)
    ensures Size(OverlayAll(mounts, es)) == Bytes(es)
  {
    if es != [] {
      var n := |es| - 1;
      SizeOverlay(mounts, es[..n]);
      assert OverlayAll(mounts, es)[..n] == OverlayAll(mounts, es[..n]);
    }
  }

  lemma {:induction false} SizeAppend(xs: seq<Dirent>, ys: seq<Dirent>)
    ensures Size(xs + ys) == Size(xs) + Size(ys)
    decreases |ys|
  {
    if ys == [] {
      assert xs + ys == xs;
    } else {
      var n := |ys| - 1;
      assert (xs + ys)[..|xs + ys| - 1] == xs + ys[..n];
      SizeAppend(xs, ys[..n]);
    }
  }

  lemma SizeStep(ds: seq<Dirent>, d: Dirent)
    ensures Size(ds + [d]) == Size(ds) + DirentLen(d.name)
  {
    assert (ds + [d])[..|ds|] == ds;
  }

  lemma MarkStep(mounts: seq<Mount>, shadowed: seq<bool>, es: seq<Entry>, e: Entry)
    requires Marked(mounts, shadowed, es)
    ensures Marked(mounts, seq(|mounts|, j requires 0 <= j < |mounts| => shadowed[j] || mounts[j].name == e.name),
                   es + [e])
  {
    forall i | 0 <= i < |mounts|
      ensures NameIn(es + [e], mounts[i].name) <==> NameIn(es, mounts[i].name) || mounts[i].name == e.name
    {
      var all := es + [e];
      assert all[|es|] == e;
      if NameIn(es, mounts[i].name) {
        var j :| 0 <= j < |es| && es[j].name == mounts[i].name;
        assert all[j].name == mounts[i].name;
      }
    }
  }

  lemma LowerFacts(blocks: seq<seq<Byte>>, off: nat, limit: nat, r: Lower, seen: seq<Entry>)
    requires AtRecordStart(blocks, off) && IsLower(blocks, off, limit, r) && r.Lower?
    ensures AtRecordStart(blocks, r.next) && r.next <= BLOCK * |blocks|
    ensures limit > 0 && r.records == [] ==> r.next == BLOCK * |blocks|
    ensures Bytes(r.records) <= limit
  {
  }

  /** The records the cursor moved over. */
  lemma LowerTaken(blocks: seq<seq<Byte>>, off: nat, limit: nat, r: Lower, seen: seq<Entry>, mounts: seq<Mount>)
    returns (xs: seq<Entry>)
    requires AtRecordStart(blocks, off) && IsLower(blocks, off, limit, r) && r.Lower? && AllTiled(blocks)
    requires All(blocks) == seen + Rest(blocks, off)
    ensures AtRecordStart(blocks, r.next) && All(blocks) == seen + xs + Rest(blocks, r.next)
    ensures ShownOf(seen + xs) == ShownOf(seen) + r.records
    ensures OverlayAll(mounts, ShownOf(seen + xs)) == OverlayAll(mounts, ShownOf(seen)) + OverlayAll(mounts, r.records)
  {
    hide Rest, All, ShownOf, OverlayAll, Bytes;
    xs :| Rest(blocks, off) == xs + Rest(blocks, r.next) && r.records == ShownOf(xs);
    ShownAppend(seen, xs);
    OverlayAppend(mounts, ShownOf(seen), r.records);
    assert seen + (xs + Rest(blocks, r.next)) == seen + xs + Rest(blocks, r.next);
  }

  lemma OthersNone(mounts: seq<Mount>, es: seq<Entry>, fs: seq<Entry>)
    ensures Others(mounts, es, 0) == [] && Others(mounts, fs, 0) == []
  {
  }

  lemma StartTiled(blocks: seq<seq<Byte>>, off: nat)
    requires AtRecordStart(blocks, off)
    ensures AllTiled(blocks)
  {
  }

  lemma AtEnd(blocks: seq<seq<Byte>>, off: nat)
    requires AtRecordStart(blocks, off) && off == BLOCK * |blocks|
    ensures Rest(blocks, off) == [] && AllTiled(blocks)
  {
  }

  // ---- each name once ----

  function Times(ds: seq<Dirent>, name: Name): nat {
    if ds == [] then 0 else Times(ds[..|ds| - 1], name) + if ds[|ds| - 1].name == name then 1 else 0
  }

  lemma {:induction false} TimesAppend(xs: seq<Dirent>, ys: seq<Dirent>, name: Name)
    ensures Times(xs + ys, name) == Times(xs, name) + Times(ys, name)
    decreases |ys|
  {
    if ys == [] {
      assert xs + ys == xs;
    } else {
      var n := |ys| - 1;
      assert (xs + ys)[..|xs + ys| - 1] == xs + ys[..n];
      TimesAppend(xs, ys[..n], name);
    }
  }

  /** A shown name is reported as often as it is bound. */
  lemma {:induction false} TimesShown(mounts: seq<Mount>, es: seq<Entry>, name: Name)
    requires name != []
    ensures Times(OverlayAll(mounts, ShownOf(es)), name) == Count(es, name)
    ensures NameIn(ShownOf(es), name) <==> Count(es, name) > 0
  {
    if es != [] {
      var rest := ShownOf(es[1..]);
      TimesShown(mounts, es[1..], name);
      assert ShownOf(es) == if Shown(es[0]) then [es[0]] + rest else rest;
      if Shown(es[0]) {
        OverlayAppend(mounts, [es[0]], rest);
        TimesAppend(OverlayAll(mounts, [es[0]]), OverlayAll(mounts, rest), name);
        TimesOne(Overlay(mounts, es[0]), name);
        assert OverlayAll(mounts, [es[0]]) == [Overlay(mounts, es[0])];
        NameCons(es[0], rest, name);
      }
    }
  }

  lemma TimesOne(d: Dirent, name: Name)
    ensures Times([d], name) == if d.name == name then 1 else 0
  {
    assert [d][..0] == [];
  }

  lemma NameCons(e: Entry, es: seq<Entry>, name: Name)
    ensures NameIn([e] + es, name) <==> e.name == name || NameIn(es, name)
  {
    var all := [e] + es;
    assert all[0] == e;
    if NameIn(es, name) {
      var i :| 0 <= i < |es| && es[i].name == name;
      assert all[i + 1].name == name;
    }
  }

  predicate DistinctMounts(mounts: seq<Mount>) {
    forall i, j :: 0 <= i < j < |mounts| ==> mounts[i].name != mounts[j].name
  }

  lemma {:induction false} TimesOthers(mounts: seq<Mount>, es: seq<Entry>, n: nat, name: Name)
    requires DistinctMounts(mounts) && n <= |mounts|
    ensures Times(Others(mounts, es, n), name)
         == if !NameIn(es, name) && exists i :: 0 <= i < n && mounts[i].name == name then 1 else 0
  {
    if n > 0 {
      TimesOthers(mounts, es, n - 1, name);
      var m := mounts[n - 1];
      if !NameIn(es, m.name) {
        TimesAppend(Others(mounts, es, n - 1), [Dirent(m.name, m.inode, m.kind)], name);
        TimesOne(Dirent(m.name, m.inode, m.kind), name);
      } else {
        assert Others(mounts, es, n) == Others(mounts, es, n - 1);
      }
      assert mounts[n - 1].name == name ==> forall i :: 0 <= i < n - 1 ==> mounts[i].name != name;
    }
  }

  /** Every name that is bound or mounted is listed exactly once, and no other. */
  lemma ListedOnce(mounts: seq<Mount>, es: seq<Entry>, name: Name)
    requires Unique(es) && DistinctMounts(mounts) && name != []
    ensures Times(Listing(mounts, es), name)
         == if Find(es, name).Some? || exists i :: 0 <= i < |mounts| && mounts[i].name == name then 1 else 0
  {
    hide Times, OverlayAll, Others, ShownOf, Count;
    TimesShown(mounts, es, name);
    TimesOthers(mounts, ShownOf(es), |mounts|, name);
    TimesAppend(OverlayAll(mounts, ShownOf(es)), Others(mounts, ShownOf(es), |mounts|), name);
    CountFind(es, name);
    assert Count(es, name) <= 1;
  }
}
