/** Reading a directory in pieces: a resumable cursor over the records, and mounts laid over them. */
module Getdents {
  import opened DirRecords
  import opened DirNames
  import opened DirBlock
  import opened Directory

  /** Records that are reported at all. */
  predicate Shown(e: Entry) {
    Live(e) && e.name != []
  }

  function ShownOf(es: seq<Entry>): seq<Entry> {
    if es == [] then [] else (if Shown(es[0]) then [es[0]] else []) + ShownOf(es[1..])
  }

  lemma {:induction false} ShownAppend(xs: seq<Entry>, ys: seq<Entry>)
    ensures ShownOf(xs + ys) == ShownOf(xs) + ShownOf(ys)
  {
    if xs == [] {
      assert xs + ys == ys;
    } else {
      assert (xs + ys)[1..] == xs[1..] + ys;
      ShownAppend(xs[1..], ys);
    }
  }

  /** The size of a record in the caller's buffer. */
  function DirentLen(name: Name): nat {
    (19 + |name| + 1 + 7) / 8 * 8
  }

  function Bytes(es: seq<Entry>): nat {
    if es == [] then 0 else Bytes(es[..|es| - 1]) + DirentLen(es[|es| - 1].name)
  }

  // ---- the cursor ----

  ghost predicate GoodBlocks(blocks: seq<seq<Byte>>) {
    AllTiled(blocks) && forall i :: 0 <= i < |blocks| ==> |blocks[i]| == BLOCK
  }

  /** The cursor is at the start of a record or at the end. */
  ghost predicate AtRecordStart(blocks: seq<seq<Byte>>, off: nat) {
    && GoodBlocks(blocks) && off <= BLOCK * |blocks|
    && (off < BLOCK * |blocks| ==> At(blocks[off / BLOCK], off % BLOCK))
  }

  /** The records from the cursor on. */
  ghost function Rest(blocks: seq<seq<Byte>>, off: nat): seq<Entry>
    requires AtRecordStart(blocks, off)
  {
    if off == BLOCK * |blocks| then []
    else Entries(blocks[off / BLOCK][off % BLOCK..]) + All(blocks[off / BLOCK + 1..])
  }

  lemma RestAtStart(blocks: seq<seq<Byte>>)
    requires GoodBlocks(blocks)
    ensures AtRecordStart(blocks, 0) && Rest(blocks, 0) == All(blocks)
  {
    if blocks != [] {
      AtStart(blocks[0]);
      assert blocks[0][0..] == blocks[0];
    }
  }

  lemma Position(i: nat, o: nat)
    requires o < BLOCK
    ensures (BLOCK * i + o) / BLOCK == i && (BLOCK * i + o) % BLOCK == o
  {
  }

  lemma RestInside(blocks: seq<seq<Byte>>, i: nat, o: nat)
    requires GoodBlocks(blocks) && i < |blocks| && o < BLOCK && At(blocks[i], o)
    ensures AtRecordStart(blocks, BLOCK * i + o)
    ensures Rest(blocks, BLOCK * i + o) == Entries(blocks[i][o..]) + All(blocks[i + 1..])
  {
    hide Tiled, Entries, All;
    Position(i, o);
  }

  lemma RestAfter(blocks: seq<seq<Byte>>, i: nat)
    requires GoodBlocks(blocks) && i <= |blocks|
    ensures AtRecordStart(blocks, BLOCK * i) && Rest(blocks, BLOCK * i) == All(blocks[i..])
  {
    hide Tiled, Entries;
    Position(i, 0);
    if i < |blocks| {
      AtStart(blocks[i]);
      assert blocks[i][0..] == blocks[i];
      assert blocks[i..][0] == blocks[i] && blocks[i..][1..] == blocks[i + 1..];
    } else {
      assert blocks[i..] == [];
    }
  }

  lemma PeelAt(b: seq<Byte>, o: nat)
    requires At(b, o) && o < |b|
    ensures Decodes(b[o..])
    ensures var e, n := First(b[o..]), U16(b[o..], 4);
      e.recLen == n && 0 < n && o + n <= |b| && At(b, o + n) && Entries(b[o..]) == [e] + Entries(b[o + n..])
  {
    hide Tiled, Entries, First;
    AtRecord(b, o);
    FirstFields(b, o);
    Peel(b[o..]);
    assert b[o..][U16(b[o..], 4)..] == b[o + U16(b[o..], 4)..];
  }

  /** One record further. */
  lemma RestStep(blocks: seq<seq<Byte>>, i: nat, o: nat)
    requires GoodBlocks(blocks) && i < |blocks| && o < BLOCK && At(blocks[i], o)
    ensures Decodes(blocks[i][o..])
    ensures var e, n := First(blocks[i][o..]), U16(blocks[i][o..], 4);
      && e.recLen == n && 0 < n && o + n <= BLOCK && At(blocks[i], o + n)
      && AtRecordStart(blocks, BLOCK * i + o) && AtRecordStart(blocks, BLOCK * i + o + n)
      && Rest(blocks, BLOCK * i + o) == [e] + Rest(blocks, BLOCK * i + o + n)
  {
    hide Tiled, Entries, First, Rest, All, Decodes, U16;
    var b := blocks[i];
    PeelAt(b, o);
    HeaderFits(b[o..]);
    var n := U16(b[o..], 4);
    RestInside(blocks, i, o);
    if o + n < BLOCK {
      RestInside(blocks, i, o + n);
    } else {
      RestAfter(blocks, i + 1);
      assert BLOCK * i + o + n == BLOCK * (i + 1);
      NoEntries(b[o + n..]);
    }
  }

  lemma NoEntries(s: seq<Byte>)
    requires s == []
    ensures Tiled(s) && Entries(s) == []
  {
  }

  // ---- the lower directory ----

  datatype Lower = Lower(records: seq<Entry>, next: nat) | TooSmall

  /** Whether a further record fits behind those already in the buffer. */
  predicate Room(records: seq<Entry>, e: Entry, limit: nat) {
    Bytes(records) + DirentLen(e.name) <= limit
  }

  /** What one call may return: the shown records up to the new cursor, stopping early only for lack of room. */
  ghost predicate IsLower(blocks: seq<seq<Byte>>, off: nat, limit: nat, r: Lower)
    requires AtRecordStart(blocks, off)
  {
    match r
    case Lower(records, next) =>
      && AtRecordStart(blocks, next)
      && (exists xs :: Rest(blocks, off) == xs + Rest(blocks, next) && records == ShownOf(xs))
      && Bytes(records) <= limit
      && (next == BLOCK * |blocks| || records != [] || limit == 0)
      && (next < BLOCK * |blocks| && Bytes(records) < limit ==>
            Rest(blocks, next) != [] && Shown(Rest(blocks, next)[0]) && !Room(records, Rest(blocks, next)[0], limit))
    case TooSmall =>
      exists xs, e, ys ::
        Rest(blocks, off) == xs + [e] + ys && ShownOf(xs) == [] && Shown(e) && DirentLen(e.name) > limit
  }

  /** Report records from the cursor on until the next one does not fit. */
  method ReadLower(blocks: seq<seq<Byte>>, off: nat, limit: nat) returns (r: Lower)
    requires AtRecordStart(blocks, off)
    ensures IsLower(blocks, off, limit, r)
  {
    hide Rest, ShownOf, Bytes, Tiled, First, Decodes, At, AtRecordStart, GoodBlocks, U16;
    var next, records: seq<Entry> := off, [];
    ghost var xs: seq<Entry> := [];
    var used := 0;
    StartReading(blocks, off);
    while next < BLOCK * |blocks| && used < limit
      invariant 0 <= next && AtRecordStart(blocks, next) && next <= BLOCK * |blocks|
      invariant Rest(blocks, off) == xs + Rest(blocks, next) && records == ShownOf(xs)
      invariant used == Bytes(records) <= limit
      decreases BLOCK * |blocks| - next
    {
      var i, o := next / BLOCK, next % BLOCK;
      StepFrom(blocks, next);
      var e := First(blocks[i][o..]);
      ShownAppend(xs, [e]);
      ShownOne(e);
      if Shown(e) {
        BytesStep(records, e);
        if used + DirentLen(e.name) > limit {
          if records == [] {
            TooSmallHere(blocks, off, xs, e, Rest(blocks, next + e.recLen), limit);
            return TooSmall;
          }
          return Lower(records, next);
        }
        used, records := used + DirentLen(e.name), records + [e];
      }
      assert xs + ([e] + Rest(blocks, next + e.recLen)) == xs + [e] + Rest(blocks, next + e.recLen);
      xs := xs + [e];
      next := next + e.recLen;
    }
    assert limit > 0 && next < BLOCK * |blocks| ==> records != [] by { BytesNone(); }
    return Lower(records, next);
  }

  lemma StartReading(blocks: seq<seq<Byte>>, off: nat)
    requires AtRecordStart(blocks, off)
    ensures off <= BLOCK * |blocks| && ShownOf([]) == [] && Bytes([]) == 0
    ensures Rest(blocks, off) == [] + Rest(blocks, off)
  {
  }

  lemma BytesNone()
    ensures Bytes([]) == 0
  {
  }

  lemma BytesStep(records: seq<Entry>, e: Entry)
    ensures Bytes(records + [e]) == Bytes(records) + DirentLen(e.name)
    ensures records == [] ==> Bytes(records) == 0
  {
    assert (records + [e])[..|records|] == records;
  }

  lemma ShownOne(e: Entry)
    ensures ShownOf([e]) == if Shown(e) then [e] else []
  {
    assert [e][1..] == [];
  }

  lemma StepFrom(blocks: seq<seq<Byte>>, next: nat)
    requires AtRecordStart(blocks, next) && next < BLOCK * |blocks|
    ensures var i, o := next / BLOCK, next % BLOCK;
      && i < |blocks| && o < |blocks[i]| && Decodes(blocks[i][o..])
      && var e := First(blocks[i][o..]);
        && 0 < e.recLen && next + e.recLen <= BLOCK * |blocks| && AtRecordStart(blocks, next + e.recLen)
        && Rest(blocks, next) == [e] + Rest(blocks, next + e.recLen)
  {
    hide Tiled, Entries, First, Rest, All, Decodes, U16;
    var i, o := next / BLOCK, next % BLOCK;
    assert next == BLOCK * i + o;
    RestStep(blocks, i, o);
  }

  lemma TooSmallHere(blocks: seq<seq<Byte>>, off: nat, xs: seq<Entry>, e: Entry, ys: seq<Entry>, limit: nat)
    requires AtRecordStart(blocks, off) && Rest(blocks, off) == xs + ([e] + ys) && ShownOf(xs) == [] && Shown(e)
    requires DirentLen(e.name) > limit
    ensures IsLower(blocks, off, limit, TooSmall)
  {
    assert xs + ([e] + ys) == xs + [e] + ys;
  }
}
