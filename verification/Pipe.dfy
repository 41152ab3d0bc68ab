/** Pipes: a ring buffer over sixteen pages, and calls made of locked sections. */
module Pipe {
  import opened Common

  const PAGE: nat := 4096
  const PAGES: nat := 16
  const SIZE: nat := PAGE * PAGES

  datatype Status = Full | Empty | Normal

  /** A byte and the call that wrote it. */
  datatype Item = Item(writer: nat, byte: bv8)

  /** The bytes one call has put into a stream, in order. */
  function Own(items: seq<Item>, writer: nat): seq<bv8> {
    if items == [] then []
    else Own(items[..|items| - 1], writer) + if items[|items| - 1].writer == writer then [items[|items| - 1].byte]
      else []
  }

  function Tagged(writer: nat, data: seq<bv8>): seq<Item> {
    seq(|data|, i requires 0 <= i < |data| => Item(writer, data[i]))
  }

  /** How many bytes lie between head and tail; equal indices are told apart by the status. */
  function Occupied(head: nat, tail: nat, status: Status): int {
    if status == Empty then 0 else if tail > head then tail - head else tail + SIZE - head
  }

  function Slot(head: nat, i: nat): nat {
    (head + i) % SIZE
  }

  class PipeRingBuffer {
    const frames: array2<bv8>
    var head: nat
    var tail: nat
    var status: Status
    var writersOpen: bool
    var readersOpen: bool
    /** All bytes accepted, all bytes delivered, and those in the ring, with the calls that wrote them. */
    ghost var accepted: seq<Item>
    ghost var delivered: seq<Item>
    ghost var queued: seq<Item>

    ghost predicate Valid()
      reads this, frames
    {
      && frames.Length0 == PAGES && frames.Length1 == PAGE
      && head < SIZE && tail < SIZE && (status == Normal <==> head != tail)
      && |queued| == Occupied(head, tail, status)
      && (forall i :: 0 <= i < |queued| ==> frames[Slot(head, i) / PAGE, Slot(head, i) % PAGE] == queued[i].byte)
      && accepted == delivered + queued
    }

    constructor ()
      ensures Valid() && fresh(frames) && accepted == [] && delivered == [] && readersOpen && writersOpen
    {
      frames := new bv8[PAGES, PAGE];
      head, tail, status, writersOpen, readersOpen := 0, 0, Empty, true, true;
      accepted, delivered, queued := [], [], [];
    }

    method WriteByte(writer: nat, b: bv8)
      requires Valid() && |queued| < SIZE
      modifies this, frames
      ensures Valid() && queued == old(queued) + [Item(writer, b)] && accepted == old(accepted) + [Item(writer, b)]
      ensures delivered == old(delivered) && readersOpen == old(readersOpen) && writersOpen == old(writersOpen)
    {
      RingWrite(head, tail, status);
      status := Normal;
      frames[tail / PAGE, tail % PAGE] := b;
      tail := (tail + 1) % SIZE;
      if tail == head {
        status := Full;
      }
      queued, accepted := queued + [Item(writer, b)], accepted + [Item(writer, b)];
    }

    method ReadByte() returns (b: bv8)
      requires Valid() && |queued| > 0
      modifies this
      ensures Valid() && b == old(queued)[0].byte && queued == old(queued)[1..]
      ensures delivered == old(delivered) + [old(queued)[0]]
      ensures accepted == old(accepted) && readersOpen == old(readersOpen) && writersOpen == old(writersOpen)
    {
      RingRead(head, tail, status);
      b := frames[head / PAGE, head % PAGE];
      status := Normal;
      head := (head + 1) % SIZE;
      if head == tail {
        status := Empty;
      }
      delivered, queued := delivered + [queued[0]], queued[1..];
    }

    method AvailableRead() returns (n: nat)
      requires Valid()
      ensures n == |queued| <= SIZE
    {
      n := Occupied(head, tail, status);
    }

    method AvailableWrite() returns (n: nat)
      requires Valid()
      ensures n == SIZE - |queued|
    {
      var used := AvailableRead();
      n := if status == Full then 0 else SIZE - used;
    }

    /** The locked part of a write: as many bytes as there is room for, none once all readers are gone. */
    method WriteSection(writer: nat, data: seq<bv8>) returns (n: nat)
      requires Valid()
      modifies this, frames
      ensures Valid() && delivered == old(delivered) && readersOpen == old(readersOpen)
      ensures writersOpen == old(writersOpen)
      ensures n == if !readersOpen then 0 else Least(|data|, SIZE - |old(queued)|)
      ensures accepted == old(accepted) + Tagged(writer, data[..n]) && queued == old(queued) + Tagged(writer, data[..n])
    {
      var room := AvailableWrite();
      n := 0;
      assert Tagged(writer, data[..0]) == [];
      while n < room && n < |data|
        invariant 0 <= n <= room && n <= |data| && Valid()
        invariant delivered == old(delivered) && readersOpen == old(readersOpen) && writersOpen == old(writersOpen)
        invariant n > 0 ==> readersOpen
        invariant accepted == old(accepted) + Tagged(writer, data[..n])
        invariant queued == old(queued) + Tagged(writer, data[..n])
      {
        if !readersOpen {
          return;
        }
        TaggedStep(writer, data, n);
        WriteByte(writer, data[n]);
        n := n + 1;
      }
    }

    /** The locked part of a read: as many bytes as there are, up to the limit. */
    method ReadSection(limit: nat) returns (out: seq<bv8>)
      requires Valid()
      modifies this
      ensures Valid() && accepted == old(accepted) && readersOpen == old(readersOpen) && writersOpen == old(writersOpen)
      ensures |out| == Least(limit, |old(queued)|)
      ensures queued == old(queued)[|out|..] && delivered == old(delivered) + old(queued)[..|out|]
      ensures forall i :: 0 <= i < |out| ==> out[i] == old(queued)[i].byte
    {
      var present := AvailableRead();
      out := [];
      while |out| < present && |out| < limit
        invariant |out| <= present && |out| <= limit && Valid()
        invariant accepted == old(accepted) && readersOpen == old(readersOpen) && writersOpen == old(writersOpen)
        invariant queued == old(queued)[|out|..] && delivered == old(delivered) + old(queued)[..|out|]
        invariant forall i :: 0 <= i < |out| ==> out[i] == old(queued)[i].byte
      {
        ghost var was := out;
        var b := ReadByte();
        out := out + [b];
        assert old(queued)[..|was|] + [old(queued)[|was|]] == old(queued)[..|out|];
      }
    }

    /** What other calls do while this one is not holding the lock. */
    method Others(me: nat, acts: seq<Act>)
      requires Valid()
      modifies this, frames
      ensures Valid() && Later(old(accepted), accepted, me) && old(delivered) <= delivered
      ensures (readersOpen ==> old(readersOpen)) && (writersOpen ==> old(writersOpen))
    {
      hide Later, Own;
      LaterSame(accepted, me);
      for k := 0 to |acts|
        invariant Valid() && Later(old(accepted), accepted, me) && old(delivered) <= delivered
        invariant (readersOpen ==> old(readersOpen)) && (writersOpen ==> old(writersOpen))
      {
        match acts[k]
        case Take(limit) =>
          var out := ReadSection(limit);
        case CloseRead =>
          readersOpen := false;
        case CloseWrite =>
          writersOpen := false;
        case Give(other, data) =>
          if other != me && writersOpen {
            ghost var before := accepted;
            var n := WriteSection(other, data);
            LaterWrite(old(accepted), before, accepted, me, other, data[..n]);
          }
      }
    }

    /** A blocking read: wait while the pipe is empty and a writer is left. `None` stands for still waiting after
        the last wake-up. */
    method Read(me: nat, limit: nat, wakes: seq<seq<Act>>) returns (r: Option<seq<bv8>>)
      requires Valid()
      modifies this, frames
      ensures Valid() && Later(old(accepted), accepted, me) && old(delivered) <= delivered
      ensures r.Some? ==> |r.value| <= limit && DeliveredLast(delivered, r.value)
      ensures r == Some([]) ==> limit == 0 || (queued == [] && !writersOpen)
    {
      hide Later, Own;
      LaterSame(accepted, me);
      for k := 0 to |wakes|
        invariant Valid() && Later(old(accepted), accepted, me) && old(delivered) <= delivered
      {
        var present := AvailableRead();
        if present == 0 {
          if !writersOpen {
            return Some([]);
          }
          ghost var before := accepted;
          Others(me, wakes[k]);
          LaterLater(old(accepted), before, accepted, me);
        } else {
          var out := ReadSection(limit);
          return Some(out);
        }
      }
      return None;
    }

    /** A blocking write: go on until all is written or the last reader is gone. */
    method Write(me: nat, data: seq<bv8>, wakes: seq<seq<Act>>) returns (r: Option<nat>)
      requires Valid()
      modifies this, frames
      ensures Valid() && old(delivered) <= delivered
      ensures r.Some? ==> r.value <= |data| && Written(old(accepted), accepted, me, data[..r.value])
      ensures r.Some? ==> r.value == |data| || !readersOpen
    {
      hide Written, Later, Own;
      var done := 0;
      WrittenNone(accepted, me, data);
      for k := 0 to |wakes|
        invariant Valid() && old(delivered) <= delivered
        invariant 0 <= done <= |data| && Written(old(accepted), accepted, me, data[..done])
      {
        ghost var before := accepted;
        var room := AvailableWrite();
        if room == 0 {
          if !readersOpen {
            return Some(done);
          }
          Others(me, wakes[k]);
          WrittenLater(old(accepted), before, accepted, me, data[..done]);
        } else {
          var n := WriteSection(me, data[done..]);
          WrittenMore(old(accepted), before, accepted, me, data, done, n);
          done := done + n;
          if done == |data| || !readersOpen {
            return Some(done);
          }
        }
      }
      return None;
    }

    /** A write that never waits: one locked section. */
    method WriteNonblock(me: nat, data: seq<bv8>) returns (r: Outcome)
      requires Valid()
      modifies this, frames
      ensures Valid() && delivered == old(delivered)
      ensures r == if |old(queued)| == SIZE then (if readersOpen then Again else Broken)
                   else if !readersOpen && data != [] then Broken else Wrote(Least(|data|, SIZE - |old(queued)|))
      ensures accepted == old(accepted) + Tagged(me, if r.Wrote? then data[..r.n] else [])
    {
      var room := AvailableWrite();
      assert Tagged(me, []) == [];
      if room == 0 {
        return if readersOpen then Again else Broken;
      }
      var n := WriteSection(me, data);
      assert data[..0] == [];
      return if !readersOpen && data != [] then Broken else Wrote(n);
    }
  }

  /** Writing at the tail touches no queued byte and lengthens the queue by one. */
  lemma RingWrite(head: nat, tail: nat, status: Status)
    requires head < SIZE && tail < SIZE && (status == Normal <==> head != tail) && Occupied(head, tail, status) < SIZE
    ensures var n := Occupied(head, tail, status);
      var tail' := (tail + 1) % SIZE;
      && Slot(head, n) == tail && Occupied(head, tail', if tail' == head then Full else Normal) == n + 1
      && forall i :: 0 <= i < n ==> Slot(head, i) != tail
  {
  }

  lemma RingRead(head: nat, tail: nat, status: Status)
    requires head < SIZE && tail < SIZE && (status == Normal <==> head != tail) && Occupied(head, tail, status) > 0
    ensures var n := Occupied(head, tail, status);
      var head' := (head + 1) % SIZE;
      && Slot(head, 0) == head && Occupied(head', tail, if head' == tail then Empty else Normal) == n - 1
      && forall i :: 0 <= i < n - 1 ==> Slot(head', i) == Slot(head, i + 1)
  {
  }

  datatype Outcome = Wrote(n: nat) | Again | Broken

  function Least(a: nat, b: nat): nat {
    if a < b then a else b
  }

  /** One locked section of another call. */
  datatype Act = Take(limit: nat) | Give(writer: nat, data: seq<bv8>) | CloseRead | CloseWrite

  /** The stream grew, and the call's own share of it by exactly these bytes in order. */
  ghost predicate Written(before: seq<Item>, after: seq<Item>, me: nat, data: seq<bv8>) {
    before <= after && Own(after, me) == Own(before, me) + data
  }

  lemma WrittenNone(items: seq<Item>, me: nat, data: seq<bv8>)
    ensures Written(items, items, me, data[..0])
  {
  }

  lemma WrittenLater(first: seq<Item>, before: seq<Item>, after: seq<Item>, me: nat, data: seq<bv8>)
    requires Written(first, before, me, data) && Later(before, after, me)
    ensures Written(first, after, me, data)
  {
  }

  lemma WrittenMore(first: seq<Item>, before: seq<Item>, after: seq<Item>, me: nat, data: seq<bv8>, done: nat, n: nat)
    requires done + n <= |data| && Written(first, before, me, data[..done])
    requires after == before + Tagged(me, data[done..][..n])
    ensures Written(first, after, me, data[..done + n])
  {
    OwnTagged(before, me, data[done..][..n]);
    assert data[..done] + data[done..][..n] == data[..done + n];
  }

  lemma LaterSame(items: seq<Item>, me: nat)
    ensures Later(items, items, me)
  {
  }

  /** The stream grew, and not by bytes of this call. */
  ghost predicate Later(before: seq<Item>, after: seq<Item>, me: nat) {
    before <= after && Own(after, me) == Own(before, me)
  }

  /** The bytes are the last ones delivered. */
  ghost predicate DeliveredLast(delivered: seq<Item>, out: seq<bv8>) {
    |out| <= |delivered| && forall i :: 0 <= i < |out| ==> delivered[|delivered| - |out| + i].byte == out[i]
  }

  lemma TaggedStep(writer: nat, data: seq<bv8>, n: nat)
    requires n < |data|
    ensures Tagged(writer, data[..n + 1]) == Tagged(writer, data[..n]) + [Item(writer, data[n])]
  {
  }

  lemma {:induction false} OwnAppend(xs: seq<Item>, ys: seq<Item>, me: nat)
    ensures Own(xs + ys, me) == Own(xs, me) + Own(ys, me)
    decreases |ys|
  {
    if ys == [] {
      assert xs + ys == xs;
    } else {
      var n := |ys| - 1;
      assert (xs + ys)[..|xs + ys| - 1] == xs + ys[..n];
      OwnAppend(xs, ys[..n], me);
    }
  }

  lemma {:induction false} OwnOfTagged(writer: nat, data: seq<bv8>, me: nat)
    ensures Own(Tagged(writer, data), me) == if writer == me then data else []
    decreases |data|
  {
    if data != [] {
      var n := |data| - 1;
      OwnOfTagged(writer, data[..n], me);
      assert Tagged(writer, data)[..n] == Tagged(writer, data[..n]);
      assert data[..n] + [data[n]] == data;
    }
  }

  lemma OwnTagged(before: seq<Item>, me: nat, data: seq<bv8>)
    ensures Own(before + Tagged(me, data), me) == Own(before, me) + data
  {
    OwnAppend(before, Tagged(me, data), me);
    OwnOfTagged(me, data, me);
  }

  lemma LaterWrite(first: seq<Item>, before: seq<Item>, after: seq<Item>, me: nat, other: nat, data: seq<bv8>)
    requires Later(first, before, me) && after == before + Tagged(other, data) && other != me
    ensures Later(first, after, me)
  {
    OwnAppend(before, Tagged(other, data), me);
    OwnOfTagged(other, data, me);
  }

  lemma LaterLater(a: seq<Item>, b: seq<Item>, c: seq<Item>, me: nat)
    requires Later(a, b, me) && Later(b, c, me)
    ensures Later(a, c, me)
  {
  }
}
