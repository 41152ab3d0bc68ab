/** The physical frame allocator: a bump pointer and three recycle stacks of 4K, 2M and 1G blocks. */
module FrameAllocator {
  import opened Common

  const MEGA: nat := 512
  const GIGA: nat := 262144

  datatype PageSize = Page4K | Page2M | Page1G

  function NumPages(size: PageSize): nat {
    match size
    case Page4K => 1
    case Page2M => MEGA
    case Page1G => GIGA
  }

  /** A block that was handed out and not yet returned. */
  datatype Block = Block(ppn: nat, size: PageSize)

  /** 1 when page `p` lies in the `len` pages from `base`. */
  function Has(base: nat, len: nat, p: nat): nat {
    if base <= p < base + len then 1 else 0
  }

  /** 1 when page `p` lies in `[lo, hi)`. */
  function Between(lo: nat, hi: nat, p: nat): nat {
    if lo <= p < hi then 1 else 0
  }

  /** How many blocks of a recycle stack contain page `p`. */
  function Covering(stack: seq<nat>, unit: nat, p: nat): nat {
    if stack == [] then 0
    else Covering(stack[..|stack| - 1], unit, p) + Has(stack[|stack| - 1], unit, p)
  }

  function CoveringOut(out: seq<Block>, p: nat): nat {
    if out == [] then 0
    else CoveringOut(out[..|out| - 1], p) + Has(out[|out| - 1].ppn, NumPages(out[|out| - 1].size), p)
  }

  function PagesOut(out: seq<Block>): nat {
    if out == [] then 0
    else PagesOut(out[..|out| - 1]) + NumPages(out[|out| - 1].size)
  }

  predicate IsAligned(ppn: nat, size: PageSize) {
    match size
    case Page4K => true
    case Page2M => ppn % MEGA == 0
    case Page1G => ppn % GIGA == 0
  }

  predicate Aligned(stack: seq<nat>, size: PageSize) {
    forall i :: 0 <= i < |stack| ==> IsAligned(stack[i], size)
  }

  /** The next block boundary at or after `x`. */
  function RoundUp(x: nat, size: PageSize): (r: nat)
    ensures x <= r < x + NumPages(size) && IsAligned(r, size)
  {
    match size
    case Page4K => x
    case Page2M => ((x + MEGA - 1) / MEGA) * MEGA
    case Page1G => ((x + GIGA - 1) / GIGA) * GIGA
  }

  lemma Push(stack: seq<nat>, x: nat, unit: nat, p: nat)
    ensures Covering(stack + [x], unit, p) == Covering(stack, unit, p) + Has(x, unit, p)
  {
    assert (stack + [x])[..|stack|] == stack;
  }

  lemma PushOut(out: seq<Block>, b: Block, p: nat)
    ensures CoveringOut(out + [b], p) == CoveringOut(out, p) + Has(b.ppn, NumPages(b.size), p)
    ensures PagesOut(out + [b]) == PagesOut(out) + NumPages(b.size)
  {
    assert (out + [b])[..|out|] == out;
  }

  function Without(out: seq<Block>, i: nat): seq<Block>
    requires i < |out|
  {
    out[..i] + out[i + 1..]
  }

  lemma {:induction false} TakeOut(out: seq<Block>, i: nat, p: nat)
    requires i < |out|
    ensures CoveringOut(out, p) == CoveringOut(Without(out, i), p) + Has(out[i].ppn, NumPages(out[i].size), p)
    ensures PagesOut(out) == PagesOut(Without(out, i)) + NumPages(out[i].size)
    decreases |out|
  {
    var n := |out| - 1;
    if i == n {
      assert Without(out, i) == out[..n];
    } else {
      TakeOut(out[..n], i, p);
      assert Without(out, i)[..n - 1] == Without(out[..n], i);
      assert Without(out, i)[n - 1] == out[n];
    }
  }

  lemma {:induction false} CoveringMember(stack: seq<nat>, unit: nat, i: nat)
    requires i < |stack| && unit > 0
    ensures Covering(stack, unit, stack[i]) >= 1
    decreases |stack|
  {
    if i < |stack| - 1 {
      CoveringMember(stack[..|stack| - 1], unit, i);
    }
  }

  /** How many blocks of the three stacks contain page `p`. */
  function Stacked(std: seq<nat>, mega: seq<nat>, giga: seq<nat>, p: nat): nat {
    Covering(std, 1, p) + Covering(mega, MEGA, p) + Covering(giga, GIGA, p)
  }

  function StackedPages(std: seq<nat>, mega: seq<nat>, giga: seq<nat>): nat {
    |std| + |mega| * MEGA + |giga| * GIGA
  }

  /** Some caller holds exactly this block. */
  predicate Held(out: seq<Block>, ppn: nat, size: PageSize) {
    exists i :: 0 <= i < |out| && out[i] == Block(ppn, size)
  }

  class StackFrameAllocator {
    var current: nat
    var end: nat
    var std: seq<nat>
    var mega: seq<nat>
    var giga: seq<nat>
    /** First page handed to `Init`, and the blocks that callers hold. */
    ghost var base: nat
    ghost var out: seq<Block>

    /** How often page `p` is accounted for: free in a stack, untouched, or held by a caller. */
    ghost function Accounts(p: nat): nat
      reads this
    {
      Stacked(std, mega, giga, p) + Between(current, end, p) + CoveringOut(out, p)
    }

    /** The source's `free_frames`. */
    function FreeFrames(): nat
      reads this
    {
      (if current <= end then end - current else 0) + StackedPages(std, mega, giga)
    }

    ghost predicate OutAligned()
      reads this
    {
      forall i :: 0 <= i < |out| ==> IsAligned(out[i].ppn, out[i].size)
    }

    /** Free stacks, untouched range and held blocks partition the managed pages, all blocks aligned. */
    ghost predicate Valid()
      reads this
    {
      && base <= current <= end
      && (forall p :: Accounts(p) == Between(base, end, p))
      && Aligned(mega, Page2M) && Aligned(giga, Page1G) && OutAligned()
      && FreeFrames() + PagesOut(out) == end - base
    }

    constructor ()
      ensures Valid() && base == end == 0 && out == []
    {
      current, end, std, mega, giga := 0, 0, [], [], [];
      base, out := 0, [];
    }

    method Init(l: nat, r: nat)
      requires Valid() && end == 0 && out == [] && std == mega == giga == [] && l <= r
      modifies this
      ensures Valid() && base == l && end == r && out == [] && FreeFrames() == r - l && std == mega == giga == []
    {
      current, end := l, r;
      base := l;
    }

    /** Hand the pages of `[pos, stop)` to the stacks, largest blocks first. */
    method RecycleRange(start: nat, stop: nat)
      requires start <= stop && Aligned(mega, Page2M) && Aligned(giga, Page1G)
      modifies this`std, this`mega, this`giga
      ensures Aligned(mega, Page2M) && Aligned(giga, Page1G)
      ensures forall p :: Stacked(std, mega, giga, p) == old(Stacked(std, mega, giga, p)) + Between(start, stop, p)
      ensures StackedPages(std, mega, giga) == old(StackedPages(std, mega, giga)) + stop - start
    {
      var pos := start;
      while pos < stop
        invariant start <= pos <= stop
        invariant Aligned(mega, Page2M) && Aligned(giga, Page1G)
        invariant forall p :: Stacked(std, mega, giga, p) == old(Stacked(std, mega, giga, p)) + Between(start, pos, p)
        invariant StackedPages(std, mega, giga) == old(StackedPages(std, mega, giga)) + pos - start
      {
        if pos % GIGA == 0 && stop - pos >= GIGA {
          PushAll(giga, pos, GIGA);
          giga, pos := giga + [pos], pos + GIGA;
        } else if pos % MEGA == 0 && stop - pos >= MEGA {
          PushAll(mega, pos, MEGA);
          mega, pos := mega + [pos], pos + MEGA;
        } else {
          PushAll(std, pos, 1);
          std, pos := std + [pos], pos + 1;
        }
      }
    }

    /** Push every unit of a block except the first one, which is the result. */
    method SplitMega(mega: nat) returns (ppn: nat)
      modifies this`std
      ensures ppn == mega && |std| == old(|std|) + MEGA - 1
      ensures forall p :: Covering(std, 1, p) + Has(mega, 1, p) == old(Covering(std, 1, p)) + Has(mega, MEGA, p)
    {
      for i := 1 to MEGA
        invariant |std| == old(|std|) + i - 1
        invariant forall p :: Covering(std, 1, p) + Has(mega, 1, p) == old(Covering(std, 1, p)) + Has(mega, i, p)
      {
        PushAll(std, mega + i, 1);
        std := std + [mega + i];
      }
      ppn := mega;
    }

    method SplitGiga(giga: nat) returns (ppn: nat)
      requires Aligned(mega, Page2M) && IsAligned(giga, Page1G)
      modifies this`mega
      ensures ppn == giga && Aligned(mega, Page2M) && |mega| == old(|mega|) + GIGA / MEGA - 1
      ensures forall p ::
        Covering(mega, MEGA, p) + Has(giga, MEGA, p) == old(Covering(mega, MEGA, p)) + Has(giga, GIGA, p)
    {
      for i := 1 to GIGA / MEGA
        invariant |mega| == old(|mega|) + i - 1 && Aligned(mega, Page2M)
        invariant forall p :: Covering(mega, MEGA, p) + Has(giga, MEGA, p)
                           == old(Covering(mega, MEGA, p)) + Has(giga, i * MEGA, p)
      {
        var unit := giga + i * MEGA;
        MegaInGiga(giga, i);
        PushAll(mega, unit, MEGA);
        mega := mega + [unit];
      }
      ppn := giga;
    }

    /** Record that the block `ppn` is now held by the caller. */
    ghost method Hold(ppn: nat, size: PageSize)
      requires base <= current <= end && IsAligned(ppn, size) && OutAligned()
      requires Aligned(mega, Page2M) && Aligned(giga, Page1G)
      requires forall p :: Accounts(p) + Has(ppn, NumPages(size), p) == Between(base, end, p)
      requires FreeFrames() + PagesOut(out) + NumPages(size) == end - base
      modifies this`out
      ensures Valid() && out == old(out) + [Block(ppn, size)]
    {
      forall p ensures CoveringOut(out + [Block(ppn, size)], p) == CoveringOut(out, p) + Has(ppn, NumPages(size), p) {
        PushOut(out, Block(ppn, size), p);
      }
      PushOut(out, Block(ppn, size), 0);
      forall p ensures CoveringOut(out + [Block(ppn, size)], p) + Stacked(std, mega, giga, p)
          + Between(current, end, p) == Between(base, end, p)
      {
        assert Accounts(p) + Has(ppn, NumPages(size), p) == Between(base, end, p);
      }
      out := out + [Block(ppn, size)];
    }

    /** Record that the caller no longer holds block number `i`; the inverse of `Hold`. */
    ghost method Release(i: nat)
      requires Valid() && i < |out|
      modifies this`out
      ensures out == Without(old(out), i) && base <= current <= end && OutAligned()
      ensures Aligned(mega, Page2M) && Aligned(giga, Page1G)
      ensures var b := old(out)[i];
        && (forall p :: Accounts(p) + Has(b.ppn, NumPages(b.size), p) == Between(base, end, p))
        && FreeFrames() + PagesOut(out) + NumPages(b.size) == end - base && IsAligned(b.ppn, b.size)
    {
      forall p
        ensures CoveringOut(out, p) == CoveringOut(Without(out, i), p) + Has(out[i].ppn, NumPages(out[i].size), p)
      {
        TakeOut(out, i, p);
      }
      TakeOut(out, i, 0);
      out := Without(out, i);
    }

    method AllocStd() returns (r: Option<nat>)
      requires Valid()
      modifies this
      ensures Valid() && base == old(base) && end == old(end)
      ensures r.None? <==> old(FreeFrames()) == 0
      ensures r.None? ==> out == old(out)
      ensures r.Some? ==> out == old(out) + [Block(r.value, Page4K)]
    {
      if |std| > 0 {
        var ppn := std[|std| - 1];
        std := std[..|std| - 1];
        Hold(ppn, Page4K);
        return Some(ppn);
      } else if |mega| > 0 {
        var block := mega[|mega| - 1];
        mega := mega[..|mega| - 1];
        var ppn := SplitMega(block);
        Hold(ppn, Page4K);
        return Some(ppn);
      } else if current < end {
        current := current + 1;
        Hold(current - 1, Page4K);
        return Some(current - 1);
      } else if |giga| > 0 {
        var block := giga[|giga| - 1];
        giga := giga[..|giga| - 1];
        var first := SplitGiga(block);
        var ppn := SplitMega(first);
        Hold(ppn, Page4K);
        return Some(ppn);
      }
      return None;
    }

    method AllocMega() returns (r: Option<nat>)
      requires Valid()
      modifies this
      ensures Valid() && base == old(base) && end == old(end)
      ensures r.None? <==> old(mega == [] && giga == [] && RoundUp(current, Page2M) + MEGA > end)
      ensures r.None? ==> out == old(out)
      ensures r.Some? ==> out == old(out) + [Block(r.value, Page2M)]
    {
      if |mega| > 0 {
        var ppn := mega[|mega| - 1];
        mega := mega[..|mega| - 1];
        Hold(ppn, Page2M);
        return Some(ppn);
      } else if |giga| > 0 {
        var block := giga[|giga| - 1];
        giga := giga[..|giga| - 1];
        var ppn := SplitGiga(block);
        Hold(ppn, Page2M);
        return Some(ppn);
      }
      var aligned := RoundUp(current, Page2M);
      if aligned + MEGA > end {
        return None;
      }
      RecycleRange(current, aligned);
      current := aligned + MEGA;
      Hold(aligned, Page2M);
      return Some(aligned);
    }

    method AllocGiga() returns (r: Option<nat>)
      requires Valid()
      modifies this
      ensures Valid() && base == old(base) && end == old(end)
      ensures r.None? <==> old(giga == [] && RoundUp(current, Page1G) + GIGA > end)
      ensures r.None? ==> out == old(out)
      ensures r.Some? ==> out == old(out) + [Block(r.value, Page1G)]
    {
      if |giga| > 0 {
        var ppn := giga[|giga| - 1];
        giga := giga[..|giga| - 1];
        Hold(ppn, Page1G);
        return Some(ppn);
      }
      var aligned := RoundUp(current, Page1G);
      if aligned + GIGA > end {
        return None;
      }
      RecycleRange(current, aligned);
      current := aligned + GIGA;
      Hold(aligned, Page1G);
      return Some(aligned);
    }

    method Alloc(size: PageSize) returns (r: Option<nat>)
      requires Valid()
      modifies this
      ensures Valid() && base == old(base) && end == old(end)
      ensures r.None? ==> out == old(out)
      ensures r.Some? ==> out == old(out) + [Block(r.value, size)]
      ensures size == Page4K ==> (r.None? <==> old(FreeFrames()) == 0)
    {
      match size
      case Page4K => r := AllocStd();
      case Page2M => r := AllocMega();
      case Page1G => r := AllocGiga();
    }

    /** Take a block back. The test of the source lets blocks pass that nobody holds; each of those leaves a page that
        is accounted for twice. */
    method Dealloc(ppn: nat, size: PageSize) returns (panicked: bool)
      requires Valid()
      modifies this
      ensures base == old(base) && end == old(end)
      ensures panicked <==> ppn >= end || ppn in old(Stack(size))
      ensures panicked ==> Valid() && out == old(out) && FreeFrames() == old(FreeFrames())
      ensures Held(old(out), ppn, size) ==>
        !panicked && exists i :: 0 <= i < |old(out)| && old(out)[i] == Block(ppn, size) && out == Without(old(out), i)
      ensures !panicked ==> (Valid() <==> Held(old(out), ppn, size)) && Stack(size) == old(Stack(size)) + [ppn]
      ensures !panicked ==> FreeFrames() == old(FreeFrames()) + NumPages(size)
    {
      ghost var held := Held(out, ppn, size);
      ghost var i: nat;
      if held {
        i :| i < |out| && out[i] == Block(ppn, size);
        HeldIsNotFree(i);
      }
      if ppn >= end || ppn in Stack(size) {
        return true;
      }
      if held {
        Release(i);
      }
      hide Stacked, StackedPages, Covering, CoveringOut, PagesOut;
      PushBlock(ppn, size);
      if !held {
        assert old(Accounts(ppn)) == Between(base, end, ppn);
        assert Accounts(ppn) == old(Accounts(ppn)) + 1;
      }
      return false;
    }

    method PushBlock(ppn: nat, size: PageSize)
      modifies this`std, this`mega, this`giga
      ensures Stack(size) == old(Stack(size)) + [ppn]
      ensures forall p :: Stacked(std, mega, giga, p) == old(Stacked(std, mega, giga, p)) + Has(ppn, NumPages(size), p)
      ensures StackedPages(std, mega, giga) == old(StackedPages(std, mega, giga)) + NumPages(size)
      ensures IsAligned(ppn, size) && old(Aligned(mega, Page2M) && Aligned(giga, Page1G)) ==>
        Aligned(mega, Page2M) && Aligned(giga, Page1G)
    {
      match size {
        case Page4K =>
          PushAll(std, ppn, 1);
          std := std + [ppn];
        case Page2M =>
          PushAll(mega, ppn, MEGA);
          mega := mega + [ppn];
        case Page1G =>
          PushAll(giga, ppn, GIGA);
          giga := giga + [ppn];
      }
    }

    function Stack(size: PageSize): seq<nat>
      reads this
    {
      match size
      case Page4K => std
      case Page2M => mega
      case Page1G => giga
    }

    /** Every page of a held block is managed, and neither in a stack nor untouched. */
    lemma HeldPage(i: nat, p: nat)
      requires Valid() && i < |out| && out[i].ppn <= p < out[i].ppn + NumPages(out[i].size)
      ensures base <= p < end && p < current && Stacked(std, mega, giga, p) == 0
    {
      TakeOut(out, i, p);
      assert Accounts(p) == Between(base, end, p);
    }

    /** The start of a held block is on no stack. */
    lemma HeldIsNotFree(i: nat)
      requires Valid() && i < |out|
      ensures out[i].ppn < end && out[i].ppn !in std && out[i].ppn !in mega && out[i].ppn !in giga
    {
      var ppn := out[i].ppn;
      HeldPage(i, ppn);
      NotMember(std, 1, ppn);
      NotMember(mega, MEGA, ppn);
      NotMember(giga, GIGA, ppn);
    }

    /** No page is ever held through two blocks at once. */
    lemma HeldDisjoint(i: nat, j: nat, p: nat)
      requires Valid() && i < j < |out|
      requires out[i].ppn <= p < out[i].ppn + NumPages(out[i].size)
      ensures !(out[j].ppn <= p < out[j].ppn + NumPages(out[j].size))
    {
      TakeOut(out, j, p);
      assert Without(out, j)[i] == out[i];
      TakeOut(Without(out, j), i, p);
      assert Accounts(p) == Between(base, end, p);
    }
  }

  lemma MegaInGiga(giga: nat, i: nat)
    requires giga % GIGA == 0
    ensures (giga + i * MEGA) % MEGA == 0
  {
    var q := giga / GIGA;
    assert giga + i * MEGA == MEGA * (MEGA * q + i);
  }

  lemma NotMember(stack: seq<nat>, unit: nat, x: nat)
    requires unit > 0 && Covering(stack, unit, x) == 0
    ensures x !in stack
  {
    forall i | 0 <= i < |stack| ensures stack[i] != x {
      CoveringMember(stack, unit, i);
    }
  }

  lemma PushAll(stack: seq<nat>, x: nat, unit: nat)
    ensures forall p :: Covering(stack + [x], unit, p) == Covering(stack, unit, p) + Has(x, unit, p)
  {
    forall p ensures Covering(stack + [x], unit, p) == Covering(stack, unit, p) + Has(x, unit, p) {
      Push(stack, x, unit, p);
    }
  }

  /** A page that was never handed out passes the test, and is free twice afterwards. */
  method NeverHeld() returns (a: StackFrameAllocator, panicked: bool)
    ensures !panicked && !a.Valid() && a.FreeFrames() == 2 && a.base == 0 && a.end == 1
  {
    a := new StackFrameAllocator();
    a.Init(0, 1);
    panicked := a.Dealloc(0, Page4K);
  }
}
