/** Allocation bitmaps: bits in bytes, and how many of them are clear. */
module Bitmap {
  import opened Common

  const BYTES: nat := 4096

  function Mask(k: nat): bv8
    requires k < 8
  {
    match k
    case 0 => 1
    case 1 => 2
    case 2 => 4
    case 3 => 8
    case 4 => 16
    case 5 => 32
    case 6 => 64
    case 7 => 128
  }

  predicate Has(x: bv8, k: nat)
    requires k < 8
  {
    x & Mask(k) != 0
  }

  function With(x: bv8, k: nat): bv8
    requires k < 8
  {
    x | Mask(k)
  }

  function Without(x: bv8, k: nat): bv8
    requires k < 8
  {
    x & !Mask(k)
  }

  lemma ByteBits(x: bv8, a: nat, b: nat)
    requires a < 8 && b < 8
    ensures Has(With(x, a), b) <==> a == b || Has(x, b)
    ensures Has(Without(x, a), b) <==> a != b && Has(x, b)
  {
    if a == 0 {
    } else if a == 1 {
    } else if a == 2 {
    } else if a == 3 {
    } else if a == 4 {
    } else if a == 5 {
    } else if a == 6 {
    } else {
      assert a == 7;
    }
  }

  predicate Bit(bits: seq<bv8>, i: nat)
    requires i < 8 * |bits|
  {
    Has(bits[i / 8], i % 8)
  }

  function SetBit(bits: seq<bv8>, i: nat): (r: seq<bv8>)
    requires i < 8 * |bits|
    ensures |r| == |bits|
  {
    bits[i / 8 := With(bits[i / 8], i % 8)]
  }

  function ClearBit(bits: seq<bv8>, i: nat): (r: seq<bv8>)
    requires i < 8 * |bits|
    ensures |r| == |bits|
  {
    bits[i / 8 := Without(bits[i / 8], i % 8)]
  }

  lemma SameBit(i: nat, j: nat)
    ensures i / 8 == j / 8 && i % 8 == j % 8 <==> i == j
  {
  }

  /** Setting a bit sets that bit alone. */
  lemma SetBits(bits: seq<bv8>, i: nat, j: nat)
    requires i < 8 * |bits| && j < 8 * |bits|
    ensures Bit(SetBit(bits, i), j) <==> i == j || Bit(bits, j)
  {
    hide Has, With;
    SameBit(i, j);
    ByteBits(bits[i / 8], i % 8, j % 8);
  }

  /** Clearing a bit clears that bit alone. */
  lemma ClearBits(bits: seq<bv8>, i: nat, j: nat)
    requires i < 8 * |bits| && j < 8 * |bits|
    ensures Bit(ClearBit(bits, i), j) <==> i != j && Bit(bits, j)
  {
    hide Has, Without;
    SameBit(i, j);
    ByteBits(bits[i / 8], i % 8, j % 8);
  }

  /** The number of clear bits below `n`. */
  function Clear(bits: seq<bv8>, n: nat): nat
    requires n <= 8 * |bits|
  {
    if n == 0 then 0 else Clear(bits, n - 1) + if Bit(bits, n - 1) then 0 else 1
  }

  lemma {:induction false} ClearSame(bits: seq<bv8>, other: seq<bv8>, n: nat)
    requires n <= 8 * |bits| && |other| == |bits| && forall j :: 0 <= j < n ==> Bit(other, j) == Bit(bits, j)
    ensures Clear(other, n) == Clear(bits, n)
  {
    if n > 0 {
      ClearSame(bits, other, n - 1);
    }
  }

  /** Setting a clear bit takes one away. */
  lemma {:induction false} ClearSet(bits: seq<bv8>, i: nat, n: nat)
    requires i < n <= 8 * |bits| && !Bit(bits, i)
    ensures Clear(SetBit(bits, i), n) == Clear(bits, n) - 1
    decreases n
  {
    hide Bit, SetBit;
    SetBits(bits, i, n - 1);
    if i == n - 1 {
      forall j | 0 <= j < n - 1 ensures Bit(SetBit(bits, i), j) == Bit(bits, j) {
        SetBits(bits, i, j);
      }
      ClearSame(bits, SetBit(bits, i), n - 1);
    } else {
      ClearSet(bits, i, n - 1);
    }
  }

  lemma {:induction false} ClearCleared(bits: seq<bv8>, i: nat, n: nat)
    requires i < n <= 8 * |bits| && Bit(bits, i)
    ensures Clear(ClearBit(bits, i), n) == Clear(bits, n) + 1
    decreases n
  {
    hide Bit, ClearBit;
    ClearBits(bits, i, n - 1);
    if i == n - 1 {
      forall j | 0 <= j < n - 1 ensures Bit(ClearBit(bits, i), j) == Bit(bits, j) {
        ClearBits(bits, i, j);
      }
      ClearSame(bits, ClearBit(bits, i), n - 1);
    } else {
      ClearCleared(bits, i, n - 1);
    }
  }

  lemma {:induction false} NoneClear(bits: seq<bv8>, n: nat)
    requires n <= 8 * |bits|
    ensures Clear(bits, n) == 0 <==> forall j :: 0 <= j < n ==> Bit(bits, j)
  {
    if n > 0 {
      NoneClear(bits, n - 1);
    }
  }

  /** The first clear bit below `n`. */
  method FindClear(bits: seq<bv8>, n: nat) returns (found: Option<nat>)
    requires n <= 8 * |bits|
    ensures found.Some? ==>
      found.value < n && !Bit(bits, found.value) && forall j :: 0 <= j < found.value ==> Bit(bits, j)
    ensures found.None? <==> Clear(bits, n) == 0
  {
    hide Has;
    NoneClear(bits, n);
    for bit := 0 to n
      invariant forall j :: 0 <= j < bit ==> Bit(bits, j)
    {
      if !Has(bits[bit / 8], bit % 8) {
        return Some(bit);
      }
    }
    return None;
  }

  method CountClear(bits: seq<bv8>, n: nat) returns (count: nat)
    requires n <= 8 * |bits|
    ensures count == Clear(bits, n)
  {
    count := 0;
    for bit := 0 to n
      invariant count == Clear(bits, bit)
    {
      if !Has(bits[bit / 8], bit % 8) {
        count := count + 1;
      }
    }
  }

  /** Set the bits of `[from, end)`. */
  method SetRange(bits: seq<bv8>, first: nat, end: nat) returns (r: seq<bv8>)
    requires first <= end <= 8 * |bits|
    ensures |r| == |bits| && forall j :: 0 <= j < 8 * |bits| ==> (Bit(r, j) <==> first <= j < end || Bit(bits, j))
  {
    hide Bit, SetBit;
    r := bits;
    for bit := first to end
      invariant |r| == |bits| && forall j :: 0 <= j < 8 * |bits| ==> (Bit(r, j) <==> first <= j < bit || Bit(bits, j))
    {
      forall j | 0 <= j < 8 * |bits| ensures Bit(SetBit(r, bit), j) <==> bit == j || Bit(r, j) {
        SetBits(r, bit, j);
      }
      r := SetBit(r, bit);
    }
  }
}
