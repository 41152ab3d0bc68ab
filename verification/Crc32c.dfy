/** The metadata checksum: CRC32C in reflected form without final inversion. */
module Crc32c {
  const POLY: bv32 := 0x82F6_3B78

  /** One bit of the register. */
  function Round(s: bv32): bv32 {
    if s & 1 == 1 then (s >> 1) ^ POLY else s >> 1
  }

  function Unround(s: bv32): bv32 {
    if s & 0x8000_0000 != 0 then ((s ^ POLY) << 1) | 1 else s << 1
  }

  /** The polynomial has its top bit set, so a round can be undone. */
  lemma RoundInvertible(s: bv32)
    ensures Unround(Round(s)) == s
  {
  }

  function Rounds(s: bv32, n: nat): bv32 {
    if n == 0 then s else Round(Rounds(s, n - 1))
  }

  lemma {:induction false} RoundsInjective(s: bv32, t: bv32, n: nat)
    requires Rounds(s, n) == Rounds(t, n)
    ensures s == t
  {
    if n > 0 {
      RoundInvertible(Rounds(s, n - 1));
      RoundInvertible(Rounds(t, n - 1));
      RoundsInjective(s, t, n - 1);
    }
  }

  function Mixed(s: bv32, b: bv8): bv32 {
    s ^ (b as bv32)
  }

  /** One byte. */
  function Update(s: bv32, b: bv8): bv32 {
    Rounds(Mixed(s, b), 8)
  }

  function Crc(seed: bv32, data: seq<bv8>): bv32 {
    if data == [] then seed else Update(Crc(seed, data[..|data| - 1]), data[|data| - 1])
  }

  /** The loop over bytes and bits. */
  method Compute(seed: bv32, data: seq<bv8>) returns (r: bv32)
    ensures r == Crc(seed, data)
  {
    r := seed;
    for i := 0 to |data|
      invariant r == Crc(seed, data[..i])
    {
      assert data[..i + 1][..i] == data[..i];
      ghost var before := r;
      r := Mixed(r, data[i]);
      for k := 0 to 8
        invariant r == Rounds(Mixed(before, data[i]), k)
      {
        var mask: bv32 := if r & 1 == 1 then 0xffff_ffff else 0;
        assert (r >> 1) ^ (POLY & mask) == Round(r) by { MaskedRound(r); }
        r := (r >> 1) ^ (POLY & mask);
      }
    }
    assert data[..|data|] == data;
  }

  lemma MaskedRound(s: bv32)
    ensures (s >> 1) ^ (POLY & (if s & 1 == 1 then 0xffff_ffff else 0)) == Round(s)
  {
  }

  // ---- laws ----

  /** Checksumming pieces one after the other is checksumming the whole. */
  lemma {:induction false} Chain(seed: bv32, x: seq<bv8>, y: seq<bv8>)
    ensures Crc(seed, x + y) == Crc(Crc(seed, x), y)
    decreases |y|
  {
    if y == [] {
      assert x + y == x;
    } else {
      var n := |y| - 1;
      assert (x + y)[..|x + y| - 1] == x + y[..n];
      Chain(seed, x, y[..n]);
    }
  }

  lemma MixedInjective(s: bv32, t: bv32, b: bv8)
    requires Mixed(s, b) == Mixed(t, b)
    ensures s == t
  {
  }

  lemma MixedByteInjective(s: bv32, a: bv8, b: bv8)
    requires Mixed(s, a) == Mixed(s, b)
    ensures a == b
  {
  }

  lemma UpdateInjective(s: bv32, t: bv32, b: bv8)
    requires Update(s, b) == Update(t, b)
    ensures s == t
  {
    hide Rounds, Mixed;
    RoundsInjective(Mixed(s, b), Mixed(t, b), 8);
    MixedInjective(s, t, b);
  }

  /** Over the same bytes the register determines where it came from. */
  lemma {:induction false} SeedInjective(s: bv32, t: bv32, data: seq<bv8>)
    requires Crc(s, data) == Crc(t, data)
    ensures s == t
    decreases |data|
  {
    if data != [] {
      var n := |data| - 1;
      UpdateInjective(Crc(s, data[..n]), Crc(t, data[..n]), data[n]);
      SeedInjective(s, t, data[..n]);
    }
  }

  lemma ByteInjective(s: bv32, a: bv8, b: bv8)
    requires Update(s, a) == Update(s, b)
    ensures a == b
  {
    hide Rounds, Mixed;
    RoundsInjective(Mixed(s, a), Mixed(s, b), 8);
    MixedByteInjective(s, a, b);
  }

  /** Changing a single byte always changes the checksum. */
  lemma SingleByte(seed: bv32, data: seq<bv8>, i: nat, b: bv8)
    requires i < |data| && b != data[i]
    ensures Crc(seed, data[i := b]) != Crc(seed, data)
  {
    hide Crc, Update;
    var x, y := data[..i], data[i + 1..];
    assert data == x + [data[i]] + y && data[i := b] == x + [b] + y;
    Chain(seed, x + [data[i]], y);
    Chain(seed, x + [b], y);
    Chain(seed, x, [data[i]]);
    Chain(seed, x, [b]);
    if Crc(seed, data[i := b]) == Crc(seed, data) {
      SeedInjective(Crc(seed, x + [b]), Crc(seed, x + [data[i]]), y);
      OneByte(Crc(seed, x), b);
      OneByte(Crc(seed, x), data[i]);
      ByteInjective(Crc(seed, x), b, data[i]);
    }
  }

  lemma OneByte(seed: bv32, b: bv8)
    ensures Crc(seed, [b]) == Update(seed, b)
  {
    assert [b][..0] == [];
  }
}
