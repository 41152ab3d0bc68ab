/** The checksum bit by bit: any error burst of up to 32 bits is detected. */
module CrcBursts {
  import opened Crc32c

  function Low(b: bool): bv32 {
    if b then 1 else 0
  }

  function Xor(a: bv32, b: bv32): bv32 {
    a ^ b
  }

  function Half(z: bv32): bv32 {
    z >> 1
  }

  predicate Odd(z: bv32) {
    z & 1 == 1
  }

  /** One bit mixed into the register, and one round. */
  function Step(s: bv32, b: bool): bv32 {
    Round(Xor(s, Low(b)))
  }

  /** The bits of a message, one at a time. */
  function Feed(s: bv32, bits: seq<bool>): bv32
    decreases |bits|
  {
    if bits == [] then s else Feed(Step(s, bits[0]), bits[1..])
  }

  /** The lowest `n` bits, least significant first. */
  function BitsOf(z: bv32, n: nat): (bits: seq<bool>)
    ensures |bits| == n
    decreases n
  {
    if n == 0 then [] else [Odd(z)] + BitsOf(Half(z), n - 1)
  }

  /** What is left of `z` without its lowest `n` bits. */
  function Rest(z: bv32, n: nat): bv32
    decreases n
  {
    if n == 0 then z else Rest(Half(z), n - 1)
  }

  function Bits(data: seq<bv8>): (bits: seq<bool>)
    ensures |bits| == 8 * |data|
  {
    if data == [] then [] else Bits(data[..|data| - 1]) + BitsOf(data[|data| - 1] as bv32, 8)
  }

  // ---- a round is linear ----

  lemma HalfXor(u: bv32, v: bv32)
    ensures (u ^ v) >> 1 == (u >> 1) ^ (v >> 1)
  {
  }

  lemma OddXor(u: bv32, v: bv32)
    ensures (u ^ v) & 1 == 1 <==> (u & 1 == 1) != (v & 1 == 1)
  {
  }

  lemma XorLaws(a: bv32, b: bv32, c: bv32)
    ensures (a ^ c) ^ b == (a ^ b) ^ c == a ^ (b ^ c)
    ensures (a ^ c) ^ (b ^ c) == a ^ b
  {
  }

  /** A round of a difference is the difference of the rounds. */
  lemma RoundXor(u: bv32, v: bv32)
    ensures Xor(Round(u), Round(v)) == Round(Xor(u, v))
  {
    RoundsDiffer(u, v);
    hide Round;
  }

  lemma RoundsDiffer(u: bv32, v: bv32)
    ensures Round(u) ^ Round(v) == Round(u ^ v)
  {
    HalfXor(u, v);
    OddXor(u, v);
    XorLaws(u >> 1, v >> 1, POLY);
  }

  lemma WithoutLow(z: bv32)
    ensures Round(Xor(z, Low(Odd(z)))) == Half(z)
  {
    LowBit(z);
  }

  lemma LowBit(z: bv32)
    ensures (z ^ 1) >> 1 == (z ^ 0) >> 1 == z >> 1
    ensures (z ^ 1) & 1 == 1 <==> z & 1 != 1
    ensures (z ^ 0) & 1 == 1 <==> z & 1 == 1
  {
  }

  lemma LowTwice(s: bv32, z: bv32, low: bv32)
    ensures Xor(Xor(s, low), Xor(z, low)) == Xor(s, z)
  {
    XorIs(s, low);
    XorIs(z, low);
    XorIs(s ^ low, z ^ low);
    XorIs(s, z);
    XorLaws(s, z, low);
    hide Xor;
  }

  lemma XorIs(a: bv32, b: bv32)
    ensures Xor(a, b) == a ^ b
  {
  }

  /** The lowest bit decides what a round does; the others only move down. */
  lemma RoundMix(s: bv32, z: bv32)
    ensures Round(Xor(s, z)) == Xor(Step(s, Odd(z)), Half(z))
  {
    hide Round, Xor, Half, Odd, Low;
    var low := Low(Odd(z));
    RoundXor(Xor(s, low), Xor(z, low));
    LowTwice(s, z, low);
    WithoutLow(z);
  }

  // ---- bytes are eight bits ----

  lemma {:induction false} RoundsFirst(s: bv32, n: nat)
    ensures Rounds(Round(s), n) == Rounds(s, n + 1)
    decreases n
  {
    hide Round;
    if n > 0 {
      RoundsFirst(s, n - 1);
    }
  }

  /** Mixing in several bits at once is mixing them in one round after another. */
  lemma {:induction false} RoundsFeed(s: bv32, z: bv32, n: nat)
    ensures Rounds(Xor(s, z), n) == Xor(Feed(s, BitsOf(z, n)), Rest(z, n))
    decreases n
  {
    hide Round, Xor, Half, Odd, Step;
    if n > 0 {
      var bits := BitsOf(z, n);
      RoundsFirst(Xor(s, z), n - 1);
      RoundMix(s, z);
      RoundsFeed(Step(s, Odd(z)), Half(z), n - 1);
      assert bits[1..] == BitsOf(Half(z), n - 1);
    }
  }

  lemma RestFour(z: bv32, n: nat)
    ensures Rest(z, n + 4) == Rest(Half(Half(Half(Half(z)))), n)
  {
    hide Half;
    assert Rest(z, n + 4) == Rest(Half(z), n + 3) == Rest(Half(Half(z)), n + 2);
    assert Rest(Half(Half(z)), n + 2) == Rest(Half(Half(Half(z))), n + 1) == Rest(Half(Half(Half(Half(z)))), n);
  }

  lemma EightHalves(b: bv8)
    ensures Half(Half(Half(Half(Half(Half(Half(Half(b as bv32)))))))) == 0
  {
  }

  lemma ByteRest(b: bv8)
    ensures Rest(b as bv32, 8) == 0
  {
    hide Half;
    var z := b as bv32;
    RestFour(z, 4);
    RestFour(Half(Half(Half(Half(z)))), 0);
    EightHalves(b);
  }

  lemma UpdateFeed(s: bv32, b: bv8)
    ensures Update(s, b) == Feed(s, BitsOf(b as bv32, 8))
  {
    hide Rounds, Feed, BitsOf, Rest;
    RoundsFeed(s, b as bv32, 8);
    ByteRest(b);
  }

  lemma {:induction false} FeedMore(s: bv32, x: seq<bool>, y: seq<bool>)
    ensures Feed(s, x + y) == Feed(Feed(s, x), y)
    decreases |x|
  {
    hide Step;
    if x == [] {
      assert x + y == y;
    } else {
      assert (x + y)[1..] == x[1..] + y;
      FeedMore(Step(s, x[0]), x[1..], y);
    }
  }

  lemma FeedNothing(s: bv32)
    ensures Feed(s, []) == s
  {
  }

  /** The byte-wise checksum is the bit-wise one. */
  lemma {:induction false} CrcFeeds(seed: bv32, data: seq<bv8>)
    ensures Crc(seed, data) == Feed(seed, Bits(data))
    decreases |data|
  {
    hide Update, Feed, BitsOf;
    if data == [] {
      FeedNothing(seed);
    } else {
      var n := |data| - 1;
      var b := BitsOf(data[n] as bv32, 8);
      CrcFeeds(seed, data[..n]);
      UpdateFeed(Crc(seed, data[..n]), data[n]);
      FeedMore(seed, Bits(data[..n]), b);
    }
  }

  // ---- windows ----

  lemma StepInjective(s: bv32, t: bv32, b: bool)
    requires Step(s, b) == Step(t, b)
    ensures s == t
  {
    RoundInvertible(Xor(s, Low(b)));
    RoundInvertible(Xor(t, Low(b)));
    hide Round, Unround;
    assert s == Xor(Xor(s, Low(b)), Low(b)) && t == Xor(Xor(t, Low(b)), Low(b));
  }

  /** Registers that differ before the same bits differ after them. */
  lemma {:induction false} FeedInjective(s: bv32, t: bv32, bits: seq<bool>)
    requires Feed(s, bits) == Feed(t, bits)
    ensures s == t
    decreases |bits|
  {
    hide Step;
    if bits != [] {
      FeedInjective(Step(s, bits[0]), Step(t, bits[0]), bits[1..]);
      StepInjective(s, t, bits[0]);
    }
  }

  /** The top bit of the register moved down by `m` places. */
  function Top(m: nat): bv32 {
    if m == 0 then 0x8000_0000 else Half(Top(m - 1))
  }

  lemma TopFour(m: nat)
    ensures Top(m + 4) == Half(Half(Half(Half(Top(m)))))
  {
    hide Half;
    assert Top(m + 2) == Half(Top(m + 1)) == Half(Half(Top(m)));
    assert Top(m + 4) == Half(Top(m + 3)) == Half(Half(Top(m + 2)));
  }

  lemma HalvesLeft(a: bv32, b: bv32, c: bv32, d: bv32)
    requires a == 0x8000_0000 && b == Half(Half(Half(Half(Half(Half(Half(Half(a))))))))
    requires c == Half(Half(Half(Half(Half(Half(Half(Half(b))))))))
    requires d == Half(Half(Half(Half(Half(Half(Half(Half(c))))))))
    ensures Half(Half(Half(Half(d)))) == 8
  {
    assert b == 0x80_0000;
    assert c == 0x8000;
  }

  /** It is still there after 31 places. */
  lemma {:induction false} TopLeft(m: nat)
    requires m <= 31
    ensures Top(m) != 0
    decreases 31 - m
  {
    if m == 31 {
      TopLast();
    } else {
      TopLeft(m + 1);
      HalfZero(Top(m));
    }
  }

  lemma HalfZero(z: bv32)
    ensures z == 0 ==> Half(z) == 0
  {
  }

  lemma TopLast()
    ensures Top(31) != 0
  {
    TopFour(0);
    TopFour(4);
    TopFour(8);
    TopFour(12);
    TopFour(16);
    TopFour(20);
    TopFour(24);
    HalvesLeft(Top(0), Top(8), Top(16), Top(24));
    assert Top(31) == Half(Top(30)) == Half(Half(Top(29))) by { hide Half; }
    assert Top(29) == Half(Top(28)) by { hide Half; }
    assert Half(Half(Half(8))) == 1;
  }

  /** The highest bit in which the two differ is at or above `top`. */
  predicate Apart(s: bv32, t: bv32, top: bv32) {
    Xor(s, t) >= top
  }

  lemma Halved(d: bv32, top: bv32)
    requires d >= top
    ensures Half(d) >= Half(top)
  {
  }

  lemma TopSet(e: bv32, top: bv32)
    ensures top >> 1 <= 0x7fff_ffff <= (e >> 1) ^ POLY
  {
  }

  lemma RoundOdd(e: bv32, top: bv32)
    requires Odd(e)
    ensures Round(e) >= Half(top)
  {
    TopSet(e, top);
  }

  lemma RoundEven(e: bv32)
    requires !Odd(e)
    ensures Round(e) == Half(e)
  {
  }

  lemma RoundAbove(d: bv32, e: bv32, top: bv32)
    requires d >= top && Half(d) == Half(e)
    ensures Round(e) >= Half(top)
  {
    hide Half, Round, Odd;
    if Odd(e) {
      RoundOdd(e, top);
    } else {
      RoundEven(e);
      Halved(d, top);
    }
  }

  lemma LowHalf(s: bv32, b: bool)
    ensures Half(Xor(s, Low(b))) == Half(s)
  {
    LowBit(s);
  }

  lemma HalfOfXor(u: bv32, v: bv32)
    ensures Half(Xor(u, v)) == Xor(Half(u), Half(v))
  {
    HalfXor(u, v);
  }

  lemma LowGone(s: bv32, t: bv32, b: bool, c: bool)
    ensures Half(Xor(Xor(s, Low(b)), Xor(t, Low(c)))) == Half(Xor(s, t))
  {
    hide Half, Xor, Low;
    HalfOfXor(s, t);
    HalfOfXor(Xor(s, Low(b)), Xor(t, Low(c)));
    LowHalf(s, b);
    LowHalf(t, c);
  }

  /** A round moves the highest difference down by at most one place, whatever bits are mixed in. */
  lemma StepApart(s: bv32, t: bv32, b: bool, c: bool, top: bv32)
    requires Apart(s, t, top)
    ensures Apart(Step(s, b), Step(t, c), Half(top))
  {
    hide Round, Half, Xor, Low;
    RoundXor(Xor(s, Low(b)), Xor(t, Low(c)));
    LowGone(s, t, b, c);
    RoundAbove(Xor(s, t), Xor(Xor(s, Low(b)), Xor(t, Low(c))), top);
  }

  lemma NotSame(s: bv32, top: bv32)
    requires Apart(s, s, top)
    ensures top == 0
  {
    assert s ^ s == 0;
  }

  lemma {:induction false} StayApart(s: bv32, t: bv32, x: seq<bool>, y: seq<bool>, m: nat)
    requires |x| == |y| && Apart(s, t, Top(m)) && m + |x| <= 31
    ensures Feed(s, x) != Feed(t, y)
    decreases |x|
  {
    hide Step, Apart, Half;
    if x == [] {
      TopLeft(m);
      if s == t {
        NotSame(s, Top(m));
      }
    } else {
      StepApart(s, t, x[0], y[0], Top(m));
      assert Top(m + 1) == Half(Top(m));
      StayApart(Step(s, x[0]), Step(t, y[0]), x[1..], y[1..], m + 1);
    }
  }

  lemma OneLeft(s: bv32)
    ensures Xor(Xor(s, 0), Xor(s, 1)) == 1 && Xor(Xor(s, 1), Xor(s, 0)) == 1
  {
  }

  /** One differing bit sets the register's top bit apart. */
  lemma OneBit(s: bv32, b: bool, c: bool)
    requires b != c
    ensures Apart(Step(s, b), Step(s, c), Top(0))
  {
    RoundXor(Xor(s, Low(b)), Xor(s, Low(c)));
    OneLeft(s);
    assert Round(1) >= 0x8000_0000;
    hide Round, Xor;
  }

  /** From the same register, different windows of up to 32 bits lead to different registers. */
  lemma {:induction false} WindowInjective(s: bv32, x: seq<bool>, y: seq<bool>)
    requires |x| == |y| <= 32 && x != y
    ensures Feed(s, x) != Feed(s, y)
    decreases |x|
  {
    hide Step, Apart, Top;
    assert x == [x[0]] + x[1..] && y == [y[0]] + y[1..];
    if x[0] == y[0] {
      WindowInjective(Step(s, x[0]), x[1..], y[1..]);
    } else {
      OneBit(s, x[0], y[0]);
      StayApart(Step(s, x[0]), Step(s, y[0]), x[1..], y[1..], 0);
    }
  }

  // ---- different bytes have different bits ----

  lemma SameHalves(y: bv32, z: bv32)
    requires Half(y) == Half(z) && Odd(y) == Odd(z)
    ensures y == z
  {
  }

  lemma {:induction false} BitsDetermine(y: bv32, z: bv32, n: nat)
    requires BitsOf(y, n) == BitsOf(z, n) && Rest(y, n) == Rest(z, n)
    ensures y == z
    decreases n
  {
    hide Half, Odd;
    if n > 0 {
      assert BitsOf(y, n)[1..] == BitsOf(Half(y), n - 1) && BitsOf(z, n)[1..] == BitsOf(Half(z), n - 1);
      BitsDetermine(Half(y), Half(z), n - 1);
      assert BitsOf(y, n)[0] == BitsOf(z, n)[0];
      SameHalves(y, z);
    }
  }

  lemma ByteDetermined(a: bv8, b: bv8)
    requires BitsOf(a as bv32, 8) == BitsOf(b as bv32, 8)
    ensures a == b
  {
    hide BitsOf, Rest;
    ByteRest(a);
    ByteRest(b);
    BitsDetermine(a as bv32, b as bv32, 8);
  }

  lemma SameParts(p: seq<bool>, q: seq<bool>, p': seq<bool>, q': seq<bool>)
    requires p + q == p' + q' && |p| == |p'|
    ensures p == p' && q == q'
  {
    assert p == (p + q)[..|p|] && p' == (p' + q')[..|p|];
    assert q == (p + q)[|p|..] && q' == (p' + q')[|p|..];
  }

  lemma {:induction false} BytesDetermined(x: seq<bv8>, y: seq<bv8>)
    requires |x| == |y| && Bits(x) == Bits(y)
    ensures x == y
    decreases |x|
  {
    hide BitsOf;
    if x != [] {
      var n := |x| - 1;
      SameParts(Bits(x[..n]), BitsOf(x[n] as bv32, 8), Bits(y[..n]), BitsOf(y[n] as bv32, 8));
      BytesDetermined(x[..n], y[..n]);
      ByteDetermined(x[n], y[n]);
      assert x == x[..n] + [x[n]] && y == y[..n] + [y[n]];
    }
  }

  // ---- bursts ----

  /** The two differ in nothing but `len` consecutive bits from bit `k` on. */
  ghost predicate DifferWithin(x: seq<bool>, y: seq<bool>, k: nat, len: nat) {
    |x| == |y| && k + len <= |x| && x[..k] == y[..k] && x[k + len..] == y[k + len..]
  }

  lemma BitBurst(seed: bv32, a: seq<bool>, b: seq<bool>, k: nat, len: nat)
    requires a != b && len <= 32 && DifferWithin(a, b, k, len)
    ensures Feed(seed, a) != Feed(seed, b)
  {
    hide Feed;
    var front, w, w', back := a[..k], a[k..k + len], b[k..k + len], a[k + len..];
    assert a == front + w + back;
    assert b == front + w' + back;
    FeedMore(seed, front + w, back);
    FeedMore(seed, front, w);
    FeedMore(seed, front + w', back);
    FeedMore(seed, front, w');
    WindowInjective(Feed(seed, front), w, w');
    if Feed(seed, a) == Feed(seed, b) {
      FeedInjective(Feed(seed, front + w), Feed(seed, front + w'), back);
    }
  }

  /** Whatever changes within 32 consecutive bits, aligned or not, changes the checksum. */
  lemma BurstDetected(seed: bv32, x: seq<bv8>, y: seq<bv8>, k: nat, len: nat)
    requires |x| == |y| && x != y && len <= 32 && DifferWithin(Bits(x), Bits(y), k, len)
    ensures Crc(seed, x) != Crc(seed, y)
  {
    hide Crc, Bits, Feed;
    if Bits(x) == Bits(y) {
      BytesDetermined(x, y);
    }
    CrcFeeds(seed, x);
    CrcFeeds(seed, y);
    BitBurst(seed, Bits(x), Bits(y), k, len);
  }
}
