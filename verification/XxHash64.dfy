/**
  XXH64: wider lanes, a tail of 8-byte, 4-byte and single steps, and a streaming state that has no
  flag for a total length that wraps.
 */
module XxHash64 {
  import opened Bytes
  import opened Memory
  import XxHash32

  const PRIME1 := 11400714785074694791
  const PRIME2 := 14029467366897019727
  const PRIME3 := 1609587929392839161
  const PRIME4 := 9650029242287828579
  const PRIME5 := 2870177450012600261

  const WRAP64 := 0x1_0000_0000_0000_0000

  type uint64 = x: int | 0 <= x < WRAP64 witness 0

  function U64(x: int): uint64 {
    x % WRAP64
  }

  function Read64(s: seq<byte>, i: nat): uint64
    requires i + 8 <= |s|
  {
    Read32(s, i) + 0x1_0000_0000 * (Read32(s, i + 4) as int)
  }

  /** Rotation left. */
  function Rotl(x: uint64, bits: nat): uint64
    decreases bits
  {
    if bits == 0 then x
    else Rotl(if x < 0x8000_0000_0000_0000 then x + x else x + x - 0xffff_ffff_ffff_ffff, bits - 1)
  }

  function Xor(a: uint64, b: uint64): uint64 {
    U64(XxHash32.Xor(a, b, 64))
  }

  function XorShift(h: uint64, bits: nat): uint64 {
    Xor(h, U64(XxHash32.Shr(h, bits)))
  }

  function Round(acc: uint64, input: uint64): uint64 {
    U64(Rotl(U64(acc + input * PRIME2), 31) * PRIME1)
  }

  function MergeRound(acc: uint64, lane: uint64): uint64 {
    U64(Xor(acc, Round(0, lane)) * PRIME1 + PRIME4)
  }

  function Avalanche(h: uint64): uint64 {
    XorShift(U64(XorShift(U64(XorShift(h, 33) * PRIME2), 29) * PRIME3), 32)
  }

  /** The steps of the tail: eight bytes, four bytes, one byte. */
  function Step8(h: uint64, word: uint64): uint64 {
    U64(Rotl(Xor(h, Round(0, word)), 27) * PRIME1 + PRIME4)
  }

  function Step4(h: uint64, word: uint32): uint64 {
    U64(Rotl(Xor(h, U64(word * PRIME1)), 23) * PRIME2 + PRIME3)
  }

  function Step1(h: uint64, b: byte): uint64 {
    U64(Rotl(Xor(h, U64(b * PRIME5)), 11) * PRIME1)
  }

  // ---------- the algorithm ----------

  datatype Lanes = Lanes(v1: uint64, v2: uint64, v3: uint64, v4: uint64)

  function InitialLanes(seed: uint64): Lanes {
    Lanes(U64(seed + PRIME1 + PRIME2), U64(seed + PRIME2), seed, U64(seed - PRIME1))
  }

  /** One stripe of 32 bytes. */
  function Stripe(a: Lanes, s: seq<byte>, i: nat): Lanes
    requires i + 32 <= |s|
  {
    Lanes(Round(a.v1, Read64(s, i)), Round(a.v2, Read64(s, i + 8)), Round(a.v3, Read64(s, i + 16)),
      Round(a.v4, Read64(s, i + 24)))
  }

  /** All complete stripes of `s`. */
  function Stripes(a: Lanes, s: seq<byte>): Lanes
    decreases |s|
  {
    if |s| < 32 then a else Stripes(Stripe(a, s, 0), s[32..])
  }

  function Merge(a: Lanes): uint64 {
    var h := U64(Rotl(a.v1, 1) + Rotl(a.v2, 7) + Rotl(a.v3, 12) + Rotl(a.v4, 18));
    MergeRound(MergeRound(MergeRound(MergeRound(h, a.v1), a.v2), a.v3), a.v4)
  }

  /** The bytes behind the last complete stripe: the longest step that fits, again and again. */
  function Tail(h: uint64, s: seq<byte>): uint64
    decreases |s|
  {
    if |s| >= 8 then Tail(Step8(h, Read64(s, 0)), s[8..])
    else if |s| >= 4 then Tail(Step4(h, Read32(s, 0)), s[4..])
    else if |s| > 0 then Tail(Step1(h, s[0]), s[1..])
    else h
  }

  /** Where the last complete stripe ends. */
  function StripeEnd(n: nat): (e: nat)
    ensures e <= n < e + 32 && e % 32 == 0
  {
    n - n % 32
  }

  function Hash(s: seq<byte>, seed: uint64): uint64 {
    var start := if |s| >= 32 then Merge(Stripes(InitialLanes(seed), s)) else U64(seed + PRIME5);
    Avalanche(Tail(U64(start + U64(|s|)), s[StripeEnd(|s|)..]))
  }

  /** Stripes can be consumed in any division into whole stripes. */
  lemma {:induction false} StripesSplit(a: Lanes, s: seq<byte>, t: seq<byte>)
    requires |s| % 32 == 0
    ensures Stripes(a, s + t) == Stripes(Stripes(a, s), t)
    decreases |s|
  {
    hide Stripe;
    if |s| == 0 {
      assert s + t == t;
    } else {
      assert (s + t)[32..] == s[32..] + t;
      StripeOfPrefix(a, s, t);
      StripesSplit(Stripe(a, s, 0), s[32..], t);
    }
  }

  lemma StripeOfPrefix(a: Lanes, s: seq<byte>, t: seq<byte>)
    requires |s| >= 32
    ensures Stripe(a, s + t, 0) == Stripe(a, s, 0)
  {
    hide Round;
  }

  /** Only whole stripes count. */
  lemma {:induction false} StripesIgnoreTail(a: Lanes, s: seq<byte>)
    ensures Stripes(a, s) == Stripes(a, s[..StripeEnd(|s|)])
  {
    hide Stripe;
    var e := StripeEnd(|s|);
    assert s == s[..e] + s[e..];
    StripesSplit(a, s[..e], s[e..]);
  }

  // ---------- the unrolled tail ----------

  /** XXH64_finalize: a switch on the number of bytes left, again with cases that fall through; `n` is at most 31. */
  method Finalize(h0: uint64, s: seq<byte>) returns (r: uint64)
    requires |s| < 32
    ensures r == Avalanche(Tail(h0, s))
  {
    hide *;
    var h, p, n := h0, 0, |s|;
    assert s[0..] == s;
    if n >= 24 {
      TailLong(h, s, p);
      h, p := Step8(h, Read64(s, p)), p + 8;
    }
    if n >= 16 {
      TailLong(h, s, p);
      h, p := Step8(h, Read64(s, p)), p + 8;
    }
    if n >= 8 {
      TailLong(h, s, p);
      h, p := Step8(h, Read64(s, p)), p + 8;
    }
    assert p + n % 8 == n;
    if n % 8 >= 4 {
      TailWord(h, s, p);
      h, p := Step4(h, Read32(s, p)), p + 4;
    }
    assert p + n % 4 == n;
    if n % 4 >= 3 {
      TailByte(h, s, p);
      h, p := Step1(h, s[p]), p + 1;
    }
    if n % 4 >= 2 {
      TailByte(h, s, p);
      h, p := Step1(h, s[p]), p + 1;
    }
    if n % 4 >= 1 {
      TailByte(h, s, p);
      h, p := Step1(h, s[p]), p + 1;
    }
    EmptyTail(h, s[p..]);
    r := Avalanche(h);
  }

  lemma EmptyTail(h: uint64, s: seq<byte>)
    requires s == []
    ensures Tail(h, s) == h
  {
  }

  lemma TailLong(h: uint64, s: seq<byte>, p: nat)
    requires p + 8 <= |s|
    ensures Tail(h, s[p..]) == Tail(Step8(h, Read64(s, p)), s[p + 8..])
  {
    hide Step8, Step4, Step1;
    assert s[p..][8..] == s[p + 8..];
    assert Read64(s[p..], 0) == Read64(s, p);
  }

  lemma TailWord(h: uint64, s: seq<byte>, p: nat)
    requires p + 4 <= |s| < p + 8
    ensures Tail(h, s[p..]) == Tail(Step4(h, Read32(s, p)), s[p + 4..])
  {
    hide Step8, Step4, Step1;
    assert s[p..][4..] == s[p + 4..];
    assert Read32(s[p..], 0) == Read32(s, p);
  }

  lemma TailByte(h: uint64, s: seq<byte>, p: nat)
    requires p < |s| < p + 4
    ensures Tail(h, s[p..]) == Tail(Step1(h, s[p]), s[p + 1..])
  {
    hide Step8, Step4, Step1;
    assert s[p..][1..] == s[p + 1..];
  }

  /** XXH64: stripes as long as 32 bytes are left, then the tail. */
  method OneShot(input: seq<byte>, seed: uint64) returns (h: uint64)
    requires |input| < WRAP64
    ensures h == Hash(input, seed)
  {
    hide Stripe, Stripes, Merge, Avalanche, Tail, InitialLanes, U64, Read64;
    var p := 0;
    if |input| >= 32 {
      var limit := |input| - 32;
      var a := InitialLanes(seed);
      ghost var a0 := a;
      a, p := Stripe(a, input, p), p + 32;
      StripesStep(a0, input, 0);
      assert input[0..] == input;
      while p <= limit
        invariant p % 32 == 0 && 32 <= p <= |input|
        invariant Stripes(a0, input) == Stripes(a, input[p..])
      {
        StripesStep(a, input, p);
        a, p := Stripe(a, input, p), p + 32;
      }
      NoStripe(a, input[p..]);
      h := Merge(a);
    } else {
      h := U64(seed + PRIME5);
    }
    assert p == StripeEnd(|input|);
    h := U64(h + U64(|input|));
    h := Finalize(h, input[p..]);
  }

  lemma NoStripe(a: Lanes, s: seq<byte>)
    requires |s| < 32
    ensures Stripes(a, s) == a
  {
  }

  lemma StripesStep(a: Lanes, s: seq<byte>, p: nat)
    requires p + 32 <= |s|
    ensures Stripes(a, s[p..]) == Stripes(Stripe(a, s, p), s[p + 32..])
  {
    hide Stripe;
    assert s[p..][32..] == s[p + 32..];
    StripeOfSuffix(a, s, p);
  }

  lemma StripeOfSuffix(a: Lanes, s: seq<byte>, p: nat)
    requires p + 32 <= |s|
    ensures Stripe(a, s[p..], 0) == Stripe(a, s, p)
  {
    hide Round;
    assert Read64(s[p..], 0) == Read64(s, p) && Read64(s[p..], 8) == Read64(s, p + 8);
    assert Read64(s[p..], 16) == Read64(s, p + 16) && Read64(s[p..], 24) == Read64(s, p + 24);
  }

  // ---------- the streaming state ----------

  /** What is kept of `content`: its whole stripes mixed into the lanes, and the bytes behind them. */
  ghost predicate Absorbed(lanes: Lanes, held: seq<byte>, seed: uint64, content: seq<byte>) {
    && |held| == |content| % 32
    && lanes == Stripes(InitialLanes(seed), content)
    && held == content[StripeEnd(|content|)..]
  }

  lemma AbsorbNothing(seed: uint64)
    ensures Absorbed(InitialLanes(seed), [], seed, [])
  {
  }

  lemma AbsorbShort(lanes: Lanes, held: seq<byte>, seed: uint64, content: seq<byte>, input: seq<byte>)
    requires Absorbed(lanes, held, seed, content) && |held| + |input| < 32
    ensures Absorbed(lanes, held + input, seed, content + input)
  {
    hide Stripe, Stripes, InitialLanes;
    var e, all := StripeEnd(|content|), content + input;
    assert StripeEnd(|all|) == e;
    StripesIgnoreTail(InitialLanes(seed), content);
    StripesIgnoreTail(InitialLanes(seed), all);
    assert all[..e] == content[..e] && all[e..] == content[e..] + input;
  }

  lemma AbsorbStripe(lanes: Lanes, held: seq<byte>, seed: uint64, content: seq<byte>, input: seq<byte>)
    requires Absorbed(lanes, held, seed, content) && |held| + |input| == 32
    ensures Absorbed(Stripe(lanes, held + input, 0), [], seed, content + input)
  {
    hide Stripe, Stripes, InitialLanes;
    var e, all, a := StripeEnd(|content|), content + input, InitialLanes(seed);
    StripesIgnoreTail(a, content);
    assert content == content[..e] + held;
    assert all == content[..e] + (held + input);
    StripesSplit(a, content[..e], held + input);
    OneStripe(lanes, held + input);
    assert StripeEnd(|all|) == |all|;
  }

  lemma OneStripe(a: Lanes, s: seq<byte>)
    requires |s| == 32
    ensures Stripes(a, s) == Stripe(a, s, 0)
  {
    hide Stripe;
  }

  lemma StripeAt(a: Lanes, s: seq<byte>, i: nat)
    requires i + 32 <= |s|
    ensures Stripe(a, s, i) == Stripe(a, s[i..i + 32], 0)
  {
    hide Round;
  }

  lemma SumOfRemainders(a: nat, b: nat)
    ensures U64(U64(a) + U64(b)) == U64(a + b)
  {
  }

  // ---------- every step of the tail can be undone ----------

  function Pow2(n: nat): (p: nat)
    ensures p > 0
  {
    if n == 0 then 1 else 2 * Pow2(n - 1)
  }

  lemma SixtyFour()
    ensures Pow2(64) == WRAP64
  {
    assert Pow2(8) == 0x100;
    assert Pow2(16) == 0x100 * Pow2(8) && Pow2(24) == 0x100 * Pow2(16) && Pow2(32) == 0x100 * Pow2(24);
    assert Pow2(40) == 0x100 * Pow2(32) && Pow2(48) == 0x100 * Pow2(40) && Pow2(56) == 0x100 * Pow2(48);
    assert Pow2(64) == 0x100 * Pow2(56);
  }

  lemma {:induction false} XorBounded(a: nat, b: nat, n: nat)
    ensures XxHash32.Xor(a, b, n) < Pow2(n)
    decreases n
  {
    if n > 0 {
      XorBounded(a / 2, b / 2, n - 1);
    }
  }

  lemma BitAndRest(a: nat, b: nat, k: nat, l: nat, x: nat, y: nat)
    requires (a + k) % 2 + 2 * x == (b + l) % 2 + 2 * y
    ensures x == y && (k % 2 == l % 2 ==> a % 2 == b % 2)
  {
    var u, v := (a + k) % 2, (b + l) % 2;
    assert u < 2 && v < 2;
    Parity(a, k);
    Parity(b, l);
  }

  lemma Parity(a: nat, k: nat)
    ensures (a + k) % 2 == (a % 2 + k % 2) % 2
  {
  }

  /** Equal values have equal lowest bits and equal rests. */
  lemma XorLowest(a: nat, b: nat, k: nat, l: nat, n: nat)
    requires n > 0 && XxHash32.Xor(a, k, n) == XxHash32.Xor(b, l, n)
    ensures XxHash32.Xor(a / 2, k / 2, n - 1) == XxHash32.Xor(b / 2, l / 2, n - 1)
    ensures k % 2 == l % 2 ==> a % 2 == b % 2
  {
    var x, y := XxHash32.Xor(a / 2, k / 2, n - 1), XxHash32.Xor(b / 2, l / 2, n - 1);
    assert (a + k) % 2 + 2 * x == (b + l) % 2 + 2 * y;
    hide XxHash32.Xor;
    BitAndRest(a, b, k, l, x, y);
  }

  lemma {:induction false} XorInjective(a: nat, b: nat, k: nat, n: nat)
    requires a < Pow2(n) && b < Pow2(n) && XxHash32.Xor(a, k, n) == XxHash32.Xor(b, k, n)
    ensures a == b
    decreases n
  {
    if n > 0 {
      XorLowest(a, b, k, k, n);
      XorInjective(a / 2, b / 2, k / 2, n - 1);
    }
  }

  lemma {:induction false} ShrHalf(a: nat, bits: nat)
    ensures XxHash32.Shr(a, bits) / 2 == XxHash32.Shr(a / 2, bits) && XxHash32.Shr(a, bits) <= a
    decreases bits
  {
    if bits > 0 {
      ShrHalf(a / 2, bits - 1);
    }
  }

  /** The high half decides the bits that are mixed into the lowest one. */
  lemma {:induction false} ShiftInjective(a: nat, b: nat, bits: nat, n: nat)
    requires bits > 0 && a < Pow2(n) && b < Pow2(n)
    requires XxHash32.Xor(a, XxHash32.Shr(a, bits), n) == XxHash32.Xor(b, XxHash32.Shr(b, bits), n)
    ensures a == b
    decreases n
  {
    if n > 0 {
      var k, l := XxHash32.Shr(a, bits), XxHash32.Shr(b, bits);
      ShrHalf(a, bits);
      ShrHalf(b, bits);
      XorLowest(a, b, k, l, n);
      ShiftInjective(a / 2, b / 2, bits, n - 1);
      assert k == XxHash32.Shr(a / 2, bits - 1) == l;
    }
  }

  lemma XorUndone(a: uint64, b: uint64, k: uint64)
    ensures Xor(a, k) == Xor(b, k) ==> a == b
  {
    hide XxHash32.Xor, Pow2;
    SixtyFour();
    XorBounded(a, k, 64);
    XorBounded(b, k, 64);
    if Xor(a, k) == Xor(b, k) {
      XorInjective(a, b, k, 64);
    }
  }

  lemma XorShiftUndone(a: uint64, b: uint64, bits: nat)
    requires bits > 0
    ensures XorShift(a, bits) == XorShift(b, bits) ==> a == b
  {
    hide XxHash32.Xor, XxHash32.Shr, Pow2;
    SixtyFour();
    ShrHalf(a, bits);
    ShrHalf(b, bits);
    XorBounded(a, XxHash32.Shr(a, bits), 64);
    XorBounded(b, XxHash32.Shr(b, bits), 64);
    if XorShift(a, bits) == XorShift(b, bits) {
      ShiftInjective(a, b, bits, 64);
    }
  }

  lemma {:induction false} RotlUndone(a: uint64, b: uint64, bits: nat)
    ensures Rotl(a, bits) == Rotl(b, bits) ==> a == b
    decreases bits
  {
    if bits > 0 {
      var c := if a < 0x8000_0000_0000_0000 then a + a else a + a - 0xffff_ffff_ffff_ffff;
      var d := if b < 0x8000_0000_0000_0000 then b + b else b + b - 0xffff_ffff_ffff_ffff;
      RotlUndone(c, d, bits - 1);
    }
  }

  lemma AddMultiple(a: nat, k: nat)
    ensures U64(a + WRAP64 * k) == U64(a)
  {
  }

  lemma TimesModulo(x: nat, q: nat)
    ensures U64(U64(x) * q) == U64(x * q)
  {
    var k := x / WRAP64;
    assert x * q == (x % WRAP64) * q + WRAP64 * (k * q);
    AddMultiple((x % WRAP64) * q, k * q);
  }

  lemma SameSummand(x: nat, y: nat, c: nat)
    ensures U64(x + c) == U64(y + c) ==> U64(x) == U64(y)
  {
  }

  lemma TimesBack(a: uint64, p: nat, q: nat, k: nat)
    requires p * q == 1 + WRAP64 * k
    ensures U64(U64(a * p) * q) == a
  {
    TimesModulo(a * p, q);
    assert (a * p) * q == a * (p * q) == a + WRAP64 * (a * k);
    AddMultiple(a, a * k);
  }

  /** A factor that has an inverse, and a summand. */
  lemma FactorUndone(a: uint64, b: uint64, p: nat, q: nat, k: nat, c: uint64)
    requires p * q == 1 + WRAP64 * k
    ensures U64(a * p + c) == U64(b * p + c) ==> a == b
  {
    TimesBack(a, p, q, k);
    TimesBack(b, p, q, k);
    SameSummand(a * p, b * p, c);
  }

  const INVERSE1 := 614540362697595703
  const INVERSE2 := 839798700976720815
  const INVERSE3 := 16855272203555305545

  lemma Inverses()
    ensures PRIME1 * INVERSE1 == 1 + WRAP64 * 379806830464837242
    ensures PRIME2 * INVERSE2 == 1 + WRAP64 * 638699622168397319
    ensures PRIME3 * INVERSE3 == 1 + WRAP64 * 1470722560960728959
  {
  }

  lemma Step8Undone(a: uint64, b: uint64, word: uint64)
    ensures Step8(a, word) == Step8(b, word) ==> a == b
  {
    hide Rotl, Xor;
    Inverses();
    var k := Round(0, word);
    FactorUndone(Rotl(Xor(a, k), 27), Rotl(Xor(b, k), 27), PRIME1, INVERSE1, 379806830464837242, PRIME4);
    RotlUndone(Xor(a, k), Xor(b, k), 27);
    XorUndone(a, b, k);
  }

  lemma Step4Undone(a: uint64, b: uint64, word: uint32)
    ensures Step4(a, word) == Step4(b, word) ==> a == b
  {
    hide Rotl, Xor;
    Inverses();
    var k := U64(word * PRIME1);
    FactorUndone(Rotl(Xor(a, k), 23), Rotl(Xor(b, k), 23), PRIME2, INVERSE2, 638699622168397319, PRIME3);
    RotlUndone(Xor(a, k), Xor(b, k), 23);
    XorUndone(a, b, k);
  }

  lemma Step1Undone(a: uint64, b: uint64, x: byte)
    ensures Step1(a, x) == Step1(b, x) ==> a == b
  {
    hide Rotl, Xor;
    Inverses();
    var k := U64(x * PRIME5);
    FactorUndone(Rotl(Xor(a, k), 11), Rotl(Xor(b, k), 11), PRIME1, INVERSE1, 379806830464837242, 0);
    RotlUndone(Xor(a, k), Xor(b, k), 11);
    XorUndone(a, b, k);
  }

  lemma AvalancheUndone(a: uint64, b: uint64)
    ensures Avalanche(a) == Avalanche(b) ==> a == b
  {
    hide XorShift;
    Inverses();
    var c, d := XorShift(a, 33), XorShift(b, 33);
    var e, f := XorShift(U64(c * PRIME2), 29), XorShift(U64(d * PRIME2), 29);
    XorShiftUndone(U64(e * PRIME3), U64(f * PRIME3), 32);
    FactorUndone(e, f, PRIME3, INVERSE3, 1470722560960728959, 0);
    XorShiftUndone(U64(c * PRIME2), U64(d * PRIME2), 29);
    FactorUndone(c, d, PRIME2, INVERSE2, 638699622168397319, 0);
    XorShiftUndone(a, b, 33);
  }

  /** Different starting values stay different through any tail. */
  lemma {:induction false} TailUndone(a: uint64, b: uint64, s: seq<byte>)
    ensures Tail(a, s) == Tail(b, s) ==> a == b
    decreases |s|
  {
    hide Step8, Step4, Step1, Read32, Read64;
    if |s| >= 8 {
      Step8Undone(a, b, Read64(s, 0));
      TailUndone(Step8(a, Read64(s, 0)), Step8(b, Read64(s, 0)), s[8..]);
    } else if |s| >= 4 {
      Step4Undone(a, b, Read32(s, 0));
      TailUndone(Step4(a, Read32(s, 0)), Step4(b, Read32(s, 0)), s[4..]);
    } else if |s| > 0 {
      Step1Undone(a, b, s[0]);
      TailUndone(Step1(a, s[0]), Step1(b, s[0]), s[1..]);
    }
  }

  lemma StartsApart(short: uint64, long: uint64, total: uint64, held: seq<byte>)
    ensures Avalanche(Tail(U64(short + total), held)) == Avalanche(Tail(U64(long + total), held)) <==> short == long
  {
    hide Avalanche, Tail;
    AvalancheUndone(Tail(U64(short + total), held), Tail(U64(long + total), held));
    TailUndone(U64(short + total), U64(long + total), held);
    SameSummand(short, long, total);
  }

  // ---------- the digest ----------

  /**
    The total alone decides whether there were stripes. Modulo 2^64 it still tells them, or it
    makes no difference because the lanes happen to merge into what stands for no stripes.
   */
  predicate LengthTold(content: seq<byte>, seed: uint64) {
    var lanes := Stripes(InitialLanes(seed), content);
    |content| < WRAP64 || U64(|content|) >= 32 || Merge(lanes) == U64(lanes.v3 + PRIME5)
  }

  /** The hash, and the condition, in terms of what is kept. */
  lemma HashOfKept(lanes: Lanes, held: seq<byte>, seed: uint64, content: seq<byte>)
    requires Absorbed(lanes, held, seed, content)
    ensures var start := if |content| >= 32 then Merge(lanes) else U64(lanes.v3 + PRIME5);
      Hash(content, seed) == Avalanche(Tail(U64(start + U64(|content|)), held))
    ensures LengthTold(content, seed) <==>
      |content| < WRAP64 || U64(|content|) >= 32 || Merge(lanes) == U64(lanes.v3 + PRIME5)
  {
    hide Avalanche, Tail, Merge, Stripe, U64;
    if |content| < 32 {
      assert lanes == InitialLanes(seed);
    }
  }

  /** So the digest is the hash exactly then; a total that wrapped to less than 32 is misread otherwise. */
  lemma DigestIsHash(lanes: Lanes, held: seq<byte>, seed: uint64, content: seq<byte>, total: uint64)
    requires Absorbed(lanes, held, seed, content) && total == U64(|content|)
    ensures LengthTold(content, seed) <==>
      Avalanche(Tail(U64((if total >= 32 then Merge(lanes) else U64(lanes.v3 + PRIME5)) + total), held))
        == Hash(content, seed)
  {
    hide Avalanche, Tail, Merge, Stripes, Absorbed, Hash, LengthTold;
    HashOfKept(lanes, held, seed, content);
    if |content| >= 32 && total < 32 {
      StartsApart(U64(lanes.v3 + PRIME5), Merge(lanes), total, held);
    }
  }

  class State {
    var totalLen: uint64
    var lanes: Lanes
    const mem: array<byte>
    var memsize: nat
    ghost var seed: uint64
    ghost var content: seq<byte>

    /** `content` is everything hashed so far; only its incomplete last stripe is still in memory. */
    ghost predicate Valid()
      reads this, mem
    {
      && mem.Length == 32 && memsize < 32
      && totalLen == U64(|content|)
      && Absorbed(lanes, mem[..memsize], seed, content)
    }

    /** XXH64_createState followed by XXH64_reset. */
    constructor (seed: uint64)
      ensures Valid() && fresh(mem) && content == [] && this.seed == seed
    {
      mem := new byte[32](_ => 0);
      new;
      Reset(seed);
    }

    /** XXH64_reset */
    method Reset(seed: uint64)
      requires mem.Length == 32
      modifies this
      ensures Valid() && content == [] && this.seed == seed
    {
      hide Absorbed, InitialLanes;
      totalLen, lanes, memsize := 0, InitialLanes(seed), 0;
      this.seed, content := seed, [];
      AbsorbNothing(seed);
      assert mem[..0] == [];
    }

    /** Copy input behind the bytes already held. */
    method Hold(input: seq<byte>, from: nat, n: nat)
      requires mem.Length == 32 && from + n <= |input| && memsize + n <= 32
      modifies this`memsize, mem
      ensures memsize == old(memsize) + n && mem[..memsize] == old(mem[..memsize]) + input[from..from + n]
    {
      CopyIn(mem, memsize, input, from, n);
      memsize := memsize + n;
    }

    /** The loop over whole stripes, with nothing held. */
    method ConsumeStripes(input: seq<byte>, start: nat, ghost before: seq<byte>) returns (p: nat)
      requires start <= |input| && Absorbed(lanes, [], seed, before + input[..start])
      modifies this`lanes
      ensures start <= p <= |input| < p + 32 && Absorbed(lanes, [], seed, before + input[..p])
    {
      hide Absorbed, Stripe;
      p := start;
      while p + 32 <= |input|
        invariant start <= p <= |input|
        invariant Absorbed(lanes, [], seed, before + input[..p])
      {
        StripeAt(lanes, input, p);
        AbsorbStripe(lanes, [], seed, before + input[..p], input[p..p + 32]);
        assert [] + input[p..p + 32] == input[p..p + 32];
        assert before + input[..p] + input[p..p + 32] == before + input[..p + 32];
        lanes, p := Stripe(lanes, input, p), p + 32;
      }
    }

    /** XXH64_update */
    method Update(input: seq<byte>)
      requires Valid()
      modifies this, mem
      ensures Valid() && content == old(content) + input && seed == old(seed)
    {
      hide Absorbed, Stripe, U64;
      ghost var before, held := content, mem[..memsize];
      SumOfRemainders(|before|, |input|);
      content := content + input;
      totalLen := U64(totalLen + U64(|input|));
      if memsize + |input| < 32 {
        Hold(input, 0, |input|);
        AbsorbShort(lanes, held, seed, before, input);
        assert input[0..|input|] == input;
        return;
      }
      var p := 0;
      assert input[..0] == [] && before + [] == before;
      if memsize != 0 {
        p := 32 - memsize;
        Hold(input, 0, p);
        AbsorbStripe(lanes, held, seed, before, input[..p]);
        assert mem[..] == mem[..32] == held + input[..p];
        lanes := Stripe(lanes, mem[..], 0);
        memsize := 0;
      }
      assert mem[..0] == [];
      p := ConsumeStripes(input, p, before);
      AbsorbShort(lanes, [], seed, before + input[..p], input[p..]);
      assert before + input[..p] + input[p..] == content;
      if p < |input| {
        Hold(input, p, |input| - p);
      }
      assert mem[..memsize] == [] + input[p..];
    }

    /** XXH64_digest */
    method Digest() returns (h: uint64)
      requires Valid()
      ensures h == Hash(content, seed) <==> LengthTold(content, seed)
    {
      hide Absorbed, Merge, Tail, Avalanche, Hash, U64, LengthTold;
      DigestIsHash(lanes, mem[..memsize], seed, content, totalLen);
      h := U64((if totalLen >= 32 then Merge(lanes) else U64(lanes.v3 + PRIME5)) + totalLen);
      h := Finalize(h, mem[..memsize]);
    }
  }

  /** However the data is cut into updates, the digest is the one-shot hash of the whole, unless the length misleads. */
  method HashPieces(pieces: seq<seq<byte>>, seed: uint64) returns (h: uint64)
    ensures h == Hash(XxHash32.Concatenation(pieces), seed) <==> LengthTold(XxHash32.Concatenation(pieces), seed)
    ensures |XxHash32.Concatenation(pieces)| < WRAP64 ==> h == Hash(XxHash32.Concatenation(pieces), seed)
  {
    hide Hash, Absorbed, U64;
    var state := new State(seed);
    for i := 0 to |pieces|
      invariant state.Valid() && fresh(state) && fresh(state.mem)
      invariant state.content == XxHash32.Concatenation(pieces[..i]) && state.seed == seed
    {
      state.Update(pieces[i]);
      assert pieces[..i + 1][..i] == pieces[..i];
    }
    assert pieces[..|pieces|] == pieces;
    h := state.Digest();
  }
}
