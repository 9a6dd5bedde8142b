/**
  XXH32: the algorithm as its specification describes it, the one-shot function with its unrolled
  tail, and the streaming state with its 16-byte buffer. All three compute the same hash.
 */
module XxHash32 {
  import opened Bytes
  import opened Memory

  const PRIME1 := 2654435761
  const PRIME2 := 2246822519
  const PRIME3 := 3266489917
  const PRIME4 := 668265263
  const PRIME5 := 374761393

  /** Arithmetic of unsigned 32-bit integers. */
  function U32(x: int): uint32 {
    x % 0x1_0000_0000
  }

  /** Rotation left. */
  function Rotl(x: uint32, bits: nat): uint32
    decreases bits
  {
    if bits == 0 then x
    else Rotl(if x < 0x8000_0000 then x + x else x + x - 0xffff_ffff, bits - 1)
  }

  function Round(seed: uint32, input: uint32): uint32 {
    U32(Rotl(U32(seed + input * PRIME2), 13) * PRIME1)
  }

  /** Exclusive or of the lowest `n` bits. */
  function Xor(a: nat, b: nat, n: nat): nat {
    if n == 0 then 0 else (a + b) % 2 + 2 * Xor(a / 2, b / 2, n - 1)
  }

  function Shr(x: nat, bits: nat): nat {
    if bits == 0 then x else Shr(x / 2, bits - 1)
  }

  /** h ^ (h >> bits) */
  function XorShift(h: uint32, bits: nat): uint32 {
    U32(Xor(h, Shr(h, bits), 32))
  }

  function Avalanche(h: uint32): uint32 {
    XorShift(U32(XorShift(U32(XorShift(h, 15) * PRIME2), 13) * PRIME3), 16)
  }

  /** One 4-byte step and one 1-byte step of the tail. */
  function Step4(h: uint32, word: uint32): uint32 {
    U32(Rotl(U32(h + word * PRIME3), 17) * PRIME4)
  }

  function Step1(h: uint32, b: byte): uint32 {
    U32(Rotl(U32(h + b * PRIME5), 11) * PRIME1)
  }

  // ---------- the algorithm ----------

  datatype Lanes = Lanes(v1: uint32, v2: uint32, v3: uint32, v4: uint32)

  function InitialLanes(seed: uint32): Lanes {
    Lanes(U32(seed + PRIME1 + PRIME2), U32(seed + PRIME2), seed, U32(seed - PRIME1))
  }

  /** One stripe of 16 bytes. */
  function Stripe(a: Lanes, s: seq<byte>, i: nat): Lanes
    requires i + 16 <= |s|
  {
    Lanes(Round(a.v1, Read32(s, i)), Round(a.v2, Read32(s, i + 4)), Round(a.v3, Read32(s, i + 8)),
      Round(a.v4, Read32(s, i + 12)))
  }

  /** All complete stripes of `s`. */
  function Stripes(a: Lanes, s: seq<byte>): Lanes
    decreases |s|
  {
    if |s| < 16 then a else Stripes(Stripe(a, s, 0), s[16..])
  }

  function Merge(a: Lanes): uint32 {
    U32(Rotl(a.v1, 1) + Rotl(a.v2, 7) + Rotl(a.v3, 12) + Rotl(a.v4, 18))
  }

  /** The bytes behind the last complete stripe: words while there are any, then single bytes. */
  function Tail(h: uint32, s: seq<byte>): uint32
    decreases |s|
  {
    if |s| >= 4 then Tail(Step4(h, Read32(s, 0)), s[4..])
    else if |s| > 0 then Tail(Step1(h, s[0]), s[1..])
    else h
  }

  /** Where the last complete stripe ends. */
  function StripeEnd(n: nat): (e: nat)
    ensures e <= n < e + 16 && e % 16 == 0
  {
    n - n % 16
  }

  function Hash(s: seq<byte>, seed: uint32): uint32 {
    var start := if |s| >= 16 then Merge(Stripes(InitialLanes(seed), s)) else U32(seed + PRIME5);
    Avalanche(Tail(U32(start + U32(|s|)), s[StripeEnd(|s|)..]))
  }

  /** Stripes can be consumed in any division into whole stripes. */
  lemma {:induction false} StripesSplit(a: Lanes, s: seq<byte>, t: seq<byte>)
    requires |s| % 16 == 0
    ensures Stripes(a, s + t) == Stripes(Stripes(a, s), t)
    decreases |s|
  {
    hide Stripe;
    if |s| == 0 {
      assert s + t == t;
    } else {
      assert (s + t)[16..] == s[16..] + t;
      StripeOfPrefix(a, s, t);
      StripesSplit(Stripe(a, s, 0), s[16..], t);
    }
  }

  lemma StripeOfPrefix(a: Lanes, s: seq<byte>, t: seq<byte>)
    requires |s| >= 16
    ensures Stripe(a, s + t, 0) == Stripe(a, s, 0)
  {
    hide Round;
  }

  /** Only whole stripes count. */
  lemma {:induction false} StripesIgnoreTail(a: Lanes, s: seq<byte>)
    ensures Stripes(a, s) == Stripes(a, s[..StripeEnd(|s|)])
  {
    hide Stripe;
    var e := StripeEnd(|s|);
    assert s == s[..e] + s[e..];
    StripesSplit(a, s[..e], s[e..]);
  }

  // ---------- the unrolled tail ----------

  /** PROCESS4 and PROCESS1 at byte `p`. */
  function Process4(h: uint32, s: seq<byte>, p: nat): uint32
    requires p + 4 <= |s|
  {
    Step4(h, Read32(s, p))
  }

  function Process1(h: uint32, s: seq<byte>, p: nat): uint32
    requires p < |s|
  {
    Step1(h, s[p])
  }

  /**
    XXH32_finalize: a switch on the number of bytes left whose cases fall through, so that each
    of the sixteen lengths runs its own number of word steps and byte steps.
   */
  method Finalize(h0: uint32, s: seq<byte>) returns (r: uint32)
    requires |s| < 16
    ensures r == Avalanche(Tail(h0, s))
  {
    hide *;
    var h, p, n := h0, 0, |s|;
    assert s[0..] == s;
    if n >= 12 {
      TailWord(h, s, p);
      h, p := Process4(h, s, p), p + 4;
    }
    if n >= 8 {
      TailWord(h, s, p);
      h, p := Process4(h, s, p), p + 4;
    }
    if n >= 4 {
      TailWord(h, s, p);
      h, p := Process4(h, s, p), p + 4;
    }
    assert p + n % 4 == n;
    if n % 4 >= 3 {
      TailByte(h, s, p);
      h, p := Process1(h, s, p), p + 1;
    }
    if n % 4 >= 2 {
      TailByte(h, s, p);
      h, p := Process1(h, s, p), p + 1;
    }
    if n % 4 >= 1 {
      TailByte(h, s, p);
      h, p := Process1(h, s, p), p + 1;
    }
    EmptyTail(h, s[p..]);
    r := Avalanche(h);
  }

  lemma EmptyTail(h: uint32, s: seq<byte>)
    requires s == []
    ensures Tail(h, s) == h
  {
  }

  lemma TailWord(h: uint32, s: seq<byte>, p: nat)
    requires p + 4 <= |s|
    ensures Tail(h, s[p..]) == Tail(Process4(h, s, p), s[p + 4..])
  {
    hide Step4, Step1;
    assert s[p..][4..] == s[p + 4..];
    assert Read32(s[p..], 0) == Read32(s, p);
  }

  lemma TailByte(h: uint32, s: seq<byte>, p: nat)
    requires p < |s| < p + 4
    ensures Tail(h, s[p..]) == Tail(Process1(h, s, p), s[p + 1..])
  {
    hide Step4, Step1;
    assert s[p..][1..] == s[p + 1..];
  }

  /** XXH32: stripes while more than 15 bytes are left, then the tail. */
  method OneShot(input: seq<byte>, seed: uint32) returns (h: uint32)
    ensures h == Hash(input, seed)
  {
    hide Stripe, Stripes, Merge, Avalanche, Tail, InitialLanes, U32, Read32;
    var p := 0;
    if |input| >= 16 {
      var limit := |input| - 15;
      var a := InitialLanes(seed);
      ghost var a0 := a;
      a, p := Stripe(a, input, p), p + 16;
      StripesStep(a0, input, 0);
      assert input[0..] == input;
      while p < limit
        invariant p % 16 == 0 && 16 <= p <= |input|
        invariant Stripes(a0, input) == Stripes(a, input[p..])
      {
        StripesStep(a, input, p);
        a, p := Stripe(a, input, p), p + 16;
      }
      NoStripe(a, input[p..]);
      h := Merge(a);
    } else {
      h := U32(seed + PRIME5);
    }
    assert p == StripeEnd(|input|);
    h := U32(h + U32(|input|));
    h := Finalize(h, input[p..]);
  }

  lemma NoStripe(a: Lanes, s: seq<byte>)
    requires |s| < 16
    ensures Stripes(a, s) == a
  {
  }

  lemma StripesStep(a: Lanes, s: seq<byte>, p: nat)
    requires p + 16 <= |s|
    ensures Stripes(a, s[p..]) == Stripes(Stripe(a, s, p), s[p + 16..])
  {
    hide Round;
    assert s[p..][16..] == s[p + 16..];
    assert Stripe(a, s[p..], 0) == Stripe(a, s, p) by {
      assert Read32(s[p..], 0) == Read32(s, p) && Read32(s[p..], 4) == Read32(s, p + 4);
      assert Read32(s[p..], 8) == Read32(s, p + 8) && Read32(s[p..], 12) == Read32(s, p + 12);
    }
  }

  // ---------- the streaming state ----------

  /** What is kept of `content`: its whole stripes mixed into the lanes, and the bytes behind them. */
  ghost predicate Absorbed(lanes: Lanes, held: seq<byte>, seed: uint32, content: seq<byte>) {
    && |held| == |content| % 16
    && lanes == Stripes(InitialLanes(seed), content)
    && held == content[StripeEnd(|content|)..]
  }

  /** The length modulo 2^32 and the flag that remembers a length of 16 or more despite the wrap. */
  ghost predicate Counted(total: uint32, large: bool, n: nat) {
    total == U32(n) && large == (n >= 16)
  }

  lemma AbsorbNothing(seed: uint32)
    ensures Absorbed(InitialLanes(seed), [], seed, []) && Counted(0, false, 0)
  {
  }

  lemma AbsorbShort(lanes: Lanes, held: seq<byte>, seed: uint32, content: seq<byte>, input: seq<byte>)
    requires Absorbed(lanes, held, seed, content) && |held| + |input| < 16
    ensures Absorbed(lanes, held + input, seed, content + input)
  {
    hide Stripe, Stripes, InitialLanes;
    var e, all := StripeEnd(|content|), content + input;
    assert StripeEnd(|all|) == e;
    StripesIgnoreTail(InitialLanes(seed), content);
    StripesIgnoreTail(InitialLanes(seed), all);
    assert all[..e] == content[..e] && all[e..] == content[e..] + input;
  }

  lemma AbsorbStripe(lanes: Lanes, held: seq<byte>, seed: uint32, content: seq<byte>, input: seq<byte>)
    requires Absorbed(lanes, held, seed, content) && |held| + |input| == 16
    ensures Absorbed(Stripe(lanes, held + input, 0), [], seed, content + input)
  {
    hide Stripe, Stripes, InitialLanes;
    var e, all, a := StripeEnd(|content|), content + input, InitialLanes(seed);
    StripesIgnoreTail(a, content);
    assert content == content[..e] + held;
    assert all == content[..e] + (held + input);
    StripesSplit(a, content[..e], held + input);
    OneStripe(lanes, held + input);
    assert StripeEnd(|all|) == |all|;
  }

  lemma OneStripe(a: Lanes, s: seq<byte>)
    requires |s| == 16
    ensures Stripes(a, s) == Stripe(a, s, 0)
  {
    hide Stripe;
  }

  lemma StripeAt(a: Lanes, s: seq<byte>, i: nat)
    requires i + 16 <= |s|
    ensures Stripe(a, s, i) == Stripe(a, s[i..i + 16], 0)
  {
    hide Round;
  }

  lemma CountMore(total: uint32, large: bool, n: nat, more: nat)
    requires Counted(total, large, n)
    ensures var t := U32(total + U32(more)); Counted(t, large || more >= 16 || t >= 16, n + more)
  {
    SumOfRemainders(n, more);
  }

  lemma SumOfRemainders(a: nat, b: nat)
    ensures U32(U32(a) + U32(b)) == U32(a + b)
  {
  }

  lemma DigestIsHash(lanes: Lanes, held: seq<byte>, seed: uint32, content: seq<byte>, total: uint32, large: bool)
    requires Absorbed(lanes, held, seed, content) && Counted(total, large, |content|)
    ensures Avalanche(Tail(U32((if large then Merge(lanes) else U32(lanes.v3 + PRIME5)) + total), held))
      == Hash(content, seed)
  {
    hide Avalanche, Tail, Merge, U32;
    if !large {
      assert lanes == InitialLanes(seed);
    }
  }

  class State {
    var totalLen32: uint32
    var largeLen: bool
    var lanes: Lanes
    const mem: array<byte>
    var memsize: nat
    ghost var seed: uint32
    ghost var content: seq<byte>

    /** `content` is everything hashed so far; only its incomplete last stripe is still in memory. */
    ghost predicate Valid()
      reads this, mem
    {
      && mem.Length == 16 && memsize < 16
      && Counted(totalLen32, largeLen, |content|)
      && Absorbed(lanes, mem[..memsize], seed, content)
    }

    /** XXH32_createState followed by XXH32_reset. */
    constructor (seed: uint32)
      ensures Valid() && fresh(mem) && content == [] && this.seed == seed
    {
      mem := new byte[16](_ => 0);
      new;
      Reset(seed);
    }

    /** XXH32_reset */
    method Reset(seed: uint32)
      requires mem.Length == 16
      modifies this
      ensures Valid() && content == [] && this.seed == seed
    {
      hide Absorbed, InitialLanes;
      totalLen32, largeLen, lanes, memsize := 0, false, InitialLanes(seed), 0;
      this.seed, content := seed, [];
      AbsorbNothing(seed);
      assert mem[..0] == [];
    }

    /** Copy input behind the bytes already held. */
    method Hold(input: seq<byte>, from: nat, n: nat)
      requires mem.Length == 16 && from + n <= |input| && memsize + n <= 16
      modifies this`memsize, mem
      ensures memsize == old(memsize) + n && mem[..memsize] == old(mem[..memsize]) + input[from..from + n]
    {
      CopyIn(mem, memsize, input, from, n);
      memsize := memsize + n;
    }

    /** The loop over whole stripes, with nothing held. */
    method ConsumeStripes(input: seq<byte>, start: nat, ghost before: seq<byte>) returns (p: nat)
      requires start <= |input| && Absorbed(lanes, [], seed, before + input[..start])
      modifies this`lanes
      ensures start <= p <= |input| < p + 16 && Absorbed(lanes, [], seed, before + input[..p])
    {
      hide Absorbed, Stripe;
      p := start;
      while p + 16 <= |input|
        invariant start <= p <= |input|
        invariant Absorbed(lanes, [], seed, before + input[..p])
      {
        StripeAt(lanes, input, p);
        AbsorbStripe(lanes, [], seed, before + input[..p], input[p..p + 16]);
        assert [] + input[p..p + 16] == input[p..p + 16];
        assert before + input[..p] + input[p..p + 16] == before + input[..p + 16];
        lanes, p := Stripe(lanes, input, p), p + 16;
      }
    }

    /** XXH32_update */
    method Update(input: seq<byte>)
      requires Valid()
      modifies this, mem
      ensures Valid() && content == old(content) + input && seed == old(seed)
    {
      hide Absorbed, Counted, Stripe, U32;
      ghost var before, held := content, mem[..memsize];
      CountMore(totalLen32, largeLen, |before|, |input|);
      content := content + input;
      totalLen32 := U32(totalLen32 + U32(|input|));
      largeLen := largeLen || |input| >= 16 || totalLen32 >= 16;
      if memsize + |input| < 16 {
        Hold(input, 0, |input|);
        AbsorbShort(lanes, held, seed, before, input);
        assert input[0..|input|] == input;
        return;
      }
      var p := 0;
      assert input[..0] == [] && before + [] == before;
      if memsize != 0 {
        p := 16 - memsize;
        Hold(input, 0, p);
        AbsorbStripe(lanes, held, seed, before, input[..p]);
        assert mem[..] == mem[..16] == held + input[..p];
        lanes := Stripe(lanes, mem[..], 0);
        memsize := 0;
      }
      assert mem[..0] == [];
      p := ConsumeStripes(input, p, before);
      AbsorbShort(lanes, [], seed, before + input[..p], input[p..]);
      assert before + input[..p] + input[p..] == content;
      if p < |input| {
        Hold(input, p, |input| - p);
      }
      assert mem[..memsize] == [] + input[p..];
    }

    /** XXH32_digest */
    method Digest() returns (h: uint32)
      requires Valid()
      ensures h == Hash(content, seed)
    {
      hide Absorbed, Counted, Merge, Tail, Avalanche, Hash, U32;
      DigestIsHash(lanes, mem[..memsize], seed, content, totalLen32, largeLen);
      h := U32((if largeLen then Merge(lanes) else U32(lanes.v3 + PRIME5)) + totalLen32);
      h := Finalize(h, mem[..memsize]);
    }
  }

  function Concatenation(pieces: seq<seq<byte>>): seq<byte> {
    if pieces == [] then [] else Concatenation(pieces[..|pieces| - 1]) + pieces[|pieces| - 1]
  }

  /** However the data is cut into updates, the digest is the one-shot hash of the whole. */
  method HashPieces(pieces: seq<seq<byte>>, seed: uint32) returns (h: uint32)
    ensures h == Hash(Concatenation(pieces), seed)
  {
    hide Hash, Absorbed, Counted;
    var state := new State(seed);
    for i := 0 to |pieces|
      invariant state.Valid() && fresh(state) && fresh(state.mem)
      invariant state.content == Concatenation(pieces[..i]) && state.seed == seed
    {
      state.Update(pieces[i]);
      assert pieces[..i + 1][..i] == pieces[..i];
    }
    assert pieces[..|pieces|] == pieces;
    h := state.Digest();
  }
}
