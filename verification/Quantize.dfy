/**
 Power-of-two and linear quantization (bpf/agg_qbin.c, bpf/agg_lqbin.c), and counting a
 value in its bin (dt_cg_agg_quantize_impl() in libdtrace/dt_cg.c).
 */
module Quantize {
  import opened Word
  import opened BitFacts

  const ZERO_BUCKET := 63
  const BUCKETS := 127

  /** DTRACE_QUANTIZE_BUCKETVAL: the value of a bucket that is nearest to zero. */
  function BucketVal(b: int): int {
    if b < ZERO_BUCKET then -Pow2(ZERO_BUCKET - 1 - b)
    else if b == ZERO_BUCKET then 0
    else Pow2(b - ZERO_BUCKET - 1)
  }

  // ----- powers of two -----

  /** A test of the bits from `lo` up to `lo` + `n`, as `x & mask` tests them. */
  lemma {:induction false} MaskTest(x: nat, n: nat, lo: nat, width: nat)
    requires x < Pow2(lo + n) && lo + n <= width
    ensures Bits(BitAnd, x, (Pow2(n) - 1) * Pow2(lo), width) != 0 <==> x >= Pow2(lo)
  {
    hide Bits;
    var p := Pow2(lo);
    var q, r := x / p, x % p;
    assert x == q * p + r;
    DivShrinks(x, p);
    BitsSplit(BitAnd, q, r, Pow2(n) - 1, 0, lo, width);
    AndZero(r, lo);
    Pow2Add(n, lo);
    hide Pow2;
    assert q < Pow2(n) by { if q >= Pow2(n) { MulMono(Pow2(n), q, p); } }
    QuotientFits(q, n, width - lo);
    MaskIsMod(q, n, width - lo);
    DivModUnique(q, Pow2(n), 0, q);
    if q >= 1 { MulMono(1, q, p); }
  }

  lemma {:induction false} QuotientFits(q: nat, n: nat, m: nat)
    requires q < Pow2(n) && n <= m
    ensures q < Pow2(m)
  {
    Pow2Below(n, m);
  }

  lemma {:induction false} DivTwice(a: nat, p: nat, q: nat)
    requires p >= 1 && q >= 1
    ensures p * q >= 1 && a / p / q == a / (p * q)
  {
    var x := a / p;
    var y, s, r := x / q, x % q, a % p;
    assert a == p * x + r && x == q * y + s;
    Nested(a, p, q, x, y, s, r);
    DivModUnique(a, p * q, y, s * p + r);
  }

  lemma {:induction false} Nested(a: int, p: int, q: int, x: int, y: int, s: int, r: int)
    requires p >= 1 && q >= 1 && a == p * x + r && x == q * y + s && 0 <= s < q && 0 <= r < p
    ensures p * q >= 1 && a == y * (p * q) + (s * p + r) && 0 <= s * p + r < p * q
  {
    calc {
      p * x;
      p * (q * y) + p * s;
      y * (p * q) + s * p;
    }
    MulMono(s + 1, q, p);
    assert (s + 1) * p == s * p + p && q * p == p * q;
    MulMono(0, s, p);
    MulMono(1, q, p);
  }

  /** `tmp` is what is left of `a` after dropping `off` - 1 bits, and has at most `w`. */
  ghost predicate Narrowed(a: nat, tmp: nat, off: nat, w: nat) {
    off >= 1 && tmp == a / Pow2(off - 1) && 1 <= tmp < Pow2(w)
  }

  lemma {:induction false} Halve(a: nat, tmp: nat, off: nat, w: nat)
    requires Narrowed(a, tmp, off, 2 * w)
    ensures if tmp >= Pow2(w) then Narrowed(a, tmp / Pow2(w), off + w, w) else Narrowed(a, tmp, off, w)
  {
    if tmp >= Pow2(w) {
      Pow2Add(off - 1, w);
      Pow2Add(w, w);
      hide Pow2;
      var p := Pow2(w);
      DivTwice(a, Pow2(off - 1), p);
      assert tmp == p * (tmp / p) + tmp % p;
      var q := tmp / p;
      if q >= p { MulMono(p, q, p); }
      if q < 1 { MulMono(q, 0, p); }
    }
  }

  /** One of the six tests of dt_agg_qbin. */
  method Test(ghost a: nat, tmp: U64, off: nat, w: nat, mask: U64) returns (tmp': U64, off': nat)
    requires 1 <= w <= 32 && Narrowed(a, tmp, off, 2 * w)
    requires mask == (Pow2(w) - 1) * Pow2(w) || (w == 32 && tmp < HALF && mask == (Pow2(31) - 1) * Pow2(32))
    ensures Narrowed(a, tmp', off', w)
  {
    hide Bits;
    Halve(a, tmp, off, w);
    if mask == (Pow2(w) - 1) * Pow2(w) {
      MaskTest(tmp, w, w, 64);
    } else {
      Pow2Of64();
      assert Pow2(64) == 2 * Pow2(63);
      MaskTest(tmp, 31, 32, 64);
    }
    hide Pow2;
    tmp', off' := tmp, off;
    if Bitwise(BitAnd, tmp, mask) != 0 {
      tmp', off' := ShiftRight(tmp, w), off + w;
    }
  }

  /** The bin of a value: the zero bucket plus or minus the number of bits, except that
      the minimum shares a bucket with its neighbours. */
  ghost predicate IsBin(v: int, b: int) {
    if v == 0 then b == ZERO_BUCKET
    else if v > 0 then ZERO_BUCKET < b < BUCKETS && BucketVal(b) <= v < 2 * BucketVal(b)
    else if v == -HALF then b == 0
    else 0 <= b < ZERO_BUCKET && 2 * BucketVal(b) < v <= BucketVal(b)
  }

  /** dt_agg_qbin. */
  method BinOf(val: U64) returns (b: int)
    ensures IsBin(Signed(val), b)
  {
    if val == 0 { return 63; }
    if val == 0x8000_0000_0000_0000 { return 0; }
    var tmp: U64 := val;
    if Signed(val) < 0 { tmp := Negated(tmp); }
    ghost var a: nat := tmp;
    SmallPowers();
    assert a == Abs(Signed(val)) && 1 <= a < HALF;
    var off := 1;
    assert Narrowed(a, tmp, off, 64);
    hide Pow2, Narrowed;
    tmp, off := Test(a, tmp, off, 32, 0x7fff_ffff_0000_0000);
    tmp, off := Test(a, tmp, off, 16, 0xffff_0000);
    tmp, off := Test(a, tmp, off, 8, 0xff00);
    tmp, off := Test(a, tmp, off, 4, 0xf0);
    tmp, off := Test(a, tmp, off, 2, 0xc);
    tmp, off := Test(a, tmp, off, 1, 0x2);
    BitLength(a, tmp, off);
    b := if Signed(val) < 0 then 63 - off else 63 + off;
  }

  function Negated(x: U64): U64 {
    if x == 0 then 0 else W - x
  }

  lemma {:induction false} SmallPowers()
    ensures Pow2(0) == 1 && Pow2(1) == 2 && Pow2(2) == 4 && Pow2(4) == 16 && Pow2(8) == 256 && Pow2(16) == 0x1_0000
    ensures Pow2(31) == 0x8000_0000 && Pow2(32) == 0x1_0000_0000 && Pow2(63) == HALF && Pow2(64) == W
  {
    Pow2Of64();
    assert Pow2(8) == 256;
    Pow2Add(8, 8);
    Pow2Add(16, 15);
    assert Pow2(15) == 0x8000;
    assert Pow2(64) == 2 * Pow2(63);
  }

  /** With one bit left, `off` is the number of bits of `a`. */
  lemma {:induction false} BitLength(a: nat, tmp: nat, off: nat)
    requires Narrowed(a, tmp, off, 1) && 1 <= a < HALF
    ensures 1 <= off <= 63 && Pow2(off - 1) <= a < 2 * Pow2(off - 1)
  {
    SmallPowers();
    if off > 63 { Pow2Below(63, off - 1); }
    hide Pow2;
    QuotientOne(a, Pow2(off - 1));
  }

  lemma {:induction false} QuotientOne(a: nat, p: nat)
    requires p >= 1 && a / p == 1
    ensures p <= a < 2 * p
  {
    assert a == p * (a / p) + a % p;
  }

  /** There is one bin for every value ... */
  lemma {:induction false} BinUnique(v: int, b: int, c: int)
    requires IsBin(v, b) && IsBin(v, c) && -HALF <= v < HALF
    ensures b == c
  {
    SmallPowers();
    hide Pow2;
    if v > 0 {
      if b < c { Pow2Below(b - ZERO_BUCKET - 1, c - ZERO_BUCKET - 1); }
      if c < b { Pow2Below(c - ZERO_BUCKET - 1, b - ZERO_BUCKET - 1); }
    } else if v < 0 {
      if b < c { Pow2Below(ZERO_BUCKET - 1 - c, ZERO_BUCKET - 1 - b); }
      if c < b { Pow2Below(ZERO_BUCKET - 1 - b, ZERO_BUCKET - 1 - c); }
    }
  }

  /** ... and bins ascend with the values. */
  lemma {:induction false} BinMono(v: int, b: int, w: int, c: int)
    requires IsBin(v, b) && IsBin(w, c) && -HALF <= v <= w < HALF
    ensures 0 <= b <= c < BUCKETS
  {
    SmallPowers();
    hide Pow2;
    if v > 0 && c < b {
      Pow2Below(c - ZERO_BUCKET - 1, b - ZERO_BUCKET - 1);
    }
    if w < 0 && c < b {
      Pow2Below(ZERO_BUCKET - 1 - b, ZERO_BUCKET - 1 - c);
    }
  }

  // ----- linear -----

  /** The parameters that lquantize() accepts. */
  datatype Linear = Linear(base: int, levels: nat, step: nat) {
    predicate Accepted() {
      && -0x8000_0000 <= base < 0x8000_0000
      && 1 <= levels <= 0xffff && 1 <= step <= 0xffff
    }
  }

  /** Below the base, in one of the levels, or from the limit on. */
  ghost predicate IsLinearBin(p: Linear, v: int, b: int) {
    && 0 <= b <= p.levels + 1
    && (b > 0 ==> p.base + (b - 1) * p.step <= v)
    && (b <= p.levels ==> v < p.base + b * p.step)
  }

  /** dt_agg_lqbin: the difference does not fit a signed word, but an unsigned one. */
  method LinearBin(p: Linear, val: U64) returns (b: nat)
    requires p.Accepted()
    ensures IsLinearBin(p, Signed(val), b)
  {
    var v := Signed(val);
    if p.step == 0 || v < p.base { return 0; }
    var diff := Wrap(v - p.base);
    DivShrinks(diff, p.step);
    QuotientBounds(diff, p.step);
    var level: nat := diff / p.step;
    if level > p.levels {
      MulMono(p.levels, level, p.step);
      level := p.levels;
    }
    b := level + 1;
  }

  /** One bin for every value, and bins ascend with the values. */
  lemma {:induction false} LinearMono(p: Linear, v: int, b: int, w: int, c: int)
    requires p.Accepted() && IsLinearBin(p, v, b) && IsLinearBin(p, w, c) && v <= w
    ensures b <= c
  {
    if c < b { MulMono(c, b - 1, p.step); }
  }

  // ----- counting -----

  function Sum(q: seq<U64>): int {
    if q == [] then 0 else Sum(q[..|q| - 1]) + q[|q| - 1]
  }

  lemma {:induction false} SumJoin(a: seq<U64>, b: seq<U64>)
    ensures Sum(a + b) == Sum(a) + Sum(b)
    decreases |b|
  {
    if b == [] {
      assert a + b == a;
    } else {
      assert (a + b)[..|a + b| - 1] == a + b[..|b| - 1];
      SumJoin(a, b[..|b| - 1]);
    }
  }

  lemma {:induction false} SumUpdate(q: seq<U64>, i: nat, x: U64)
    requires i < |q|
    ensures Sum(q[i := x]) == Sum(q) - q[i] + x
  {
    assert q == q[..i] + ([q[i]] + q[i + 1..]) && q[i := x] == q[..i] + ([x] + q[i + 1..]);
    SumJoin(q[..i], [q[i]] + q[i + 1..]);
    SumJoin(q[..i], [x] + q[i + 1..]);
    SumJoin([q[i]], q[i + 1..]);
    SumJoin([x], q[i + 1..]);
    assert [x][..0] == [] && [q[i]][..0] == [];
  }

  /** dt_cg_agg_quantize_impl: the bound check, then the bin counts one increment more. */
  method Count(q: array<U64>, bin: int, incr: U64)
    modifies q
    ensures q[..] == if 0 <= bin < q.Length then old(q[..])[bin := AddWord(old(q[..])[bin], incr)] else old(q[..])
  {
    if bin > q.Length - 1 { return; }
    if bin < 0 { return; }
    q[bin] := AddWord(q[bin], incr);
  }

  /** The total of the increments of some samples. */
  function Increments(samples: seq<(U64, U64)>): int {
    if samples == [] then 0 else Increments(samples[..|samples| - 1]) + samples[|samples| - 1].1
  }

  /** The total of the increments of those samples that fall into bin `b`. */
  ghost function InBin(falls: (int, int) -> bool, samples: seq<(U64, U64)>, b: int): int {
    if samples == [] then 0
    else
      var n := |samples| - 1;
      InBin(falls, samples[..n], b) + if falls(Signed(samples[n].0), b) then samples[n].1 else 0
  }

  /** Every bin has the increments of its samples (modulo the word size), and all bins
      together have all of them. */
  ghost predicate Counted(falls: (int, int) -> bool, samples: seq<(U64, U64)>, q: seq<U64>) {
    && (forall b :: 0 <= b < |q| ==> q[b] == Wrap(InBin(falls, samples, b)))
    && Wrap(Sum(q)) == Wrap(Increments(samples))
  }

  lemma {:induction false} CountedNone(falls: (int, int) -> bool, q: seq<U64>)
    requires forall b :: 0 <= b < |q| ==> q[b] == 0
    ensures Counted(falls, [], q)
  {
    SumZero(q);
  }

  /** One sample more, which falls into bin `b` only. */
  lemma {:induction false} CountedMore(falls: (int, int) -> bool, samples: seq<(U64, U64)>, v: U64, incr: U64,
                                       q: seq<U64>, b: nat)
    requires Counted(falls, samples, q) && b < |q| && falls(Signed(v), b)
    requires forall c :: 0 <= c < |q| && falls(Signed(v), c) ==> c == b
    ensures Counted(falls, samples + [(v, incr)], q[b := AddWord(q[b], incr)])
  {
    hide Wrap, Sum;
    var more, q' := samples + [(v, incr)], q[b := AddWord(q[b], incr)];
    assert more[..|samples|] == samples && more[|samples|] == (v, incr);
    forall c | 0 <= c < |q| ensures q'[c] == Wrap(InBin(falls, more, c)) {
      if c == b { AddTo(InBin(falls, samples, b), incr); }
    }
    SumUpdate(q, b, AddWord(q[b], incr));
    Accumulated(Sum(q), q[b], incr, Increments(samples));
  }

  lemma {:induction false} AddTo(x: int, incr: U64)
    ensures AddWord(Wrap(x), incr) == Wrap(x + incr)
  {
    WrapInner(x, incr);
  }

  /** Every value falls into a bin, so no sample is dropped. */
  method Tally(samples: seq<(U64, U64)>) returns (q: array<U64>)
    ensures fresh(q) && q.Length == BUCKETS && Counted((v, b) => IsBin(v, b), samples, q[..])
  {
    hide Counted, IsBin;
    ghost var falls := (v, b) => IsBin(v, b);
    q := new U64[BUCKETS](_ => 0);
    CountedNone(falls, q[..]);
    var i := 0;
    assert samples[..0] == [];
    while i < |samples|
      invariant 0 <= i <= |samples| && fresh(q) && q.Length == BUCKETS
      invariant Counted(falls, samples[..i], q[..])
    {
      var (v, incr) := samples[i];
      var b := BinOf(v);
      BinMono(Signed(v), b, Signed(v), b);
      forall c | 0 <= c < q.Length && falls(Signed(v), c) ensures c == b { BinUnique(Signed(v), b, c); }
      CountedMore(falls, samples[..i], v, incr, q[..], b);
      Count(q, b, incr);
      assert samples[..i + 1] == samples[..i] + [(v, incr)];
      i := i + 1;
    }
    assert samples[..i] == samples;
  }

  /** The same for the bins of lquantize(): those below and above the levels count, too. */
  method LinearTally(p: Linear, samples: seq<(U64, U64)>) returns (q: array<U64>)
    requires p.Accepted()
    ensures fresh(q) && q.Length == p.levels + 2 && Counted((v, b) => IsLinearBin(p, v, b), samples, q[..])
  {
    hide Counted, Linear.Accepted;
    ghost var falls := (v, b) => IsLinearBin(p, v, b);
    q := new U64[p.levels + 2](_ => 0);
    CountedNone(falls, q[..]);
    var i := 0;
    assert samples[..0] == [];
    while i < |samples|
      invariant 0 <= i <= |samples| && fresh(q) && q.Length == p.levels + 2
      invariant Counted(falls, samples[..i], q[..])
    {
      var (v, incr) := samples[i];
      var b := LinearBin(p, v);
      forall c | 0 <= c < q.Length && falls(Signed(v), c) ensures c == b {
        LinearMono(p, Signed(v), b, Signed(v), c);
        LinearMono(p, Signed(v), c, Signed(v), b);
      }
      CountedMore(falls, samples[..i], v, incr, q[..], b);
      Count(q, b, incr);
      assert samples[..i + 1] == samples[..i] + [(v, incr)];
      i := i + 1;
    }
    assert samples[..i] == samples;
  }

  lemma {:induction false} SumZero(q: seq<U64>)
    requires forall i :: 0 <= i < |q| ==> q[i] == 0
    ensures Sum(q) == 0
  {
    if q != [] { SumZero(q[..|q| - 1]); }
  }

  lemma {:induction false} Accumulated(s: int, x: U64, incr: U64, t: int)
    requires Wrap(s) == Wrap(t)
    ensures Wrap(s - x + AddWord(x, incr)) == Wrap(t + incr)
  {
    var k := (x + incr) / W;
    assert AddWord(x, incr) == x + incr - k * W;
    WrapCongruent(s - x + AddWord(x, incr), s + incr, -k);
    var j := s / W - t / W;
    assert s == t + j * W;
    WrapCongruent(s + incr, t + incr, j);
  }
}
