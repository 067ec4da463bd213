/** Facts about machine words that generated code relies on. */
module WordFacts {
  import opened Word
  import opened Memory
  import opened Bpf
  import opened Expr
  import opened CodeGen

  /** The low `b` bits of `v`, read as a two's complement number of that width. */
  function SignExtended(v: U64, b: nat): U64
    requires 1 <= b <= 64
  {
    var r := v % Pow2(b);
    Pow2Split(b);
    if 2 * r >= Pow2(b) then Wrap(r - Pow2(b)) else r
  }

  lemma {:induction false} Pow2Split(b: nat)
    requires b <= 64
    ensures Pow2(b) * Pow2(64 - b) == W && 1 <= Pow2(b) <= W
  {
    Pow2Of64();
    Pow2Add(b, 64 - b);
    MulMono(1, Pow2(64 - b), Pow2(b));
  }

  /** Shifting left and back right keeps the low bits; how the right shift fills
      decides whether the result is unsigned or sign-extended. */
  lemma {:induction false} ShiftPair(v: U64, b: nat)
    requires 1 <= b <= 64
    ensures ShiftRight(ShiftLeft(v, 64 - b), 64 - b) == v % Pow2(b)
    ensures ShiftRightSigned(ShiftLeft(v, 64 - b), 64 - b) == SignExtended(v, b)
  {
    hide Pow2;
    Pow2Split(b);
    ShiftPairOf(v, Pow2(b), Pow2(64 - b));
  }

  lemma {:induction false} Scaled(v: int, p: int, q: int, k: int, r: int)
    requires v == p * k + r && 0 <= r < p && q >= 1 && p * q == W
    ensures v * q == k * W + r * q && 0 <= r * q < W
  {
    assert (p * k) * q == k * (p * q);
    MulMono(0, r, q);
    MulMono(r + 1, p, q);
  }

  lemma {:induction false} ShiftPairOf(v: U64, p: int, q: int)
    requires p >= 1 && q >= 1 && p * q == W
    ensures Wrap(v * q) / q == v % p
    ensures Signed(Wrap(v * q)) / q == if 2 * (v % p) >= p then v % p - p else v % p
  {
    var k, r := v / p, v % p;
    Scaled(v, p, q, k, r);
    DivModUnique(v * q, W, k, r * q);
    DivModUnique(r * q, q, r, 0);
    SignedScaled(p, q, r);
  }

  lemma {:induction false} SignedScaled(p: int, q: int, r: int)
    requires 0 <= r < p && q >= 1 && p * q == W && 0 <= r * q < W
    ensures Signed(r * q) / q == if 2 * r >= p then r - p else r
  {
    if 2 * r >= p {
      MulMono(p, 2 * r, q);
      assert r * q - W == (r - p) * q;
      DivModUnique((r - p) * q, q, r - p, 0);
    } else {
      MulMono(2 * r + 1, p, q);
      DivModUnique(r * q, q, r, 0);
    }
  }

  /** A cast's pair of shifts is integer conversion. */
  lemma {:induction false} ShiftsConvert(t: Type, v: U64)
    ensures Alu(if t.signed then Arsh else Rsh, Alu(Lsh, v, Wrap(Gap(t))), Wrap(Gap(t))) == Convert(t, v)
  {
    hide Pow2, Bitwise, ShiftLeft, ShiftRight, ShiftRightSigned, Wrap;
    GapIs(t);
    ShiftPair(v, 8 * t.size);
  }

  lemma {:induction false} GapIs(t: Type)
    ensures Wrap(Gap(t)) == 64 - 8 * t.size && (64 - 8 * t.size) % 64 == 64 - 8 * t.size
  {
  }

  /** Promotion after a load gives the variable's value. */
  lemma {:induction false} ShiftsExtend(t: Type, raw: U64)
    requires raw < Pow2(8 * t.size)
    ensures t.signed ==> Alu(Arsh, Alu(Lsh, raw, Wrap(Gap(t))), Wrap(Gap(t))) == Extend(t, raw)
    ensures t.signed && t.size == 8 ==> Extend(t, raw) == raw
    ensures !t.signed ==> Extend(t, raw) == raw
  {
    hide Pow2;
    Pow2OfSize(t.size);
    DivModUnique(raw, Pow2(8 * t.size), 0, raw);
    ShiftsConvert(t, raw);
    if t.signed && t.size == 8 && 2 * raw >= W {
      WrapCongruent(raw - W, raw, -1);
    }
  }

  // ----- exclusive or -----

  lemma {:induction false} XorOnes(a: nat, n: nat)
    requires a < Pow2(n)
    ensures Bits(BitXor, a, Pow2(n) - 1, n) == Pow2(n) - 1 - a
  {
    if n > 0 {
      assert (Pow2(n) - 1) / 2 == Pow2(n - 1) - 1 && (Pow2(n) - 1) % 2 == 1;
      XorOnes(a / 2, n - 1);
    }
  }

  lemma {:induction false} XorZeros(n: nat)
    ensures Bits(BitXor, 0, 0, n) == 0
  {
    if n > 0 { XorZeros(n - 1); }
  }

  lemma {:induction false} ComplementWord(a: U64)
    ensures Alu(Xor, a, Wrap(-1)) == W - 1 - a
  {
    Pow2Of64();
    XorOnes(a, 64);
  }

  lemma {:induction false} XorTruth(a: bool, b: bool)
    ensures Alu(Xor, Truth(a), Truth(b)) == Truth(a != b)
  {
    XorZeros(63);
  }

  // ----- signed division -----

  /** The magnitude of a word read as a signed number. */
  function Magnitude(x: U64): U64 {
    if x < HALF then x else Negated(x)
  }

  lemma {:induction false} MagnitudeIsAbs(x: U64)
    ensures Magnitude(x) == Abs(Signed(x))
  {
  }

  lemma {:induction false} NegatedWraps(x: U64, y: int)
    requires x == y && 0 <= y < W
    ensures Negated(x) == Wrap(-y) && x == Wrap(y)
  {
    if y > 0 { WrapCongruent(-y, W - y, -1); }
  }

  /** The unsigned operation on magnitudes, negated when the signs differ, is the
      signed operation. */
  lemma {:induction false} DivisionBySigns(op: BinOp, a: U64, b: U64)
    requires (op == Divide || op == Modulo) && b != 0
    ensures BinaryValue(op, true, a, b) ==
      var u := Alu(OpcodeOf(op, true), Magnitude(a), Magnitude(b));
      if (a < HALF) == (b < HALF) then u else Negated(u)
  {
    hide Bitwise, Wrap, TruncDiv, RemainderOf, Negated, ShiftLeft, ShiftRight, ShiftRightSigned;
    var x, y := Signed(a), Signed(b);
    MagnitudeIsAbs(a);
    MagnitudeIsAbs(b);
    DivShrinks(Abs(x), Abs(y));
    var u := Alu(OpcodeOf(op, true), Magnitude(a), Magnitude(b));
    if op == Divide {
      QuotientBySigns(x, y);
    } else {
      RemainderBySigns(x, y);
    }
    NegatedWraps(u, u);
  }

  lemma {:induction false} QuotientBySigns(x: int, y: int)
    requires y != 0
    ensures var q := Abs(x) / Abs(y); TruncDiv(x, y) == if (x < 0) == (y < 0) then q else -q
  {
  }

  lemma {:induction false} RemainderBySigns(x: int, y: int)
    requires y != 0
    ensures var r := Abs(x) % Abs(y); RemainderOf(x, y) == if (x < 0) == (y < 0) then r else -r
  {
    TruncDivIso(x, y);
    hide TruncMod, TruncDiv;
  }

  /** D's signed remainder is C's exactly when the divisor is positive or divides
      the dividend. */
  lemma {:induction false} RemainderExact(a: int, b: int)
    requires b != 0
    ensures RemainderOf(a, b) == TruncMod(a, b) <==> b > 0 || Abs(a) % Abs(b) == 0
  {
    TruncDivIso(a, b);
  }

  /** 7 divided by -2: C leaves 1, and D -1. */
  lemma {:induction false} RemainderFlipped()
    ensures TruncMod(7, -2) == 1 && RemainderOf(7, -2) == -1
    ensures BinaryValue(Modulo, true, 7, W - 2) == W - 1
  {
    assert Signed(W - 2) == -2 && TruncDiv(7, -2) == -3;
    WrapCongruent(-1, W - 1, -1);
  }

  lemma {:induction false} Pow2Sizes()
    ensures Pow2(8) == 0x100 && Pow2(16) == 0x1_0000 && Pow2(32) == 0x1_0000_0000 && Pow2(64) == W
  {
    Pow2Of64();
    Pow2Add(8, 8);
  }

  lemma {:induction false} Widens(src: Type, dst: Type, v: U64)
    requires Fits(src, v) && NoCast(src, dst)
    ensures Fits(dst, v)
  {
    hide Pow2, Fits;
    Pow2Sizes();
    if dst.size == 8 {
      FitsWord(dst, v);
    } else if dst.size > src.size {
      FitsRange(src, v, Pow2(8 * src.size));
      FitsRange(dst, v, Pow2(8 * dst.size));
    }
  }

  lemma {:induction false} FitsWord(t: Type, v: U64)
    requires t.size == 8
    ensures Fits(t, v)
  {
    hide Pow2;
    Pow2Sizes();
    DivModUnique(v, W, 0, v);
    if 2 * v >= W { WrapCongruent(v - W, v, -1); }
  }

  /** The values of a type: the lower ones, and for a signed type the sign-extended ones. */
  lemma {:induction false} FitsRange(t: Type, v: U64, p: int)
    requires p == Pow2(8 * t.size) && 2 <= p < W
    ensures Fits(t, v) <==> if t.signed then 2 * v < p || 2 * (W - v) <= p else v < p
  {
    hide Pow2;
    var r := v % p;
    if v < p { DivModUnique(v, p, 0, v); }
    if t.signed {
      if 2 * r >= p { WrapCongruent(r - p, W + r - p, -1); DivModUnique(W + r - p, W, 0, W + r - p); }
      if 2 * (W - v) <= p { TopValue(t, v, p); }
    }
  }

  lemma {:induction false} TopValue(t: Type, v: U64, p: int)
    requires p == Pow2(8 * t.size) && 2 <= p < W && 2 * (W - v) <= p
    ensures v % p == v - (W - p)
  {
    hide Pow2;
    var q := Pow2(64 - 8 * t.size);
    Pow2Split(8 * t.size);
    assert W - p == p * (q - 1);
    DivModUnique(v, p, q - 1, v - (W - p));
  }
}
