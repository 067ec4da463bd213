/** Bitwise operations in terms of quotients and remainders by powers of two. */
module BitFacts {
  import opened Word

  lemma {:induction false} AndZero(h: nat, n: nat)
    ensures Bits(BitAnd, h, 0, n) == 0
  {
    if n > 0 { AndZero(h / 2, n - 1); }
  }

  lemma {:induction false} MaskIsMod(h: nat, k: nat, n: nat)
    requires h < Pow2(n)
    ensures Bits(BitAnd, h, Pow2(k) - 1, n) == h % Pow2(k)
    decreases n
  {
    hide Bits, Pow2;
    if k == 0 {
      Pow2None();
      AndZero(h, n);
    } else if n == 0 {
      Pow2None();
      DivModUnique(0, Pow2(k), 0, 0);
      BitsNone(h, Pow2(k) - 1);
    } else {
      var m := Pow2(k - 1);
      Pow2Step(k);
      Pow2Step(n);
      MaskIsMod(h / 2, k - 1, n - 1);
      HalfMod(h, m);
      AndOdd(h, m - 1, n);
    }
  }

  lemma {:induction false} Pow2Below(m: nat, n: nat)
    requires m <= n
    ensures Pow2(m) <= Pow2(n) && (m < n ==> 2 * Pow2(m) <= Pow2(n))
  {
    if m < n { Pow2Below(m, n - 1); }
  }

  lemma {:induction false} Pow2Step(k: nat)
    requires k > 0
    ensures Pow2(k) == 2 * Pow2(k - 1)
  {
  }

  lemma {:induction false} Pow2None()
    ensures Pow2(0) == 1
  {
  }

  lemma {:induction false} BitsNone(a: nat, b: nat)
    ensures Bits(BitAnd, a, b, 0) == 0
  {
  }

  lemma {:induction false} AndOdd(h: nat, m: nat, n: nat)
    requires n > 0
    ensures Bits(BitAnd, h, 2 * m + 1, n) == h % 2 + 2 * Bits(BitAnd, h / 2, m, n - 1)
  {
    assert (2 * m + 1) / 2 == m && (2 * m + 1) % 2 == 1;
  }

  lemma {:induction false} HalfMod(h: nat, m: nat)
    requires m >= 1
    ensures h % (2 * m) == 2 * (h / 2 % m) + h % 2
  {
    var q, r := h / 2 / m, h / 2 % m;
    assert h / 2 == m * q + r;
    assert h == 2 * (m * q) + 2 * r + h % 2;
    assert 2 * (m * q) == q * (2 * m);
    DivModUnique(h, 2 * m, q, 2 * r + h % 2);
  }

  /** The upper and the lower bits of a number are combined separately. */
  lemma {:induction false} BitsSplit(op: BitOp, a1: nat, a0: nat, b1: nat, b0: nat, k: nat, n: nat)
    requires k <= n && a0 < Pow2(k) && b0 < Pow2(k)
    ensures Bits(op, a1 * Pow2(k) + a0, b1 * Pow2(k) + b0, n) == Bits(op, a1, b1, n - k) * Pow2(k) + Bits(op, a0, b0, k)
    decreases k
  {
    hide Bits;
    if k == 0 {
      NoBits(op, a0, b0);
    } else {
      var m := Pow2(k - 1);
      var a, b := a1 * Pow2(k) + a0, b1 * Pow2(k) + b0;
      HalfOf(a1, a0, m);
      HalfOf(b1, b0, m);
      OneMoreBit(op, a, b, n);
      OneMoreBit(op, a0, b0, k);
      BitsSplit(op, a1, a0 / 2, b1, b0 / 2, k - 1, n - 1);
      var x := Bits(op, a1, b1, n - k);
      assert 2 * (x * m) == x * Pow2(k);
    }
  }

  lemma {:induction false} NoBits(op: BitOp, a: nat, b: nat)
    ensures Bits(op, a, b, 0) == 0
  {
  }

  lemma {:induction false} OneMoreBit(op: BitOp, a: nat, b: nat, n: nat)
    requires n > 0
    ensures Bits(op, a, b, n) == OneBit(op, a % 2, b % 2) + 2 * Bits(op, a / 2, b / 2, n - 1)
  {
  }

  lemma {:induction false} HalfOf(a1: nat, a0: nat, m: nat)
    ensures var a := a1 * (2 * m) + a0; a / 2 == a1 * m + a0 / 2 && a % 2 == a0 % 2
  {
    var a := a1 * (2 * m) + a0;
    assert a == 2 * (a1 * m) + a0;
  }

  lemma {:induction false} OrZero(a: nat, n: nat)
    requires a < Pow2(n)
    ensures Bits(BitOr, a, 0, n) == a && Bits(BitOr, 0, a, n) == a
  {
    if n > 0 { OrZero(a / 2, n - 1); }
  }

  lemma {:induction false} AndComm(a: nat, b: nat, n: nat)
    ensures Bits(BitAnd, a, b, n) == Bits(BitAnd, b, a, n)
  {
    if n > 0 { AndComm(a / 2, b / 2, n - 1); }
  }

  lemma {:induction false} XorZero(a: nat, n: nat)
    requires a < Pow2(n)
    ensures Bits(BitXor, 0, a, n) == a
  {
    if n > 0 { XorZero(a / 2, n - 1); }
  }

  /** With all ones: the number itself. */
  lemma {:induction false} AndOnes(a: nat, n: nat)
    requires a < Pow2(n)
    ensures Bits(BitAnd, a, Pow2(n) - 1, n) == a
  {
    MaskIsMod(a, n, n);
    DivModUnique(a, Pow2(n), 0, a);
  }

  /** Bit `k` of a number. */
  predicate Bit(x: nat, k: nat) {
    x / Pow2(k) % 2 == 1
  }

  lemma {:induction false} HalfBit(x: nat, k: nat)
    requires k > 0
    ensures Bit(x, k) <==> Bit(x / 2, k - 1)
  {
    Quotients(x, 2, Pow2(k - 1));
  }

  lemma {:induction false} Quotients(x: nat, a: nat, b: nat)
    requires a > 0 && b > 0
    ensures a * b > 0 && x / (a * b) == (x / a) / b
  {
    var q, r := x / a, x % a;
    var q', r' := q / b, q % b;
    assert x == a * q + r && q == b * q' + r';
    assert x == (a * b) * q' + (a * r' + r) by { assert a * (b * q') == (a * b) * q'; }
    assert a * r' + r < a * b by { MulMono(r' + 1, b, a); }
    DivModUnique(x, a * b, q', a * r' + r);
  }

  lemma {:induction false} LowBit(r: nat, x: nat, y: nat)
    requires r <= 1 && x == r + 2 * y
    ensures x % 2 == r && x / 2 == y
  {
  }

  /** What the operations do to every bit. */
  lemma {:induction false} BitsAt(op: BitOp, a: nat, b: nat, n: nat, k: nat)
    requires k < n
    ensures Bit(Bits(op, a, b, n), k) <==>
      match op
      case BitAnd => Bit(a, k) && Bit(b, k)
      case BitOr => Bit(a, k) || Bit(b, k)
      case BitXor => Bit(a, k) != Bit(b, k)
    decreases n
  {
    hide Pow2, Bit;
    var r, y := OneBit(op, a % 2, b % 2), Bits(op, a / 2, b / 2, n - 1);
    LowBit(r, Bits(op, a, b, n), y);
    if k == 0 {
      FirstBit(a);
      FirstBit(b);
      FirstBit(Bits(op, a, b, n));
    } else {
      BitsAt(op, a / 2, b / 2, n - 1, k - 1);
      HalfBit(a, k);
      HalfBit(b, k);
      HalfBit(Bits(op, a, b, n), k);
    }
  }

  lemma {:induction false} FirstBit(x: nat)
    ensures Bit(x, 0) <==> x % 2 == 1
  {
  }
}
