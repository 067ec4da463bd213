/**
 64-bit machine words.  A word is an integer in [0, 2^64); the arithmetic below
 is the BPF instruction set's (RFC 9669, section 4.1): results are reduced
 modulo 2^64, shift counts modulo 64, and division is unsigned.
 */
module Word {

  const W := 0x1_0000_0000_0000_0000
  const HALF := 0x8000_0000_0000_0000

  type U64 = x: int | 0 <= x < W
  type U32 = x: int | 0 <= x < 0x1_0000_0000

  /** The word congruent to `x` modulo 2^64. */
  function Wrap(x: int): U64 {
    x % W
  }

  /** The two's complement reading of a word. */
  function Signed(x: U64): int {
    if x < HALF then x else x - W
  }

  function Pow2(n: nat): (r: int)
    ensures r >= 1
  {
    if n == 0 then 1 else 2 * Pow2(n - 1)
  }

  function Abs(x: int): (r: int)
    ensures r >= 0
  {
    if x < 0 then -x else x
  }

  /** Division truncating toward zero (section 6.5.5 of ISO C99). */
  function TruncDiv(a: int, b: int): int
    requires b != 0
  {
    if (a < 0) == (b < 0) then Abs(a) / Abs(b) else -(Abs(a) / Abs(b))
  }

  /** The remainder that goes with `TruncDiv`. */
  function TruncMod(a: int, b: int): int
    requires b != 0
  {
    a - TruncDiv(a, b) * b
  }

  datatype BitOp = BitAnd | BitOr | BitXor

  function OneBit(op: BitOp, a: int, b: int): (r: int)
    ensures 0 <= r <= 1
  {
    match op
    case BitAnd => if a == 1 && b == 1 then 1 else 0
    case BitOr => if a == 1 || b == 1 then 1 else 0
    case BitXor => if a != b then 1 else 0
  }

  /** The low `n` bits of `a` and `b` combined bit by bit. */
  function Bits(op: BitOp, a: nat, b: nat, n: nat): (r: nat)
    ensures r < Pow2(n)
  {
    if n == 0 then 0 else OneBit(op, a % 2, b % 2) + 2 * Bits(op, a / 2, b / 2, n - 1)
  }

  lemma {:induction false} Pow2OfByte()
    ensures Pow2(8) == 256
  {
  }

  lemma {:induction false} Pow2Of64()
    ensures Pow2(64) == W && Pow2(32) == 0x1_0000_0000
  {
    hide Pow2;
    Pow2OfByte();
    Pow2Add(8, 8);
    Pow2Add(16, 16);
    Pow2Add(32, 32);
  }

  lemma {:induction false} Pow2Add(m: nat, n: nat)
    ensures Pow2(m + n) == Pow2(m) * Pow2(n)
  {
    if m > 0 {
      Pow2Add(m - 1, n);
      assert Pow2(m + n) == 2 * Pow2(m - 1 + n);
    }
  }

  function Bitwise(op: BitOp, a: U64, b: U64): U64 {
    Pow2Of64();
    Bits(op, a, b, 64)
  }

  function ShiftLeft(x: U64, n: nat): U64 {
    Wrap(x * Pow2(n))
  }

  function ShiftRight(x: U64, n: nat): U64 {
    DivShrinks(x, Pow2(n));
    x / Pow2(n)
  }

  /** Arithmetic right shift: the signed value divided by 2^n, rounding down. */
  function ShiftRightSigned(x: U64, n: nat): U64 {
    Wrap(Signed(x) / Pow2(n))
  }

  lemma {:induction false} DivShrinks(x: int, d: int)
    requires 0 <= x && 1 <= d
    ensures 0 <= x / d <= x
  {
    assert x == d * (x / d) + x % d;
    MulMono(1, d, x / d);
  }

  lemma {:induction false} MulMono(a: int, b: int, c: int)
    requires a <= b && 0 <= c
    ensures a * c <= b * c
  {
  }

  /** q and r are the quotient and remainder of x by d as soon as they look like it. */
  lemma {:induction false} DivModUnique(x: int, d: int, q: int, r: int)
    requires d > 0 && x == q * d + r && 0 <= r < d
    ensures x / d == q && x % d == r
  {
    var q', r' := x / d, x % d;
    assert x == d * q' + r';
    if q' > q {
      MulMono(q + 1, q', d);
    } else if q' < q {
      MulMono(q' + 1, q, d);
    }
  }

  /** Two integers congruent modulo 2^64 wrap to the same word. */
  lemma {:induction false} WrapCongruent(x: int, y: int, k: int)
    requires x == y + k * W
    ensures Wrap(x) == Wrap(y)
  {
    DivModUnique(x, W, y / W + k, y % W);
  }

  /** ISO C99 6.5.5: the quotient truncates and (a/b)*b + a%b == a, with the
      remainder smaller than the divisor and of the dividend's sign. */
  lemma {:induction false} TruncDivIso(a: int, b: int)
    requires b != 0
    ensures TruncDiv(a, b) * b + TruncMod(a, b) == a
    ensures Abs(TruncMod(a, b)) == Abs(a) % Abs(b) < Abs(b)
    ensures TruncMod(a, b) != 0 ==> (TruncMod(a, b) < 0) == (a < 0)
  {
    var x, y := Abs(a), Abs(b);
    var q, r := x / y, x % y;
    assert x == y * q + r;
    ProductSign(a, b, q);
  }

  lemma {:induction false} ProductSign(a: int, b: int, q: int)
    ensures (if (a < 0) == (b < 0) then q else -q) * b == if a < 0 then -(Abs(b) * q) else Abs(b) * q
  {
  }

  // ----- 64-bit arithmetic on numbers -----

  function AddWord(a: int, b: int): U64 {
    Wrap(a + b)
  }

  function SubWord(a: int, b: int): U64 {
    Wrap(a - b)
  }

  function MulWord(a: int, b: int): U64 {
    Wrap(a * b)
  }

  lemma {:induction false} WrapInner(x: int, y: int)
    ensures Wrap(Wrap(x) + y) == Wrap(x + y) == Wrap(y + Wrap(x))
  {
    WrapCongruent(x + y, Wrap(x) + y, x / W);
  }

  lemma {:induction false} SumWord(x: nat, y: nat)
    ensures x + y < W ==> AddWord(x, y) == x + y
  {
  }

  lemma {:induction false} QuotientBounds(x: nat, d: nat)
    requires d >= 1
    ensures (x / d) * d <= x < (x / d + 1) * d
  {
    assert x == d * (x / d) + x % d;
  }
}
