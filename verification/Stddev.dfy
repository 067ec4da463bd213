/**
 stddev(): the square of a value as two words, and a CPU's cell with the count, the sum
 and the 128-bit sum of squares (dt_cg_agg_stddev() and dt_cg_agg_stddev_impl() in
 libdtrace/dt_cg.c).
 */
module Stddev {
  import opened Word

  const R := 0x1_0000_0000
  const W2 := W * W

  /** A shift up and down again by 32 leaves the low half. */
  lemma {:induction false} LowHalf(x: U64)
    ensures ShiftRight(ShiftLeft(x, 32), 32) == x % R && ShiftRight(x, 32) == x / R
  {
    Pow2Of64();
    hide Pow2;
    assert W == R * R;
    var h, l := x / R, x % R;
    assert x == R * h + l;
    assert x * R == h * W + l * R;
    DivModUnique(x * R, W, h, l * R);
    DivModUnique(l * R, R, l, 0);
  }

  /** The middle product, doubled, in its place across the two words. */
  lemma {:induction false} Middle(m: U64)
    ensures ShiftLeft(m, 33) == m % 0x8000_0000 * (2 * R) && ShiftRight(m, 31) == m / 0x8000_0000
    ensures m * (2 * R) == ShiftRight(m, 31) * W + ShiftLeft(m, 33)
  {
    Pow2Of64();
    assert Pow2(33) == 2 * R;
    assert Pow2(32) == 2 * Pow2(31);
    hide Pow2;
    var h, l := m / 0x8000_0000, m % 0x8000_0000;
    assert m == 0x8000_0000 * h + l;
    assert m * (2 * R) == h * W + l * (2 * R);
    DivModUnique(m * (2 * R), W, h, l * (2 * R));
  }

  /** The sum of two words, and the carry as the code finds it. */
  lemma {:induction false} Carry(a: U64, b: U64)
    ensures a + b == AddWord(a, b) + if b <= AddWord(a, b) then 0 else W
  {
    if a + b >= W { WrapCongruent(a + b, a + b - W, 1); }
  }

  /** (h R + l) squared, put together from the three products. */
  lemma {:induction false} Foil(h: nat, l: nat)
    ensures (h * R + l) * (h * R + l) == (h * h) * W + (h * l) * (2 * R) + l * l
  {
    var x := h * R;
    assert (x + l) * (x + l) == x * x + 2 * (x * l) + l * l;
    assert x * x == (h * h) * (R * R);
    assert x * l == (h * l) * R;
  }

  lemma {:induction false} ProductFits(a: nat, b: nat)
    requires a < R && b < R
    ensures 0 <= a * b <= (R - 1) * (R - 1) < W && MulWord(a, b) == a * b
  {
    MulMono(a, R - 1, b);
    MulMono(b, R - 1, R - 1);
    MulMono(0, a, b);
  }

  function SquareOf(v: U64): int {
    Signed(v) * Signed(v)
  }

  /** The square from the two halves of the magnitude. */
  method Multiply(h: U64, l: U64) returns (hi: U64, lo: U64)
    requires h < R && l < R && h * R + l <= HALF
    ensures hi * W + lo == (h * R + l) * (h * R + l)
  {
    hide MulWord, ShiftLeft, ShiftRight, AddWord;
    ProductFits(l, h);
    ProductFits(l, l);
    ProductFits(h, h);
    var mid := MulWord(l, h);
    lo := MulWord(l, l);
    hi := MulWord(h, h);
    Middle(mid);
    var lmd := ShiftLeft(mid, 33);
    mid := ShiftRight(mid, 31);
    Carry(lo, lmd);
    lo := AddWord(lo, lmd);
    ghost var c := if lmd <= lo then 0 else 1;
    HighFits(h * R + l, h, l, mid, lmd, c, lo);
    SumWord(h * h, 1);
    SumWord(h * h + c, mid);
    if !(lmd <= lo) {
      hi := AddWord(hi, 1);
    }
    hi := AddWord(hi, mid);
  }

  lemma {:induction false} SquareAbs(v: int, a: int)
    requires a == Abs(v)
    ensures a * a == v * v
  {
    if v < 0 { assert a == -v; }
  }

  /** The code before the cell is updated: `hi` and `lo` are the square of the value. */
  method Square(v: U64) returns (hi: U64, lo: U64)
    ensures hi * W + lo == SquareOf(v)
  {
    lo := v;
    if Signed(v) < 0 { lo := W - lo; }
    SquareAbs(Signed(v), lo);
    hi := lo;
    LowHalf(lo);
    Halves(lo);
    hide ShiftLeft, ShiftRight;
    lo := ShiftRight(ShiftLeft(lo, 32), 32);
    hi := ShiftRight(hi, 32);
    hi, lo := Multiply(hi, lo);
  }

  lemma {:induction false} Halves(x: U64)
    ensures x == (x / R) * R + x % R && 0 <= x / R < R
  {
  }

  /** The high word does not overflow, because the square is below 2 to the 128. */
  lemma {:induction false} HighFits(a: nat, h: nat, l: nat, mid: U64, lmd: U64, c: nat, lo: U64)
    requires a == h * R + l && a <= HALF && h < R && l < R && c <= 1
    requires (l * h) * (2 * R) == mid * W + lmd && l * l + lmd == lo + c * W
    ensures (h * h + c + mid) * W + lo == a * a && 0 <= h * h + c + mid < W && h * h + c < W
  {
    Foil(h, l);
    assert h * l == l * h;
    assert (h * h + c + mid) * W == (h * h) * W + c * W + mid * W;
    MulMono(0, h, h);
    MulMono(a, HALF, a);
    MulMono(a, HALF, HALF);
    if h * h + c + mid >= W { MulMono(W, h * h + c + mid, W); }
  }

  // ----- the cell -----

  /** count, sum, and the sum of squares as low and high word. */
  datatype Cell = Cell(count: U64, sum: U64, low: U64, high: U64)

  const Empty := Cell(0, 0, 0, 0)

  function Squares(c: Cell): int {
    c.high * W + c.low
  }

  lemma {:induction false} Mod2(x: int, y: int, k: int)
    requires x == y + k * W2 && 0 <= x < W2
    ensures y % W2 == x
  {
    DivModUnique(y, W2, -k, x);
  }

  /** dt_cg_agg_stddev_impl: the code adds the square with the carry between the words. */
  method Add(c: Cell, v: U64, hi: U64, lo: U64) returns (r: Cell)
    ensures r.count == AddWord(c.count, 1) && r.sum == AddWord(c.sum, v)
    ensures Squares(r) == (Squares(c) + hi * W + lo) % W2
  {
    var count, sum := AddWord(c.count, 1), AddWord(c.sum, v);
    var low, high := c.low, c.high;
    Carry(low, lo);
    low := AddWord(low, lo);
    ghost var carry := if lo <= low then 0 else 1;
    if !(lo <= low) { high := AddWord(high, 1); }
    high := AddWord(high, hi);
    r := Cell(count, sum, low, high);
    HighSum(c.high, carry, hi, high);
    var k := (c.high + carry + hi - high) / W;
    assert c.high + carry + hi == high + k * W;
    assert Squares(c) + hi * W + lo == Squares(r) + k * W2;
    WordsBelow(high, low);
    Mod2(Squares(r), Squares(c) + hi * W + lo, -k);
  }

  lemma {:induction false} HighSum(a: U64, carry: nat, b: U64, r: U64)
    requires carry <= 1 && r == if carry == 0 then AddWord(a, b) else AddWord(AddWord(a, 1), b)
    ensures (a + carry + b - r) % W == 0
  {
  }

  lemma {:induction false} WordsBelow(h: U64, l: U64)
    ensures 0 <= h * W + l < W2
  {
    MulMono(h, W - 1, W);
    MulMono(0, h, W);
  }

  function SumOf(vs: seq<U64>): int {
    if vs == [] then 0 else SumOf(vs[..|vs| - 1]) + Signed(vs[|vs| - 1])
  }

  function SquaresOf(vs: seq<U64>): int {
    if vs == [] then 0 else SquaresOf(vs[..|vs| - 1]) + SquareOf(vs[|vs| - 1])
  }

  /** After any sequence of values the cell has their number and their sum modulo 2 to
      the 64, and the sum of their squares modulo 2 to the 128. */
  method Run(vs: seq<U64>) returns (c: Cell)
    ensures c.count == Wrap(|vs|) && c.sum == Wrap(SumOf(vs)) && Squares(c) == SquaresOf(vs) % W2
  {
    hide SquareOf, AddWord, Wrap;
    Started();
    c := Empty;
    var i := 0;
    while i < |vs|
      invariant 0 <= i <= |vs|
      invariant c.count == Wrap(i) && c.sum == Wrap(SumOf(vs[..i])) && Squares(c) == SquaresOf(vs[..i]) % W2
    {
      var hi, lo := Square(vs[i]);
      ghost var was := c;
      c := Add(c, vs[i], hi, lo);
      assert vs[..i + 1][..i] == vs[..i];
      AddOne(i);
      AddSigned(SumOf(vs[..i]), vs[i]);
      AddMod(SquaresOf(vs[..i]), SquareOf(vs[i]));
      i := i + 1;
    }
    assert vs[..i] == vs;
  }

  lemma {:induction false} Started()
    ensures Wrap(0) == 0 && Squares(Empty) == 0 % W2
  {
  }

  lemma {:induction false} AddOne(n: nat)
    ensures AddWord(Wrap(n), 1) == Wrap(n + 1)
  {
    WrapCongruent(n + 1, Wrap(n) + 1, n / W);
  }

  lemma {:induction false} AddSigned(s: int, v: U64)
    ensures AddWord(Wrap(s), v) == Wrap(s + Signed(v))
  {
    var k := s / W;
    assert s == Wrap(s) + k * W;
    WrapCongruent(s + Signed(v), Wrap(s) + v, if v < HALF then k else k - 1);
  }

  lemma {:induction false} AddMod(x: int, y: int)
    ensures (x % W2 + y) % W2 == (x + y) % W2
  {
    var k := x / W2;
    assert x == k * W2 + x % W2;
    var q, r := (x % W2 + y) / W2, (x % W2 + y) % W2;
    DivModUnique(x + y, W2, q + k, r);
  }

  // ----- merging the cells of several CPUs -----

  /** dt_agg_one_agg() adds the words of two cells one by one, without a carry between
      the words of the square sum. */
  function Merge(a: Cell, b: Cell): Cell {
    Cell(AddWord(a.count, b.count), AddWord(a.sum, b.sum), AddWord(a.low, b.low), AddWord(a.high, b.high))
  }

  /** So the merged square sum is right exactly if the low words do not carry. */
  lemma {:induction false} MergeExact(a: Cell, b: Cell)
    ensures Squares(Merge(a, b)) == (Squares(a) + Squares(b)) % W2 <==> a.low + b.low < W
  {
    var m := Merge(a, b);
    var j, k := (a.low + b.low) / W, (a.high + b.high) / W;
    assert a.low + b.low == m.low + j * W && a.high + b.high == m.high + k * W;
    assert 0 <= j <= 1;
    WordsBelow(m.high, m.low);
    if j == 0 {
      Mod2(Squares(m), Squares(a) + Squares(b), -k);
    } else {
      var s := Squares(a) + Squares(b);
      assert s == Squares(m) + W + k * W2;
      if Squares(m) + W < W2 {
        Mod2(Squares(m) + W, s, -k);
      } else {
        Mod2(Squares(m) + W - W2, s, -k - 1);
      }
    }
  }

  /** Two CPUs, on each of which the squares add up to 2 to the 63: 0 in place of 2 to the 64. */
  lemma {:induction false} CarryLost()
    ensures var c := Cell(2, 0x1_0000_0000, 0x8000_0000_0000_0000, 0);
      Squares(c) == 0x8000_0000_0000_0000 && Squares(Merge(c, c)) == 0 && (Squares(c) + Squares(c)) % W2 == W
  {
    assert AddWord(0x8000_0000_0000_0000, 0x8000_0000_0000_0000) == 0;
    Mod2(W, W, 0);
  }
}
