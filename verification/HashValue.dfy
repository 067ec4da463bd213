/**
 Hash values of strings, and how many slots a hash table has (str2hval() and
 dt_htab_insert() in libcommon/dt_htab.c).
 */
module HashValue {
  import opened Word
  import opened BitFacts

  const R32 := 0x1_0000_0000

  lemma {:induction false} Pow32()
    ensures Pow2(4) == 16 && Pow2(28) == 0x1000_0000 && Pow2(32) == R32
  {
    Powers();
    hide Pow2;
    Pow2Add(4, 4);
    assert Pow2(8) == 0x100;
    Pow2Add(8, 8);
    assert Pow2(16) == 0x1_0000;
    Pow2Add(16, 8);
    assert Pow2(24) == 0x100_0000;
    Pow2Add(24, 4);
    Pow2Add(16, 16);
  }

  function Xor(a: U32, b: U32): U32 {
    Pow32();
    Bits(BitXor, a, b, 32)
  }

  /** One round of str2hval: the top four bits are taken out and put in at bit 4. */
  function Mix(h: U32, c: char): U32 {
    var x := (h * 16 + c as int) % R32;
    var g := x / 0x1000_0000;
    if g == 0 then x else Xor(Xor(x, g * 16), g * 0x1000_0000)
  }

  function Str2Hval(s: string, h: U32): U32 {
    if s == [] then h else Str2Hval(s[1..], Mix(h, s[0]))
  }

  /** Bits that the other number does not have stay as they are. */
  lemma {:induction false} XorKeepsLow(a: U32, m: nat, k: nat)
    requires k <= 32 && m * Pow2(k) < R32
    ensures Xor(a, m * Pow2(k)) % Pow2(k) == a % Pow2(k)
  {
    hide Bits, Pow2;
    var p := Pow2(k);
    var h, l := a / p, a % p;
    Parts(a, p);
    BitsSplit(BitXor, h, l, m, 0, k, 32);
    XorNone(l, k);
    LowPart(Bits(BitXor, h, m, 32 - k), l, p);
  }

  lemma {:induction false} Parts(a: nat, p: nat)
    requires p >= 1
    ensures a == a / p * p + a % p && a / p >= 0 && 0 <= a % p < p
  {
    DivShrinks(a, p);
  }

  lemma {:induction false} XorNone(a: nat, k: nat)
    requires a < Pow2(k)
    ensures Bits(BitXor, a, 0, k) == a
  {
    hide Bits, Pow2;
    XorComm(a, 0, k);
    XorZero(a, k);
  }

  lemma {:induction false} XorComm(a: nat, b: nat, n: nat)
    ensures Bits(BitXor, a, b, n) == Bits(BitXor, b, a, n)
  {
    if n > 0 { XorComm(a / 2, b / 2, n - 1); }
  }

  lemma {:induction false} LowPart(x: nat, y: nat, p: nat)
    requires y < p
    ensures (x * p + y) % p == y
  {
    DivModUnique(x * p + y, p, x, y);
  }

  /** The low four bits are those of the character. */
  lemma {:induction false} MixLow(h: U32, c: char)
    ensures Mix(h, c) % 16 == c as int % 16
  {
    hide Xor, Pow2;
    Pow32();
    var x := (h * 16 + c as int) % R32;
    var g := x / 0x1000_0000;
    assert x % 16 == c as int % 16;
    if g != 0 {
      XorKeepsLow(x, g, 4);
      XorKeepsLow(Xor(x, g * 16), g * 0x100_0000, 4);
    }
  }

  /** A round with nothing in the top four bits. */
  lemma {:induction false} MixPlain(h: U32, c: char)
    requires h * 16 + c as int < 0x1000_0000
    ensures Mix(h, c) == h * 16 + c as int
  {
    hide Xor;
  }

  /** A round with 1 there: bit 4 changes. */
  lemma {:induction false} MixOne(h: U32, c: char)
    requires 0x1000_0000 <= h * 16 + c as int < 0x2000_0000
    ensures Mix(h, c) % 32 == (h * 16 + c as int + 16) % 32
  {
    hide Xor, Pow2;
    Pow32();
    Powers();
    var x := h * 16 + c as int;
    assert x / 0x1000_0000 == 1;
    XorKeepsLow(Xor(x, 16), 0x80_0000, 5);
    XorSixteen(x);
  }

  lemma {:induction false} XorSixteen(x: U32)
    ensures Xor(x, 16) % 32 == (x + 16) % 32
  {
    hide Bits, Pow2;
    Powers();
    var h, b, r := x / 32, x / 16 % 2, x % 16;
    assert x == (h * 2 + b) * 16 + r;
    BitsSplit(BitXor, h * 2 + b, r, 1, 0, 4, 32);
    XorNone(r, 4);
    OddBit(h, b, 28);
    var y := Bits(BitXor, h * 2 + b, 1, 28);
    assert (y * 16 + r) % 32 == y % 2 * 16 + r;
  }

  lemma {:induction false} OddBit(h: nat, b: nat, n: nat)
    requires b <= 1 && n >= 1
    ensures Bits(BitXor, h * 2 + b, 1, n) % 2 == 1 - b
  {
    OneMoreBit(BitXor, h * 2 + b, 1, n);
  }

  /** So whatever the initial value, the low four bits are those of the last character. */
  lemma {:induction false} HvalLow(s: string, h: U32)
    requires s != []
    ensures Str2Hval(s, h) % 16 == s[|s| - 1] as int % 16
  {
    hide Mix;
    MixLow(h, s[0]);
    if |s| > 1 { HvalLow(s[1..], Mix(h, s[0])); }
  }

  lemma {:induction false} HvalJoin(a: string, b: string, h: U32)
    ensures Str2Hval(a + b, h) == Str2Hval(b, Str2Hval(a, h))
    decreases |a|
  {
    hide Mix;
    if a == [] {
      assert a + b == b;
    } else {
      assert (a + b)[0] == a[0] && (a + b)[1..] == a[1..] + b;
      HvalJoin(a[1..], b, Mix(h, a[0]));
    }
  }

  // ----- the number of slots -----

  /** Doubling as long as there are more than two of the `n` buckets to a slot. */
  function Grow(size: nat, n: nat): (r: nat)
    requires size >= 1
    ensures r >= size && n / 2 <= r && (r == size || r / 2 < n / 2)
    decreases n - size
  {
    if n / 2 > size then Grow(2 * size, n) else size
  }

  /** The slots of a table into which `n` buckets have been put one after the other. */
  function TableSize(n: nat): (r: nat)
    ensures r >= 1
  {
    if n == 0 then 1 else Grow(TableSize(n - 1), n - 1)
  }

  ghost predicate IsPower(size: nat) {
    exists k: nat :: size == Pow2(k)
  }

  lemma {:induction false} GrowPower(size: nat, n: nat)
    requires IsPower(size) && size >= 1
    ensures IsPower(Grow(size, n)) && Grow(size, n) % size == 0
    decreases n - size
  {
    if n / 2 > size {
      PowerDoubled(size);
      hide IsPower;
      GrowPower(2 * size, n);
      DoubleDivides(Grow(2 * size, n), size);
    }
  }

  lemma {:induction false} PowerDoubled(size: nat)
    requires IsPower(size)
    ensures IsPower(2 * size)
  {
    var k: nat :| size == Pow2(k);
    assert 2 * size == Pow2(k + 1);
  }

  lemma {:induction false} DoubleDivides(x: nat, size: nat)
    requires size >= 1 && x % (2 * size) == 0
    ensures x % size == 0
  {
    var q := x / (2 * size);
    assert x == (2 * q) * size;
    DivModUnique(x, size, 2 * q, 0);
  }

  /** It is a power of two, just so large that at most two buckets (and one more) come to a
      slot; and it divides the sizes that the table has later. */
  lemma {:induction false} TableSizeIs(n: nat)
    ensures IsPower(TableSize(n)) && TableSize(n + 1) % TableSize(n) == 0
    ensures n >= 1 ==> (n - 1) / 2 <= TableSize(n)
    ensures TableSize(n) == 1 || (n >= 1 && TableSize(n) / 2 < (n - 1) / 2)
  {
    if n == 0 {
      assert 1 == Pow2(0);
    } else {
      TableSizeIs(n - 1);
      GrowPower(TableSize(n - 1), n - 1);
    }
    GrowPower(TableSize(n), n);
  }

  lemma {:induction false} LaterSize(m: nat, n: nat)
    requires m <= n
    ensures TableSize(n) % TableSize(m) == 0
    decreases n
  {
    hide TableSize;
    if m == n {
      DivModUnique(TableSize(m), TableSize(m), 1, 0);
    } else {
      LaterSize(m, n - 1);
      TableSizeIs(n - 1);
      DividesOn(TableSize(n), TableSize(n - 1), TableSize(m));
    }
  }

  lemma {:induction false} DividesOn(a: nat, b: nat, c: nat)
    requires b >= 1 && c >= 1 && a % b == 0 && b % c == 0
    ensures a % c == 0
  {
    var p, q := a / b, b / c;
    assert a == p * b && b == q * c;
    assert p * (q * c) == (p * q) * c;
    DivModUnique(a, c, p * q, 0);
  }

  /** Up to 34 buckets the slots are told apart by the low four bits; from 35 on by more. */
  lemma {:induction false} SmallTable(n: nat)
    ensures n <= 34 ==> 16 % TableSize(n) == 0
    ensures n >= 35 ==> TableSize(n) % 32 == 0
  {
    hide TableSize;
    TableSizeIs(n);
    var size := TableSize(n);
    var k: nat :| size == Pow2(k);
    Powers();
    if k <= 4 {
      SmallPower(k);
    } else {
      Pow2Add(5, k - 5);
      DivModUnique(size, 32, Pow2(k - 5), 0);
    }
  }

  lemma {:induction false} Powers()
    ensures Pow2(0) == 1 && Pow2(1) == 2 && Pow2(2) == 4 && Pow2(3) == 8 && Pow2(4) == 16 && Pow2(5) == 32
  {
  }

  lemma {:induction false} SmallPower(k: nat)
    requires k <= 4
    ensures 16 % Pow2(k) == 0 && Pow2(k) <= 16
  {
    Powers();
  }

  /** Numbers that agree modulo a multiple of `m` agree modulo `m`. */
  lemma {:induction false} AgreeOn(a: nat, b: nat, n: nat, m: nat)
    requires n >= 1 && m >= 1 && n % m == 0 && a % n == b % n
    ensures a % m == b % m
  {
    ReducedTwice(a, n, m);
    ReducedTwice(b, n, m);
  }

  lemma {:induction false} ReducedTwice(a: nat, n: nat, m: nat)
    requires n >= 1 && m >= 1 && n % m == 0
    ensures a % m == (a % n) % m
  {
    var q, i, r := n / m, a / n, a % n;
    assert n == q * m;
    assert a == i * n + r;
    Scaled(i, q, m, n);
    Reduced(r, i * q, m);
  }

  lemma {:induction false} Scaled(i: nat, q: nat, m: nat, n: nat)
    requires n == q * m
    ensures i * n == (i * q) * m && i * q >= 0
  {
  }

  lemma {:induction false} Reduced(r: nat, k: nat, m: nat)
    requires m >= 1
    ensures (k * m + r) % m == r % m
  {
    var q := r / m;
    assert r == q * m + r % m;
    assert k * m + q * m == (k + q) * m;
    DivModUnique(k * m + r, m, k + q, r % m);
  }
}
