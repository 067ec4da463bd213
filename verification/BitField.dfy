/**
 Bit-fields (dt_cg_field_get(), dt_cg_field_set() and dt_cg_store() in libdtrace/dt_cg.c) on
 a little-endian machine: a field is the `bits` bits from bit `shift` on of the memory at its
 first byte, of which a word of as many bytes as clp2() says is loaded and stored.
 */
module BitField {
  import opened Basics
  import opened Word
  import opened BitFacts

  /** Bit-fields are shorter than a word and begin in their first byte. */
  predicate IsField(bits: nat, shift: nat) {
    1 <= bits <= 63 && shift < 8
  }

  /** A field that lies within a 64-bit word. */
  predicate InWord(bits: nat, shift: nat) {
    1 <= bits <= 63 && shift + bits <= 64
  }

  /** The contents of the field. */
  function FieldOf(x: nat, bits: nat, shift: nat): nat {
    x / Pow2(shift) % Pow2(bits)
  }

  /** A number of so many bits read as two's complement. */
  function SignOf(f: nat, bits: nat): int
    requires bits >= 1
  {
    if 2 * f >= Pow2(bits) then f - Pow2(bits) else f
  }

  /** The code of dt_cg_field_get: two shifts. */
  function GetField(x: U64, bits: nat, shift: nat, signed: bool): U64
    requires InWord(bits, shift)
  {
    var y := ShiftLeft(x, 64 - bits - shift);
    if signed then ShiftRightSigned(y, 64 - bits) else ShiftRight(y, 64 - bits)
  }

  function Fmask(bits: nat): U64
    requires bits <= 64
  {
    Pow2Below(bits, 64);
    Pow2Of64();
    Pow2(bits) - 1
  }

  /** How the powers of two at hand make up the word. */
  lemma {:induction false} Powers(bits: nat, shift: nat)
    requires InWord(bits, shift)
    ensures var p, q, g, u := Pow2(shift), Pow2(bits), Pow2(64 - bits - shift), Pow2(64 - bits);
      g * p == u && u * q == W && (g * q) * p == W
  {
    hide Pow2;
    Pow2Add(64 - bits - shift, shift);
    Pow2Add(64 - bits, bits);
    Pow2Of64();
    Mul3(Pow2(64 - bits - shift), Pow2(bits), Pow2(shift));
  }

  lemma {:induction false} Mul3(a: int, b: int, c: int)
    ensures (a * b) * c == a * (b * c) && (a * b) * c == (a * c) * b
  {
  }

  lemma {:induction false} MaskFits(bits: nat, shift: nat)
    requires InWord(bits, shift)
    ensures 0 <= Fmask(bits) * Pow2(shift) < W
  {
    hide Pow2;
    Powers(bits, shift);
    MaskBelow(Pow2(bits), Pow2(shift), Pow2(64 - bits - shift));
  }

  lemma {:induction false} MaskBelow(q: nat, p: nat, g: nat)
    requires q >= 1 && p >= 1 && g >= 1
    ensures 0 <= (q - 1) * p < (g * q) * p
  {
    MulMono(0, q - 1, p);
    MulMono(1, g, q);
    MulMono(q, g * q, p);
    assert (q - 1) * p == q * p - p;
  }

  function Cmask(bits: nat, shift: nat): U64
    requires bits <= 64
  {
    W - 1 - Wrap(Fmask(bits) * Pow2(shift))
  }

  /** The code of dt_cg_field_set: clear the field and put the new value in. */
  function SetField(x: U64, v: U64, bits: nat, shift: nat): U64
    requires bits <= 64
  {
    Bitwise(BitOr, Bitwise(BitAnd, x, Cmask(bits, shift)), ShiftLeft(Bitwise(BitAnd, Fmask(bits), v), shift))
  }

  /** A word in three parts: above the field, the field, below it. */
  lemma {:induction false} Parts(x: nat, bits: nat, shift: nat)
    ensures var h, f, l := x / Pow2(shift) / Pow2(bits), FieldOf(x, bits, shift), x % Pow2(shift);
      x == (h * Pow2(bits) + f) * Pow2(shift) + l && f < Pow2(bits) && l < Pow2(shift)
  {
    var p, q := Pow2(shift), Pow2(bits);
    assert x == p * (x / p) + x % p;
    assert x / p == q * (x / p / q) + x / p % q;
  }

  lemma {:induction false} PartsBack(h: nat, f: nat, l: nat, bits: nat, shift: nat)
    requires f < Pow2(bits) && l < Pow2(shift)
    ensures var x := (h * Pow2(bits) + f) * Pow2(shift) + l;
      x >= 0 && FieldOf(x, bits, shift) == f && x % Pow2(shift) == l && x / Pow2(shift) / Pow2(bits) == h
  {
    var p, q := Pow2(shift), Pow2(bits);
    var y := h * q + f;
    MulMono(0, h, q);
    MulMono(0, y, p);
    DivModUnique(y * p + l, p, y, l);
    DivModUnique(y, q, h, f);
  }

  lemma {:induction false} UpperFits(x: U64, bits: nat, shift: nat)
    requires InWord(bits, shift)
    ensures 0 <= x / Pow2(shift) / Pow2(bits) < Pow2(64 - bits - shift)
  {
    hide Pow2, FieldOf;
    Parts(x, bits, shift);
    Powers(bits, shift);
    DivShrinks(x, Pow2(shift));
    DivShrinks(x / Pow2(shift), Pow2(bits));
    TopBound(x / Pow2(shift) / Pow2(bits), FieldOf(x, bits, shift), x % Pow2(shift), Pow2(64 - bits - shift),
        Pow2(bits), Pow2(shift));
  }

  lemma {:induction false} TopBound(h: nat, f: nat, l: nat, g: nat, q: nat, p: nat)
    requires (h * q + f) * p + l < (g * q) * p
    ensures h < g
  {
    if h >= g {
      MulMono(g, h, q);
      MulMono(g * q, h * q + f, p);
    }
  }

  /** The left shift drops what is above the field. */
  lemma {:induction false} ShiftedUp(x: U64, bits: nat, shift: nat)
    requires InWord(bits, shift)
    ensures var f, l := FieldOf(x, bits, shift), x % Pow2(shift);
      && ShiftLeft(x, 64 - bits - shift) == f * Pow2(64 - bits) + l * Pow2(64 - bits - shift)
      && 0 <= l * Pow2(64 - bits - shift) < Pow2(64 - bits)
  {
    hide Pow2, FieldOf;
    Parts(x, bits, shift);
    Powers(bits, shift);
    DivShrinks(x, Pow2(shift));
    DivShrinks(x / Pow2(shift), Pow2(bits));
    ShiftedSum(x / Pow2(shift) / Pow2(bits), FieldOf(x, bits, shift), x % Pow2(shift),
               Pow2(64 - bits - shift), Pow2(shift), Pow2(bits), Pow2(64 - bits));
  }

  lemma {:induction false} ShiftedSum(h: nat, f: nat, l: nat, g: nat, p: nat, q: nat, u: nat)
    requires g * p == u && u * q == W && f < q && l < p && g >= 1
    ensures Wrap(((h * q + f) * p + l) * g) == f * u + l * g
    ensures 0 <= l * g < u
  {
    MulMono(l + 1, p, g);
    assert (l + 1) * g == l * g + g;
    MulMono(0, l, g);
    MulMono(f + 1, q, u);
    assert (f + 1) * u == f * u + u;
    MulMono(0, f, u);
    assert ((h * q + f) * p + l) * g == (h * q + f) * (p * g) + l * g;
    assert (h * q + f) * u == h * (q * u) + f * u;
    DivModUnique(((h * q + f) * p + l) * g, W, h, f * u + l * g);
  }

  /** Reading a field yields its contents, sign-extended if it is signed. */
  lemma {:induction false} GetIs(x: U64, bits: nat, shift: nat, signed: bool)
    requires InWord(bits, shift)
    ensures GetField(x, bits, shift, signed) ==
      if signed then Wrap(SignOf(FieldOf(x, bits, shift), bits)) else FieldOf(x, bits, shift)
  {
    ShiftedUp(x, bits, shift);
    var f, u, rest := FieldOf(x, bits, shift), Pow2(64 - bits), (x % Pow2(shift)) * Pow2(64 - bits - shift);
    var y := ShiftLeft(x, 64 - bits - shift);
    Powers(bits, shift);
    hide Pow2, FieldOf;
    DivModUnique(y, u, f, rest);
    if signed {
      Pow2Step(bits);
      SignedQuotient(f, u, rest, Pow2(bits), Pow2(bits - 1));
    }
  }

  lemma {:induction false} SignedQuotient(f: nat, u: nat, rest: nat, q: nat, half: nat)
    requires u * q == W && q == 2 * half && f < q && rest < u
    ensures 0 <= f * u + rest < W
    ensures Signed(f * u + rest) / u == if 2 * f >= q then f - q else f
  {
    MulMono(0, f, u);
    MulMono(f + 1, q, u);
    assert (f + 1) * u == f * u + u;
    assert half * u == HALF;
    if f >= half {
      MulMono(half, f, u);
      assert (f - q) * u == f * u - q * u;
      DivModUnique(f * u + rest - W, u, f - q, rest);
    } else {
      MulMono(f + 1, half, u);
      DivModUnique(f * u + rest, u, f, rest);
    }
  }

  /** Writing a field replaces its contents by the low bits of the value. */
  lemma {:induction false} SetIs(x: U64, v: U64, bits: nat, shift: nat)
    requires InWord(bits, shift)
    ensures SetField(x, v, bits, shift) ==
      (x / Pow2(shift) / Pow2(bits) * Pow2(bits) + v % Pow2(bits)) * Pow2(shift) + x % Pow2(shift)
  {
    hide Pow2, Bits, FieldOf;
    var h, f, l := x / Pow2(shift) / Pow2(bits), FieldOf(x, bits, shift), x % Pow2(shift);
    var n := v % Pow2(bits);
    Kept(x, bits, shift);
    Placed(v, bits, shift);
    UpperFits(x, bits, shift);
    Merged(h, n, l, bits, shift);
  }

  /** AND with the first mask keeps everything but the field. */
  lemma {:induction false} Kept(x: U64, bits: nat, shift: nat)
    requires InWord(bits, shift)
    ensures Bitwise(BitAnd, x, Cmask(bits, shift)) ==
      (x / Pow2(shift) / Pow2(bits) * Pow2(bits) + 0) * Pow2(shift) + x % Pow2(shift)
  {
    hide Bits, Pow2, FieldOf, Cmask;
    Parts(x, bits, shift);
    UpperFits(x, bits, shift);
    CmaskIs(bits, shift);
    KeptParts(x, Cmask(bits, shift), x / Pow2(shift) / Pow2(bits), FieldOf(x, bits, shift), x % Pow2(shift), bits,
        shift);
  }

  lemma {:induction false} CmaskIs(bits: nat, shift: nat)
    requires InWord(bits, shift)
    ensures Cmask(bits, shift) == ((Pow2(64 - bits - shift) - 1) * Pow2(bits) + 0) * Pow2(shift) + (Pow2(shift) - 1)
  {
    hide Pow2;
    MaskFits(bits, shift);
    DivModUnique(Fmask(bits) * Pow2(shift), W, 0, Fmask(bits) * Pow2(shift));
    Powers(bits, shift);
    MaskParts(Pow2(64 - bits - shift), Pow2(bits), Pow2(shift));
  }

  lemma {:induction false} KeptParts(x: nat, c: nat, h: nat, f: nat, l: nat, bits: nat, shift: nat)
    requires InWord(bits, shift) && h < Pow2(64 - bits - shift) && f < Pow2(bits) && l < Pow2(shift)
    requires x == (h * Pow2(bits) + f) * Pow2(shift) + l
    requires c == ((Pow2(64 - bits - shift) - 1) * Pow2(bits) + 0) * Pow2(shift) + (Pow2(shift) - 1)
    ensures Bits(BitAnd, x, c, 64) == (h * Pow2(bits) + 0) * Pow2(shift) + l
  {
    hide Bits, Pow2;
    var p, q, g := Pow2(shift), Pow2(bits), Pow2(64 - bits - shift);
    KeptUpper(h, f, bits, 64 - shift);
    AndOnes(l, shift);
    BitsSplit(BitAnd, h * q + f, l, (g - 1) * q + 0, p - 1, shift, 64);
  }

  lemma {:induction false} KeptUpper(h: nat, f: nat, bits: nat, n: nat)
    requires bits <= n && h < Pow2(n - bits) && f < Pow2(bits)
    ensures var q, g := Pow2(bits), Pow2(n - bits);
      && h * q + f >= 0 && (g - 1) * q + 0 >= 0
      && Bits(BitAnd, h * q + f, (g - 1) * q + 0, n) == h * q + 0
  {
    hide Bits, Pow2;
    var q, g := Pow2(bits), Pow2(n - bits);
    NotNegative(h, f, 0, q, 1);
    NotNegative(g - 1, 0, 0, q, 1);
    AndOnes(h, n - bits);
    AndZero(f, bits);
    BitsSplit(BitAnd, h, f, g - 1, 0, bits, n);
  }

  lemma {:induction false} NotNegative(h: nat, f: nat, l: nat, q: nat, p: nat)
    ensures h * q + f >= 0 && (h * q + f) * p + l >= 0
  {
    MulMono(0, h, q);
    MulMono(0, h * q + f, p);
  }

  lemma {:induction false} MaskParts(g: nat, q: nat, p: nat)
    requires (g * q) * p == W && g >= 1 && q >= 1 && p >= 1
    ensures W - 1 - (q - 1) * p == ((g - 1) * q + 0) * p + (p - 1) && (g - 1) * q >= 0
  {
    MulMono(0, g - 1, q);
    assert (g - 1) * q == g * q - q;
    assert (g * q - q) * p == (g * q) * p - q * p;
    assert (q - 1) * p == q * p - p;
  }

  /** The new value, cut to the width of the field and moved to its place. */
  lemma {:induction false} Placed(v: U64, bits: nat, shift: nat)
    requires InWord(bits, shift)
    ensures ShiftLeft(Bitwise(BitAnd, Fmask(bits), v), shift) == (0 * Pow2(bits) + v % Pow2(bits)) * Pow2(shift) + 0
  {
    hide Pow2, Bits;
    AndComm(Fmask(bits), v, 64);
    Pow2Of64();
    MaskIsMod(v, bits, 64);
    Powers(bits, shift);
    ValueFits(v % Pow2(bits), Pow2(shift), Pow2(bits), Pow2(64 - bits - shift));
  }

  lemma {:induction false} ValueFits(n: nat, p: nat, q: nat, g: nat)
    requires n < q && (g * q) * p == W && g >= 1
    ensures Wrap(n * p) == n * p == (0 * q + n) * p + 0
  {
    MulMono(1, g, q);
    MulMono(n + 1, g * q, p);
    assert (n + 1) * p == n * p + p;
    MulMono(0, n, p);
    DivModUnique(n * p, W, 0, n * p);
  }

  /** OR of parts that do not meet puts them together. */
  lemma {:induction false} Merged(h: nat, n: nat, l: nat, bits: nat, shift: nat)
    requires InWord(bits, shift) && h < Pow2(64 - bits - shift) && n < Pow2(bits) && l < Pow2(shift)
    ensures var p, q := Pow2(shift), Pow2(bits);
      Bits(BitOr, (h * q + 0) * p + l, (0 * q + n) * p + 0, 64) == (h * q + n) * p + l
  {
    hide Bits, Pow2;
    var p, q := Pow2(shift), Pow2(bits);
    NotNegative(h, 0, l, q, p);
    MergedUpper(h, n, bits, 64 - shift);
    OrZero(l, shift);
    BitsSplit(BitOr, h * q + 0, l, 0 * q + n, 0, shift, 64);
  }

  lemma {:induction false} MergedUpper(h: nat, f: nat, bits: nat, n: nat)
    requires bits <= n && h < Pow2(n - bits) && f < Pow2(bits)
    ensures var q := Pow2(bits); h * q >= 0 && Bits(BitOr, h * q + 0, 0 * q + f, n) == h * q + f
  {
    hide Bits, Pow2;
    NotNegative(h, 0, 0, Pow2(bits), 1);
    OrZero(h, n - bits);
    OrZero(f, bits);
    BitsSplit(BitOr, h, 0, 0, f, bits, n);
  }

  /** Writing a field of a narrower word leaves a word that is no wider. */
  lemma {:induction false} SetFits(x: U64, v: U64, bits: nat, shift: nat, width: nat)
    requires InWord(bits, shift) && shift + bits <= width <= 64 && x < Pow2(width)
    ensures SetField(x, v, bits, shift) < Pow2(width)
  {
    hide Bits, FieldOf, Pow2;
    var p, q, w := Pow2(shift), Pow2(bits), Pow2(width - bits - shift);
    Pow2Add(width - bits - shift, bits + shift);
    Pow2Add(bits, shift);
    Parts(x, bits, shift);
    SetIs(x, v, bits, shift);
    DivShrinks(x, p);
    DivShrinks(x / p, q);
    var h, n, l := x / p / q, v % q, x % p;
    Mul3(w, q, p);
    TopBound(h, FieldOf(x, bits, shift), l, w, q, p);
    BelowTop(h, n, l, w, q, p);
  }

  lemma {:induction false} BelowTop(h: nat, n: nat, l: nat, w: nat, q: nat, p: nat)
    requires h < w && n < q && l < p
    ensures (h * q + n) * p + l < (w * q) * p
  {
    MulMono(h + 1, w, q);
    assert (h + 1) * q == h * q + q;
    MulMono(h * q + n + 1, w * q, p);
    assert (h * q + n + 1) * p == (h * q + n) * p + p;
  }

  // ----- the word that is loaded and stored -----

  /** clp2(). */
  function Clp2(n: bv64): bv64 {
    var a := n - 1;
    var b := a | (a >> 1);
    var c := b | (b >> 2);
    var d := c | (c >> 4);
    var e := d | (d >> 8);
    var f := e | (e >> 16);
    f + 1
  }

  /** The number of bytes, and of bits, that are loaded and stored for a field. */
  function LoadBytes(bits: nat): nat
    requires 1 <= bits <= 64
  {
    Clp2(((bits + 7) / 8) as bv64) as nat
  }

  function Width(bits: nat): nat
    requires 1 <= bits <= 64
  {
    8 * LoadBytes(bits)
  }

  /** It is the least power of two of bytes that has room for the bits. */
  lemma {:induction false} LoadBytesIs(bits: nat)
    requires 1 <= bits <= 64
    ensures LoadBytes(bits) == if bits <= 8 then 1 else if bits <= 16 then 2 else if bits <= 32 then 4 else 8
  {
    var n := (bits + 7) / 8;
    if n == 1 {
      assert Clp2(1) == 1;
    } else if n == 2 {
      assert Clp2(2) == 2;
    } else if n == 3 {
      assert Clp2(3) == 4;
    } else if n == 4 {
      assert Clp2(4) == 4;
    } else if n == 5 {
      assert Clp2(5) == 8;
    } else if n == 6 {
      assert Clp2(6) == 8;
    } else if n == 7 {
      assert Clp2(7) == 8;
    } else {
      assert Clp2(8) == 8;
    }
  }

  lemma {:induction false} WidthIs(bits: nat)
    requires 1 <= bits <= 64
    ensures bits <= Width(bits) && 8 <= Width(bits) <= 64 && (bits > 32 ==> Width(bits) == 64)
    ensures Width(bits) <= 2 * bits + 6 && 1 <= Pow2(Width(bits)) <= W
  {
    LoadBytesIs(bits);
    Pow2Of64();
    Pow2Below(Width(bits), 64);
  }

  /** A load of the memory at the field's first byte. */
  function Loaded(m: nat, bits: nat): U64
    requires 1 <= bits <= 64
  {
    WidthIs(bits);
    m % Pow2(Width(bits))
  }

  /** Reading: a load and two shifts.  There is no instruction for a negative shift. */
  function Get(m: nat, bits: nat, shift: nat, signed: bool): Option<U64>
    requires IsField(bits, shift)
  {
    if shift + bits > 64 then None else Some(GetField(Loaded(m, bits), bits, shift, signed))
  }

  /** Writing: a load, the field set, and a store of as many bytes. */
  function Set(m: nat, v: U64, bits: nat, shift: nat): (r: nat)
    requires IsField(bits, shift)
  {
    Stored(m, SetField(Loaded(m, bits), v, bits, shift), Pow2(Width(bits)))
  }

  /** Memory `m` with the remainder modulo `w` replaced by that of `y`. */
  function Stored(m: nat, y: nat, w: nat): nat
    requires w >= 1
  {
    DivShrinks(m, w);
    MulMono(0, m / w, w);
    m / w * w + y % w
  }

  /** A field's value, sign-extended if it is signed. */
  function ValueOf(f: nat, bits: nat, signed: bool): U64
    requires 1 <= bits <= 63 && f < Pow2(bits)
  {
    Pow2Of64();
    Pow2Below(bits, 64);
    if signed then Wrap(SignOf(f, bits)) else f
  }

  /** Reading is exact: the contents of the field in memory. */
  ghost predicate Reads(bits: nat, shift: nat)
    requires IsField(bits, shift)
  {
    forall m: nat, signed: bool :: Get(m, bits, shift, signed) == Some(ValueOf(FieldOf(m, bits, shift), bits, signed))
  }

  /** Writing is exact: the field has the low bits of the value, and nothing else changes. */
  ghost predicate Writes(bits: nat, shift: nat)
    requires IsField(bits, shift)
  {
    forall m: nat, v: U64 :: Replaced(m, Set(m, v, bits, shift), v % Pow2(bits), bits, shift)
  }

  ghost predicate Replaced(m: nat, m': nat, f: nat, bits: nat, shift: nat) {
    && FieldOf(m', bits, shift) == f
    && m' % Pow2(shift) == m % Pow2(shift)
    && m' / Pow2(shift) / Pow2(bits) == m / Pow2(shift) / Pow2(bits)
  }

  /** What is read after a write is the value written, cut to the width of the field. */
  ghost predicate RoundTrips(bits: nat, shift: nat)
    requires IsField(bits, shift)
  {
    forall m: nat, v: U64, signed: bool ::
      Get(Set(m, v, bits, shift), bits, shift, signed) == Some(ValueOf(v % Pow2(bits), bits, signed))
  }

  /** The powers of two of a field that ends within its word. */
  lemma {:induction false} WordPowers(bits: nat, shift: nat, width: nat)
    requires shift + bits <= width
    ensures (Pow2(width - bits - shift) * Pow2(bits)) * Pow2(shift) == Pow2(width)
  {
    hide Pow2;
    Pow2Add(width - bits - shift, bits + shift);
    Pow2Add(bits, shift);
    Mul3(Pow2(width - bits - shift), Pow2(bits), Pow2(shift));
  }

  /** More memory above the word changes neither the field nor what is below it. */
  lemma {:induction false} Extended(k: nat, x: nat, h: nat, f: nat, l: nat, bits: nat, shift: nat, width: nat)
    requires shift + bits <= width && f < Pow2(bits) && l < Pow2(shift)
    requires x == (h * Pow2(bits) + f) * Pow2(shift) + l
    ensures var m := k * Pow2(width) + x;
      && m >= 0 && FieldOf(m, bits, shift) == f && m % Pow2(shift) == l
      && m / Pow2(shift) / Pow2(bits) == k * Pow2(width - bits - shift) + h
  {
    hide Pow2, FieldOf;
    var p, q, g := Pow2(shift), Pow2(bits), Pow2(width - bits - shift);
    WordPowers(bits, shift, width);
    MulMono(0, k, g);
    assert k * Pow2(width) + x == ((k * g + h) * q + f) * p + l by {
      assert (k * g + h) * q == k * (g * q) + h * q;
      assert (k * (g * q) + h * q + f) * p == k * ((g * q) * p) + (h * q + f) * p;
    }
    PartsBack(k * g + h, f, l, bits, shift);
  }

  lemma {:induction false} WordOf(m: nat, bits: nat)
    requires 1 <= bits <= 63
    ensures var w := Pow2(Width(bits)); m == m / w * w + Loaded(m, bits) && Loaded(m, bits) < w && m / w >= 0
  {
    hide Pow2, Width;
    WidthIs(bits);
    DivShrinks(m, Pow2(Width(bits)));
  }

  lemma {:induction false} LoadedField(m: nat, bits: nat, shift: nat)
    requires IsField(bits, shift) && shift + bits <= Width(bits)
    ensures var x, k := Loaded(m, bits), m / Pow2(Width(bits));
      && FieldOf(x, bits, shift) == FieldOf(m, bits, shift) && x % Pow2(shift) == m % Pow2(shift)
      && m / Pow2(shift) / Pow2(bits) == k * Pow2(Width(bits) - bits - shift) + x / Pow2(shift) / Pow2(bits)
  {
    hide Pow2, Width, FieldOf, Loaded;
    var x := Loaded(m, bits);
    WordOf(m, bits);
    Parts(x, bits, shift);
    DivShrinks(x, Pow2(shift));
    DivShrinks(x / Pow2(shift), Pow2(bits));
    Extended(m / Pow2(Width(bits)), x, x / Pow2(shift) / Pow2(bits), FieldOf(x, bits, shift), x % Pow2(shift),
             bits, shift, Width(bits));
  }

  lemma {:induction false} ReadExact(m: nat, bits: nat, shift: nat, signed: bool)
    requires IsField(bits, shift) && shift + bits <= Width(bits)
    ensures FieldOf(m, bits, shift) < Pow2(bits)
    ensures Get(m, bits, shift, signed) == Some(ValueOf(FieldOf(m, bits, shift), bits, signed))
  {
    hide Pow2, Width, Loaded, GetField;
    WidthIs(bits);
    LoadedField(m, bits, shift);
    GetIs(Loaded(m, bits), bits, shift, signed);
  }

  lemma {:induction false} WriteExact(m: nat, v: U64, bits: nat, shift: nat)
    requires IsField(bits, shift) && shift + bits <= Width(bits)
    ensures Replaced(m, Set(m, v, bits, shift), v % Pow2(bits), bits, shift)
  {
    hide Pow2, Width, Loaded, SetField, FieldOf;
    WidthIs(bits);
    WordOf(m, bits);
    LoadedField(m, bits, shift);
    var x, w := Loaded(m, bits), Width(bits);
    SetIs(x, v, bits, shift);
    SetFits(x, v, bits, shift, w);
    var y := SetField(x, v, bits, shift);
    DivModUnique(y, Pow2(w), 0, y);
    DivShrinks(x, Pow2(shift));
    DivShrinks(x / Pow2(shift), Pow2(bits));
    Extended(m / Pow2(w), y, x / Pow2(shift) / Pow2(bits), v % Pow2(bits), x % Pow2(shift), bits, shift, w);
  }

  lemma {:induction false} BothExact(m: nat, v: U64, bits: nat, shift: nat, signed: bool)
    requires IsField(bits, shift) && shift + bits <= Width(bits)
    ensures v % Pow2(bits) < Pow2(bits)
    ensures Get(Set(m, v, bits, shift), bits, shift, signed) == Some(ValueOf(v % Pow2(bits), bits, signed))
  {
    hide Pow2, Width, Get, Set, FieldOf;
    WriteExact(m, v, bits, shift);
    ReadExact(Set(m, v, bits, shift), bits, shift, signed);
  }

  /** A word that ends before the field does has not all of its bits. */
  lemma {:induction false} FieldSmall(y: nat, bits: nat, shift: nat, width: nat)
    requires y < Pow2(width) && shift < width < shift + bits
    ensures FieldOf(y, bits, shift) < Pow2(bits) - 1
  {
    hide Pow2;
    var p := Pow2(shift);
    Pow2Add(width - shift, shift);
    Pow2Below(width - shift, bits - 1);
    Pow2Step(bits);
    Pow2Below(1, bits - 1);
    Pow2Step(1);
    Pow2None();
    DivShrinks(y, p);
    QuotientBelow(y, p, Pow2(width - shift));
    DivModUnique(y / p, Pow2(bits), 0, y / p);
  }

  lemma {:induction false} QuotientBelow(y: nat, p: nat, n: nat)
    requires p >= 1 && y < n * p
    ensures y / p < n
  {
    QuotientBounds(y, p);
    if y / p >= n { MulMono(n, y / p, p); }
  }

  lemma {:induction false} AllOnes(bits: nat)
    requires 1 <= bits <= 63
    ensures 0 <= Pow2(bits) - 1 < W && (Pow2(bits) - 1) % Pow2(bits) == Pow2(bits) - 1
  {
    hide Pow2;
    Pow2Of64();
    Pow2Below(bits, 64);
    DivModUnique(Pow2(bits) - 1, Pow2(bits), 0, Pow2(bits) - 1);
  }

  /** A field that does not end within its word is never read as all ones. */
  lemma {:induction false} NeverOnes(m: nat, bits: nat, shift: nat)
    requires IsField(bits, shift) && shift + bits > Width(bits)
    ensures Get(m, bits, shift, false) != Some(Pow2(bits) - 1)
  {
    hide Pow2, Width, Loaded, GetField, FieldOf;
    WidthIs(bits);
    if shift + bits <= 64 {
      WordOf(m, bits);
      GetIs(Loaded(m, bits), bits, shift, false);
      FieldSmall(Loaded(m, bits), bits, shift, Width(bits));
    }
  }

  lemma {:induction false} ReadFails(bits: nat, shift: nat)
    requires IsField(bits, shift) && shift + bits > Width(bits)
    ensures !Reads(bits, shift) && !RoundTrips(bits, shift)
  {
    hide Pow2, Width, Get, Set, FieldOf;
    AllOnes(bits);
    var ones := Pow2(bits) - 1;
    var m := (0 * Pow2(bits) + ones) * Pow2(shift) + 0;
    PartsBack(0, ones, 0, bits, shift);
    NeverOnes(m, bits, shift);
    assert Get(m, bits, shift, false) != Some(ValueOf(FieldOf(m, bits, shift), bits, false));
    NeverOnes(Set(0, ones, bits, shift), bits, shift);
    assert Get(Set(0, ones, bits, shift), bits, shift, false) != Some(ValueOf(ones % Pow2(bits), bits, false));
  }

  lemma {:induction false} WriteFails(bits: nat, shift: nat)
    requires IsField(bits, shift) && shift + bits > Width(bits)
    ensures !Writes(bits, shift)
  {
    hide Pow2, Width, FieldOf, SetField, Loaded;
    AllOnes(bits);
    WidthIs(bits);
    var ones: U64 := Pow2(bits) - 1;
    var w := Pow2(Width(bits));
    DivModUnique(0, w, 0, 0);
    FieldSmall(Set(0, ones, bits, shift), bits, shift, Width(bits));
    assert !Replaced(0, Set(0, ones, bits, shift), ones % Pow2(bits), bits, shift);
  }

  /** The seven bits from bit 4 on: they are in two bytes, and one is loaded and stored. */
  lemma {:induction false} SevenAtFour()
    ensures Set(0, 127, 7, 4) == 240 && Get(Set(0, 127, 7, 4), 7, 4, false) == Some(15)
  {
    hide GetField, SetField, Bits;
    SmallPowers();
    LoadBytesIs(7);
    hide LoadBytes, Pow2;
    SevenSet();
    SevenGot();
  }

  lemma {:induction false} SevenSet()
    ensures SetField(0, 127, 7, 4) == 2032
  {
    SmallPowers();
    hide Pow2, SetField;
    SetIs(0, 127, 7, 4);
  }

  lemma {:induction false} SevenGot()
    ensures GetField(240, 7, 4, false) == 15
  {
    SmallPowers();
    hide Pow2, GetField;
    GetIs(240, 7, 4, false);
  }

  lemma {:induction false} SmallPowers()
    ensures Pow2(4) == 16 && Pow2(7) == 128 && Pow2(8) == 256
  {
  }

  /** Reading, writing and both together are exact for all memory and all values, each just
      for the fields that end within the word loaded for their number of bits. */
  lemma {:induction false} FieldExact(bits: nat, shift: nat)
    requires IsField(bits, shift)
    ensures Reads(bits, shift) <==> shift + bits <= Width(bits)
    ensures Writes(bits, shift) <==> shift + bits <= Width(bits)
    ensures RoundTrips(bits, shift) <==> shift + bits <= Width(bits)
  {
    hide Get, Set, Width, Replaced;
    WidthIs(bits);
    if shift + bits <= Width(bits) {
      forall m: nat, signed: bool
        ensures Get(m, bits, shift, signed) == Some(ValueOf(FieldOf(m, bits, shift), bits, signed))
      {
        ReadExact(m, bits, shift, signed);
      }
      forall m: nat, v: U64 ensures Replaced(m, Set(m, v, bits, shift), v % Pow2(bits), bits, shift) {
        WriteExact(m, v, bits, shift);
      }
      forall m: nat, v: U64, signed: bool
        ensures Get(Set(m, v, bits, shift), bits, shift, signed) == Some(ValueOf(v % Pow2(bits), bits, signed))
      {
        BothExact(m, v, bits, shift, signed);
      }
    } else {
      ReadFails(bits, shift);
      WriteFails(bits, shift);
    }
  }
}
