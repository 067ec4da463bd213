/**
 Casts and the values of assignments as integer conversions.  The code generator emits no
 code for a cast whose operand's type is the same or leads into the target's
 (dt_cg_typecast() in libdtrace/dt_cg.c), and none for the value of an assignment
 (dt_cg_asgn_op()), on the grounds that the operand's value is one of its type's.  As
 arithmetic is done in 64 bits, that is so for some operators and not for others.
 */
module Casts {
  import opened Basics
  import opened Word
  import opened BitFacts
  import opened Memory
  import opened Bpf
  import opened Ir
  import opened Expr
  import opened CodeGen
  import opened Window
  import opened WordFacts
  import opened Compile
  import opened Execution
  import opened Correct

  /** The meaning of an expression where every cast, and every assignment, yields a value of
      the target's type. */
  function Intended(e: Expr, s: Vars): Outcome
    decreases e
  {
    match e
    case Int(v, _) => Done(v, s)
    case Get(v) => Done(Fetch(s, v), s)
    case Binary(op, ty, l, r) =>
      (match Intended(l, s)
       case DivByZero(t) => DivByZero(t)
       case Done(a, t) =>
         match Intended(r, t)
         case DivByZero(u) => DivByZero(u)
         case Done(b, u) => Combine(op, ty.signed, a, b, u))
    case Compare(cmp, l, r) =>
      (match Intended(l, s)
       case DivByZero(t) => DivByZero(t)
       case Done(a, t) =>
         match Intended(r, t)
         case DivByZero(u) => DivByZero(u)
         case Done(b, u) => Done(Truth(Holds(cmp, Promote(TypeOf(l), TypeOf(r)).signed, a, b)), u))
    case Cond(_, c, l, r) =>
      (match Intended(c, s)
       case DivByZero(t) => DivByZero(t)
       case Done(a, t) => if a != 0 then Intended(l, t) else Intended(r, t))
    case LogAnd(l, r) =>
      (match Intended(l, s)
       case DivByZero(t) => DivByZero(t)
       case Done(a, t) =>
         if a == 0 then Done(0, t) else
         match Intended(r, t)
         case DivByZero(u) => DivByZero(u)
         case Done(b, u) => Done(Truth(b != 0), u))
    case LogOr(l, r) =>
      (match Intended(l, s)
       case DivByZero(t) => DivByZero(t)
       case Done(a, t) =>
         if a != 0 then Done(1, t) else
         match Intended(r, t)
         case DivByZero(u) => DivByZero(u)
         case Done(b, u) => Done(Truth(b != 0), u))
    case LogXor(l, r) =>
      (match Intended(l, s)
       case DivByZero(t) => DivByZero(t)
       case Done(a, t) =>
         match Intended(r, t)
         case DivByZero(u) => DivByZero(u)
         case Done(b, u) => Done(Truth((a != 0) != (b != 0)), u))
    case LogNot(x) =>
      (match Intended(x, s)
       case DivByZero(t) => DivByZero(t)
       case Done(a, t) => Done(Truth(a == 0), t))
    case BitNot(_, x) =>
      (match Intended(x, s)
       case DivByZero(t) => DivByZero(t)
       case Done(a, t) => Done(W - 1 - a, t))
    case Negate(_, x) =>
      (match Intended(x, s)
       case DivByZero(t) => DivByZero(t)
       case Done(a, t) => Done(if a == 0 then 0 else W - a, t))
    case UnaryPlus(_, x) => Intended(x, s)
    case Comma(l, r) =>
      (match Intended(l, s)
       case DivByZero(t) => DivByZero(t)
       case Done(_, t) => Intended(r, t))
    case Cast(ty, x) =>
      (match Intended(x, s)
       case DivByZero(t) => DivByZero(t)
       case Done(a, t) => Done(Convert(ty, a), t))
    case Assign(v, x) =>
      (match Intended(x, s)
       case DivByZero(t) => DivByZero(t)
       case Done(a, t) => Done(Convert(v.ty, a), Put(t, v, a)))
    case AssignOp(op, ty, v, x) =>
      (match Intended(x, s)
       case DivByZero(t) => DivByZero(t)
       case Done(b, t) =>
         match Combine(op, ty.signed, Fetch(s, v), b, t)
         case DivByZero(u) => DivByZero(u)
         case Done(c, u) => Done(Convert(v.ty, c), Put(u, v, c)))
  }

  // ----- operators that stay within a type -----

  /** The operators whose result has a place in the type of the operands, whatever these are. */
  predicate Closed(op: BinOp, signed: bool) {
    op == Modulo || op == BAnd || op == BOr || op == BXor || op == RShift || (op == Divide && !signed)
  }

  /** The values of a narrow type, as signed or as unsigned numbers. */
  predicate InRange(t: Type, v: U64) {
    t.size == 8 || (if t.signed then Below(Signed(v), Pow2(8 * t.size)) else v < Pow2(8 * t.size))
  }

  predicate Below(x: int, p: int) {
    -p <= 2 * x < p
  }

  lemma {:induction false} FitsIs(t: Type, v: U64)
    ensures Fits(t, v) <==> InRange(t, v)
  {
    hide Fits, Pow2;
    Pow2Sizes();
    if t.size == 8 {
      FitsWord(t, v);
    } else {
      FitsRange(t, v, Pow2(8 * t.size));
    }
  }

  lemma {:induction false} ExtendFits(t: Type, raw: U64)
    requires raw < Pow2(8 * t.size)
    ensures Fits(t, Extend(t, raw))
  {
    hide Pow2, Fits;
    Pow2Sizes();
    FitsIs(t, Extend(t, raw));
    if t.size < 8 && t.signed && 2 * raw >= Pow2(8 * t.size) {
      WrapCongruent(raw - Pow2(8 * t.size), W + raw - Pow2(8 * t.size), -1);
      DivModUnique(W + raw - Pow2(8 * t.size), W, 0, W + raw - Pow2(8 * t.size));
    }
  }

  lemma {:induction false} ConvertFits(t: Type, v: U64)
    ensures Fits(t, Convert(t, v))
  {
    hide Pow2, Fits;
    ModShrinks(v, Pow2(8 * t.size));
    ExtendFits(t, v % Pow2(8 * t.size));
  }

  lemma {:induction false} FetchFits(s: Vars, v: Var)
    ensures Fits(v.ty, Fetch(s, v))
  {
    hide Pow2, Fits;
    if v in s && s[v] < Pow2(8 * v.ty.size) {
      ExtendFits(v.ty, s[v]);
    } else {
      SmallFits(v.ty, 0);
    }
  }

  lemma {:induction false} SmallFits(t: Type, v: U64)
    requires v <= 1
    ensures Fits(t, v)
  {
    hide Pow2, Fits;
    Pow2Sizes();
    FitsIs(t, v);
  }

  /** All ones or all zeroes, combined. */
  lemma {:induction false} OnesOrNone(op: BitOp, a: nat, b: nat, n: nat)
    requires (a == 0 || a == Pow2(n) - 1) && (b == 0 || b == Pow2(n) - 1)
    ensures Bits(op, a, b, n) == 0 || Bits(op, a, b, n) == Pow2(n) - 1
  {
    if n > 0 { OnesOrNone(op, a / 2, b / 2, n - 1); }
  }

  lemma {:induction false} NoneOnly(op: BitOp, n: nat)
    ensures Bits(op, 0, 0, n) == 0
  {
    if n > 0 { NoneOnly(op, n - 1); }
  }

  /** Two numbers of `k` bits make a number of `k` bits. */
  lemma {:induction false} BitsUnsigned(op: BitOp, a: U64, b: U64, k: nat)
    requires k <= 64 && a < Pow2(k) && b < Pow2(k)
    ensures Bits(op, a, b, 64) < Pow2(k)
  {
    hide Bits, Pow2;
    BitsSplit(op, 0, a, 0, b, k, 64);
    NoneOnly(op, 64 - k);
  }

  /** The upper bits of a word are all clear or all set. */
  predicate Extended(v: U64, k: nat)
    requires k <= 64
  {
    v / Pow2(k) == 0 || v / Pow2(k) == Pow2(64 - k) - 1
  }

  lemma {:induction false} BitsExtended(op: BitOp, a: U64, b: U64, k: nat)
    requires k <= 64 && Extended(a, k) && Extended(b, k)
    ensures Extended(Bitwise(op, a, b), k)
  {
    hide Bits, Pow2;
    var p := Pow2(k);
    Divided(a, p);
    Divided(b, p);
    BitsParts(op, a, b, a / p, a % p, b / p, b % p, k);
  }

  lemma {:induction false} Divided(a: nat, p: nat)
    requires p >= 1
    ensures a == a / p * p + a % p && a / p >= 0 && 0 <= a % p < p
  {
    DivShrinks(a, p);
  }

  lemma {:induction false} BitsParts(op: BitOp, a: nat, b: nat, a1: nat, a0: nat, b1: nat, b0: nat, k: nat)
    requires k <= 64 && a0 < Pow2(k) && b0 < Pow2(k) && a == a1 * Pow2(k) + a0 && b == b1 * Pow2(k) + b0
    requires (a1 == 0 || a1 == Pow2(64 - k) - 1) && (b1 == 0 || b1 == Pow2(64 - k) - 1)
    ensures var x := Bits(op, a, b, 64) / Pow2(k); x == 0 || x == Pow2(64 - k) - 1
  {
    hide Bits, Pow2;
    BitsSplit(op, a1, a0, b1, b0, k, 64);
    OnesOrNone(op, a1, b1, 64 - k);
    UpperPart(Bits(op, a, b, 64), Bits(op, a1, b1, 64 - k), Bits(op, a0, b0, k), Pow2(k));
  }

  lemma {:induction false} UpperPart(x: int, x1: int, x0: int, p: int)
    requires x == x1 * p + x0 && 0 <= x0 < p
    ensures x / p == x1
  {
    DivModUnique(x, p, x1, x0);
  }

  /** That is, the word is the sign extension of its low bits. */
  lemma {:induction false} ExtendedIs(v: U64, k: nat)
    requires k <= 63
    ensures Extended(v, k) <==> Below(Signed(v), 2 * Pow2(k))
  {
    hide Pow2;
    var p, g := Pow2(k), Pow2(64 - k);
    Pow2Split(k);
    Pow2Step(64 - k);
    ExtendedParts(v, p, g, Pow2(63 - k));
  }

  lemma {:induction false} ExtendedParts(v: U64, p: nat, g: nat, half: nat)
    requires p * g == W && g == 2 * half && p >= 1 && half >= 1
    ensures (v / p == 0 || v / p == g - 1) <==> Below(Signed(v), 2 * p)
  {
    QuotientBounds(v, p);
    assert (g - 1) * p == W - p;
    assert p * half == HALF;
    MulMono(1, half, p);
    if v < p { DivModUnique(v, p, 0, v); }
    if v >= W - p { DivModUnique(v, p, g - 1, v - (W - p)); }
  }

  lemma {:induction false} BitwiseFits(op: BitOp, t: Type, a: U64, b: U64)
    requires Fits(t, a) && Fits(t, b)
    ensures Fits(t, Bitwise(op, a, b))
  {
    hide Fits, Bits, Pow2;
    FitsIs(t, a);
    FitsIs(t, b);
    FitsIs(t, Bitwise(op, a, b));
    if t.size < 8 {
      if t.signed {
        var k := 8 * t.size - 1;
        Pow2Step(8 * t.size);
        ExtendedIs(a, k);
        ExtendedIs(b, k);
        BitsExtended(op, a, b, k);
        ExtendedIs(Bitwise(op, a, b), k);
      } else {
        BitsUnsigned(op, a, b, 8 * t.size);
      }
    }
  }

  /** A signed number in range that is wrapped is in range as a word. */
  lemma {:induction false} WrapFits(t: Type, x: int)
    requires t.signed && t.size < 8 && Below(x, Pow2(8 * t.size))
    ensures Fits(t, Wrap(x))
  {
    hide Fits, Pow2;
    Pow2Sizes();
    FitsIs(t, Wrap(x));
    if x < 0 {
      WrapCongruent(x, x + W, -1);
      DivModUnique(x + W, W, 0, x + W);
    } else {
      DivModUnique(x, W, 0, x);
    }
  }

  lemma {:induction false} RemainderFits(t: Type, a: U64, b: U64)
    requires Fits(t, a) && Fits(t, b) && !Faults(Modulo, t.signed, b)
    ensures Fits(t, BinaryValue(Modulo, t.signed, a, b))
  {
    hide Fits, Pow2, RemainderOf;
    FitsIs(t, a);
    FitsIs(t, b);
    FitsIs(t, BinaryValue(Modulo, t.signed, a, b));
    if t.size < 8 {
      if t.signed {
        var x, y := Signed(a), Signed(b);
        RemainderBySigns(x, y);
        WrapFits(t, RemainderOf(x, y));
      } else if b != 0 {
        ModShrinks(a, b);
      }
    }
  }

  lemma {:induction false} ShiftFits(t: Type, a: U64, b: U64)
    requires Fits(t, a)
    ensures Fits(t, BinaryValue(RShift, t.signed, a, b))
  {
    hide Fits, Pow2;
    FitsIs(t, a);
    FitsIs(t, BinaryValue(RShift, t.signed, a, b));
    if t.size < 8 {
      if t.signed {
        ShiftedDown(Signed(a), Pow2(b % 64), Pow2(8 * t.size));
        WrapFits(t, Signed(a) / Pow2(b % 64));
      } else {
        DivShrinks(a, Pow2(b % 64));
      }
    }
  }

  lemma {:induction false} ShiftedDown(x: int, d: int, p: int)
    requires d >= 1 && Below(x, p)
    ensures Below(x / d, p)
  {
    var q := x / d;
    assert x == d * q + x % d;
    if x >= 0 {
      DivShrinks(x, d);
    } else {
      if q >= 0 { MulMono(0, q, d); }
      if q < x { MulMono(q + 1, x, d); MulMono(1, d, -x); }
    }
  }

  /** Closed operators keep values of the type within it. */
  lemma {:induction false} ClosedFits(op: BinOp, t: Type, a: U64, b: U64)
    requires Closed(op, t.signed) && Fits(t, a) && (op == RShift || Fits(t, b)) && !Faults(op, t.signed, b)
    ensures Fits(t, BinaryValue(op, t.signed, a, b))
  {
    hide Fits, Pow2, Bits;
    match op
    case Modulo => RemainderFits(t, a, b);
    case BAnd => BitwiseFits(BitAnd, t, a, b);
    case BOr => BitwiseFits(BitOr, t, a, b);
    case BXor => BitwiseFits(BitXor, t, a, b);
    case RShift => ShiftFits(t, a, b);
    case Divide =>
      FitsIs(t, a);
      FitsIs(t, BinaryValue(Divide, false, a, b));
      if b != 0 { DivShrinks(a, b); }
  }

  /** Operands of a narrow type for which another operator leaves the type. */
  function Overflowing(op: BinOp, t: Type): (U64, U64)
    requires t.size < 8
  {
    Pow2Sizes();
    var p := Pow2(8 * t.size);
    match op
    case Plus => if t.signed then (p / 2 - 1, p / 2 - 1) else (p - 1, 1)
    case Minus => if t.signed then (W - p / 2, 1) else (0, 1)
    case Times => if t.signed then (p / 2 - 1, 2) else (p - 1, 2)
    case LShift => if t.signed then (p / 2 - 1, 1) else (p - 1, 1)
    case _ => (W - p / 2, W - 1)
  }

  lemma {:induction false} Overflows(op: BinOp, t: Type)
    requires t.size < 8 && !Closed(op, t.signed)
    ensures var (a, b) := Overflowing(op, t);
      Fits(t, a) && Fits(t, b) && b != 0 && !Fits(t, BinaryValue(op, t.signed, a, b))
  {
    hide Fits, BinaryValue;
    Pow2Sizes();
    hide Pow2;
    var (a, b) := Overflowing(op, t);
    FitsIs(t, a);
    FitsIs(t, b);
    FitsIs(t, BinaryValue(op, t.signed, a, b));
    match op
    case Plus => SumIs(t.signed, a, b);
    case Minus => DifferenceIs(t.signed, a, b);
    case Times => DoubleIs(t.signed, a);
    case LShift => DoubleIs(t.signed, a);
    case Divide => NegativeIs(a);
  }

  lemma {:induction false} SumIs(signed: bool, a: U64, b: U64)
    requires a + b < W
    ensures BinaryValue(Plus, signed, a, b) == a + b
  {
  }

  lemma {:induction false} DifferenceIs(signed: bool, a: U64, b: U64)
    ensures BinaryValue(Minus, signed, a, b) == if a >= b then a - b else a - b + W
  {
    if a < b { WrapCongruent(a - b, a - b + W, -1); }
  }

  lemma {:induction false} DoubleIs(signed: bool, a: U64)
    requires a < HALF
    ensures BinaryValue(Times, signed, a, 2) == 2 * a == BinaryValue(LShift, signed, a, 1)
  {
    hide Pow2;
    Pow2None();
    Pow2Step(1);
  }

  lemma {:induction false} NegativeIs(a: U64)
    requires a > HALF
    ensures BinaryValue(Divide, true, a, W - 1) == W - a
  {
    assert Signed(W - 1) == -1 && TruncDiv(Signed(a), -1) == W - a;
  }

  // ----- expressions whose values are of their type -----

  /** The value of the expression is always one of its type's, as the operators show. */
  predicate Ranged(e: Expr)
    decreases e, 0
  {
    TypeOf(e).size == 8 ||
    match e
    case Int(v, ty) => Fits(ty, v)
    case Get(_) => true
    case Binary(op, ty, l, r) => Closed(op, ty.signed) && RangedAs(l, ty) && (op == RShift || RangedAs(r, ty))
    case Compare(_, _, _) => true
    case Cond(ty, _, l, r) => RangedAs(l, ty) && RangedAs(r, ty)
    case LogAnd(_, _) => true
    case LogOr(_, _) => true
    case LogXor(_, _) => true
    case LogNot(_) => true
    case BitNot(ty, x) => ty.signed && RangedAs(x, ty)
    case Negate(_, _) => false
    case UnaryPlus(ty, x) => RangedAs(x, ty)
    case Comma(_, r) => Ranged(r)
    case Cast(ty, x) => !NoCast(TypeOf(x), ty) || Ranged(x)
    case Assign(v, x) => RangedAs(x, v.ty)
    case AssignOp(op, ty, v, x) => Closed(op, ty.signed) && NoCast(v.ty, ty) && (op == RShift || RangedAs(x, ty))
  }

  /** And it is one of type `t`. */
  predicate RangedAs(e: Expr, t: Type)
    decreases e, 1
  {
    NoCast(TypeOf(e), t) && Ranged(e)
  }

  /** All casts without code, and all assignments, have such operands. */
  predicate CastsSafe(e: Expr) {
    match e
    case Int(_, _) => true
    case Get(_) => true
    case Binary(_, _, l, r) => CastsSafe(l) && CastsSafe(r)
    case Compare(_, l, r) => CastsSafe(l) && CastsSafe(r)
    case Cond(_, c, l, r) => CastsSafe(c) && CastsSafe(l) && CastsSafe(r)
    case LogAnd(l, r) => CastsSafe(l) && CastsSafe(r)
    case LogOr(l, r) => CastsSafe(l) && CastsSafe(r)
    case LogXor(l, r) => CastsSafe(l) && CastsSafe(r)
    case LogNot(x) => CastsSafe(x)
    case BitNot(_, x) => CastsSafe(x)
    case Negate(_, x) => CastsSafe(x)
    case UnaryPlus(_, x) => CastsSafe(x)
    case Comma(l, r) => CastsSafe(l) && CastsSafe(r)
    case Cast(ty, x) => CastsSafe(x) && (ty.size == 8 || !NoCast(TypeOf(x), ty) || Ranged(x))
    case Assign(v, x) => CastsSafe(x) && (v.ty.size == 8 || RangedAs(x, v.ty))
    case AssignOp(_, _, v, x) => CastsSafe(x) && (v.ty.size == 8 || RangedAs(e, v.ty))
  }

  lemma {:induction false} RangedFits(e: Expr, s: Vars)
    requires Ranged(e) && Eval(e, s).Done?
    ensures Fits(TypeOf(e), Eval(e, s).value)
    decreases e, 1
  {
    hide Fits, BinaryValue, CastValue, Holds, Promote, Fetch, Put;
    if TypeOf(e).size == 8 {
      FitsWord(TypeOf(e), Eval(e, s).value);
    } else {
      match e
      case Int(_, _) =>
      case Get(v) => FetchFits(s, v);
      case Binary(op, ty, l, r) => BinaryRanged(e, s);
      case Compare(_, _, _) => TruthFits(Eval(e, s).value);
      case Cond(ty, c, l, r) =>
        var o := Eval(c, s);
        AsFits(if o.value != 0 then l else r, o.vars, ty);
      case LogAnd(_, _) => TruthFits(Eval(e, s).value);
      case LogOr(_, _) => TruthFits(Eval(e, s).value);
      case LogXor(_, _) => TruthFits(Eval(e, s).value);
      case LogNot(_) => TruthFits(Eval(e, s).value);
      case BitNot(ty, x) =>
        AsFits(x, s, ty);
        ComplementFits(ty, Eval(x, s).value);
      case UnaryPlus(ty, x) => AsFits(x, s, ty);
      case Comma(l, r) => RangedFits(r, Eval(l, s).vars);
      case Cast(ty, x) => CastFits(e, s);
      case Assign(v, x) => AsFits(x, s, v.ty);
      case AssignOp(op, ty, v, x) => AssignRanged(e, s);
    }
  }

  lemma {:induction false} TruthFits(v: U64)
    requires v <= 1
    ensures Fits(INT, v)
  {
    SmallFits(INT, v);
  }

  lemma {:induction false} AsFits(e: Expr, s: Vars, t: Type)
    requires RangedAs(e, t) && Eval(e, s).Done?
    ensures Fits(t, Eval(e, s).value)
    decreases e, 2
  {
    hide Fits, Eval;
    RangedFits(e, s);
    Widens(TypeOf(e), t, Eval(e, s).value);
  }

  lemma {:induction false} ComplementFits(t: Type, v: U64)
    requires t.signed && Fits(t, v)
    ensures Fits(t, W - 1 - v)
  {
    hide Fits, Pow2;
    Pow2Step(8 * t.size);
    FitsIs(t, v);
    FitsIs(t, W - 1 - v);
  }

  lemma {:induction false} BinaryRanged(e: Expr, s: Vars)
    requires e.Binary? && e.ty.size < 8 && Ranged(e) && Eval(e, s).Done?
    ensures Fits(e.ty, Eval(e, s).value)
    decreases e, 0
  {
    hide Fits, BinaryValue;
    var o := Eval(e.l, s);
    var q := Eval(e.r, o.vars);
    AsFits(e.l, s, e.ty);
    if e.op != RShift { AsFits(e.r, o.vars, e.ty); }
    ClosedFits(e.op, e.ty, o.value, q.value);
  }

  lemma {:induction false} CastFits(e: Expr, s: Vars)
    requires e.Cast? && e.ty.size < 8 && Ranged(e) && Eval(e, s).Done?
    ensures Fits(e.ty, Eval(e, s).value)
    decreases e, 0
  {
    hide Fits;
    if NoCast(TypeOf(e.e), e.ty) {
      AsFits(e.e, s, e.ty);
    } else {
      ConvertFits(e.ty, Eval(e.e, s).value);
    }
  }

  lemma {:induction false} AssignRanged(e: Expr, s: Vars)
    requires e.AssignOp? && e.ty.size < 8 && Ranged(e) && Eval(e, s).Done?
    ensures Fits(e.ty, Eval(e, s).value)
    decreases e, 0
  {
    hide Fits, BinaryValue, Fetch, Put;
    var o := Eval(e.e, s);
    FetchFits(s, e.v);
    Widens(e.v.ty, e.ty, Fetch(s, e.v));
    if e.op != RShift { AsFits(e.e, s, e.ty); }
    ClosedFits(e.op, e.ty, Fetch(s, e.v), o.value);
  }

  lemma {:induction false} AsConverts(e: Expr, s: Vars, t: Type)
    requires (t.size == 8 || RangedAs(e, t)) && Eval(e, s).Done?
    ensures Convert(t, Eval(e, s).value) == Eval(e, s).value
  {
    hide Eval, Convert;
    if t.size == 8 {
      FitsWord(t, Eval(e, s).value);
    } else {
      AsFits(e, s, t);
    }
  }

  /** For all expressions in which every cast without code and every assignment has an
      operand that stays within its type, the code's meaning is the one intended. */
  lemma {:induction false} CastsExact(e: Expr, s: Vars)
    requires CastsSafe(e)
    ensures Eval(e, s) == Intended(e, s)
    decreases e
  {
    hide Eval, Intended, Ranged, RangedAs, NoCast;
    match e
    case Int(_, _) => LeafExact(e, s);
    case Get(_) => LeafExact(e, s);
    case Binary(_, _, l, r) => CastsExact(l, s); CastsExact(r, Eval(l, s).vars); TwoExact(e, l, r, s);
    case Compare(_, l, r) => CastsExact(l, s); CastsExact(r, Eval(l, s).vars); TwoExact(e, l, r, s);
    case Cond(_, c, l, r) =>
      CastsExact(c, s);
      CastsExact(l, Eval(c, s).vars);
      CastsExact(r, Eval(c, s).vars);
      CondExact(e, s);
    case LogAnd(l, r) => CastsExact(l, s); CastsExact(r, Eval(l, s).vars); TwoExact(e, l, r, s);
    case LogOr(l, r) => CastsExact(l, s); CastsExact(r, Eval(l, s).vars); TwoExact(e, l, r, s);
    case LogXor(l, r) => CastsExact(l, s); CastsExact(r, Eval(l, s).vars); TwoExact(e, l, r, s);
    case LogNot(x) => CastsExact(x, s); OneExact(e, x, s);
    case BitNot(_, x) => CastsExact(x, s); OneExact(e, x, s);
    case Negate(_, x) => CastsExact(x, s); OneExact(e, x, s);
    case UnaryPlus(_, x) => CastsExact(x, s); OneExact(e, x, s);
    case Comma(l, r) => CastsExact(l, s); CastsExact(r, Eval(l, s).vars); TwoExact(e, l, r, s);
    case Cast(ty, x) => CastsExact(x, s); CastConverted(e, s);
    case Assign(v, x) =>
      CastsExact(x, s);
      if Eval(x, s).Done? { AsConverts(x, s, v.ty); }
      AssignExact(e, s);
    case AssignOp(_, _, v, x) =>
      CastsExact(x, s);
      if Eval(e, s).Done? { AsConverts(e, s, v.ty); }
      AssignOpExact(e, s);
  }

  lemma {:induction false} LeafExact(e: Expr, s: Vars)
    requires e.Int? || e.Get?
    ensures Eval(e, s) == Intended(e, s)
  {
  }

  lemma {:induction false} OneExact(e: Expr, x: Expr, s: Vars)
    requires (e.LogNot? || e.BitNot? || e.Negate? || e.UnaryPlus?) && x == e.e
    requires Eval(x, s) == Intended(x, s)
    ensures Eval(e, s) == Intended(e, s)
  {
    hide Truth;
  }

  lemma {:induction false} TwoExact(e: Expr, l: Expr, r: Expr, s: Vars)
    requires (e.Binary? || e.Compare? || e.LogAnd? || e.LogOr? || e.LogXor? || e.Comma?) && l == e.l && r == e.r
    requires Eval(l, s) == Intended(l, s) && Eval(r, Eval(l, s).vars) == Intended(r, Eval(l, s).vars)
    ensures Eval(e, s) == Intended(e, s)
  {
    hide Truth, Combine, Holds, Promote, TypeOf;
  }

  lemma {:induction false} CondExact(e: Expr, s: Vars)
    requires e.Cond? && Eval(e.c, s) == Intended(e.c, s)
    requires var t := Eval(e.c, s).vars; Eval(e.l, t) == Intended(e.l, t) && Eval(e.r, t) == Intended(e.r, t)
    ensures Eval(e, s) == Intended(e, s)
  {
  }

  lemma {:induction false} AssignExact(e: Expr, s: Vars)
    requires e.Assign? && Eval(e.e, s) == Intended(e.e, s)
    requires Eval(e.e, s).Done? ==> Convert(e.v.ty, Eval(e.e, s).value) == Eval(e.e, s).value
    ensures Eval(e, s) == Intended(e, s)
  {
    hide Convert, Put;
  }

  lemma {:induction false} AssignOpExact(e: Expr, s: Vars)
    requires e.AssignOp? && Eval(e.e, s) == Intended(e.e, s)
    requires Eval(e, s).Done? ==> Convert(e.v.ty, Eval(e, s).value) == Eval(e, s).value
    ensures Eval(e, s) == Intended(e, s)
  {
    hide Convert, Put, Combine, Fetch;
  }

  lemma {:induction false} CastConverted(e: Expr, s: Vars)
    requires e.Cast? && CastsSafe(e) && Eval(e.e, s) == Intended(e.e, s)
    ensures Eval(e, s) == Intended(e, s)
  {
    hide Convert, Ranged;
    if Eval(e.e, s).Done? && NoCast(TypeOf(e.e), e.ty) { AsConverts(e.e, s, e.ty); }
  }

  // ----- and those whose values are not -----

  ghost predicate Agrees(e: Expr, s: Vars) {
    Eval(e, s) == Intended(e, s)
  }

  function CastOf(op: BinOp, t: Type, v: Var, w: Var): Expr {
    Cast(t, Binary(op, t, Get(v), Get(w)))
  }

  /** Contents of two variables for which these have given values. */
  function Holding(v: Var, a: U64, w: Var, b: U64): Vars {
    Put(Put(map[], v, a), w, b)
  }

  lemma {:induction false} HoldingIs(v: Var, a: U64, w: Var, b: U64)
    requires v != w && Fits(v.ty, a) && Fits(w.ty, b)
    ensures Fetch(Holding(v, a, w, b), v) == a && Fetch(Holding(v, a, w, b), w) == b
  {
    hide Pow2;
  }

  /** The cast of an operation on two variables to their type is a conversion, whatever they
      hold, just for the closed operators, and for types that are as wide as a word. */
  lemma {:induction false} OperatorExact(op: BinOp, t: Type, v: Var, w: Var)
    requires v != w && v.ty == w.ty == t
    ensures (forall s: Vars :: Agrees(CastOf(op, t, v, w), s)) <==> t.size == 8 || Closed(op, t.signed)
  {
    hide Fits, Agrees, BinaryValue, Holding;
    if t.size == 8 || Closed(op, t.signed) {
      forall s: Vars ensures Agrees(CastOf(op, t, v, w), s) {
        OperatorAgrees(op, t, v, w, s);
      }
    } else {
      Overflows(op, t);
      var (a, b) := Overflowing(op, t);
      HoldingIs(v, a, w, b);
      OperatorDiffers(op, t, v, w, Holding(v, a, w, b));
    }
  }

  lemma {:induction false} OperatorAgrees(op: BinOp, t: Type, v: Var, w: Var, s: Vars)
    requires (t.size == 8 || Closed(op, t.signed)) && v.ty == w.ty == t
    ensures Agrees(CastOf(op, t, v, w), s)
  {
    hide Fits, Eval, Intended;
    if t.size != 8 {
      assert RangedAs(Get(v), t) && RangedAs(Get(w), t);
      assert Ranged(Binary(op, t, Get(v), Get(w)));
    }
    assert CastsSafe(Get(v)) && CastsSafe(Get(w));
    assert CastsSafe(Binary(op, t, Get(v), Get(w)));
    CastsExact(CastOf(op, t, v, w), s);
  }

  lemma {:induction false} OperatorDiffers(op: BinOp, t: Type, v: Var, w: Var, s: Vars)
    requires Fetch(s, w) != 0 && !Fits(t, BinaryValue(op, t.signed, Fetch(s, v), Fetch(s, w)))
    ensures !Agrees(CastOf(op, t, v, w), s)
  {
    hide BinaryValue, Convert, Fetch;
    var e := Binary(op, t, Get(v), Get(w));
    var x := BinaryValue(op, t.signed, Fetch(s, v), Fetch(s, w));
    assert Eval(Get(v), s) == Done(Fetch(s, v), s) && Eval(Get(w), s) == Done(Fetch(s, w), s);
    assert Eval(e, s) == Done(x, s);
    assert Intended(Get(v), s) == Done(Fetch(s, v), s) && Intended(Get(w), s) == Done(Fetch(s, w), s);
    assert Intended(e, s) == Done(x, s);
  }

  /** The complement of a narrow type's values stays in the type just if it is signed, and
      the negative never does. */
  lemma {:induction false} UnaryExact(t: Type)
    ensures (forall v: U64 :: Fits(t, v) ==> Fits(t, W - 1 - v)) <==> t.size == 8 || t.signed
    ensures (forall v: U64 :: Fits(t, v) ==> Fits(t, Negated(v))) <==> t.size == 8
  {
    hide Fits, Pow2;
    Pow2Sizes();
    var p := Pow2(8 * t.size);
    if t.size == 8 {
      forall v: U64 ensures Fits(t, v) { FitsWord(t, v); }
    } else {
      var least: U64 := if t.signed then W - p / 2 else 1;
      FitsIs(t, least);
      FitsIs(t, Negated(least));
      if t.signed {
        forall v: U64 | Fits(t, v) ensures Fits(t, W - 1 - v) { ComplementFits(t, v); }
      } else {
        SmallFits(t, 0);
        FitsIs(t, W - 1 - 0);
      }
    }
  }

  const U32Type := Type(4, false)

  /** A sum of variables that overflows 32 bits, cast to 32 bits: 2 to the 32 where 0 is
      meant. */
  lemma {:induction false} CastLost(v: Var, w: Var, s: Vars)
    requires v.ty == w.ty == U32Type && Fetch(s, v) == 0xffff_ffff && Fetch(s, w) == 1
    ensures var e := CastOf(Plus, U32Type, v, w);
      Eval(e, s) == Done(0x1_0000_0000, s) && Intended(e, s) == Done(0, s)
  {
    hide Pow2, Fetch;
    Pow2Sizes();
    assert Eval(Get(v), s) == Done(0xffff_ffff, s) && Eval(Get(w), s) == Done(1, s);
    assert Eval(Binary(Plus, U32Type, Get(v), Get(w)), s) == Done(0x1_0000_0000, s);
    assert Intended(Get(v), s) == Done(0xffff_ffff, s) && Intended(Get(w), s) == Done(1, s);
    assert Intended(Binary(Plus, U32Type, Get(v), Get(w)), s) == Done(0x1_0000_0000, s);
  }

  // ----- assignments -----

  /** The compound assignments to a variable of type `t` whose value is one of that type,
      for all operands of type `u`. */
  predicate Keeps(op: BinOp, t: Type, u: Type) {
    t.size == 8 ||
    match op
    case RShift => true
    case Divide => !t.signed || Positive(u)
    case Modulo => !t.signed || u.size <= t.size || Positive(u)
    case BAnd => !t.signed || NoCast(u, t)
    case BOr => NoCast(u, t)
    case BXor => NoCast(u, t)
    case _ => false
  }

  /** Values of the type are not negative as words. */
  predicate Positive(u: Type) {
    !u.signed && u.size < 8
  }

  lemma {:induction false} QuotientFits(t: Type, a: U64, b: U64)
    requires t.signed && t.size < 8 && Fits(t, a) && 1 <= b < HALF
    ensures Fits(t, BinaryValue(Divide, true, a, b)) && Fits(t, BinaryValue(Modulo, true, a, b))
  {
    hide Fits, Pow2, RemainderOf, TruncDiv;
    FitsIs(t, a);
    var x, y := Signed(a), Signed(b);
    QuotientBySigns(x, y);
    RemainderBySigns(x, y);
    DivShrinks(Abs(x), y);
    ModShrinks(Abs(x), y);
    WrapFits(t, TruncDiv(x, y));
    WrapFits(t, RemainderOf(x, y));
  }

  /** The bits that an unsigned number has and another word, too. */
  lemma {:induction false} AndBelow(a: U64, b: U64, k: nat)
    requires k <= 64 && a < Pow2(k)
    ensures Bits(BitAnd, a, b, 64) < Pow2(k)
  {
    hide Bits, Pow2;
    var p := Pow2(k);
    Divided(b, p);
    BitsSplit(BitAnd, 0, a, b / p, b % p, k, 64);
    AndComm(0, b / p, 64 - k);
    AndZero(b / p, 64 - k);
  }

  lemma {:induction false} KeepsFits(op: BinOp, t: Type, u: Type, a: U64, b: U64)
    requires Keeps(op, t, u) && Fits(t, a) && Fits(u, b) && !Faults(op, t.signed, b)
    ensures Fits(t, BinaryValue(op, t.signed, a, b))
  {
    hide Fits, Pow2, Bits, BinaryValue;
    FitsIs(t, a);
    FitsIs(u, b);
    FitsIs(t, BinaryValue(op, t.signed, a, b));
    if t.size < 8 {
      Pow2Sizes();
      if NoCast(u, t) { Widens(u, t, b); }
      BitwiseValues(t.signed, a, b);
      match op
      case RShift => ShiftFits(t, a, b);
      case Divide => if t.signed { QuotientFits(t, a, b); } else { UnsignedFits(t, a, b); }
      case Modulo =>
        if !t.signed { UnsignedFits(t, a, b); }
        else if NoCast(u, t) { RemainderFits(t, a, b); }
        else { QuotientFits(t, a, b); }
      case BAnd =>
        if t.signed { BitwiseFits(BitAnd, t, a, b); } else { AndFits(t, a, b); }
      case BOr => BitwiseFits(BitOr, t, a, b);
      case BXor => BitwiseFits(BitXor, t, a, b);
    }
  }

  lemma {:induction false} BitwiseValues(signed: bool, a: U64, b: U64)
    ensures BinaryValue(BAnd, signed, a, b) == Bitwise(BitAnd, a, b)
    ensures BinaryValue(BOr, signed, a, b) == Bitwise(BitOr, a, b)
    ensures BinaryValue(BXor, signed, a, b) == Bitwise(BitXor, a, b)
  {
    hide Bitwise;
  }

  lemma {:induction false} AndFits(t: Type, a: U64, b: U64)
    requires !t.signed && t.size < 8 && Fits(t, a)
    ensures Fits(t, Bitwise(BitAnd, a, b))
  {
    hide Fits, Pow2, Bits;
    FitsIs(t, a);
    FitsIs(t, Bitwise(BitAnd, a, b));
    AndBelow(a, b, 8 * t.size);
  }

  lemma {:induction false} UnsignedFits(t: Type, a: U64, b: U64)
    requires !t.signed && t.size < 8 && Fits(t, a)
    ensures Fits(t, BinaryValue(Divide, false, a, b)) && Fits(t, BinaryValue(Modulo, false, a, b))
  {
    hide Fits, Pow2;
    FitsIs(t, a);
    FitsIs(t, BinaryValue(Divide, false, a, b));
    FitsIs(t, BinaryValue(Modulo, false, a, b));
    if b != 0 {
      DivShrinks(a, b);
      ModShrinks(a, b);
    }
  }

  /** A value of type `u` that is none of type `t`. */
  function Outside(u: Type, t: Type): U64
    requires t.size < 8
  {
    Pow2Sizes();
    var p := Pow2(8 * t.size);
    if u.signed && !t.signed then W - 1 else if t.signed then p / 2 else p
  }

  lemma {:induction false} OutsideIs(u: Type, t: Type)
    requires !NoCast(u, t)
    ensures t.size < 8 && Fits(u, Outside(u, t)) && !Fits(t, Outside(u, t)) && Outside(u, t) != 0
  {
    hide Fits, Pow2;
    Pow2Sizes();
    FitsIs(u, Outside(u, t));
    FitsIs(t, Outside(u, t));
  }

  /** Values of a variable of type `t` and an operand of type `u` for which the result of
      another operator is outside `t`. */
  function Spoiling(op: BinOp, t: Type, u: Type): (U64, U64)
    requires t.size < 8
  {
    Pow2Sizes();
    var p := Pow2(8 * t.size);
    var least, greatest := if t.signed then W - p / 2 else 0, if t.signed then p / 2 - 1 else p - 1;
    match op
    case Plus => (greatest, 1)
    case Minus => (least, 1)
    case Times => (greatest, 2)
    case LShift => (greatest, 1)
    case Divide => (least, W - 1)
    case Modulo => (least, W - 1 - p / 2)
    case BAnd => (W - 1, Outside(u, t))
    case _ => (0, Outside(u, t))
  }

  lemma {:induction false} Spoils(op: BinOp, t: Type, u: Type)
    requires !Keeps(op, t, u)
    ensures t.size < 8
    ensures var (a, b) := Spoiling(op, t, u);
      Fits(t, a) && Fits(u, b) && b != 0 && !Fits(t, BinaryValue(op, t.signed, a, b))
  {
    hide Fits, BinaryValue, Outside;
    Pow2Sizes();
    hide Pow2;
    var (a, b) := Spoiling(op, t, u);
    FitsIs(t, a);
    FitsIs(u, b);
    FitsIs(t, BinaryValue(op, t.signed, a, b));
    match op
    case Plus => SumIs(t.signed, a, b);
    case Minus => DifferenceIs(t.signed, a, b);
    case Times => DoubleIs(t.signed, a);
    case LShift => DoubleIs(t.signed, a);
    case Divide => NegativeIs(a);
    case Modulo => LeastIs(a, b);
    case BAnd => OutsideIs(u, t); BitwiseIs(t.signed, b);
    case BOr => OutsideIs(u, t); BitwiseIs(t.signed, b);
    case BXor => OutsideIs(u, t); BitwiseIs(t.signed, b);
  }

  lemma {:induction false} LeastIs(a: U64, b: U64)
    requires HALF <= b < a
    ensures BinaryValue(Modulo, true, a, b) == W - a
  {
    hide RemainderOf;
    var x, y := Signed(a), Signed(b);
    RemainderBySigns(x, y);
    DivModUnique(-x, -y, 0, -x);
  }

  lemma {:induction false} BitwiseIs(signed: bool, b: U64)
    ensures BinaryValue(BAnd, signed, W - 1, b) == b
    ensures BinaryValue(BOr, signed, 0, b) == b && BinaryValue(BXor, signed, 0, b) == b
  {
    hide Bits, Pow2;
    Pow2Of64();
    AndComm(W - 1, b, 64);
    AndOnes(b, 64);
    OrZero(b, 64);
    XorZero(b, 64);
  }

  /** The value of a compound assignment is one of the variable's type, whatever the two
      variables hold, just for these operators and types. */
  lemma {:induction false} AssignOpAlways(op: BinOp, v: Var, w: Var)
    requires v != w
    ensures (forall s: Vars :: Agrees(AssignOp(op, v.ty, v, Get(w)), s)) <==> Keeps(op, v.ty, w.ty)
  {
    hide Fits, Agrees, BinaryValue, Holding, Keeps;
    if Keeps(op, v.ty, w.ty) {
      forall s: Vars ensures Agrees(AssignOp(op, v.ty, v, Get(w)), s) {
        FetchFits(s, v);
        FetchFits(s, w);
        if !Faults(op, v.ty.signed, Fetch(s, w)) { KeepsFits(op, v.ty, w.ty, Fetch(s, v), Fetch(s, w)); }
        AssignOpAgrees(op, v, w, s);
      }
    } else {
      Spoils(op, v.ty, w.ty);
      var (a, b) := Spoiling(op, v.ty, w.ty);
      HoldingIs(v, a, w, b);
      AssignOpAgrees(op, v, w, Holding(v, a, w, b));
    }
  }

  lemma {:induction false} AssignOpAgrees(op: BinOp, v: Var, w: Var, s: Vars)
    ensures var signed := v.ty.signed;
      Agrees(AssignOp(op, v.ty, v, Get(w)), s) <==>
      (Faults(op, signed, Fetch(s, w)) || Fits(v.ty, BinaryValue(op, signed, Fetch(s, v), Fetch(s, w))))
  {
    hide BinaryValue, Convert, Fetch, Put;
    assert Eval(Get(w), s) == Done(Fetch(s, w), s) && Intended(Get(w), s) == Done(Fetch(s, w), s);
  }

  /** The value of an assignment from one variable to another is the one that is stored,
      whatever they hold, just for types for which a cast needs no code. */
  lemma {:induction false} AssignAlways(v: Var, w: Var)
    ensures (forall s: Vars :: Agrees(Assign(v, Get(w)), s)) <==> NoCast(w.ty, v.ty)
  {
    hide Fits, Agrees, Holding, NoCast;
    if NoCast(w.ty, v.ty) {
      forall s: Vars ensures Agrees(Assign(v, Get(w)), s) {
        FetchFits(s, w);
        Widens(w.ty, v.ty, Fetch(s, w));
        AssignAgrees(v, w, s);
      }
    } else {
      assert v != w by { SameNoCast(v.ty); }
      OutsideIs(w.ty, v.ty);
      SmallFits(v.ty, 0);
      var b := Outside(w.ty, v.ty);
      HoldingIs(v, 0, w, b);
      AssignAgrees(v, w, Holding(v, 0, w, b));
    }
  }

  lemma {:induction false} SameNoCast(t: Type)
    ensures NoCast(t, t)
  {
  }

  lemma {:induction false} AssignAgrees(v: Var, w: Var, s: Vars)
    ensures Agrees(Assign(v, Get(w)), s) <==> Fits(v.ty, Fetch(s, w))
  {
    hide Convert, Fetch, Put;
    assert Eval(Get(w), s) == Done(Fetch(s, w), s) && Intended(Get(w), s) == Done(Fetch(s, w), s);
  }

  /** 256 assigned to an unsigned byte: the value is 256 where 0 is meant, and is stored; and
      one added to the greatest number of 32 bits: 2 to the 32 where 0 is meant. */
  lemma {:induction false} AssignLost(v: Var, w: Var, s: Vars)
    requires w.ty == U32Type
    ensures v.ty == Type(1, false) && Fetch(s, w) == 256 ==>
      var e := Assign(v, Get(w));
      Eval(e, s) == Done(256, Put(s, v, 256)) && Intended(e, s) == Done(0, Put(s, v, 256))
    ensures v.ty == U32Type && Fetch(s, v) == 0xffff_ffff && Fetch(s, w) == 1 ==>
      var e := AssignOp(Plus, U32Type, v, Get(w));
      && Eval(e, s) == Done(0x1_0000_0000, Put(s, v, 0x1_0000_0000))
      && Intended(e, s) == Done(0, Put(s, v, 0x1_0000_0000))
  {
    hide Fetch, Put, Pow2;
    Pow2Sizes();
    assert Eval(Get(w), s) == Done(Fetch(s, w), s) && Intended(Get(w), s) == Done(Fetch(s, w), s);
  }

  /** So the code of such an expression does what is intended. */
  lemma {:induction false} GenIntended(e: Expr, n: nat, g: Option<Code>, p: seq<Node>, k: nat, m: Layout, s: State,
                                       vars: Vars, l: seq<U64>) returns (t: State)
    requires Given(e, n, g, p, k, m, s, vars, l) && CastsSafe(e)
    ensures Reaches(p, s, t) && After(m, t, Intended(e, vars), l, k + |g.value.nodes|)
  {
    hide Given, After, Reaches, Eval, Intended, CastsSafe;
    CastsExact(e, vars);
    t := GenCorrect(e, n, g, p, k, m, s, vars, l);
  }
}
