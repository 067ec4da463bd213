/**
 Comparisons against ISO C: when the code generator compares signed, and for which types
 and operators a comparison of two operands is C's comparison after the usual arithmetic
 conversions, which dt_cg_compare_signed() in libdtrace/dt_cg.c refers to.
 */
module Conversions {
  import opened Word
  import opened Expr
  import opened CodeGen
  import opened WordFacts
  import opened Casts

  // ----- the conversions of ISO C -----

  /** How many values a type has. */
  function Span(t: Type): int {
    if t.size == 1 then 0x100 else if t.size == 2 then 0x1_0000 else if t.size == 4 then 0x1_0000_0000 else W
  }

  predicate InType(t: Type, x: int) {
    if t.signed then -Span(t) <= 2 * x < Span(t) else 0 <= x < Span(t)
  }

  /** Conversion to an integer type (section 6.3.1.3 of ISO C99), on numbers: the one number
      of the type that is congruent. */
  function Into(t: Type, x: int): int {
    var m := x % Span(t);
    if t.signed && 2 * m >= Span(t) then m - Span(t) else m
  }

  /** The integer promotions (section 6.3.1.1): everything narrower than int becomes int. */
  function Promoted(t: Type): Type {
    if t.size < INT.size then INT else t
  }

  /** The common type of the usual arithmetic conversions (section 6.3.1.8). */
  function Common(a: Type, b: Type): Type {
    var a, b := Promoted(a), Promoted(b);
    if a.signed == b.signed then if a.size >= b.size then a else b
    else
      var (s, u) := if a.signed then (a, b) else (b, a);
      if s.size > u.size then s else u
  }

  predicate Relates(cmp: CmpOp, x: int, y: int) {
    match cmp
    case Equal => x == y
    case NotEqual => x != y
    case Less => x < y
    case LessEqual => x <= y
    case Greater => x > y
    case GreaterEqual => x >= y
  }

  /** The number that a word stands for as a value of a type. */
  function Number(t: Type, v: U64): int {
    if t.signed then Signed(v) else v
  }

  /** C's comparison: both operands are converted to their common type. */
  predicate HoldsInC(cmp: CmpOp, t: Type, u: Type, a: U64, b: U64) {
    var c := Common(t, u);
    Relates(cmp, Into(c, Number(t, a)), Into(c, Number(u, b)))
  }

  lemma {:induction false} SpanIs(t: Type)
    ensures Pow2(8 * t.size) == Span(t)
  {
    Pow2Sizes();
  }

  lemma {:induction false} NumberInType(t: Type, v: U64)
    ensures Fits(t, v) <==> InType(t, Number(t, v))
  {
    hide Pow2, Fits;
    SpanIs(t);
    if t.size == 8 { FitsWord(t, v); } else { FitsRange(t, v, Span(t)); }
  }

  lemma {:induction false} IntoSame(t: Type, x: int)
    requires InType(t, x)
    ensures Into(t, x) == x
  {
    var m := Span(t);
    if x >= 0 { DivModUnique(x, m, 0, x); } else { DivModUnique(x, m, -1, x + m); }
  }

  /** A negative number as an unsigned one. */
  lemma {:induction false} IntoAbove(t: Type, x: int)
    requires !t.signed && -Span(t) <= x < 0
    ensures Into(t, x) == x + Span(t)
  {
    DivModUnique(x, Span(t), -1, x + Span(t));
  }

  // ----- signed or unsigned -----

  lemma {:induction false} SignedTypes(t: Type, u: Type)
    ensures Promote(t, u).signed <==>
      (t.signed && u.signed) || (t.size > u.size && t.signed) || (u.size > t.size && u.signed)
  {
  }

  /** A comparison is signed exactly if both operand types are, or the wider one is. */
  lemma {:induction false} SignedExactly(l: Expr, r: Expr)
    ensures var t, u := TypeOf(l), TypeOf(r);
      ComparesSigned(l, r) <==>
      (t.signed && u.signed) || (t.size > u.size && t.signed) || (u.size > t.size && u.signed)
  {
    hide Promote;
    SignedTypes(TypeOf(l), TypeOf(r));
  }

  predicate IsEquality(cmp: CmpOp) {
    cmp == Equal || cmp == NotEqual
  }

  /** The types and operators for which a comparison is C's: those of the same sign, those of
      which the signed one is wider, those with a type as wide as a word; and all narrower than
      int for == and !=. */
  predicate AsInC(cmp: CmpOp, t: Type, u: Type) {
    || t.signed == u.signed
    || (if t.signed then t.size > u.size else u.size > t.size)
    || t.size == 8 || u.size == 8
    || (t.size < INT.size && u.size < INT.size && IsEquality(cmp))
  }

  lemma {:induction false} HoldsIs(cmp: CmpOp, signed: bool, a: U64, b: U64, x: int, y: int)
    requires if signed then x == Signed(a) && y == Signed(b)
             else (x == a && y == b) || (IsEquality(cmp) && (a == b <==> x == y))
    ensures Holds(cmp, signed, a, b) <==> Relates(cmp, x, y)
  {
  }

  /** A value that the common type has stays as it is; a negative one that becomes unsigned
      becomes the word that it is, if the type is as wide. */
  lemma {:induction false} IntoCommon(t: Type, u: Type, v: U64)
    requires Fits(t, v)
    ensures var c, x := Common(t, u), Number(t, v);
      && InType(t, x)
      && (c.signed || Signed(v) >= 0 ==> Into(c, x) == x)
      && (!c.signed && c.size == 8 ==> Into(c, x) == v)
  {
    hide Fits, Into;
    NumberInType(t, v);
    var c, x := Common(t, u), Number(t, v);
    if InType(c, x) { IntoSame(c, x); } else { IntoAbove(c, x); }
  }

  /** The comparison of operands that have their types, as compiled, is C's for these types
      and operators, and whenever no operand is negative. */
  lemma {:induction false} ComparesAsC(cmp: CmpOp, t: Type, u: Type, a: U64, b: U64)
    requires Fits(t, a) && Fits(u, b)
    requires AsInC(cmp, t, u) || ((t.signed ==> Signed(a) >= 0) && (u.signed ==> Signed(b) >= 0))
    ensures Holds(cmp, Promote(t, u).signed, a, b) <==> HoldsInC(cmp, t, u, a, b)
  {
    hide Fits, Into, Promote, Holds, Relates;
    SignedTypes(t, u);
    IntoCommon(t, u, a);
    IntoCommon(u, t, b);
    var c := Common(t, u);
    HoldsIs(cmp, Promote(t, u).signed, a, b, Into(c, Number(t, a)), Into(c, Number(u, b)));
  }

  /** The same of a whole expression. */
  lemma {:induction false} CompareMeans(cmp: CmpOp, l: Expr, r: Expr, s: Vars)
    requires Eval(l, s).Done? && Eval(r, Eval(l, s).vars).Done?
    requires Fits(TypeOf(l), Eval(l, s).value) && Fits(TypeOf(r), Eval(r, Eval(l, s).vars).value)
    requires
      || AsInC(cmp, TypeOf(l), TypeOf(r))
      || (Signed(Eval(l, s).value) >= 0 && Signed(Eval(r, Eval(l, s).vars).value) >= 0)
    ensures var a := Eval(l, s);
      var b := Eval(r, a.vars);
      Eval(Compare(cmp, l, r), s) == Done(Truth(HoldsInC(cmp, TypeOf(l), TypeOf(r), a.value, b.value)), b.vars)
  {
    hide Fits, HoldsInC, Holds, Promote, AsInC;
    ComparesAsC(cmp, TypeOf(l), TypeOf(r), Eval(l, s).value, Eval(r, Eval(l, s).vars).value);
  }

  predicate ComparedAsC(cmp: CmpOp, v: Var, w: Var, s: Vars) {
    Eval(Compare(cmp, Get(v), Get(w)), s) == Done(Truth(HoldsInC(cmp, v.ty, w.ty, Fetch(s, v), Fetch(s, w))), s)
  }

  lemma {:induction false} ComparedIs(cmp: CmpOp, v: Var, w: Var, s: Vars)
    ensures ComparedAsC(cmp, v, w, s) <==>
      (Holds(cmp, Promote(v.ty, w.ty).signed, Fetch(s, v), Fetch(s, w)) <==>
       HoldsInC(cmp, v.ty, w.ty, Fetch(s, v), Fetch(s, w)))
  {
    hide Holds, HoldsInC, Promote, Fetch;
    assert Eval(Get(v), s) == Done(Fetch(s, v), s) && Eval(Get(w), s) == Done(Fetch(s, w), s);
  }

  /** Operands for which the two comparisons differ: -1 or -2 against 0 or the greatest. */
  function Differing(cmp: CmpOp, t: Type, u: Type): (U64, U64) {
    var wide := t.size == 4 || u.size == 4;
    var x := if wide && !IsEquality(cmp) then W - 2 else W - 1;
    var y := if wide then 0xffff_ffff else 0;
    if t.signed then (x, y) else (y, x)
  }

  /** Comparing two variables is C's comparison, whatever they hold, just for these types and
      operators. */
  lemma {:induction false} CompareAlways(cmp: CmpOp, v: Var, w: Var)
    requires v != w
    ensures (forall s: Vars :: ComparedAsC(cmp, v, w, s)) <==> AsInC(cmp, v.ty, w.ty)
  {
    hide Fits, HoldsInC, Holds, Promote, AsInC, ComparedAsC, Differing, Holding;
    if AsInC(cmp, v.ty, w.ty) {
      forall s: Vars ensures ComparedAsC(cmp, v, w, s) {
        FetchFits(s, v);
        FetchFits(s, w);
        ComparedIs(cmp, v, w, s);
        ComparesAsC(cmp, v.ty, w.ty, Fetch(s, v), Fetch(s, w));
      }
    } else {
      var (a, b) := Differing(cmp, v.ty, w.ty);
      Differs(cmp, v.ty, w.ty);
      HoldingIs(v, a, w, b);
      ComparedIs(cmp, v, w, Holding(v, a, w, b));
    }
  }

  lemma {:induction false} Differs(cmp: CmpOp, t: Type, u: Type)
    requires !AsInC(cmp, t, u)
    ensures t.size < 8 && u.size < 8
    ensures var (a, b) := Differing(cmp, t, u);
      Fits(t, a) && Fits(u, b) && (Holds(cmp, Promote(t, u).signed, a, b) <==> !HoldsInC(cmp, t, u, a, b))
  {
    hide Fits, Promote, Into;
    SignedTypes(t, u);
    var (a, b) := Differing(cmp, t, u);
    NumberInType(t, a);
    NumberInType(u, b);
    var c := Common(t, u);
    if InType(c, Number(t, a)) { IntoSame(c, Number(t, a)); } else { IntoAbove(c, Number(t, a)); }
    if InType(c, Number(u, b)) { IntoSame(c, Number(u, b)); } else { IntoAbove(c, Number(u, b)); }
  }

  /** -1 of 32 bits and the greatest unsigned number of 32 bits are equal in C, and not as
      compiled; and -1 of 8 bits is less than an unsigned 0 of 8 bits in C, and not as compiled. */
  lemma {:induction false} CompareLost(v: Var, w: Var, s: Vars)
    ensures v.ty == INT && w.ty == Type(4, false) && Fetch(s, v) == W - 1 && Fetch(s, w) == 0xffff_ffff ==>
      Eval(Compare(Equal, Get(v), Get(w)), s) == Done(0, s) && HoldsInC(Equal, v.ty, w.ty, Fetch(s, v), Fetch(s, w))
    ensures v.ty == Type(1, true) && w.ty == Type(1, false) && Fetch(s, v) == W - 1 && Fetch(s, w) == 0 ==>
      Eval(Compare(Less, Get(v), Get(w)), s) == Done(0, s) && HoldsInC(Less, v.ty, w.ty, Fetch(s, v), Fetch(s, w))
  {
    hide Fetch;
    assert Eval(Get(v), s) == Done(Fetch(s, v), s) && Eval(Get(w), s) == Done(Fetch(s, w), s);
  }
}
