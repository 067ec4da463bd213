/**
 Integer D expressions as the parser hands them to the code generator, and their
 meaning: a 64-bit value together with the variables' new contents, or a
 division-by-zero fault.
 */
module Expr {
  import opened Word
  import opened Memory

  datatype Type = Type(size: Size, signed: bool)

  const INT := Type(4, true)

  datatype Scope = Global | Local

  /** A scalar variable: its place in the storage of its scope, and its type. */
  datatype Var = Var(name: string, scope: Scope, offset: nat, ty: Type)

  datatype BinOp = Plus | Minus | Times | Divide | Modulo | BAnd | BOr | BXor | LShift | RShift
  datatype CmpOp = Equal | NotEqual | Less | LessEqual | Greater | GreaterEqual

  datatype Expr =
    | Int(value: U64, ty: Type)
    | Get(v: Var)
    | Binary(op: BinOp, ty: Type, l: Expr, r: Expr)
    | Compare(cmp: CmpOp, l: Expr, r: Expr)
    | Cond(ty: Type, c: Expr, l: Expr, r: Expr)
    | LogAnd(l: Expr, r: Expr)
    | LogOr(l: Expr, r: Expr)
    | LogXor(l: Expr, r: Expr)
    | LogNot(e: Expr)
    | BitNot(ty: Type, e: Expr)
    | Negate(ty: Type, e: Expr)
    | UnaryPlus(ty: Type, e: Expr)
    | Comma(l: Expr, r: Expr)
    | Cast(ty: Type, e: Expr)
    | Assign(v: Var, e: Expr)
    | AssignOp(op: BinOp, ty: Type, v: Var, e: Expr)

  function TypeOf(e: Expr): Type {
    match e
    case Int(_, ty) => ty
    case Get(v) => v.ty
    case Binary(_, ty, _, _) => ty
    case Compare(_, _, _) => INT
    case Cond(ty, _, _, _) => ty
    case LogAnd(_, _) => INT
    case LogOr(_, _) => INT
    case LogXor(_, _) => INT
    case LogNot(_) => INT
    case BitNot(ty, _) => ty
    case Negate(ty, _) => ty
    case UnaryPlus(ty, _) => ty
    case Comma(_, r) => TypeOf(r)
    case Cast(ty, _) => ty
    case Assign(v, _) => v.ty
    case AssignOp(_, ty, _, _) => ty
  }

  /** dt_type_promote: the operand type of the greater rank, where at equal size
      unsigned outranks signed. */
  function Promote(a: Type, b: Type): Type {
    if Rank(a) >= Rank(b) then a else b
  }

  function Rank(t: Type): int {
    8 * t.size + (if t.signed then 0 else 1)
  }

  /** A variable's contents (its bytes as a number) as a 64-bit value of type `t`. */
  function Extend(t: Type, raw: nat): U64
    requires raw < Pow2(8 * t.size)
  {
    Pow2OfSize(t.size);
    if t.signed && 2 * raw >= Pow2(8 * t.size) then Wrap(raw - Pow2(8 * t.size)) else raw
  }

  /** Integer conversion (section 6.3.1.3 of ISO C99): the value of type `t` that is
      congruent to `v` modulo 2 to the width of `t`. */
  function Convert(t: Type, v: U64): U64 {
    Extend(t, v % Pow2(8 * t.size))
  }

  /** `v` is a value of type `t`. */
  predicate Fits(t: Type, v: U64) {
    Convert(t, v) == v
  }

  /** The conversion that a cast performs: none where dt_cg_typecast() relies on the
      operand's value being one of its type's. */
  function CastValue(src: Type, dst: Type, v: U64): U64 {
    if NoCast(src, dst) then v else Convert(dst, v)
  }

  predicate NoCast(src: Type, dst: Type) {
    || dst.size == 8
    || (dst.size > src.size && (dst.signed || !src.signed))
    || (dst.size == src.size && dst.signed == src.signed)
  }

  type Vars = map<Var, U64>

  datatype Outcome = Done(value: U64, vars: Vars) | DivByZero(vars: Vars)

  function Truth(b: bool): U64 {
    if b then 1 else 0
  }

  /** Signed division and remainder by zero fault; the unsigned ones are left to the
      BPF instructions, which yield 0 and the dividend. */
  predicate Faults(op: BinOp, signed: bool, b: U64) {
    (op == Divide || op == Modulo) && signed && b == 0
  }

  function BinaryValue(op: BinOp, signed: bool, a: U64, b: U64): U64
    requires !Faults(op, signed, b)
  {
    match op
    case Plus => Wrap(a + b)
    case Minus => Wrap(a - b)
    case Times => Wrap(a * b)
    case Divide =>
      if signed then Wrap(TruncDiv(Signed(a), Signed(b)))
      else if b == 0 then 0 else (DivShrinks(a, b); a / b)
    case Modulo =>
      if signed then Wrap(RemainderOf(Signed(a), Signed(b)))
      else if b == 0 then a else a % b
    case BAnd => Bitwise(BitAnd, a, b)
    case BOr => Bitwise(BitOr, a, b)
    case BXor => Bitwise(BitXor, a, b)
    case LShift => ShiftLeft(a, b % 64)
    case RShift => if signed then ShiftRightSigned(a, b % 64) else ShiftRight(a, b % 64)
  }

  /** D's signed remainder: C's, with the sign flipped for a negative divisor. */
  function RemainderOf(a: int, b: int): int
    requires b != 0
  {
    if b > 0 then TruncMod(a, b) else -TruncMod(a, b)
  }

  predicate Holds(cmp: CmpOp, signed: bool, a: U64, b: U64) {
    match cmp
    case Equal => a == b
    case NotEqual => a != b
    case Less => if signed then Signed(a) < Signed(b) else a < b
    case LessEqual => if signed then Signed(a) <= Signed(b) else a <= b
    case Greater => if signed then Signed(a) > Signed(b) else a > b
    case GreaterEqual => if signed then Signed(a) >= Signed(b) else a >= b
  }

  function VarsOf(e: Expr): set<Var> {
    match e
    case Int(_, _) => {}
    case Get(v) => {v}
    case Binary(_, _, l, r) => VarsOf(l) + VarsOf(r)
    case Compare(_, l, r) => VarsOf(l) + VarsOf(r)
    case Cond(_, c, l, r) => VarsOf(c) + VarsOf(l) + VarsOf(r)
    case LogAnd(l, r) => VarsOf(l) + VarsOf(r)
    case LogOr(l, r) => VarsOf(l) + VarsOf(r)
    case LogXor(l, r) => VarsOf(l) + VarsOf(r)
    case LogNot(e) => VarsOf(e)
    case BitNot(_, e) => VarsOf(e)
    case Negate(_, e) => VarsOf(e)
    case UnaryPlus(_, e) => VarsOf(e)
    case Comma(l, r) => VarsOf(l) + VarsOf(r)
    case Cast(_, e) => VarsOf(e)
    case Assign(v, e) => {v} + VarsOf(e)
    case AssignOp(_, _, v, e) => {v} + VarsOf(e)
  }

  function Fetch(s: Vars, v: Var): U64 {
    if v in s && s[v] < Pow2(8 * v.ty.size) then Extend(v.ty, s[v]) else 0
  }

  /** A store keeps the low bytes that the variable has room for. */
  function Put(s: Vars, v: Var, x: U64): Vars {
    ModShrinks(x, Pow2(8 * v.ty.size));
    s[v := x % Pow2(8 * v.ty.size)]
  }

  lemma {:induction false} ModShrinks(x: nat, m: int)
    requires m >= 1
    ensures 0 <= x % m <= x
  {
    if x < m {
      DivModUnique(x, m, 0, x);
    }
  }

  function Combine(op: BinOp, signed: bool, a: U64, b: U64, s: Vars): Outcome {
    if Faults(op, signed, b) then DivByZero(s) else Done(BinaryValue(op, signed, a, b), s)
  }

  /** The meaning of an expression: operands are evaluated left to right, and the
      logical operators and ?: evaluate only the operands they need. */
  function Eval(e: Expr, s: Vars): Outcome
    decreases e
  {
    match e
    case Int(v, _) => Done(v, s)
    case Get(v) => Done(Fetch(s, v), s)
    case Binary(op, ty, l, r) =>
      (match Eval(l, s)
       case DivByZero(t) => DivByZero(t)
       case Done(a, t) =>
         match Eval(r, t)
         case DivByZero(u) => DivByZero(u)
         case Done(b, u) => Combine(op, ty.signed, a, b, u))
    case Compare(cmp, l, r) =>
      (match Eval(l, s)
       case DivByZero(t) => DivByZero(t)
       case Done(a, t) =>
         match Eval(r, t)
         case DivByZero(u) => DivByZero(u)
         case Done(b, u) => Done(Truth(Holds(cmp, Promote(TypeOf(l), TypeOf(r)).signed, a, b)), u))
    case Cond(_, c, l, r) =>
      (match Eval(c, s)
       case DivByZero(t) => DivByZero(t)
       case Done(a, t) => if a != 0 then Eval(l, t) else Eval(r, t))
    case LogAnd(l, r) =>
      (match Eval(l, s)
       case DivByZero(t) => DivByZero(t)
       case Done(a, t) =>
         if a == 0 then Done(0, t) else
         match Eval(r, t)
         case DivByZero(u) => DivByZero(u)
         case Done(b, u) => Done(Truth(b != 0), u))
    case LogOr(l, r) =>
      (match Eval(l, s)
       case DivByZero(t) => DivByZero(t)
       case Done(a, t) =>
         if a != 0 then Done(1, t) else
         match Eval(r, t)
         case DivByZero(u) => DivByZero(u)
         case Done(b, u) => Done(Truth(b != 0), u))
    case LogXor(l, r) =>
      (match Eval(l, s)
       case DivByZero(t) => DivByZero(t)
       case Done(a, t) =>
         match Eval(r, t)
         case DivByZero(u) => DivByZero(u)
         case Done(b, u) => Done(Truth((a != 0) != (b != 0)), u))
    case LogNot(x) =>
      (match Eval(x, s)
       case DivByZero(t) => DivByZero(t)
       case Done(a, t) => Done(Truth(a == 0), t))
    case BitNot(_, x) =>
      (match Eval(x, s)
       case DivByZero(t) => DivByZero(t)
       case Done(a, t) => Done(W - 1 - a, t))
    case Negate(_, x) =>
      (match Eval(x, s)
       case DivByZero(t) => DivByZero(t)
       case Done(a, t) => Done(if a == 0 then 0 else W - a, t))
    case UnaryPlus(_, x) => Eval(x, s)
    case Comma(l, r) =>
      (match Eval(l, s)
       case DivByZero(t) => DivByZero(t)
       case Done(_, t) => Eval(r, t))
    case Cast(ty, x) =>
      (match Eval(x, s)
       case DivByZero(t) => DivByZero(t)
       case Done(a, t) => Done(CastValue(TypeOf(x), ty, a), t))
    case Assign(v, x) =>
      (match Eval(x, s)
       case DivByZero(t) => DivByZero(t)
       case Done(a, t) => Done(a, Put(t, v, a)))
    case AssignOp(op, ty, v, x) =>
      (match Eval(x, s)
       case DivByZero(t) => DivByZero(t)
       case Done(b, t) =>
         match Combine(op, ty.signed, Fetch(s, v), b, t)
         case DivByZero(u) => DivByZero(u)
         case Done(c, u) => Done(c, Put(u, v, c)))
  }
}
