/**
 What the code of an expression leaves behind, for every expression that compiles: the
 values on the stack and the variables, or that it stops with a fault.  Where comparisons
 and ?: do not have to spill registers, this is the meaning of the expression (see module
 Correct); where they do, values under the result may be others than before.
 */
module Execution {
  import opened Basics
  import opened Word
  import opened Bpf
  import opened Ir
  import opened Registers
  import opened Expr
  import opened CodeGen
  import opened Window
  import opened WordFacts
  import opened Compile
  import opened Spill

  /** The stack of values, the result last, and the variables; or stopped with a fault. */
  datatype Effect = Leaves(stack: seq<U64>, vars: Vars) | Stops(vars: Vars)

  function OfOutcome(o: Outcome, l: seq<U64>): (r: Effect)
    ensures r.Leaves? ==> |r.stack| == |l| + 1
  {
    match o
    case Done(v, vars) => Leaves(l + [v], vars)
    case DivByZero(vars) => Stops(vars)
  }

  /** An operation on the two values on top. */
  function Operated(op: BinOp, signed: bool, st: seq<U64>, vars: Vars): (r: Effect)
    requires |st| >= 2
    ensures r.Leaves? ==> |r.stack| == |st| - 1
  {
    var n := |st| - 2;
    OfOutcome(Combine(op, signed, st[n], st[n + 1], vars), st[..n])
  }

  /** A comparison of the two values on top.  If the second one's register had been spilled
      and the comparison holds, the spilled value is lost, and the second value in its place. */
  function Compared(cmp: CmpOp, signed: bool, st: seq<U64>): (r: seq<U64>)
    requires |st| >= 2
    ensures |r| == |st| - 1
  {
    var n := |st| - 2;
    var below, b := st[..n], st[n + 1];
    if !Holds(cmp, signed, st[n], b) then below + [0]
    else if n + 1 >= NREGS then below[n + 1 - NREGS := b] + [1]
    else below + [1]
  }

  /** The end of the left arm of ?: puts the spilled value over the result. */
  function Reloaded(st: seq<U64>): (r: seq<U64>)
    requires |st| >= 1
    ensures |r| == |st|
  {
    var n := |st| - 1;
    if n >= NREGS then st[..n] + [st[n - NREGS]] else st
  }

  /** The right arm of ?: begins with the condition's zero in place of the spilled value. */
  function Cleared(l: seq<U64>): (r: seq<U64>)
    ensures |r| == |l|
  {
    if |l| >= NREGS then l[|l| - NREGS := 0] else l
  }

  function WithTop(st: seq<U64>, v: U64): (r: seq<U64>)
    requires |st| >= 1
    ensures |r| == |st|
  {
    st[..|st| - 1] + [v]
  }

  /** The two values on top of the stack combined by an exclusive or. */
  function Xored(st: seq<U64>): (r: seq<U64>)
    requires |st| >= 2
    ensures |r| == |st| - 1
  {
    var n := |st| - 2;
    st[..n] + [Alu(Xor, st[n], Truth(st[n + 1] != 0))]
  }

  function Unary(e: Expr, o: Effect): (r: Effect)
    requires IsUnary(e) && (o.Leaves? ==> |o.stack| >= 1)
    ensures r.Leaves? <==> o.Leaves?
    ensures r.Leaves? ==> |r.stack| == |o.stack|
  {
    match o
    case Stops(t) => Stops(t)
    case Leaves(st, t) => Leaves(WithTop(st, UnaryValue(e, TopOf(st))), t)
  }

  /** The value on top stays there and goes to the variable. */
  function Stored(v: Var, o: Effect): (r: Effect)
    requires o.Leaves? ==> |o.stack| >= 1
    ensures r.Leaves? <==> o.Leaves?
    ensures r.Leaves? ==> |r.stack| == |o.stack|
  {
    match o
    case Stops(t) => Stops(t)
    case Leaves(st, t) => Leaves(st, Put(t, v, TopOf(st)))
  }

  /** The value on top as a truth value. */
  function Truthful(o: Effect): (r: Effect)
    requires o.Leaves? ==> |o.stack| >= 1
    ensures r.Leaves? ==> o.Leaves? && |r.stack| == |o.stack|
  {
    match o
    case Stops(t) => Stops(t)
    case Leaves(st, t) => Leaves(WithTop(st, Truth(TopOf(st) != 0)), t)
  }

  /** The value on top is given up. */
  function Popped(st: seq<U64>): (r: seq<U64>)
    requires |st| >= 1
    ensures |r| == |st| - 1
  {
    st[..|st| - 1]
  }

  function TopOf(st: seq<U64>): U64
    requires |st| >= 1
  {
    st[|st| - 1]
  }

  /** What is left behind, from the values `l` on the stack on. */
  function Exec(e: Expr, vars: Vars, l: seq<U64>): (r: Effect)
    ensures r.Leaves? ==> |r.stack| == |l| + 1
    decreases e, 1
  {
    match e
    case Int(v, _) => Leaves(l + [v], vars)
    case Get(v) => Leaves(l + [Fetch(vars, v)], vars)
    case Binary(_, _, _, _) => ExecBinary(e, vars, l)
    case Compare(_, _, _) => ExecCompare(e, vars, l)
    case Cond(_, _, _, _) => ExecCond(e, vars, l)
    case LogAnd(_, _) => ExecLogic(e, vars, l)
    case LogOr(_, _) => ExecLogic(e, vars, l)
    case LogXor(_, _) => ExecXor(e, vars, l)
    case LogNot(x) => Inverted(Exec(x, vars, l))
    case Comma(_, _) => ExecComma(e, vars, l)
    case Assign(v, x) => Stored(v, Exec(x, vars, l))
    case AssignOp(_, _, _, _) => ExecAssignOp(e, vars, l)
    case _ => Unary(e, Exec(e.e, vars, l))
  }

  function ExecBinary(e: Expr, vars: Vars, l: seq<U64>): (r: Effect)
    requires e.Binary?
    ensures r.Leaves? ==> |r.stack| == |l| + 1
    decreases e, 0
  {
    match Exec(e.l, vars, l)
    case Stops(t) => Stops(t)
    case Leaves(st, t) =>
      match Exec(e.r, t, st)
      case Stops(u) => Stops(u)
      case Leaves(st', u) => Operated(e.op, e.ty.signed, st', u)
  }

  function ExecCompare(e: Expr, vars: Vars, l: seq<U64>): (r: Effect)
    requires e.Compare?
    ensures r.Leaves? ==> |r.stack| == |l| + 1
    decreases e, 0
  {
    match Exec(e.l, vars, l)
    case Stops(t) => Stops(t)
    case Leaves(st, t) =>
      match Exec(e.r, t, st)
      case Stops(u) => Stops(u)
      case Leaves(st', u) => Leaves(Compared(e.cmp, ComparesSigned(e.l, e.r), st'), u)
  }

  function ExecCond(e: Expr, vars: Vars, l: seq<U64>): (r: Effect)
    requires e.Cond?
    ensures r.Leaves? ==> |r.stack| == |l| + 1
    decreases e, 0
  {
    match Exec(e.c, vars, l)
    case Stops(t) => Stops(t)
    case Leaves(st, t) =>
      if TopOf(st) == 0 then Exec(e.r, t, Cleared(Popped(st))) else
      match Exec(e.l, t, Popped(st))
      case Stops(u) => Stops(u)
      case Leaves(st', u) => Leaves(Reloaded(st'), u)
  }

  /** && and the logical or, which go on to the right operand if the left one is non-zero, or
      if it is zero. */
  function ExecLogic(e: Expr, vars: Vars, l: seq<U64>): (r: Effect)
    requires e.LogAnd? || e.LogOr?
    ensures r.Leaves? ==> |r.stack| == |l| + 1
    decreases e, 0
  {
    match Exec(e.l, vars, l)
    case Stops(t) => Stops(t)
    case Leaves(st, t) =>
      if (TopOf(st) != 0) == e.LogAnd? then Truthful(Exec(e.r, t, Popped(st)))
      else Leaves(WithTop(st, Truth(e.LogOr?)), t)
  }

  function ExecXor(e: Expr, vars: Vars, l: seq<U64>): (r: Effect)
    requires e.LogXor?
    ensures r.Leaves? ==> |r.stack| == |l| + 1
    decreases e, 0
  {
    match Truthful(Exec(e.l, vars, l))
    case Stops(t) => Stops(t)
    case Leaves(st, t) =>
      match Exec(e.r, t, st)
      case Stops(u) => Stops(u)
      case Leaves(st', u) => Leaves(Xored(st'), u)
  }

  function ExecComma(e: Expr, vars: Vars, l: seq<U64>): (r: Effect)
    requires e.Comma?
    ensures r.Leaves? ==> |r.stack| == |l| + 1
    decreases e, 0
  {
    match Exec(e.l, vars, l)
    case Stops(t) => Stops(t)
    case Leaves(st, t) => Exec(e.r, t, Popped(st))
  }

  function ExecAssignOp(e: Expr, vars: Vars, l: seq<U64>): (r: Effect)
    requires e.AssignOp?
    ensures r.Leaves? ==> |r.stack| == |l| + 1
    decreases e, 0
  {
    match Exec(e.e, vars, l + [Fetch(vars, e.v)])
    case Stops(t) => Stops(t)
    case Leaves(st, t) => Stored(e.v, Operated(e.op, e.ty.signed, st, t))
  }

  function Inverted(o: Effect): (r: Effect)
    requires o.Leaves? ==> |o.stack| >= 1
    ensures r.Leaves? ==> o.Leaves? && |r.stack| == |o.stack|
  {
    match o
    case Stops(t) => Stops(t)
    case Leaves(st, t) => Leaves(WithTop(st, Truth(TopOf(st) == 0)), t)
  }

  /** Variables are neither added nor lost. */
  lemma {:induction false} ExecKeys(e: Expr, vars: Vars, l: seq<U64>)
    requires VarsOf(e) <= vars.Keys
    ensures Exec(e, vars, l).vars.Keys == vars.Keys
    decreases e, 1
  {
    hide ExecBinary, ExecCompare, ExecCond, ExecLogic, ExecXor, ExecComma, ExecAssignOp, UnaryValue, Fetch, Truth;
    match e
    case Int(_, _) =>
    case Get(_) =>
    case Binary(_, _, _, _) => BinaryKeys(e, vars, l);
    case Compare(_, _, _) => CompareKeys(e, vars, l);
    case Cond(_, _, _, _) => CondKeys(e, vars, l);
    case LogAnd(_, _) => LogicKeys(e, vars, l);
    case LogOr(_, _) => LogicKeys(e, vars, l);
    case LogXor(_, _) => XorKeys(e, vars, l);
    case Comma(_, _) => CommaKeys(e, vars, l);
    case AssignOp(_, _, _, _) => AssignOpKeys(e, vars, l);
    case LogNot(x) => ExecKeys(x, vars, l);
    case Assign(_, x) => ExecKeys(x, vars, l);
    case BitNot(_, x) => ExecKeys(x, vars, l);
    case Negate(_, x) => ExecKeys(x, vars, l);
    case UnaryPlus(_, x) => ExecKeys(x, vars, l);
    case Cast(_, x) => ExecKeys(x, vars, l);
  }

  lemma {:induction false} OperatedKeys(op: BinOp, signed: bool, st: seq<U64>, vars: Vars)
    requires |st| >= 2
    ensures Operated(op, signed, st, vars).vars == vars
  {
    hide BinaryValue;
  }

  lemma {:induction false} BinaryKeys(e: Expr, vars: Vars, l: seq<U64>)
    requires e.Binary? && VarsOf(e) <= vars.Keys
    ensures ExecBinary(e, vars, l).vars.Keys == vars.Keys
    decreases e, 0
  {
    hide Exec, Operated;
    ExecKeys(e.l, vars, l);
    var o := Exec(e.l, vars, l);
    if o.Leaves? {
      ExecKeys(e.r, o.vars, o.stack);
      var q := Exec(e.r, o.vars, o.stack);
      if q.Leaves? { OperatedKeys(e.op, e.ty.signed, q.stack, q.vars); }
    }
  }

  lemma {:induction false} CompareKeys(e: Expr, vars: Vars, l: seq<U64>)
    requires e.Compare? && VarsOf(e) <= vars.Keys
    ensures ExecCompare(e, vars, l).vars.Keys == vars.Keys
    decreases e, 0
  {
    hide Exec, Compared;
    ExecKeys(e.l, vars, l);
    var o := Exec(e.l, vars, l);
    if o.Leaves? { ExecKeys(e.r, o.vars, o.stack); }
  }

  lemma {:induction false} CondKeys(e: Expr, vars: Vars, l: seq<U64>)
    requires e.Cond? && VarsOf(e) <= vars.Keys
    ensures ExecCond(e, vars, l).vars.Keys == vars.Keys
    decreases e, 0
  {
    hide Exec, Cleared, Popped, Reloaded;
    ExecKeys(e.c, vars, l);
    var o := Exec(e.c, vars, l);
    if o.Leaves? {
      ExecKeys(e.l, o.vars, Popped(o.stack));
      ExecKeys(e.r, o.vars, Cleared(Popped(o.stack)));
    }
  }

  lemma {:induction false} LogicKeys(e: Expr, vars: Vars, l: seq<U64>)
    requires (e.LogAnd? || e.LogOr?) && VarsOf(e) <= vars.Keys
    ensures ExecLogic(e, vars, l).vars.Keys == vars.Keys
    decreases e, 0
  {
    hide Exec, Popped, WithTop;
    ExecKeys(e.l, vars, l);
    var o := Exec(e.l, vars, l);
    if o.Leaves? { ExecKeys(e.r, o.vars, Popped(o.stack)); }
  }

  lemma {:induction false} XorKeys(e: Expr, vars: Vars, l: seq<U64>)
    requires e.LogXor? && VarsOf(e) <= vars.Keys
    ensures ExecXor(e, vars, l).vars.Keys == vars.Keys
    decreases e, 0
  {
    hide Exec, WithTop, Xored;
    ExecKeys(e.l, vars, l);
    var o := Truthful(Exec(e.l, vars, l));
    if o.Leaves? { ExecKeys(e.r, o.vars, o.stack); }
  }

  lemma {:induction false} CommaKeys(e: Expr, vars: Vars, l: seq<U64>)
    requires e.Comma? && VarsOf(e) <= vars.Keys
    ensures ExecComma(e, vars, l).vars.Keys == vars.Keys
    decreases e, 0
  {
    hide Exec, Popped;
    ExecKeys(e.l, vars, l);
    var o := Exec(e.l, vars, l);
    if o.Leaves? { ExecKeys(e.r, o.vars, Popped(o.stack)); }
  }

  lemma {:induction false} AssignOpKeys(e: Expr, vars: Vars, l: seq<U64>)
    requires e.AssignOp? && VarsOf(e) <= vars.Keys
    ensures ExecAssignOp(e, vars, l).vars.Keys == vars.Keys
    decreases e, 0
  {
    hide Exec, Operated, Fetch;
    var st := l + [Fetch(vars, e.v)];
    ExecKeys(e.e, vars, st);
    var o := Exec(e.e, vars, st);
    if o.Leaves? { OperatedKeys(e.op, e.ty.signed, o.stack, o.vars); }
  }

  // ----- the theorem -----

  /** State `t` is what is left behind, at node `pc`. */
  ghost predicate Ran(m: Layout, t: State, o: Effect, pc: int) {
    match o
    case Leaves(st, vars) => t.pc == pc && Inv(m, t, vars, st, |st|)
    case Stops(vars) => t.status == Exited && t.fault == DIVZERO && Contents(m, t.mem, vars)
  }

  lemma {:induction false} RanAfter(m: Layout, t: State, o: Outcome, l: seq<U64>, pc: int)
    ensures Ran(m, t, OfOutcome(o, l), pc) == After(m, t, o, l, pc)
  {
    hide Inv, Contents;
  }

  /** An expression about to be run. */
  ghost predicate Ready(e: Expr, n: nat, g: Option<Code>, p: seq<Node>, k: nat, m: Layout, s: State, vars: Vars,
                        l: seq<U64>) {
    && n >= 1 && g == Gen(e, n, |l|) && g.Some? && Before(p, k, g.value.nodes, m, s, vars, l)
    && VarsOf(e) <= vars.Keys
  }

  /** For every integer expression that compiles, in every program, at every depth and with
      whatever values on the stack: running its code leaves behind what Exec says. */
  lemma {:induction false} GenLeaves(e: Expr, n: nat, g: Option<Code>, p: seq<Node>, k: nat, m: Layout, s: State,
                                     vars: Vars, l: seq<U64>)
    returns (t: State)
    requires Ready(e, n, g, p, k, m, s, vars, l)
    ensures Reaches(p, s, t) && Ran(m, t, Exec(e, vars, l), k + |g.value.nodes|)
    decreases e, 1
  {
    hide Ready, Ran, Reaches, Exec, Gen;
    match e
    case Int(_, _) => t := LeafCase(e, n, g, p, k, m, s, vars, l);
    case Get(_) => t := LeafCase(e, n, g, p, k, m, s, vars, l);
    case Binary(_, _, _, _) => t := BinaryCase(e, n, g, p, k, m, s, vars, l);
    case Compare(_, _, _) => t := CompareCase(e, n, g, p, k, m, s, vars, l);
    case Cond(_, _, _, _) => t := CondCase(e, n, g, p, k, m, s, vars, l);
    case LogAnd(_, _) => t := AndCase(e, n, g, p, k, m, s, vars, l);
    case LogOr(_, _) => t := OrCase(e, n, g, p, k, m, s, vars, l);
    case LogXor(_, _) => t := XorCase(e, n, g, p, k, m, s, vars, l);
    case LogNot(_) => t := OneCase(e, n, g, p, k, m, s, vars, l);
    case Comma(_, _) => t := CommaCase(e, n, g, p, k, m, s, vars, l);
    case Assign(_, _) => t := OneCase(e, n, g, p, k, m, s, vars, l);
    case AssignOp(_, _, _, _) => t := AssignOpCase(e, n, g, p, k, m, s, vars, l);
    case _ => t := OneCase(e, n, g, p, k, m, s, vars, l);
  }

  lemma {:induction false} LeafCase(e: Expr, n: nat, g: Option<Code>, p: seq<Node>, k: nat, m: Layout, s: State,
                                    vars: Vars, l: seq<U64>)
    returns (t: State)
    requires (e.Int? || e.Get?) && Ready(e, n, g, p, k, m, s, vars, l)
    ensures Reaches(p, s, t) && Ran(m, t, Exec(e, vars, l), k + |g.value.nodes|)
  {
    hide UniqueLabels, Inv, Reaches, CodeAt;
    match e
    case Int(_, _) => t := IntCase(e, n, p, k, m, s, vars, l);
    case Get(v) => t := RunGet(p, k, m, s, vars, l, v);
  }

  lemma {:induction false} TopTwo(st: seq<U64>)
    requires |st| >= 2
    ensures var n := |st| - 2; st == st[..n] + [st[n]] + [st[n + 1]] && st[..n + 1] == st[..n] + [st[n]]
  {
  }

  lemma {:induction false} TopOne(st: seq<U64>)
    requires |st| >= 1
    ensures st == st[..|st| - 1] + [st[|st| - 1]]
  {
  }

  // ----- steps on the values on top -----

  lemma {:induction false} PopLast(p: seq<Node>, k: nat, m: Layout, s: State, vars: Vars, st: seq<U64>)
    returns (t: State)
    requires 1 <= |st| <= 2 * NREGS && Inv(m, s, vars, st, |st|) && s.pc == k && CodeAt(p, k, FreeCode(|st| - 1))
    ensures Reaches(p, s, t) && t.pc == k + |FreeCode(|st| - 1)| && Inv(m, t, vars, Popped(st), |st| - 1)
  {
    hide Inv, CodeAt, Reaches, FreeCode;
    TopOne(st);
    t := RunPop(p, k, m, s, vars, Popped(st), TopOf(st));
  }

  lemma {:induction false} TestLast(p: seq<Node>, m: Layout, s: State, vars: Vars, st: seq<U64>, zero: bool, q: nat)
    returns (t: State)
    requires 1 <= |st| <= 2 * NREGS && UniqueLabels(p) && Inv(m, s, vars, st, |st|) && 0 <= s.pc < |p| && q < |p|
    requires p[s.pc].insn.JmpImm?
    requires p[s.pc].insn == JmpImm(if zero then Jeq else Jne, RegAt(|st| - 1), 0, p[s.pc].insn.off)
    requires p[q].lbl != NO_LABEL && p[q].lbl == p[s.pc].insn.off
    ensures Reaches(p, s, t) && Inv(m, t, vars, st, |st|)
    ensures t.pc == if (TopOf(st) == 0) == zero then q else s.pc + 1
  {
    hide Inv, UniqueLabels, Reaches;
    TopOne(st);
    t := StepTest(p, m, s, vars, Popped(st), TopOf(st), zero, q);
  }

  lemma {:induction false} OperateLast(p: seq<Node>, k: nat, m: Layout, s: State, vars: Vars, st: seq<U64>, op: BinOp,
                                       signed: bool, n: nat)
    returns (t: State)
    requires 2 <= |st| <= 2 * NREGS && UniqueLabels(p) && n >= 1 && s.pc == k && Inv(m, s, vars, st, |st|)
    requires CodeAt(p, k, OpCode(op, signed, RegAt(|st| - 2), RegAt(|st| - 1), n) + FreeCode(|st| - 1))
    ensures Reaches(p, s, t)
    ensures Ran(m, t, Operated(op, signed, st, vars),
                k + |OpCode(op, signed, RegAt(|st| - 2), RegAt(|st| - 1), n)| + |FreeCode(|st| - 1)|)
  {
    hide Inv, UniqueLabels, Reaches, OpCode, FreeCode, CodeAt, Combine, Contents, RegAt;
    TopTwo(st);
    var d := |st| - 2;
    t := BinaryTail(p, k, m, s, vars, st[..d], op, signed, st[d], st[d + 1], n);
    RanAfter(m, t, Combine(op, signed, st[d], st[d + 1], vars), st[..d],
        k + |OpCode(op, signed, RegAt(d), RegAt(d + 1), n)| + |FreeCode(d + 1)|);
  }

  lemma {:induction false} XorLast(p: seq<Node>, k: nat, m: Layout, s: State, vars: Vars, st: seq<U64>, n: nat)
    returns (t: State)
    requires 2 <= |st| <= 2 * NREGS && UniqueLabels(p) && n >= 1 && s.pc == k && Inv(m, s, vars, st, |st|)
    requires var d := |st| - 2;
      CodeAt(p, k, TruthCode(RegAt(d + 1), n, AluReg(Xor, RegAt(d), RegAt(d + 1))) + FreeCode(d + 1))
    ensures Reaches(p, s, t) && t.pc == k + 4 + |FreeCode(|st| - 1)| && Inv(m, t, vars, Xored(st), |st| - 1)
  {
    hide Inv, UniqueLabels, Reaches, TruthCode, FreeCode, CodeAt, Alu, RegAt;
    TopTwo(st);
    var d := |st| - 2;
    t := XorEnd(p, k, m, s, vars, st[..d], st[d], st[d + 1], n);
  }

  lemma {:induction false} TruthLast(p: seq<Node>, k: nat, m: Layout, s: State, vars: Vars, st: seq<U64>, n: nat)
    returns (t: State)
    requires 1 <= |st| <= 2 * NREGS && UniqueLabels(p) && n >= 1 && s.pc == k && Inv(m, s, vars, st, |st|)
    requires CodeAt(p, k, TruthCode(RegAt(|st| - 1), n, NOP))
    ensures Reaches(p, s, t) && t.pc == k + 4 && Inv(m, t, vars, WithTop(st, Truth(TopOf(st) != 0)), |st|)
  {
    hide Inv, UniqueLabels, Reaches, TruthCode, CodeAt, RegAt;
    TopOne(st);
    var u := RunTruth(p, k, m, s, vars, Popped(st), TopOf(st), n, NOP);
    t := StepNopInv(p, m, u, vars, WithTop(st, Truth(TopOf(st) != 0)), |st|);
    ReachTrans(p, s, u, t);
  }

  lemma {:induction false} NotLast(p: seq<Node>, k: nat, m: Layout, s: State, vars: Vars, st: seq<U64>, n: nat)
    returns (t: State)
    requires 1 <= |st| <= 2 * NREGS && UniqueLabels(p) && n >= 1 && s.pc == k && Inv(m, s, vars, st, |st|)
    requires CodeAt(p, k, NotTail(RegAt(|st| - 1), n))
    ensures Reaches(p, s, t) && t.pc == k + 5 && Inv(m, t, vars, WithTop(st, Truth(TopOf(st) == 0)), |st|)
  {
    hide Inv, UniqueLabels, Reaches, NotTail, CodeAt, RegAt;
    TopOne(st);
    t := NotEnd(p, k, m, s, vars, Popped(st), TopOf(st), n);
  }

  lemma {:induction false} UnaryLast(e: Expr, p: seq<Node>, k: nat, m: Layout, s: State, vars: Vars, st: seq<U64>)
    returns (t: State)
    requires IsUnary(e) && 1 <= |st| <= 2 * NREGS && s.pc == k && Inv(m, s, vars, st, |st|)
    requires CodeAt(p, k, UnaryCode(e, RegAt(|st| - 1)))
    ensures Reaches(p, s, t) && t.pc == k + |UnaryCode(e, RegAt(|st| - 1))|
    ensures Inv(m, t, vars, WithTop(st, UnaryValue(e, TopOf(st))), |st|)
  {
    hide Inv, Reaches, UnaryCode, CodeAt, RegAt, UnaryValue;
    TopOne(st);
    t := UnaryEnd(e, p, k, m, s, vars, Popped(st), TopOf(st));
  }

  lemma {:induction false} StoreLast(p: seq<Node>, k: nat, m: Layout, s: State, vars: Vars, st: seq<U64>, v: Var)
    returns (t: State)
    requires 1 <= |st| < 2 * NREGS && v in vars && s.pc == k && Inv(m, s, vars, st, |st|)
    requires CodeAt(p, k, StoreNodes([], v, |st| - 1))
    ensures Reaches(p, s, t) && t.pc == k + |StoreNodes([], v, |st| - 1)|
    ensures Inv(m, t, Put(vars, v, TopOf(st)), st, |st|)
  {
    hide Inv, Reaches, StoreNodes, CodeAt, Put;
    TopOne(st);
    t := StoreEnd(p, k, m, s, vars, Popped(st), v, TopOf(st));
  }

  /** The right operand and the operation, with the left operand on top of the stack. */
  lemma {:induction false} RightOperand(r: Expr, n: nat, p: seq<Node>, k: nat, m: Layout, s: State, vars: Vars,
                                        l: seq<U64>, op: BinOp, signed: bool) returns (t: State)
    requires |l| >= 1 && n >= 1 && Gen(r, n, |l|).Some? && VarsOf(r) <= vars.Keys && |l| + 1 <= 2 * NREGS
    requires Inv(m, s, vars, l, |l|) && UniqueLabels(p) && s.pc == k
    requires CodeAt(p, k, Gen(r, n, |l|).value.nodes)
    requires CodeAt(p, k + |Gen(r, n, |l|).value.nodes|,
                    OpCode(op, signed, RegAt(|l| - 1), RegAt(|l|), Gen(r, n, |l|).value.next) + FreeCode(|l|))
    ensures Reaches(p, s, t)
    ensures Ran(m, t, match Exec(r, vars, l)
                      case Stops(u) => Stops(u)
                      case Leaves(st, u) => Operated(op, signed, st, u),
                k + |Gen(r, n, |l|).value.nodes| +
                |OpCode(op, signed, RegAt(|l| - 1), RegAt(|l|), Gen(r, n, |l|).value.next)| + |FreeCode(|l|)|)
    decreases r, 2
  {
    hide UniqueLabels, Inv, Gen, Exec, OpCode, Operated, CodeAt, FreeCode, RegAt, Reaches, VarsOf, Contents;
    var g := Gen(r, n, |l|);
    t := GenLeaves(r, n, g, p, k, m, s, vars, l);
    var o := Exec(r, vars, l);
    if o.Leaves? {
      var u := OperateLast(p, k + |g.value.nodes|, m, t, o.vars, o.stack, op, signed, g.value.next);
      ReachTrans(p, s, t, u);
      t := u;
    }
  }

  lemma {:induction false} BinaryFacts(e: Expr, n: nat, g: Option<Code>, p: seq<Node>, k: nat, m: Layout, s: State,
                                       vars: Vars, l: seq<U64>)
    requires e.Binary? && Ready(e, n, g, p, k, m, s, vars, l)
    ensures var gl := Gen(e.l, n, |l|);
      && Ready(e.l, n, gl, p, k, m, s, vars, l)
      && var gr := Gen(e.r, gl.value.next, |l| + 1);
      && gl.value.next >= 1 && gr.Some? && |l| + 2 <= 2 * NREGS
      && var a, b := gl.value.nodes, gr.value.nodes;
      && var tail := OpCode(e.op, e.ty.signed, RegAt(|l|), RegAt(|l| + 1), gr.value.next) + FreeCode(|l| + 1);
      && |g.value.nodes| == |a| + |b| + |tail| && CodeAt(p, k + |a|, b) && CodeAt(p, k + |a| + |b|, tail)
    ensures VarsOf(e.r) <= Exec(e.l, vars, l).vars.Keys
  {
    hide CodeAt, UniqueLabels, OpCode, Inv, Exec;
    assert g == GenBinary(e.op, e.ty.signed, Gen(e.l, n, |l|), e.r, |l|);
    var gl := Gen(e.l, n, |l|);
    var gr := Gen(e.r, gl.value.next, |l| + 1);
    var a, b := gl.value.nodes, gr.value.nodes;
    var tail := OpCode(e.op, e.ty.signed, RegAt(|l|), RegAt(|l| + 1), gr.value.next) + FreeCode(|l| + 1);
    BinarySplit(a, b, e.op, e.ty.signed, gr.value.next, |l|);
    CodeSplit(p, k, a + b, tail);
    CodeSplit(p, k, a, b);
    ExecKeys(e.l, vars, l);
  }

  lemma {:induction false} BinaryCase(e: Expr, n: nat, g: Option<Code>, p: seq<Node>, k: nat, m: Layout, s: State,
                                      vars: Vars, l: seq<U64>)
    returns (t: State)
    requires e.Binary? && Ready(e, n, g, p, k, m, s, vars, l)
    ensures Reaches(p, s, t) && Ran(m, t, Exec(e, vars, l), k + |g.value.nodes|)
    decreases e, 0
  {
    hide UniqueLabels, Inv, OpCode, Operated, Gen, VarsOf, CodeAt, FreeCode, RegAt;
    BinaryFacts(e, n, g, p, k, m, s, vars, l);
    var gl := Gen(e.l, n, |l|);
    var u := GenLeaves(e.l, n, gl, p, k, m, s, vars, l);
    var o := Exec(e.l, vars, l);
    if o.Stops? {
      t := u;
    } else {
      t := RightOperand(e.r, gl.value.next, p, k + |gl.value.nodes|, m, u, o.vars, o.stack, e.op, e.ty.signed);
      ReachTrans(p, s, u, t);
    }
  }

  // ----- comparisons -----

  lemma {:induction false} CompareFacts(e: Expr, n: nat, g: Option<Code>, p: seq<Node>, k: nat, m: Layout, s: State,
                                        vars: Vars, l: seq<U64>)
    requires e.Compare? && Ready(e, n, g, p, k, m, s, vars, l)
    ensures var gl := Gen(e.l, n + 2, |l|);
      && Ready(e.l, n + 2, gl, p, k, m, s, vars, l)
      && var gr := Gen(e.r, gl.value.next, |l| + 1);
      && gl.value.next >= 1 && gr.Some? && |l| + 2 <= 2 * NREGS
      && var a, b := gl.value.nodes, gr.value.nodes;
      && var j := JumpFor(e.cmp, ComparesSigned(e.l, e.r));
      && CodeAt(p, k + |a|, b)
      && (if |l| + 1 < NREGS
          then |g.value.nodes| == |a| + |b| + 5 && CodeAt(p, k + |a| + |b|, CompareTail(j, n, |l|))
          else |g.value.nodes| == |a| + |b| + 6 && CodeAt(p, k + |a| + |b|, SpilledTail(j, n, |l|)))
    ensures VarsOf(e.r) <= Exec(e.l, vars, l).vars.Keys
  {
    hide CodeAt, UniqueLabels, Inv, Exec, RegAt, JumpFor, ComparesSigned;
    CompareNodes(e, n, |l|);
    hide Gen, CompareTail, SpilledTail;
    var gl := Gen(e.l, n + 2, |l|);
    var gr := Gen(e.r, gl.value.next, |l| + 1);
    var a, b := gl.value.nodes, gr.value.nodes;
    var j := JumpFor(e.cmp, ComparesSigned(e.l, e.r));
    var tail := if |l| + 1 < NREGS then CompareTail(j, n, |l|) else SpilledTail(j, n, |l|);
    CodeSplit(p, k, a + b, tail);
    CodeSplit(p, k, a, b);
    ExecKeys(e.l, vars, l);
  }

  lemma {:induction false} CompareNodes(e: Expr, n: nat, d: nat)
    requires e.Compare? && n >= 1 && Gen(e, n, d).Some?
    ensures d + 2 <= 2 * NREGS
    ensures var gl := Gen(e.l, n + 2, d);
      && gl.Some? && gl.value.next >= 1
      && var gr := Gen(e.r, gl.value.next, d + 1);
      && var j := JumpFor(e.cmp, ComparesSigned(e.l, e.r));
      && gr.Some?
      && Gen(e, n, d).value.nodes ==
         gl.value.nodes + gr.value.nodes + if d + 1 < NREGS then CompareTail(j, n, d) else SpilledTail(j, n, d)
  {
    hide RegAt, JumpFor, ComparesSigned;
    if d + 1 >= NREGS {
      CompareSpilledNodes(e, n, d);
    } else {
      assert Gen(e, n, d) == GenCompare(e, n, d);
    }
  }

  /** Both operands have been evaluated. */
  lemma {:induction false} CompareLast(p: seq<Node>, k: nat, m: Layout, s: State, vars: Vars, st: seq<U64>, cmp: CmpOp,
                                       signed: bool, n: nat)
    returns (t: State)
    requires 2 <= |st| <= 2 * NREGS && UniqueLabels(p) && n >= 1 && s.pc == k && Inv(m, s, vars, st, |st|)
    requires var d, j := |st| - 2, JumpFor(cmp, signed);
      if d + 1 < NREGS then CodeAt(p, k, CompareTail(j, n, d)) else CodeAt(p, k, SpilledTail(j, n, d))
    ensures Reaches(p, s, t) && t.pc == k + (if |st| - 1 < NREGS then 5 else 6)
    ensures Inv(m, t, vars, Compared(cmp, signed, st), |st| - 1)
  {
    hide UniqueLabels, Inv, CodeAt, CompareTail, SpilledTail, Test, Holds, JumpFor, Reaches;
    var d, j := |st| - 2, JumpFor(cmp, signed);
    var below, a, b := st[..d], st[d], st[d + 1];
    TopTwo(st);
    JumpHolds(cmp, signed, a, b);
    if d + 1 < NREGS {
      t := CompareEnd(p, k, m, s, vars, below, j, a, b, n);
    } else {
      t := CompareSpilledEnd(p, k, m, s, vars, below, j, a, b, n);
    }
  }

  lemma {:induction false} CompareCase(e: Expr, n: nat, g: Option<Code>, p: seq<Node>, k: nat, m: Layout, s: State,
                                       vars: Vars, l: seq<U64>)
    returns (t: State)
    requires e.Compare? && Ready(e, n, g, p, k, m, s, vars, l)
    ensures Reaches(p, s, t) && Ran(m, t, Exec(e, vars, l), k + |g.value.nodes|)
    decreases e, 0
  {
    hide CodeAt, Reaches, UniqueLabels, Inv, Gen, VarsOf, CompareTail, SpilledTail, Compared, ComparesSigned, JumpFor;
    CompareFacts(e, n, g, p, k, m, s, vars, l);
    var gl := Gen(e.l, n + 2, |l|);
    var gr := Gen(e.r, gl.value.next, |l| + 1);
    var a, b := gl.value.nodes, gr.value.nodes;
    t := GenLeaves(e.l, n + 2, gl, p, k, m, s, vars, l);
    var o := Exec(e.l, vars, l);
    if o.Leaves? {
      var u := GenLeaves(e.r, gl.value.next, gr, p, k + |a|, m, t, o.vars, o.stack);
      ReachTrans(p, s, t, u);
      t := u;
      var o2 := Exec(e.r, o.vars, o.stack);
      if o2.Leaves? {
        var w := CompareLast(p, k + |a| + |b|, m, t, o2.vars, o2.stack, e.cmp, ComparesSigned(e.l, e.r), n);
        ReachTrans(p, s, t, w);
        t := w;
      }
    }
  }

  // ----- ?: -----

  lemma {:induction false} CondFacts(e: Expr, n: nat, g: Option<Code>, p: seq<Node>, k: nat, m: Layout, s: State,
                                     vars: Vars, l: seq<U64>)
    requires e.Cond? && Ready(e, n, g, p, k, m, s, vars, l)
    ensures var gc := Gen(e.c, n + 2, |l|);
      && Ready(e.c, n + 2, gc, p, k, m, s, vars, l)
      && var gl := Gen(e.l, gc.value.next, |l|);
      && gc.value.next >= 1 && gl.Some? && gl.value.next >= 1
      && var gr := Gen(e.r, gl.value.next, |l|);
      && gr.Some? && g.value.nodes == CondNodes(gc.value.nodes, gl.value.nodes, gr.value.nodes, n, |l|)
    ensures |l| < 2 * NREGS
    ensures var o := Exec(e.c, vars, l); VarsOf(e.l) <= o.vars.Keys && VarsOf(e.r) <= o.vars.Keys
  {
    hide CodeAt, UniqueLabels, Inv, CondNodes, Exec;
    assert g == GenCond(e, n, |l|);
    var gc := Gen(e.c, n + 2, |l|);
    var gl := Gen(e.l, gc.value.next, |l|);
    var gr := Gen(e.r, gl.value.next, |l|);
    if |l| < NREGS {
      CondSplit(p, k, gc.value.nodes, gl.value.nodes, gr.value.nodes, n, |l|);
    } else {
      CondSpilledSplit(p, k, gc.value.nodes, gl.value.nodes, gr.value.nodes, n, |l|);
    }
    ExecKeys(e.c, vars, l);
  }

  /** The arms, given where they are: `ka` and `kb`, and the label behind them at `q`. */
  ghost predicate Arms(p: seq<Node>, ka: nat, a: seq<Node>, kb: nat, b: seq<Node>, n: nat, d: nat) {
    && d < 2 * NREGS && CodeAt(p, ka, a) && CodeAt(p, kb, b) && 1 <= kb && kb + |b| < |p|
    && p[kb - 1] == Labelled(n, NOP) && p[kb + |b|] == Labelled(n + 1, NOP)
    && ka + |a| + 2 < |p| && p[ka + |a|] == Plain(MovReg(RegAt(d), RegAt(d)))
    && (if d < NREGS then p[ka + |a| + 1] == Plain(Jump(n + 1))
        else CodeAt(p, ka + |a| + 1, FreeCode(d)) && p[ka + |a| + 2] == Plain(Jump(n + 1)))
  }

  lemma {:induction false} CondPlaces(p: seq<Node>, k: nat, c: seq<Node>, a: seq<Node>, b: seq<Node>, n: nat, d: nat)
    requires d < 2 * NREGS && CodeAt(p, k, CondNodes(c, a, b, n, d))
    ensures var f := |FreeCode(d)|;
      var ka, kb := k + |c| + 1 + f, k + |c| + 1 + f + |a| + 3 + f;
      && |CondNodes(c, a, b, n, d)| == |c| + |a| + |b| + 5 + 2 * f
      && CodeAt(p, k, c) && k + |c| < |p| && p[k + |c|] == Plain(JmpImm(Jeq, RegAt(d), 0, n))
      && CodeAt(p, k + |c| + 1, FreeCode(d)) && Arms(p, ka, a, kb, b, n, d)
  {
    hide CondNodes, CodeAt, RegAt;
    if d < NREGS {
      CondSplit(p, k, c, a, b, n, d);
      CodeEmpty(p, k + |c| + 1);
    } else {
      CondSpilledSplit(p, k, c, a, b, n, d);
    }
  }

  lemma {:induction false} CodeEmpty(p: seq<Node>, k: nat)
    requires k <= |p|
    ensures CodeAt(p, k, [])
  {
  }

  lemma {:induction false} CondCase(e: Expr, n: nat, g: Option<Code>, p: seq<Node>, k: nat, m: Layout, s: State,
                                    vars: Vars, l: seq<U64>)
    returns (t: State)
    requires e.Cond? && Ready(e, n, g, p, k, m, s, vars, l)
    ensures Reaches(p, s, t) && Ran(m, t, Exec(e, vars, l), k + |g.value.nodes|)
    decreases e, 0
  {
    hide UniqueLabels, Inv, Gen, VarsOf, CondNodes, CodeAt, RegAt, FreeCode, Arms, Cleared, Reloaded, Reaches, Exec;
    hide Popped, TopOf, Contents;
    assert Exec(e, vars, l) == ExecCond(e, vars, l) by { CondIs(e, vars, l); }
    CondFacts(e, n, g, p, k, m, s, vars, l);
    var gc := Gen(e.c, n + 2, |l|);
    var gl := Gen(e.l, gc.value.next, |l|);
    var gr := Gen(e.r, gl.value.next, |l|);
    var c, a, b, f := gc.value.nodes, gl.value.nodes, gr.value.nodes, |FreeCode(|l|)|;
    CondPlaces(p, k, c, a, b, n, |l|);
    var ka, kb := k + |c| + 1 + f, k + |c| + 1 + f + |a| + 3 + f;
    t := GenLeaves(e.c, n + 2, gc, p, k, m, s, vars, l);
    var o := Exec(e.c, vars, l);
    if o.Leaves? {
      ArmsLabel(p, ka, a, kb, b, n, |l|);
      var w := TestLast(p, m, t, o.vars, o.stack, true, kb - 1);
      ReachTrans(p, s, t, w);
      t := w;
      if TopOf(o.stack) != 0 {
        w := CondLeft(e.l, gc.value.next, gl, p, ka, kb, b, m, t, o.vars, o.stack, n);
      } else {
        w := CondRight(e.r, gl.value.next, gr, p, ka, a, kb, m, t, o.vars, o.stack, n);
      }
      ReachTrans(p, s, t, w);
      t := w;
    }
  }

  lemma {:induction false} ArmsLabel(p: seq<Node>, ka: nat, a: seq<Node>, kb: nat, b: seq<Node>, n: nat, d: nat)
    requires Arms(p, ka, a, kb, b, n, d)
    ensures 1 <= kb <= |p| && p[kb - 1] == Labelled(n, NOP)
  {
    hide CodeAt;
  }

  lemma {:induction false} CondIs(e: Expr, vars: Vars, l: seq<U64>)
    requires e.Cond?
    ensures Exec(e, vars, l) == ExecCond(e, vars, l)
  {
  }

  lemma {:induction false} CondLeft(e: Expr, n': nat, g: Option<Code>, p: seq<Node>, k: nat, kb: nat, b: seq<Node>,
                                    m: Layout, s: State, vars: Vars, l: seq<U64>, n: nat) returns (t: State)
    requires 1 <= |l| <= 2 * NREGS && n >= 1 && n' >= 1 && g == Gen(e, n', |l| - 1) && g.Some?
    requires VarsOf(e) <= vars.Keys && UniqueLabels(p) && Inv(m, s, vars, l, |l|)
    requires s.pc >= 0 && k == s.pc + |FreeCode(|l| - 1)| && CodeAt(p, s.pc, FreeCode(|l| - 1))
    requires Arms(p, k, g.value.nodes, kb, b, n, |l| - 1)
    ensures Reaches(p, s, t)
    ensures Ran(m, t, match Exec(e, vars, Popped(l))
                      case Stops(u) => Stops(u)
                      case Leaves(st, u) => Leaves(Reloaded(st), u),
                kb + |b| + 1)
    decreases e, 2
  {
    hide UniqueLabels, Inv, Exec, Gen, CodeAt, FreeCode, VarsOf, Reaches, Contents, RegAt, Reloaded, Popped, Arms;
    var u := PopLast(p, s.pc, m, s, vars, l);
    assert CodeAt(p, k, g.value.nodes) by { ArmsCode(p, k, g.value.nodes, kb, b, n, |l| - 1); }
    t := GenLeaves(e, n', g, p, k, m, u, vars, Popped(l));
    ReachTrans(p, s, u, t);
    var o := Exec(e, vars, Popped(l));
    if o.Leaves? {
      var w := LeftLast(p, k, g.value.nodes, kb, b, m, t, o.vars, o.stack, n);
      ReachTrans(p, s, t, w);
      t := w;
    }
  }

  lemma {:induction false} ArmsCode(p: seq<Node>, ka: nat, a: seq<Node>, kb: nat, b: seq<Node>, n: nat, d: nat)
    requires Arms(p, ka, a, kb, b, n, d)
    ensures CodeAt(p, ka, a) && CodeAt(p, kb, b)
  {
    hide CodeAt;
  }

  /** The end of the left arm. */
  lemma {:induction false} LeftLast(p: seq<Node>, ka: nat, a: seq<Node>, kb: nat, b: seq<Node>, m: Layout, s: State,
                                    vars: Vars, st: seq<U64>, n: nat) returns (t: State)
    requires 1 <= |st| <= 2 * NREGS && n >= 1 && UniqueLabels(p) && s.pc == ka + |a| && Inv(m, s, vars, st, |st|)
    requires Arms(p, ka, a, kb, b, n, |st| - 1)
    ensures Reaches(p, s, t) && t.pc == kb + |b| + 1 && Inv(m, t, vars, Reloaded(st), |st|)
  {
    hide UniqueLabels, Inv, CodeAt, FreeCode, Reaches, RegAt;
    TopOne(st);
    var d := |st| - 1;
    if d < NREGS {
      t := CondLeftEnd(p, ka + |a|, kb + |b|, m, s, vars, st[..d], st[d], n);
    } else {
      t := CondSpilledLeft(p, ka + |a|, kb + |b|, m, s, vars, st[..d], st[d], n);
    }
  }

  lemma {:induction false} CondRight(e: Expr, n': nat, g: Option<Code>, p: seq<Node>, ka: nat, a: seq<Node>, k: nat,
                                     m: Layout, s: State, vars: Vars, l: seq<U64>, n: nat) returns (t: State)
    requires 1 <= |l| <= 2 * NREGS && n' >= 1 && g == Gen(e, n', |l| - 1) && g.Some?
    requires VarsOf(e) <= vars.Keys && UniqueLabels(p) && s.pc == k - 1 && Inv(m, s, vars, l, |l|) && TopOf(l) == 0
    requires Arms(p, ka, a, k, g.value.nodes, n, |l| - 1)
    ensures Reaches(p, s, t) && Ran(m, t, Exec(e, vars, Cleared(Popped(l))), k + |g.value.nodes| + 1)
    decreases e, 2
  {
    hide UniqueLabels, Inv, Exec, Gen, CodeAt, VarsOf, Reaches, Contents, RegAt;
    var u := StepNopInv(p, m, s, vars, l, |l|);
    var l' := Cleared(Popped(l));
    PopCleared(m, u, vars, l);
    hide Cleared, Popped, TopOf;
    t := GenLeaves(e, n', g, p, k, m, u, vars, l');
    ReachTrans(p, s, u, t);
    var o := Exec(e, vars, l');
    if o.Leaves? {
      var w := StepNopInv(p, m, t, o.vars, o.stack, |l|);
      ReachTrans(p, s, t, w);
      t := w;
    }
  }

  /** Popping a zero without bringing back what had been spilled. */
  lemma {:induction false} PopCleared(m: Layout, s: State, vars: Vars, l: seq<U64>)
    requires 1 <= |l| <= 2 * NREGS && Inv(m, s, vars, l, |l|) && TopOf(l) == 0
    ensures Inv(m, s, vars, Cleared(Popped(l)), |l| - 1)
  {
    hide Inv;
    TopOne(l);
    if |l| - 1 < NREGS {
      PopPlain(m, s, vars, Popped(l), 0);
    } else {
      Clobber(m, s, vars, Popped(l), 0);
    }
  }

  /** Popping a register that had not been spilled. */
  lemma {:induction false} PopPlain(m: Layout, s: State, vars: Vars, l: seq<U64>, x: U64)
    requires |l| < NREGS && Inv(m, s, vars, l + [x], |l| + 1)
    ensures Inv(m, s, vars, l, |l|)
  {
    forall i | 0 <= i < |l| ensures Held(m, s, i, l[i], |l|) {
      assert Held(m, s, i, (l + [x])[i], |l| + 1);
    }
  }

  // ----- logical operators -----

  lemma {:induction false} AndFacts(e: Expr, n: nat, g: Option<Code>, p: seq<Node>, k: nat, m: Layout, s: State,
                                    vars: Vars, l: seq<U64>)
    requires e.LogAnd? && Ready(e, n, g, p, k, m, s, vars, l)
    ensures var gl := Gen(e.l, n + 2, |l|);
      && Ready(e.l, n + 2, gl, p, k, m, s, vars, l)
      && var gr := Gen(e.r, gl.value.next, |l|);
      && gl.value.next >= 1 && gr.Some? && g.value.nodes == AndNodes(gl.value.nodes, gr.value.nodes, n, |l|)
    ensures VarsOf(e.r) <= Exec(e.l, vars, l).vars.Keys
  {
    hide CodeAt, UniqueLabels, AndTail, Inv, Exec;
    assert g == GenAnd(e, n, |l|);
    var gl := Gen(e.l, n + 2, |l|);
    var gr := Gen(e.r, gl.value.next, |l|);
    LogicSplit(p, k, gl.value.nodes, BranchZero(RegAt(|l|), n), FreeCode(|l|), gr.value.nodes, AndTail(RegAt(|l|), n));
    ExecKeys(e.l, vars, l);
  }

  lemma {:induction false} AndCase(e: Expr, n: nat, g: Option<Code>, p: seq<Node>, k: nat, m: Layout, s: State,
                                   vars: Vars, l: seq<U64>)
    returns (t: State)
    requires e.LogAnd? && Ready(e, n, g, p, k, m, s, vars, l)
    ensures Reaches(p, s, t) && Ran(m, t, Exec(e, vars, l), k + |g.value.nodes|)
    decreases e, 0
  {
    hide CodeAt, Reaches, UniqueLabels, Inv, AndTail, Gen, VarsOf;
    AndFacts(e, n, g, p, k, m, s, vars, l);
    var d := |l|;
    var gl := Gen(e.l, n + 2, d);
    var gr := Gen(e.r, gl.value.next, d);
    var a, b, x, f := gl.value.nodes, gr.value.nodes, BranchZero(RegAt(d), n), FreeCode(d);
    var kt := k + |a| + 1 + |f| + |b|;
    LogicSplit(p, k, a, x, f, b, AndTail(RegAt(d), n));
    AndTailLabel(RegAt(d), n);
    CodeNode(p, kt, AndTail(RegAt(d), n), 4);
    var o := Exec(e.l, vars, l);
    var u := GenLeaves(e.l, n + 2, gl, p, k, m, s, vars, l);
    if o.Stops? {
      t := u;
    } else {
      var w := TestLast(p, m, u, o.vars, o.stack, true, kt + 4);
      ReachTrans(p, s, u, w);
      if TopOf(o.stack) == 0 {
        TopOne(o.stack);
        t := AndFalse(p, kt, m, w, o.vars, Popped(o.stack), TopOf(o.stack), n);
      } else {
        t := AndRight(e.r, gl.value.next, p, k + |a| + 1, m, w, o.vars, o.stack, n);
      }
      ReachTrans(p, s, w, t);
    }
  }

  lemma {:induction false} AndLast(p: seq<Node>, k: nat, m: Layout, s: State, vars: Vars, st: seq<U64>, n: nat)
    returns (t: State)
    requires 1 <= |st| <= 2 * NREGS && UniqueLabels(p) && n >= 1 && Inv(m, s, vars, st, |st|) && s.pc == k
    requires CodeAt(p, k, AndTail(RegAt(|st| - 1), n))
    ensures Reaches(p, s, t) && t.pc == k + 6 && Inv(m, t, vars, WithTop(st, Truth(TopOf(st) != 0)), |st|)
  {
    hide UniqueLabels, Inv, CodeAt, AndTail, Reaches;
    TopOne(st);
    t := AndEnd(p, k, m, s, vars, Popped(st), TopOf(st), n);
  }

  /** The right operand of &&, once the left one is known to be non-zero. */
  lemma {:induction false} AndRight(r: Expr, n': nat, p: seq<Node>, k: nat, m: Layout, s: State, vars: Vars,
                                    l: seq<U64>, n: nat)
    returns (t: State)
    requires |l| >= 1 && n' >= 1 && n >= 1 && Gen(r, n', |l| - 1).Some? && VarsOf(r) <= vars.Keys && UniqueLabels(p)
    requires 1 <= |l| <= 2 * NREGS && Inv(m, s, vars, l, |l|) && s.pc == k && CodeAt(p, k, FreeCode(|l| - 1))
    requires CodeAt(p, k + |FreeCode(|l| - 1)|, Gen(r, n', |l| - 1).value.nodes)
    requires CodeAt(p, k + |FreeCode(|l| - 1)| + |Gen(r, n', |l| - 1).value.nodes|, AndTail(RegAt(|l| - 1), n))
    ensures Reaches(p, s, t)
    ensures Ran(m, t, Truthful(Exec(r, vars, Popped(l))),
                k + |FreeCode(|l| - 1)| + |Gen(r, n', |l| - 1).value.nodes| + 6)
    decreases r, 2
  {
    hide UniqueLabels, Inv, AndTail, Gen, Exec, FreeCode, CodeAt, Reaches, VarsOf, Contents, RegAt;
    hide WithTop, TopOf, Popped;
    var g := Gen(r, n', |l| - 1);
    var k1 := k + |FreeCode(|l| - 1)|;
    var u := PopLast(p, k, m, s, vars, l);
    t := GenLeaves(r, n', g, p, k1, m, u, vars, Popped(l));
    ReachTrans(p, s, u, t);
    var o := Exec(r, vars, Popped(l));
    if o.Leaves? {
      var w := AndLast(p, k1 + |g.value.nodes|, m, t, o.vars, o.stack, n);
      ReachTrans(p, s, t, w);
      t := w;
    }
  }

  lemma {:induction false} OrFacts(e: Expr, n: nat, g: Option<Code>, p: seq<Node>, k: nat, m: Layout, s: State,
                                   vars: Vars, l: seq<U64>)
    requires e.LogOr? && Ready(e, n, g, p, k, m, s, vars, l)
    ensures var gl := Gen(e.l, n + 3, |l|);
      && Ready(e.l, n + 3, gl, p, k, m, s, vars, l)
      && var gr := Gen(e.r, gl.value.next, |l|);
      && gl.value.next >= 1 && gr.Some? && g.value.nodes == OrNodes(gl.value.nodes, gr.value.nodes, n, |l|)
    ensures VarsOf(e.r) <= Exec(e.l, vars, l).vars.Keys
  {
    hide CodeAt, UniqueLabels, OrTail, Inv, Exec;
    assert g == GenOr(e, n, |l|);
    var gl := Gen(e.l, n + 3, |l|);
    var gr := Gen(e.r, gl.value.next, |l|);
    LogicSplit(p, k, gl.value.nodes, [Plain(JmpImm(Jne, RegAt(|l|), 0, n))], FreeCode(|l|), gr.value.nodes,
        OrTail(RegAt(|l|), n));
    ExecKeys(e.l, vars, l);
  }

  lemma {:induction false} OrCase(e: Expr, n: nat, g: Option<Code>, p: seq<Node>, k: nat, m: Layout, s: State,
                                  vars: Vars, l: seq<U64>)
    returns (t: State)
    requires e.LogOr? && Ready(e, n, g, p, k, m, s, vars, l)
    ensures Reaches(p, s, t) && Ran(m, t, Exec(e, vars, l), k + |g.value.nodes|)
    decreases e, 0
  {
    hide CodeAt, Reaches, UniqueLabels, Inv, OrTail, Gen, VarsOf;
    OrFacts(e, n, g, p, k, m, s, vars, l);
    var d := |l|;
    var gl := Gen(e.l, n + 3, d);
    var gr := Gen(e.r, gl.value.next, d);
    var a, b, x, f := gl.value.nodes, gr.value.nodes, [Plain(JmpImm(Jne, RegAt(d), 0, n))], FreeCode(d);
    var kt := k + |a| + 1 + |f| + |b|;
    LogicSplit(p, k, a, x, f, b, OrTail(RegAt(d), n));
    OrTailLabel(RegAt(d), n);
    CodeNode(p, kt, OrTail(RegAt(d), n), 1);
    var o := Exec(e.l, vars, l);
    var u := GenLeaves(e.l, n + 3, gl, p, k, m, s, vars, l);
    if o.Stops? {
      t := u;
    } else {
      var w := TestLast(p, m, u, o.vars, o.stack, false, kt + 1);
      ReachTrans(p, s, u, w);
      if TopOf(o.stack) != 0 {
        TopOne(o.stack);
        t := OrTrue(p, kt, m, w, o.vars, Popped(o.stack), TopOf(o.stack), n);
      } else {
        t := OrRight(e.r, gl.value.next, p, k + |a| + 1, m, w, o.vars, o.stack, n);
      }
      ReachTrans(p, s, w, t);
    }
  }

  lemma {:induction false} OrLast(p: seq<Node>, k: nat, m: Layout, s: State, vars: Vars, st: seq<U64>, n: nat)
    returns (t: State)
    requires 1 <= |st| <= 2 * NREGS && UniqueLabels(p) && n >= 1 && Inv(m, s, vars, st, |st|) && s.pc == k
    requires CodeAt(p, k, OrTail(RegAt(|st| - 1), n))
    ensures Reaches(p, s, t) && t.pc == k + 5 && Inv(m, t, vars, WithTop(st, Truth(TopOf(st) != 0)), |st|)
  {
    hide UniqueLabels, Inv, CodeAt, OrTail, Reaches;
    TopOne(st);
    t := OrEnd(p, k, m, s, vars, Popped(st), TopOf(st), n);
  }

  lemma {:induction false} OrRight(r: Expr, n': nat, p: seq<Node>, k: nat, m: Layout, s: State, vars: Vars,
                                   l: seq<U64>, n: nat)
    returns (t: State)
    requires |l| >= 1 && n' >= 1 && n >= 1 && Gen(r, n', |l| - 1).Some? && VarsOf(r) <= vars.Keys && UniqueLabels(p)
    requires 1 <= |l| <= 2 * NREGS && Inv(m, s, vars, l, |l|) && s.pc == k && CodeAt(p, k, FreeCode(|l| - 1))
    requires CodeAt(p, k + |FreeCode(|l| - 1)|, Gen(r, n', |l| - 1).value.nodes)
    requires CodeAt(p, k + |FreeCode(|l| - 1)| + |Gen(r, n', |l| - 1).value.nodes|, OrTail(RegAt(|l| - 1), n))
    ensures Reaches(p, s, t)
    ensures Ran(m, t, Truthful(Exec(r, vars, Popped(l))),
                k + |FreeCode(|l| - 1)| + |Gen(r, n', |l| - 1).value.nodes| + 5)
    decreases r, 2
  {
    hide UniqueLabels, Inv, OrTail, Gen, Exec, FreeCode, CodeAt, Reaches, VarsOf, Contents, RegAt;
    hide WithTop, TopOf, Popped;
    var g := Gen(r, n', |l| - 1);
    var k1 := k + |FreeCode(|l| - 1)|;
    var u := PopLast(p, k, m, s, vars, l);
    t := GenLeaves(r, n', g, p, k1, m, u, vars, Popped(l));
    ReachTrans(p, s, u, t);
    var o := Exec(r, vars, Popped(l));
    if o.Leaves? {
      var w := OrLast(p, k1 + |g.value.nodes|, m, t, o.vars, o.stack, n);
      ReachTrans(p, s, t, w);
      t := w;
    }
  }

  lemma {:induction false} XorFacts(e: Expr, n: nat, g: Option<Code>, p: seq<Node>, k: nat, m: Layout, s: State,
                                    vars: Vars, l: seq<U64>)
    requires e.LogXor? && Ready(e, n, g, p, k, m, s, vars, l)
    ensures var gl := Gen(e.l, n + 2, |l|);
      && Ready(e.l, n + 2, gl, p, k, m, s, vars, l)
      && var gr := Gen(e.r, gl.value.next, |l| + 1);
      && gl.value.next >= 1 && gr.Some? && |l| + 2 <= 2 * NREGS
      && g.value.nodes == XorNodes(gl.value.nodes, gr.value.nodes, n, |l|)
    ensures VarsOf(e.r) <= Exec(e.l, vars, l).vars.Keys
  {
    hide CodeAt, UniqueLabels, Inv, TruthCode, XorNodes, Exec;
    assert g == GenXor(e, n, |l|);
    var gl := Gen(e.l, n + 2, |l|);
    var gr := Gen(e.r, gl.value.next, |l| + 1);
    XorSplit(p, k, gl.value.nodes, gr.value.nodes, n, |l|);
    ExecKeys(e.l, vars, l);
  }

  lemma {:induction false} XorCase(e: Expr, n: nat, g: Option<Code>, p: seq<Node>, k: nat, m: Layout, s: State,
                                   vars: Vars, l: seq<U64>)
    returns (t: State)
    requires e.LogXor? && Ready(e, n, g, p, k, m, s, vars, l)
    ensures Reaches(p, s, t) && Ran(m, t, Exec(e, vars, l), k + |g.value.nodes|)
    decreases e, 0
  {
    hide CodeAt, Reaches, UniqueLabels, Inv, TruthCode, XorNodes, Gen, VarsOf, Xored;
    XorFacts(e, n, g, p, k, m, s, vars, l);
    var gl := Gen(e.l, n + 2, |l|);
    var gr := Gen(e.r, gl.value.next, |l| + 1);
    XorSplit(p, k, gl.value.nodes, gr.value.nodes, n, |l|);
    var u := GenLeaves(e.l, n + 2, gl, p, k, m, s, vars, l);
    var o := Exec(e.l, vars, l);
    if o.Stops? {
      t := u;
    } else {
      t := XorRight(e.r, gl.value.next, p, k + |gl.value.nodes|, m, u, o.vars, o.stack, n);
      ReachTrans(p, s, u, t);
    }
  }

  lemma {:induction false} XorRight(r: Expr, n': nat, p: seq<Node>, k: nat, m: Layout, s: State, vars: Vars,
                                    l: seq<U64>, n: nat)
    returns (t: State)
    requires 1 <= |l| < 2 * NREGS && n' >= 1 && n >= 1 && Gen(r, n', |l|).Some? && VarsOf(r) <= vars.Keys
    requires UniqueLabels(p) && Inv(m, s, vars, l, |l|) && s.pc == k && CodeAt(p, k, TruthCode(RegAt(|l| - 1), n, NOP))
    requires CodeAt(p, k + 4, Gen(r, n', |l|).value.nodes)
    requires CodeAt(p, k + 4 + |Gen(r, n', |l|).value.nodes|,
                    TruthCode(RegAt(|l|), n + 1, AluReg(Xor, RegAt(|l| - 1), RegAt(|l|))) + FreeCode(|l|))
    ensures Reaches(p, s, t)
    ensures Ran(m, t, match Exec(r, vars, WithTop(l, Truth(TopOf(l) != 0)))
                      case Stops(u) => Stops(u)
                      case Leaves(st, u) => Leaves(Xored(st), u),
                k + 4 + |Gen(r, n', |l|).value.nodes| + 4 + |FreeCode(|l|)|)
    decreases r, 2
  {
    hide UniqueLabels, Inv, TruthCode, Gen, Exec, FreeCode, CodeAt, Reaches, VarsOf, Contents, RegAt, TopOf, WithTop;
    hide Xored;
    var g := Gen(r, n', |l|);
    var l' := WithTop(l, Truth(TopOf(l) != 0));
    var w := TruthLast(p, k, m, s, vars, l, n);
    t := GenLeaves(r, n', g, p, k + 4, m, w, vars, l');
    ReachTrans(p, s, w, t);
    var o := Exec(r, vars, l');
    if o.Leaves? {
      var z := XorLast(p, k + 4 + |g.value.nodes|, m, t, o.vars, o.stack, n + 1);
      ReachTrans(p, s, t, z);
      t := z;
    }
  }

  /** What the last step of an operator with one operand, or an assignment, does. */
  function LastStep(e: Expr, o: Effect): (r: Effect)
    requires (IsUnary(e) || e.LogNot? || e.Assign?) && (o.Leaves? ==> |o.stack| >= 1)
  {
    if e.LogNot? then Inverted(o) else if e.Assign? then Stored(e.v, o) else Unary(e, o)
  }

  function LastCode(e: Expr, n: nat, d: nat): seq<Node>
    requires IsUnary(e) || e.LogNot? || (e.Assign? && d + 1 < 2 * NREGS)
    requires d < 2 * NREGS
  {
    if e.LogNot? then NotTail(RegAt(d), n) else if e.Assign? then StoreNodes([], e.v, d) else UnaryCode(e, RegAt(d))
  }

  lemma {:induction false} OneFacts(e: Expr, n: nat, g: Option<Code>, p: seq<Node>, k: nat, m: Layout, s: State,
                                    vars: Vars, l: seq<U64>)
    requires (IsUnary(e) || e.LogNot? || e.Assign?) && Ready(e, n, g, p, k, m, s, vars, l)
    ensures |l| < 2 * NREGS && (e.Assign? ==> |l| + 1 < 2 * NREGS)
    ensures Exec(e, vars, l) == LastStep(e, Exec(e.e, vars, l))
    ensures var n' := if e.LogNot? then n + 2 else n;
      var gx := Gen(e.e, n', |l|);
      && Ready(e.e, n', gx, p, k, m, s, vars, l)
      && |g.value.nodes| == |gx.value.nodes| + |LastCode(e, n, |l|)|
      && CodeAt(p, k + |gx.value.nodes|, LastCode(e, n, |l|))
  {
    hide UniqueLabels, Inv, CodeAt, StoreNodes, UnaryCode, NotTail;
    assert Exec(e, vars, l) == LastStep(e, Exec(e.e, vars, l)) by { hide Gen, Ready; }
    var n' := if e.LogNot? then n + 2 else n;
    var gx := Gen(e.e, n', |l|);
    assert g == if e.LogNot? then GenNot(e, n, |l|)
                else if e.Assign? then GenStore(e.v, gx, |l|) else GenUnary(e, n, |l|);
    if e.Assign? { StoreSplit(gx.value.nodes, e.v, |l|); }
    assert g.value.nodes == gx.value.nodes + LastCode(e, n, |l|);
    CodeSplit(p, k, gx.value.nodes, LastCode(e, n, |l|));
  }

  lemma {:induction false} OneCase(e: Expr, n: nat, g: Option<Code>, p: seq<Node>, k: nat, m: Layout, s: State,
                                   vars: Vars, l: seq<U64>)
    returns (t: State)
    requires (IsUnary(e) || e.LogNot? || e.Assign?) && Ready(e, n, g, p, k, m, s, vars, l)
    ensures Reaches(p, s, t) && Ran(m, t, Exec(e, vars, l), k + |g.value.nodes|)
    decreases e, 0
  {
    hide CodeAt, Reaches, UniqueLabels, Inv, Exec, Gen, LastCode, LastStep, Contents;
    OneFacts(e, n, g, p, k, m, s, vars, l);
    var n' := if e.LogNot? then n + 2 else n;
    var gx := Gen(e.e, n', |l|);
    t := GenLeaves(e.e, n', gx, p, k, m, s, vars, l);
    ExecKeys(e.e, vars, l);
    hide VarsOf;
    var o := Exec(e.e, vars, l);
    if o.Leaves? {
      var u := OneLast(e, n, p, k + |gx.value.nodes|, m, t, o.vars, o.stack);
      ReachTrans(p, s, t, u);
      t := u;
    } else {
      StopsOn(e, o);
    }
  }

  lemma {:induction false} StopsOn(e: Expr, o: Effect)
    requires (IsUnary(e) || e.LogNot? || e.Assign?) && o.Stops?
    ensures LastStep(e, o) == o
  {
  }

  lemma {:induction false} OneLast(e: Expr, n: nat, p: seq<Node>, k: nat, m: Layout, s: State, vars: Vars, st: seq<U64>)
    returns (t: State)
    requires (IsUnary(e) || e.LogNot? || e.Assign?) && UniqueLabels(p) && n >= 1
    requires 1 <= |st| <= 2 * NREGS && (e.Assign? ==> |st| < 2 * NREGS && e.v in vars)
    requires s.pc == k && Inv(m, s, vars, st, |st|) && CodeAt(p, k, LastCode(e, n, |st| - 1))
    ensures Reaches(p, s, t) && Ran(m, t, LastStep(e, Leaves(st, vars)), k + |LastCode(e, n, |st| - 1)|)
  {
    hide UniqueLabels, Inv, CodeAt, StoreNodes, UnaryCode, Reaches, Contents, RegAt, UnaryValue, Put;
    if e.LogNot? {
      t := NotLast(p, k, m, s, vars, st, n);
    } else if e.Assign? {
      t := StoreLast(p, k, m, s, vars, st, e.v);
    } else {
      t := UnaryLast(e, p, k, m, s, vars, st);
    }
  }

  lemma {:induction false} CommaFacts(e: Expr, n: nat, g: Option<Code>, p: seq<Node>, k: nat, m: Layout, s: State,
                                      vars: Vars, l: seq<U64>)
    requires e.Comma? && Ready(e, n, g, p, k, m, s, vars, l)
    ensures |l| < 2 * NREGS && VarsOf(e.r) <= Exec(e.l, vars, l).vars.Keys
    ensures var gl := Gen(e.l, n, |l|);
      && Ready(e.l, n, gl, p, k, m, s, vars, l) && gl.value.next >= 1
      && var gr := Gen(e.r, gl.value.next, |l|);
      && gr.Some? && |g.value.nodes| == |gl.value.nodes| + |FreeCode(|l|)| + |gr.value.nodes|
      && CodeAt(p, k + |gl.value.nodes|, FreeCode(|l|))
      && CodeAt(p, k + |gl.value.nodes| + |FreeCode(|l|)|, gr.value.nodes)
  {
    hide CodeAt, UniqueLabels, Inv, Exec;
    assert g == GenComma(e, n, |l|);
    var gl := Gen(e.l, n, |l|);
    var gr := Gen(e.r, gl.value.next, |l|);
    var a, f, b := gl.value.nodes, FreeCode(|l|), gr.value.nodes;
    CodeSplit(p, k, a + f, b);
    CodeSplit(p, k, a, f);
    ExecKeys(e.l, vars, l);
  }

  lemma {:induction false} CommaCase(e: Expr, n: nat, g: Option<Code>, p: seq<Node>, k: nat, m: Layout, s: State,
                                     vars: Vars, l: seq<U64>)
    returns (t: State)
    requires e.Comma? && Ready(e, n, g, p, k, m, s, vars, l)
    ensures Reaches(p, s, t) && Ran(m, t, Exec(e, vars, l), k + |g.value.nodes|)
    decreases e, 0
  {
    hide CodeAt, Reaches, UniqueLabels, Inv, Exec, Gen, FreeCode, Contents, Popped;
    CommaFacts(e, n, g, p, k, m, s, vars, l);
    hide VarsOf;
    assert Exec(e, vars, l) == ExecComma(e, vars, l) by { CommaIs(e, vars, l); }
    var gl := Gen(e.l, n, |l|);
    var gr := Gen(e.r, gl.value.next, |l|);
    var kf := k + |gl.value.nodes|;
    t := GenLeaves(e.l, n, gl, p, k, m, s, vars, l);
    var o := Exec(e.l, vars, l);
    if o.Leaves? {
      var u := PopLast(p, kf, m, t, o.vars, o.stack);
      ReachTrans(p, s, t, u);
      t := GenLeaves(e.r, gl.value.next, gr, p, kf + |FreeCode(|l|)|, m, u, o.vars, Popped(o.stack));
      ReachTrans(p, s, u, t);
    }
  }

  lemma {:induction false} CommaIs(e: Expr, vars: Vars, l: seq<U64>)
    requires e.Comma?
    ensures Exec(e, vars, l) == ExecComma(e, vars, l)
  {
  }

  lemma {:induction false} AssignOpFacts(e: Expr, n: nat, g: Option<Code>, p: seq<Node>, k: nat, m: Layout, s: State,
                                         vars: Vars, l: seq<U64>)
    requires e.AssignOp? && Ready(e, n, g, p, k, m, s, vars, l)
    ensures |l| + 1 < 2 * NREGS && e.v in vars && VarsOf(e.e) <= vars.Keys
    ensures var a, gr := GetNodes(e.v, |l|), Gen(e.e, n, |l| + 1);
      && gr.Some?
      && var b := gr.value.nodes;
      && var tail := OpCode(e.op, e.ty.signed, RegAt(|l|), RegAt(|l| + 1), gr.value.next) + FreeCode(|l| + 1);
      && |g.value.nodes| == |a| + |b| + |tail| + |StoreNodes([], e.v, |l|)|
      && CodeAt(p, k, a) && CodeAt(p, k + |a|, b) && CodeAt(p, k + |a| + |b|, tail)
      && CodeAt(p, k + |a| + |b| + |tail|, StoreNodes([], e.v, |l|))
  {
    hide CodeAt, UniqueLabels, Inv, StoreNodes, OpCode, GetNodes;
    assert g == GenStore(e.v, GenBinary(e.op, e.ty.signed, GenGet(e.v, n, |l|), e.e, |l|), |l|);
    var a, gr := GetNodes(e.v, |l|), Gen(e.e, n, |l| + 1);
    AssignOpSplit(p, k, a, gr.value.nodes, e.op, e.ty.signed, gr.value.next, e.v, |l|);
  }

  lemma {:induction false} AssignOpCase(e: Expr, n: nat, g: Option<Code>, p: seq<Node>, k: nat, m: Layout, s: State,
                                        vars: Vars, l: seq<U64>)
    returns (t: State)
    requires e.AssignOp? && Ready(e, n, g, p, k, m, s, vars, l)
    ensures Reaches(p, s, t) && Ran(m, t, Exec(e, vars, l), k + |g.value.nodes|)
    decreases e, 0
  {
    hide CodeAt, Reaches, UniqueLabels, Inv, StoreNodes, OpCode, GetNodes, Fetch, Put, Operated, Exec, Gen, Contents;
    hide FreeCode, RegAt, VarsOf, TopOf;
    AssignOpFacts(e, n, g, p, k, m, s, vars, l);
    assert Exec(e, vars, l) == ExecAssignOp(e, vars, l) by { AssignOpIs(e, vars, l); }
    var a := GetNodes(e.v, |l|);
    var l' := l + [Fetch(vars, e.v)];
    ExecKeys(e.e, vars, l');
    var o := Exec(e.e, vars, l');
    var u := RunGet(p, k, m, s, vars, l, e.v);
    t := RightOperand(e.e, n, p, k + |a|, m, u, vars, l', e.op, e.ty.signed);
    ReachTrans(p, s, u, t);
    if o.Leaves? {
      OperatedKeys(e.op, e.ty.signed, o.stack, o.vars);
      var o2 := Operated(e.op, e.ty.signed, o.stack, o.vars);
      if o2.Leaves? {
        var w := StoreLast(p, t.pc, m, t, o2.vars, o2.stack, e.v);
        ReachTrans(p, s, t, w);
        t := w;
      }
    }
  }

  lemma {:induction false} AssignOpIs(e: Expr, vars: Vars, l: seq<U64>)
    requires e.AssignOp?
    ensures Exec(e, vars, l) == ExecAssignOp(e, vars, l)
  {
  }
}
