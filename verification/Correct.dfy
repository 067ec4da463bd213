/**
 Where generated code computes what the expression means: run from any machine state that
 represents the variables, it pushes the expression's value on the stack of values, or stops
 with a division-by-zero fault, and updates the variables as the expression says, leaving
 everything else that is live as it was.  This is so for all expressions in which comparisons
 and ?: do not have to spill; for the others the exact condition is that what is left behind
 agrees.
 */
module Correct {
  import opened Basics
  import opened Word
  import opened Memory
  import opened Bpf
  import opened Ir
  import opened Registers
  import opened Expr
  import opened CodeGen
  import opened Window
  import opened WordFacts
  import opened Compile
  import opened Spill
  import opened Execution

  /** No comparison or ?: is generated at a depth where it has to spill: their code
      restores a spilled register on one of its two paths only (see module Spill). */
  predicate SpillSafe(e: Expr, d: nat) {
    match e
    case Int(_, _) => true
    case Get(_) => true
    case Binary(_, _, l, r) => SpillSafe(l, d) && SpillSafe(r, d + 1)
    case Compare(_, l, r) => d + 1 < NREGS && SpillSafe(l, d) && SpillSafe(r, d + 1)
    case Cond(_, c, l, r) => d < NREGS && SpillSafe(c, d) && SpillSafe(l, d) && SpillSafe(r, d)
    case LogAnd(l, r) => SpillSafe(l, d) && SpillSafe(r, d)
    case LogOr(l, r) => SpillSafe(l, d) && SpillSafe(r, d)
    case LogXor(l, r) => SpillSafe(l, d) && SpillSafe(r, d + 1)
    case LogNot(x) => SpillSafe(x, d)
    case BitNot(_, x) => SpillSafe(x, d)
    case Negate(_, x) => SpillSafe(x, d)
    case UnaryPlus(_, x) => SpillSafe(x, d)
    case Comma(l, r) => SpillSafe(l, d) && SpillSafe(r, d)
    case Cast(_, x) => SpillSafe(x, d)
    case Assign(_, x) => SpillSafe(x, d)
    case AssignOp(_, _, _, x) => SpillSafe(x, d + 1)
  }

  /** Evaluation neither adds nor loses variables. */
  lemma {:induction false} EvalKeys(e: Expr, s: Vars)
    requires VarsOf(e) <= s.Keys
    ensures Eval(e, s).vars.Keys == s.Keys
    decreases e
  {
    hide BinaryValue, CastValue, Holds, Promote, TypeOf, Fetch, Pow2, Faults, Truth;
    match e
    case Int(_, _) =>
    case Get(_) =>
    case Cond(_, c, l, r) => EvalKeys(c, s); EvalKeys(l, Eval(c, s).vars); EvalKeys(r, Eval(c, s).vars);
    case LogNot(x) => EvalKeys(x, s);
    case BitNot(_, x) => EvalKeys(x, s);
    case Negate(_, x) => EvalKeys(x, s);
    case UnaryPlus(_, x) => EvalKeys(x, s);
    case Cast(_, x) => EvalKeys(x, s);
    case Assign(_, x) => EvalKeys(x, s);
    case AssignOp(_, _, _, x) => EvalKeys(x, s);
    case _ =>
      EvalKeys(e.l, s);
      EvalKeys(e.r, Eval(e.l, s).vars);
      PairKeys(e, s);
  }

  /** An expression with two operands, of which the second is evaluated last if at all. */
  lemma {:induction false} PairKeys(e: Expr, s: Vars)
    requires e.Binary? || e.Compare? || e.LogAnd? || e.LogOr? || e.LogXor? || e.Comma?
    ensures Eval(e, s).vars == Eval(e.l, s).vars || Eval(e, s).vars == Eval(e.r, Eval(e.l, s).vars).vars
  {
    hide BinaryValue, CastValue, Holds, Promote, TypeOf, Fetch, Put, Pow2, Faults, Truth;
  }

  // ----- when the two agree -----

  /** What is left behind is the value on top of what was there, and the variables, that the
      expression means. */
  predicate Agree(e: Expr, vars: Vars, l: seq<U64>) {
    Exec(e, vars, l) == OfOutcome(Eval(e, vars), l)
  }

  lemma {:induction false} AgreeAlways(e: Expr, vars: Vars, l: seq<U64>)
    requires SpillSafe(e, |l|)
    ensures Agree(e, vars, l)
    decreases e, 1
  {
    hide Eval, Exec, OfOutcome, Agree;
    match e
    case Int(_, _) => LeafAgrees(e, vars, l);
    case Get(_) => LeafAgrees(e, vars, l);
    case Binary(_, _, _, _) => BinaryAgrees(e, vars, l);
    case Compare(_, _, _) => CompareAgrees(e, vars, l);
    case Cond(_, _, _, _) => CondAgrees(e, vars, l);
    case LogAnd(_, _) => LogicAgrees(e, vars, l);
    case LogOr(_, _) => LogicAgrees(e, vars, l);
    case LogXor(_, _) => XorAgrees(e, vars, l);
    case Comma(_, _) => CommaAgrees(e, vars, l);
    case AssignOp(_, _, _, _) => AssignOpAgrees(e, vars, l);
    case _ =>
      AgreeAlways(e.e, vars, l);
      OneAgrees(e, vars, l);
  }

  lemma {:induction false} LeafAgrees(e: Expr, vars: Vars, l: seq<U64>)
    requires e.Int? || e.Get?
    ensures Agree(e, vars, l)
  {
  }

  lemma {:induction false} OneAgrees(e: Expr, vars: Vars, l: seq<U64>)
    requires (IsUnary(e) || e.LogNot? || e.Assign?) && Agree(e.e, vars, l)
    ensures Agree(e, vars, l)
  {
    hide CastValue, Put, Truth;
    var o := Eval(e.e, vars);
    if o.Done? { OnTop(l, o.value); }
  }

  /** A value that has been pushed, seen as the top of the stack. */
  lemma {:induction false} OnTop(l: seq<U64>, x: U64)
    ensures TopOf(l + [x]) == x && Popped(l + [x]) == l && forall y :: WithTop(l + [x], y) == l + [y]
  {
  }

  lemma {:induction false} TwoOnTop(l: seq<U64>, x: U64, y: U64)
    ensures var st := l + [x] + [y];
      |st| == |l| + 2 && st[..|l|] == l && st[|l|] == x && st[|l| + 1] == y
  {
  }

  lemma {:induction false} BinaryAgrees(e: Expr, vars: Vars, l: seq<U64>)
    requires e.Binary? && SpillSafe(e, |l|)
    ensures Agree(e, vars, l)
    decreases e, 0
  {
    hide Combine, Exec;
    assert Exec(e, vars, l) == ExecBinary(e, vars, l) by { ByKind(e, vars, l); }
    AgreeAlways(e.l, vars, l);
    var o := Eval(e.l, vars);
    if o.Done? {
      AgreeAlways(e.r, o.vars, l + [o.value]);
      var q := Eval(e.r, o.vars);
      if q.Done? { TwoOnTop(l, o.value, q.value); }
    }
  }

  lemma {:induction false} ByKind(e: Expr, vars: Vars, l: seq<U64>)
    ensures e.Binary? ==> Exec(e, vars, l) == ExecBinary(e, vars, l)
    ensures e.Compare? ==> Exec(e, vars, l) == ExecCompare(e, vars, l)
    ensures e.Cond? ==> Exec(e, vars, l) == ExecCond(e, vars, l)
    ensures e.LogAnd? || e.LogOr? ==> Exec(e, vars, l) == ExecLogic(e, vars, l)
    ensures e.LogXor? ==> Exec(e, vars, l) == ExecXor(e, vars, l)
    ensures e.Comma? ==> Exec(e, vars, l) == ExecComma(e, vars, l)
    ensures e.AssignOp? ==> Exec(e, vars, l) == ExecAssignOp(e, vars, l)
  {
  }

  lemma {:induction false} CompareAgrees(e: Expr, vars: Vars, l: seq<U64>)
    requires e.Compare? && SpillSafe(e, |l|)
    ensures Agree(e, vars, l)
    decreases e, 0
  {
    hide Holds, Exec, ComparesSigned;
    assert Exec(e, vars, l) == ExecCompare(e, vars, l) by { ByKind(e, vars, l); }
    AgreeAlways(e.l, vars, l);
    var o := Eval(e.l, vars);
    if o.Done? {
      AgreeAlways(e.r, o.vars, l + [o.value]);
      var q := Eval(e.r, o.vars);
      if q.Done? {
        TwoOnTop(l, o.value, q.value);
        SignedIs(e);
      }
    }
  }

  lemma {:induction false} SignedIs(e: Expr)
    requires e.Compare?
    ensures ComparesSigned(e.l, e.r) == Promote(TypeOf(e.l), TypeOf(e.r)).signed
  {
  }

  lemma {:induction false} CondAgrees(e: Expr, vars: Vars, l: seq<U64>)
    requires e.Cond? && SpillSafe(e, |l|)
    ensures Agree(e, vars, l)
    decreases e, 0
  {
    hide Exec;
    assert Exec(e, vars, l) == ExecCond(e, vars, l) by { ByKind(e, vars, l); }
    AgreeAlways(e.c, vars, l);
    var o := Eval(e.c, vars);
    if o.Done? {
      OnTop(l, o.value);
      AgreeAlways(e.l, o.vars, l);
      AgreeAlways(e.r, o.vars, l);
    }
  }

  lemma {:induction false} LogicAgrees(e: Expr, vars: Vars, l: seq<U64>)
    requires (e.LogAnd? || e.LogOr?) && SpillSafe(e, |l|)
    ensures Agree(e, vars, l)
    decreases e, 0
  {
    hide Exec;
    assert Exec(e, vars, l) == ExecLogic(e, vars, l) by { ByKind(e, vars, l); }
    AgreeAlways(e.l, vars, l);
    var o := Eval(e.l, vars);
    if o.Done? {
      OnTop(l, o.value);
      AgreeAlways(e.r, o.vars, l);
      var q := Eval(e.r, o.vars);
      if q.Done? { OnTop(l, q.value); }
    }
  }

  lemma {:induction false} XorAgrees(e: Expr, vars: Vars, l: seq<U64>)
    requires e.LogXor? && SpillSafe(e, |l|)
    ensures Agree(e, vars, l)
    decreases e, 0
  {
    hide Exec, Alu;
    assert Exec(e, vars, l) == ExecXor(e, vars, l) by { ByKind(e, vars, l); }
    AgreeAlways(e.l, vars, l);
    var o := Eval(e.l, vars);
    if o.Done? {
      OnTop(l, o.value);
      var v := Truth(o.value != 0);
      AgreeAlways(e.r, o.vars, l + [v]);
      var q := Eval(e.r, o.vars);
      if q.Done? {
        TwoOnTop(l, v, q.value);
        XorTruth(o.value != 0, q.value != 0);
      }
    }
  }

  lemma {:induction false} CommaAgrees(e: Expr, vars: Vars, l: seq<U64>)
    requires e.Comma? && SpillSafe(e, |l|)
    ensures Agree(e, vars, l)
    decreases e, 0
  {
    hide Exec;
    assert Exec(e, vars, l) == ExecComma(e, vars, l) by { ByKind(e, vars, l); }
    AgreeAlways(e.l, vars, l);
    var o := Eval(e.l, vars);
    if o.Done? {
      OnTop(l, o.value);
      AgreeAlways(e.r, o.vars, l);
    }
  }

  lemma {:induction false} AssignOpAgrees(e: Expr, vars: Vars, l: seq<U64>)
    requires e.AssignOp? && SpillSafe(e, |l|)
    ensures Agree(e, vars, l)
    decreases e, 0
  {
    hide Exec, BinaryValue, Fetch, Put;
    assert Exec(e, vars, l) == ExecAssignOp(e, vars, l) by { ByKind(e, vars, l); }
    var a := Fetch(vars, e.v);
    AgreeAlways(e.e, vars, l + [a]);
    var o := Eval(e.e, vars);
    if o.Done? {
      TwoOnTop(l, a, o.value);
      var c := Combine(e.op, e.ty.signed, a, o.value, o.vars);
      if c.Done? { OnTop(l, c.value); }
    }
  }

  // ----- the code is right exactly if they agree -----

  lemma {:induction false} AfterExactly(m: Layout, t: State, o: Effect, ev: Outcome, l: seq<U64>, pc: int)
    requires Ran(m, t, o, pc) && o.vars.Keys == ev.vars.Keys && (o.Leaves? ==> |o.stack| == |l| + 1)
    ensures After(m, t, ev, l, pc) <==> o == OfOutcome(ev, l)
  {
    if After(m, t, ev, l, pc) {
      if ev.Done? && o.Leaves? {
        StackUnique(m, t, o.vars, o.stack, ev.vars, l + [ev.value], |l| + 1);
      }
      assert ev.Done? == o.Leaves?;
      forall v | v in o.vars ensures o.vars[v] == ev.vars[v] {
        assert Read(t.mem, VarAddr(m, v), v.ty.size) == o.vars[v];
      }
      assert o.vars == ev.vars;
    }
  }

  /** For every integer expression that compiles, in every program, at every depth and with
      whatever values on the stack: its code does what the expression means exactly if what
      it leaves behind agrees. */
  lemma {:induction false} GenExact(e: Expr, n: nat, g: Option<Code>, p: seq<Node>, k: nat, m: Layout, s: State,
                                    vars: Vars, l: seq<U64>)
    returns (t: State)
    requires Ready(e, n, g, p, k, m, s, vars, l)
    ensures Reaches(p, s, t) && Ran(m, t, Exec(e, vars, l), k + |g.value.nodes|)
    ensures After(m, t, Eval(e, vars), l, k + |g.value.nodes|) <==> Agree(e, vars, l)
  {
    hide Ran, Reaches, Exec, Gen, Eval, After, Inv, UniqueLabels, CodeAt;
    t := GenLeaves(e, n, g, p, k, m, s, vars, l);
    ExecKeys(e, vars, l);
    EvalKeys(e, vars);
    AfterExactly(m, t, Exec(e, vars, l), Eval(e, vars), l, k + |g.value.nodes|);
  }

  /** An expression about to be run that does not have to spill. */
  ghost predicate Given(e: Expr, n: nat, g: Option<Code>, p: seq<Node>, k: nat, m: Layout, s: State, vars: Vars,
                        l: seq<U64>) {
    Ready(e, n, g, p, k, m, s, vars, l) && SpillSafe(e, |l|)
  }

  /** For every integer expression that compiles, in every program, at every depth, unless a
      comparison or ?: has to spill: its code leaves the value of the expression on top of the
      values already there, which it keeps, stores what the expression assigns, and stops with
      a fault exactly when evaluation divides by zero. */
  lemma {:induction false} GenCorrect(e: Expr, n: nat, g: Option<Code>, p: seq<Node>, k: nat, m: Layout, s: State,
                                      vars: Vars, l: seq<U64>)
    returns (t: State)
    requires Given(e, n, g, p, k, m, s, vars, l)
    ensures Reaches(p, s, t) && After(m, t, Eval(e, vars), l, k + |g.value.nodes|)
  {
    hide Ready, Ran, Reaches, Exec, Gen, Eval, After, SpillSafe, Agree;
    t := GenExact(e, n, g, p, k, m, s, vars, l);
    AgreeAlways(e, vars, l);
  }

  // ----- comparisons and ?: that have to spill -----

  /** A comparison whose second register is spilled: if it holds, the value that had been
      spilled is lost, and the right operand is in its place. */
  lemma {:induction false} CompareUnderSpill(e: Expr, vars: Vars, l: seq<U64>)
    requires e.Compare? && |l| + 1 >= NREGS && SpillSafe(e.l, |l|) && SpillSafe(e.r, |l| + 1)
    ensures match Eval(e, vars)
      case DivByZero(_) => Agree(e, vars, l)
      case Done(v, vars') =>
        var b := Eval(e.r, Eval(e.l, vars).vars).value;
        var lost := |l| + 1 - NREGS;
        && Exec(e, vars, l) == Leaves((if v == 1 then l[lost := b] else l) + [v], vars')
        && (Agree(e, vars, l) <==> v == 0 || l[lost] == b)
  {
    hide Holds, Exec, ComparesSigned;
    assert Exec(e, vars, l) == ExecCompare(e, vars, l) by { ByKind(e, vars, l); }
    AgreeAlways(e.l, vars, l);
    var o := Eval(e.l, vars);
    if o.Done? {
      AgreeAlways(e.r, o.vars, l + [o.value]);
      var q := Eval(e.r, o.vars);
      if q.Done? {
        TwoOnTop(l, o.value, q.value);
        SignedIs(e);
        var v := Eval(e, vars).value;
        LostValue(l, |l| + 1 - NREGS, q.value, v, v);
      }
    }
  }

  /** A stack with one value changed, and another one on top, is the same only if the values
      are. */
  lemma {:induction false} LostValue(l: seq<U64>, i: nat, b: U64, v: U64, w: U64)
    requires i < |l|
    ensures l[i := b] + [w] == l + [v] <==> l[i] == b && w == v
    ensures l + [w] == l + [v] <==> w == v
  {
    assert (l[i := b] + [w])[i] == b && (l + [v])[i] == l[i];
    assert (l[i := b] + [w])[|l|] == w && (l + [v])[|l|] == v && (l + [w])[|l|] == w;
    if l[i] == b { assert l[i := b] == l; }
  }

  lemma {:induction false} CondEval(e: Expr, vars: Vars)
    requires e.Cond?
    ensures var o := Eval(e.c, vars);
      Eval(e, vars) == if o.DivByZero? then o else Eval(if o.value != 0 then e.l else e.r, o.vars)
  {
  }

  /** A ?: whose register is spilled: if the condition is true the result is replaced by the
      value that had been spilled, and if it is false that value is replaced by zero. */
  lemma {:induction false} CondUnderSpill(e: Expr, vars: Vars, l: seq<U64>)
    requires e.Cond? && |l| >= NREGS && SpillSafe(e.c, |l|) && SpillSafe(e.l, |l|) && SpillSafe(e.r, |l|)
    ensures match Eval(e, vars)
      case DivByZero(_) => Agree(e, vars, l)
      case Done(v, vars') =>
        var c, spilled := Eval(e.c, vars).value, |l| - NREGS;
        && Exec(e, vars, l) ==
           Leaves(if c != 0 then l + [l[spilled]] else l[spilled := 0] + [v], vars')
        && (Agree(e, vars, l) <==> l[spilled] == if c != 0 then v else 0)
  {
    hide Exec, Eval;
    assert Exec(e, vars, l) == ExecCond(e, vars, l) by { ByKind(e, vars, l); }
    CondEval(e, vars);
    AgreeAlways(e.c, vars, l);
    var o, i := Eval(e.c, vars), |l| - NREGS;
    if o.Done? {
      OnTop(l, o.value);
      AgreeAlways(e.l, o.vars, l);
      AgreeAlways(e.r, o.vars, Cleared(l));
      var q := Eval(e, vars);
      if q.Done? {
        if o.value != 0 { LostValue(l, i, l[i], q.value, l[i]); } else { LostValue(l, i, 0, q.value, q.value); }
      }
    }
  }

  // ----- expressions for which this happens -----

  const LONG := Type(8, true)

  /** x0 + (x1 + (... + e)). */
  function Nest(xs: seq<U64>, e: Expr): Expr {
    if xs == [] then e else Binary(Plus, LONG, Int(xs[0], LONG), Nest(xs[1..], e))
  }

  function Sum(xs: seq<U64>): nat {
    if xs == [] then 0 else xs[0] + Sum(xs[1..])
  }

  lemma {:induction false} NestEval(xs: seq<U64>, e: Expr, vars: Vars)
    requires Eval(e, vars).Done?
    ensures Eval(Nest(xs, e), vars) == Done(Wrap(Sum(xs) + Eval(e, vars).value), Eval(e, vars).vars)
  {
    hide Eval;
    if xs != [] {
      NestEval(xs[1..], e, vars);
      PlusEval(xs[0], Nest(xs[1..], e), vars);
      WrapInner(Sum(xs[1..]) + Eval(e, vars).value, xs[0]);
    } else {
      assert Sum(xs) == 0 && Wrap(Eval(e, vars).value) == Eval(e, vars).value;
    }
  }

  lemma {:induction false} PlusEval(x: U64, e: Expr, vars: Vars)
    requires Eval(e, vars).Done?
    ensures Eval(Binary(Plus, LONG, Int(x, LONG), e), vars) ==
      Done(Wrap(x + Eval(e, vars).value), Eval(e, vars).vars)
  {
    hide Wrap;
    assert Eval(Int(x, LONG), vars) == Done(x, vars);
  }

  /** Such a sum adds up whatever has been left on the stack. */
  lemma {:induction false} NestLeaves(xs: seq<U64>, e: Expr, vars: Vars, l: seq<U64>)
    requires Exec(e, vars, l + xs).Leaves?
    ensures var o := Exec(e, vars, l + xs);
      Exec(Nest(xs, e), vars, l) == Leaves(o.stack[..|l|] + [Wrap(Sum(o.stack[|l|..]))], o.vars)
  {
    hide Exec;
    var o := Exec(e, vars, l + xs);
    if xs == [] {
      assert l + xs == l;
      TopOne(o.stack);
      assert o.stack[|l|..] == [o.stack[|l|]];
      WrapWord(o.stack[|l|]);
    } else {
      var x, st, d := xs[0], o.stack, |l|;
      assert l + xs == (l + [x]) + xs[1..];
      NestLeaves(xs[1..], e, vars, l + [x]);
      var b := Wrap(Sum(st[d + 1..]));
      assert Exec(Nest(xs[1..], e), vars, l + [x]) == Leaves(st[..d + 1] + [b], o.vars);
      PlusLeaves(x, Nest(xs[1..], e), vars, l, st[..d + 1] + [b], o.vars);
      assert (st[..d + 1] + [b])[..d] == st[..d];
      assert st[d..][1..] == st[d + 1..];
      WrapInner(Sum(st[d + 1..]), st[d]);
    }
  }

  lemma {:induction false} WrapWord(x: U64)
    ensures Sum([x]) == x && Wrap(x) == x
  {
    assert [x][1..] == [];
  }

  lemma {:induction false} PlusLeaves(x: U64, e: Expr, vars: Vars, l: seq<U64>, st: seq<U64>, vars': Vars)
    requires Exec(e, vars, l + [x]) == Leaves(st, vars')
    ensures |st| == |l| + 2
    ensures Exec(Binary(Plus, LONG, Int(x, LONG), e), vars, l) ==
      Leaves(st[..|l|] + [AddWord(st[|l|], st[|l| + 1])], vars')
  {
    var s := Binary(Plus, LONG, Int(x, LONG), e);
    assert Exec(Int(x, LONG), vars, l) == Leaves(l + [x], vars);
    ByKind(s, vars, l);
    hide Exec;
    assert ExecBinary(s, vars, l) == Execution.Operated(Plus, true, st, vars');
  }

  function Choice(x: Var): Expr {
    Cond(INT, Get(x), Int(5, INT), Int(6, INT))
  }

  /** 10 + (0 + (0 + (0 + (0 + (0 + (0 + (0 + (x ? 5 : 6)))))))). */
  function TooDeep(x: Var): Expr {
    Nest([10, 0, 0, 0, 0, 0, 0, 0], Choice(x))
  }

  /** 10 + (0 + (0 + (0 + (0 + (0 + (0 + (x == y))))))). */
  function TooDeepEqual(x: Var, y: Var): Expr {
    Nest([10, 0, 0, 0, 0, 0, 0], Compare(Equal, Get(x), Get(y)))
  }

  lemma {:induction false} NestNeed(xs: seq<U64>, e: Expr)
    ensures Need(Nest(xs, e)) == |xs| + Need(e)
  {
    if xs != [] { NestNeed(xs[1..], e); }
  }

  lemma {:induction false} TooDeepCompiles(x: Var, y: Var, n: nat)
    ensures Gen(TooDeep(x), n, 0).Some? && Gen(TooDeepEqual(x, y), n, 0).Some?
  {
    hide Gen, Nest;
    NestNeed([10, 0, 0, 0, 0, 0, 0, 0], Choice(x));
    GenExactly(TooDeep(x), n, 0);
    NestNeed([10, 0, 0, 0, 0, 0, 0], Compare(Equal, Get(x), Get(y)));
    GenExactly(TooDeepEqual(x, y), n, 0);
  }

  /** With `x` not zero the first means 15, and its code computes 20; with `x` and `y` both 5
      the second means 11, and its code computes 6. */
  lemma {:induction false} TooDeepFails(x: Var, y: Var, vars: Vars)
    requires Fetch(vars, x) == 5 && Fetch(vars, y) == 5
    ensures Eval(TooDeep(x), vars) == Done(15, vars) && Exec(TooDeep(x), vars, []) == Leaves([20], vars)
    ensures Eval(TooDeepEqual(x, y), vars) == Done(11, vars) && Exec(TooDeepEqual(x, y), vars, []) == Leaves([6], vars)
    ensures !Agree(TooDeep(x), vars, []) && !Agree(TooDeepEqual(x, y), vars, [])
  {
    ChoiceLeaves(x, vars);
    EqualLeaves(x, y, vars);
    hide Exec, Eval;
    assert ([] + [15])[0] != [20][0] && ([] + [11])[0] != [6][0];
  }

  lemma {:induction false} ChoiceLeaves(x: Var, vars: Vars)
    requires Fetch(vars, x) == 5
    ensures Eval(TooDeep(x), vars) == Done(15, vars) && Exec(TooDeep(x), vars, []) == Leaves([20], vars)
  {
    hide Exec, Nest, Sum, Fetch;
    var xs: seq<U64> := [10, 0, 0, 0, 0, 0, 0, 0];
    var e := Choice(x);
    hide Eval, Choice;
    ChoiceUnderSpill(x, vars, xs);
    SumEnds(10, 7, 10);
    SumEnds(10, 6, 0);
    var zeros := seq(7, _ => 0 as U64);
    assert xs + [10] == [10] + zeros + [10] && [10] + seq(6, _ => 0 as U64) + [0] == xs;
    NestEval(xs, e, vars);
    assert [] + xs == xs && (xs + [10])[..0] == [] && (xs + [10])[0..] == xs + [10] && [] + [20] == [20];
    NestLeaves(xs, e, vars, []);
  }

  lemma {:induction false} ChoiceUnderSpill(x: Var, vars: Vars, xs: seq<U64>)
    requires Fetch(vars, x) == 5 && |xs| == NREGS
    ensures Eval(Choice(x), vars) == Done(5, vars) && Exec(Choice(x), vars, xs) == Leaves(xs + [xs[0]], vars)
  {
    hide Exec, Fetch;
    var e := Choice(x);
    assert Eval(Get(x), vars) == Done(5, vars) && Eval(e, vars) == Done(5, vars);
    CondUnderSpill(e, vars, xs);
  }

  lemma {:induction false} EqualUnderSpill(x: Var, y: Var, vars: Vars, xs: seq<U64>)
    requires Fetch(vars, x) == 5 && Fetch(vars, y) == 5 && |xs| == NREGS - 1
    ensures var e := Compare(Equal, Get(x), Get(y));
      Eval(e, vars) == Done(1, vars) && Exec(e, vars, xs) == Leaves(xs[0 := 5] + [1], vars)
  {
    hide Exec, Fetch;
    var e := Compare(Equal, Get(x), Get(y));
    assert Eval(Get(x), vars) == Done(5, vars) && Eval(Get(y), vars) == Done(5, vars) && Eval(e, vars) == Done(1, vars);
    CompareUnderSpill(e, vars, xs);
  }

  lemma {:induction false} EqualLeaves(x: Var, y: Var, vars: Vars)
    requires Fetch(vars, x) == 5 && Fetch(vars, y) == 5
    ensures Eval(TooDeepEqual(x, y), vars) == Done(11, vars)
    ensures Exec(TooDeepEqual(x, y), vars, []) == Leaves([6], vars)
  {
    hide Exec, Nest, Sum, Fetch;
    var xs: seq<U64> := [10, 0, 0, 0, 0, 0, 0];
    var e := Compare(Equal, Get(x), Get(y));
    hide Eval;
    EqualUnderSpill(x, y, vars, xs);
    SumEnds(5, 6, 1);
    SumEnds(10, 5, 0);
    var left := xs[0 := 5] + [1];
    assert left == [5] + seq(6, _ => 0 as U64) + [1] && [10] + seq(5, _ => 0 as U64) + [0] == xs;
    NestEval(xs, e, vars);
    assert [] + xs == xs && left[..0] == [] && left[0..] == left && [] + [6] == [6];
    NestLeaves(xs, e, vars, []);
  }

  lemma {:induction false} SumEnds(a: U64, k: nat, b: U64)
    ensures Sum([a] + seq(k, _ => 0) + [b]) == a + b
  {
    SumZeros(k, b);
    var all := [a] + seq(k, _ => 0 as U64) + [b];
    assert all[1..] == seq(k, _ => 0 as U64) + [b];
  }

  lemma {:induction false} SumZeros(k: nat, b: U64)
    ensures Sum(seq(k, _ => 0) + [b]) == b
  {
    var all := seq(k, _ => 0 as U64) + [b];
    if k > 0 {
      SumZeros(k - 1, b);
      assert all[1..] == seq(k - 1, _ => 0 as U64) + [b];
    } else {
      assert all == [b] && all[1..] == [];
    }
  }
}
