/**
 A whole probe clause, from source to assembled program: the predicate, the
 expression statements in order, and the exit (dt_cg() and dt_cg_prologue() in
 libdtrace/dt_cg.c).
 */
module Clause {
  import opened Basics
  import opened Word
  import opened Bpf
  import opened Ir
  import opened Asm
  import opened Registers
  import opened Expr
  import opened CodeGen
  import opened Window
  import opened Labels
  import opened Compile
  import opened Execution
  import opened Correct

  datatype Clause = Clause(pred: Option<Expr>, stmts: seq<Expr>)

  /** pcb_exitlbl; label 2 is pcb_fastlbl, which clauses do not use. */
  const EXIT_LABEL: nat := 1
  const FIRST_LABEL: nat := 3

  const Epilogue: seq<Node> := [Labelled(EXIT_LABEL, MovImm(0, 0)), Plain(Exit)]

  // ----- the generated program -----

  function GenStmts(stmts: seq<Expr>, n: nat): (g: Option<Code>)
    ensures g.Some? ==> g.value.next >= n
  {
    if stmts == [] then Some(Code([], n)) else
    var g := Gen(stmts[0], n, 0);
    if g.None? then None else
    var rest := GenStmts(stmts[1..], g.value.next);
    if rest.None? then None else
    Some(Code(g.value.nodes + FreeCode(0) + rest.value.nodes, rest.value.next))
  }

  function GenPred(pred: Option<Expr>, n: nat): (g: Option<Code>)
    ensures g.Some? ==> g.value.next >= n
  {
    if pred.None? then Some(Code([], n)) else
    var g := Gen(pred.value, n, 0);
    if g.None? then None
    else Some(Code(g.value.nodes + BranchZero(RegAt(0), EXIT_LABEL) + FreeCode(0), g.value.next))
  }

  function GenClause(c: Clause): (g: Option<Code>)
    ensures g.Some? ==> g.value.next >= FIRST_LABEL
  {
    var gp := GenPred(c.pred, FIRST_LABEL);
    if gp.None? then None else
    var gs := GenStmts(c.stmts, gp.value.next);
    if gs.None? then None else
    Some(Code(gp.value.nodes + gs.value.nodes + Epilogue, gs.value.next))
  }

  lemma {:induction false} StmtsExactly(stmts: seq<Expr>, n: nat)
    ensures GenStmts(stmts, n).Some? <==> forall i :: 0 <= i < |stmts| ==> Need(stmts[i]) <= 2 * NREGS
    decreases stmts
  {
    hide Gen, Need;
    if stmts != [] {
      GenExactly(stmts[0], n, 0);
      var g := Gen(stmts[0], n, 0);
      if g.Some? {
        StmtsExactly(stmts[1..], g.value.next);
        assert forall i :: 0 < i < |stmts| ==> stmts[i] == stmts[1..][i - 1];
      }
    }
  }

  /** A clause is compiled exactly if none of its expressions needs more than sixteen
      registers at once. */
  lemma {:induction false} ClauseExactly(c: Clause)
    ensures GenClause(c).Some? <==>
      && (c.pred.Some? ==> Need(c.pred.value) <= 2 * NREGS)
      && forall i :: 0 <= i < |c.stmts| ==> Need(c.stmts[i]) <= 2 * NREGS
  {
    hide Gen, GenStmts, Need;
    if c.pred.Some? { GenExactly(c.pred.value, FIRST_LABEL, 0); }
    var gp := GenPred(c.pred, FIRST_LABEL);
    if gp.Some? { StmtsExactly(c.stmts, gp.value.next); }
  }

  // ----- its meaning -----

  /** Statements in order, until one of them faults. */
  function EvalStmts(stmts: seq<Expr>, vars: Vars): Outcome {
    if stmts == [] then Done(0, vars) else
    match Eval(stmts[0], vars)
    case DivByZero(t) => DivByZero(t)
    case Done(_, t) => EvalStmts(stmts[1..], t)
  }

  function EvalClause(c: Clause, vars: Vars): Outcome {
    if c.pred.None? then EvalStmts(c.stmts, vars) else
    match Eval(c.pred.value, vars)
    case DivByZero(t) => DivByZero(t)
    case Done(a, t) => if a == 0 then Done(0, t) else EvalStmts(c.stmts, t)
  }

  // ----- the generated program is one the assembler accepts -----

  lemma {:induction false} StmtsClosed(stmts: seq<Expr>, n: nat)
    requires n >= 1 && GenStmts(stmts, n).Some?
    ensures Closed(GenStmts(stmts, n).value.nodes, n, GenStmts(stmts, n).value.next)
  {
    hide Closed, Gen;
    if stmts == [] {
      StraightPiece([]);
      ClosedStraight([], n);
    } else {
      var g := Gen(stmts[0], n, 0).value;
      GenClosed(stmts[0], n, 0);
      StmtsClosed(stmts[1..], g.next);
      StraightPiece(FreeCode(0));
      ClosedAppend(g.nodes, FreeCode(0), n, g.next);
      ClosedJoin(g.nodes + FreeCode(0), GenStmts(stmts[1..], g.next).value.nodes, n, g.next,
                 GenStmts(stmts, n).value.next);
    }
  }

  lemma {:induction false} EpiloguePiece()
    ensures Piece(Epilogue, {EXIT_LABEL}, {})
  {
    assert Epilogue[0].lbl == EXIT_LABEL;
  }

  lemma {:induction false} PredPiece(pred: Option<Expr>, n: nat)
    requires n > EXIT_LABEL && GenPred(pred, n).Some?
    ensures var g := GenPred(pred, n).value;
      && Piece(g.nodes, Declared(g.nodes), Declared(g.nodes) + {EXIT_LABEL})
      && forall x :: x in Declared(g.nodes) ==> n <= x < g.next
  {
    hide Gen;
    if pred.None? {
      StraightPiece([]);
    } else {
      hide Piece, Declared;
      GenClosed(pred.value, n, 0);
      var c := Gen(pred.value, n, 0).value.nodes;
      JumpPiece(Plain(JmpImm(Jeq, RegAt(0), 0, EXIT_LABEL)));
      JoinPlain(c, Declared(c), Declared(c), BranchZero(RegAt(0), EXIT_LABEL), {EXIT_LABEL});
      assert c + BranchZero(RegAt(0), EXIT_LABEL) + FreeCode(0) == c + BranchZero(RegAt(0), EXIT_LABEL);
      PieceDeclares(c + BranchZero(RegAt(0), EXIT_LABEL), Declared(c), Declared(c) + {EXIT_LABEL});
    }
  }

  lemma {:induction false} PieceDeclares(c: seq<Node>, decl: set<nat>, targets: set<nat>)
    requires Piece(c, decl, targets)
    ensures Declared(c) == decl
  {
  }

  lemma {:induction false} ClauseClosed(c: Clause)
    requires GenClause(c).Some?
    ensures Closed(GenClause(c).value.nodes, 1, GenClause(c).value.next)
  {
    hide Piece, Declared, GenPred, GenStmts;
    var gp := GenPred(c.pred, FIRST_LABEL).value;
    var gs := GenStmts(c.stmts, gp.next).value;
    PredPiece(c.pred, FIRST_LABEL);
    StmtsClosed(c.stmts, gp.next);
    EpiloguePiece();
    var a, b := gp.nodes, gs.nodes;
    Join(a, Declared(a), Declared(a) + {EXIT_LABEL}, b, Declared(b), Declared(b));
    Join(a + b, Declared(a) + Declared(b), Declared(a) + {EXIT_LABEL} + Declared(b), Epilogue, {EXIT_LABEL}, {});
    CloseUp(a + b + Epilogue, Declared(a) + Declared(b) + {EXIT_LABEL},
            Declared(a) + {EXIT_LABEL} + Declared(b) + {}, 1, gs.next);
  }

  lemma {:induction false} ClosedAssemblable(p: seq<Node>, n: nat, next: nat)
    requires Closed(p, n, next)
    ensures UniqueLabels(p) && WidePaired(p) && BranchesPlaced(p) && BranchesInRange(p, next)
    ensures forall k :: 0 <= k < |p| ==> p[k].lbl < next || p[k].lbl == NO_LABEL
    ensures forall k :: 0 <= k < |p| ==> !BadReloc(p[k])
  {
    forall k | 0 <= k < |p| && p[k].insn.IsBranch()
      ensures 1 <= p[k].insn.off < next && FindLabel(p, p[k].insn.off) >= 0
    {
      assert p[k].insn.off in Declared(p);
      var i :| 0 <= i < |p| && p[i].lbl != NO_LABEL && p[i].lbl == p[k].insn.off;
      FindUnique(p, i);
    }
    forall k | 0 <= k < |p| && p[k].lbl != NO_LABEL
      ensures p[k].lbl < next
    {
      assert p[k].lbl in Declared(p);
    }
  }

  // ----- what the generated program does -----

  /** What the code of an expression leaves behind on its own. */
  function ExecTop(e: Expr, vars: Vars): Outcome {
    match Exec(e, vars, [])
    case Leaves(st, t) => Done(st[0], t)
    case Stops(t) => DivByZero(t)
  }

  /** The same for statements, and for a clause. */
  function ExecStmts(stmts: seq<Expr>, vars: Vars): Outcome {
    if stmts == [] then Done(0, vars)
    else
      match ExecTop(stmts[0], vars)
      case DivByZero(t) => DivByZero(t)
      case Done(_, t) => ExecStmts(stmts[1..], t)
  }

  function ExecClause(c: Clause, vars: Vars): Outcome {
    if c.pred.None? then ExecStmts(c.stmts, vars)
    else
      match ExecTop(c.pred.value, vars)
      case DivByZero(t) => DivByZero(t)
      case Done(a, t) => if a == 0 then Done(0, t) else ExecStmts(c.stmts, t)
  }

  ghost predicate StmtsKnown(stmts: seq<Expr>, keys: set<Var>) {
    forall i :: 0 <= i < |stmts| ==> VarsOf(stmts[i]) <= keys
  }

  /** The clause uses known variables. */
  ghost predicate ClauseKnown(c: Clause, keys: set<Var>) {
    StmtsKnown(c.stmts, keys) && (c.pred.Some? ==> VarsOf(c.pred.value) <= keys)
  }

  /** After the statements: at the next node with the variables they leave, or stopped. */
  ghost predicate StmtsDone(m: Layout, t: State, o: Outcome, pc: int) {
    match o
    case Done(_, vars) => t.pc == pc && Inv(m, t, vars, [], 0)
    case DivByZero(vars) => t.status == Exited && t.fault == DIVZERO && Contents(m, t.mem, vars)
  }

  lemma {:induction false} Pop(m: Layout, s: State, vars: Vars, x: U64)
    requires Inv(m, s, vars, [] + [x], 1)
    ensures Inv(m, s, vars, [], 0) && s.regs[RegAt(0)] == x
  {
    Top(m, s, vars, [], x, 1);
  }

  lemma {:induction false} RunExpr(e: Expr, n: nat, p: seq<Node>, k: nat, m: Layout, s: State, vars: Vars)
    returns (t: State)
    requires n >= 1 && Gen(e, n, 0).Some? && CodeAt(p, k, Gen(e, n, 0).value.nodes) && UniqueLabels(p)
    requires s.pc == k && Inv(m, s, vars, [], 0)
    requires VarsOf(e) <= vars.Keys
    ensures Reaches(p, s, t) && StmtsDone(m, t, ExecTop(e, vars), k + |Gen(e, n, 0).value.nodes|)
    ensures ExecTop(e, vars).Done? ==> t.regs[RegAt(0)] == ExecTop(e, vars).value
    ensures ExecTop(e, vars).vars.Keys == vars.Keys
  {
    hide Inv, Gen, Exec, VarsOf, UniqueLabels, CodeAt, Reaches, Contents;
    t := GenLeaves(e, n, Gen(e, n, 0), p, k, m, s, vars, []);
    ExecKeys(e, vars, []);
    var o := Exec(e, vars, []);
    if o.Leaves? {
      assert o.stack == [] + [o.stack[0]];
      Pop(m, t, o.vars, o.stack[0]);
    }
  }

  lemma {:induction false} RunStmts(stmts: seq<Expr>, n: nat, p: seq<Node>, k: nat, m: Layout, s: State, vars: Vars)
    returns (t: State)
    requires n >= 1 && GenStmts(stmts, n).Some? && CodeAt(p, k, GenStmts(stmts, n).value.nodes) && UniqueLabels(p)
    requires s.pc == k && Inv(m, s, vars, [], 0) && StmtsKnown(stmts, vars.Keys)
    ensures Reaches(p, s, t) && StmtsDone(m, t, ExecStmts(stmts, vars), k + |GenStmts(stmts, n).value.nodes|)
    decreases stmts
  {
    hide Inv, Gen, ExecTop, VarsOf, UniqueLabels, Contents;
    if stmts == [] {
      t := s;
      ReachSelf(p, s);
    } else {
      var g := Gen(stmts[0], n, 0).value;
      var rest := GenStmts(stmts[1..], g.next).value.nodes;
      assert GenStmts(stmts, n).value.nodes == g.nodes + rest;
      CodeSplit(p, k, g.nodes, rest);
      t := RunExpr(stmts[0], n, p, k, m, s, vars);
      var o := ExecTop(stmts[0], vars);
      if o.Done? {
        var u := RunStmts(stmts[1..], g.next, p, k + |g.nodes|, m, t, o.vars);
        ReachTrans(p, s, t, u);
        t := u;
      }
    }
  }

  /** The clause has run to its end. */
  ghost predicate Finished(m: Layout, t: State, o: Outcome) {
    && t.status == Exited && Contents(m, t.mem, o.vars)
    && (if o.Done? then t.fault == 0 && t.regs[0] == 0 else t.fault == DIVZERO)
  }

  lemma {:induction false} RunEpilogue(p: seq<Node>, k: nat, m: Layout, s: State, vars: Vars) returns (t: State)
    requires CodeAt(p, k, Epilogue) && s.pc == k && Inv(m, s, vars, [], 0)
    ensures Reaches(p, s, t) && Finished(m, t, Done(0, vars))
  {
    CodeNode(p, k, Epilogue, 0);
    CodeNode(p, k, Epilogue, 1);
    var u := StepIr(p, s);
    ReachStep(p, s);
    assert u.regs[0] == 0 && u.status == Running && u.pc == k + 1;
    t := StepIr(p, u);
    ReachStep(p, u);
    ReachTrans(p, s, u, t);
  }

  /** The predicate: past it, at the exit, or stopped. */
  lemma {:induction false} RunPred(pred: Expr, n: nat, p: seq<Node>, q: nat, m: Layout, s: State, vars: Vars)
    returns (t: State)
    requires n >= 1 && GenPred(Some(pred), n).Some? && CodeAt(p, 0, GenPred(Some(pred), n).value.nodes)
    requires UniqueLabels(p)
    requires q < |p| && p[q].lbl == EXIT_LABEL
    requires s.pc == 0 && Inv(m, s, vars, [], 0)
    requires VarsOf(pred) <= vars.Keys
    ensures Reaches(p, s, t) && ExecTop(pred, vars).vars.Keys == vars.Keys
    ensures var o := ExecTop(pred, vars);
      StmtsDone(m, t, o, if o.Done? && o.value == 0 then q else |GenPred(Some(pred), n).value.nodes|)
  {
    hide Inv, Gen, ExecTop, VarsOf, UniqueLabels, Contents;
    var a := Gen(pred, n, 0).value.nodes;
    var b := BranchZero(RegAt(0), EXIT_LABEL);
    assert GenPred(Some(pred), n).value.nodes == a + b;
    CodeSplit(p, 0, a, b);
    CodeNode(p, |a|, b, 0);
    t := RunExpr(pred, n, p, 0, m, s, vars);
    var o := ExecTop(pred, vars);
    if o.Done? {
      var u := StepAway(p, m, t, o.vars, [], 0, q);
      ReachTrans(p, s, t, u);
      t := u;
    }
  }

  /** Where the parts of a clause's program are. */
  lemma {:induction false} ClauseSplit(c: Clause)
    requires GenClause(c).Some?
    ensures var p := GenClause(c).value.nodes;
      var gp := GenPred(c.pred, FIRST_LABEL).value;
      var gs := GenStmts(c.stmts, gp.next).value;
      var q := |gp.nodes| + |gs.nodes|;
      && UniqueLabels(p) && CodeAt(p, 0, gp.nodes) && CodeAt(p, |gp.nodes|, gs.nodes) && CodeAt(p, q, Epilogue)
      && q < |p| && p[q].lbl == EXIT_LABEL
  {
    hide Closed, GenPred, GenStmts, UniqueLabels, CodeAt;
    var p := GenClause(c).value.nodes;
    var gp := GenPred(c.pred, FIRST_LABEL).value;
    var gs := GenStmts(c.stmts, gp.next).value;
    ClauseClosed(c);
    ClosedUnique(p, 1, GenClause(c).value.next);
    CodeWhole(p);
    CodeSplit(p, 0, gp.nodes + gs.nodes, Epilogue);
    CodeSplit(p, 0, gp.nodes, gs.nodes);
    CodeNode(p, |gp.nodes| + |gs.nodes|, Epilogue, 0);
  }

  lemma {:induction false} ClosedUnique(p: seq<Node>, n: nat, next: nat)
    requires Closed(p, n, next)
    ensures UniqueLabels(p)
  {
  }

  lemma {:induction false} CodeWhole(p: seq<Node>)
    ensures CodeAt(p, 0, p)
  {
  }

  /** The statements and the exit. */
  lemma {:induction false} RunBody(c: Clause, k: nat, m: Layout, s: State, vars: Vars) returns (t: State)
    requires GenClause(c).Some? && StmtsKnown(c.stmts, vars.Keys)
    requires k == |GenPred(c.pred, FIRST_LABEL).value.nodes| && s.pc == k && Inv(m, s, vars, [], 0)
    ensures Reaches(GenClause(c).value.nodes, s, t) && Finished(m, t, ExecStmts(c.stmts, vars))
  {
    hide Inv, UniqueLabels, Contents, GenStmts, ExecStmts, GenPred, StmtsKnown, CodeAt, Reaches;
    var p := GenClause(c).value.nodes;
    var gp := GenPred(c.pred, FIRST_LABEL).value;
    var gs := GenStmts(c.stmts, gp.next).value;
    ClauseSplit(c);
    t := RunStmts(c.stmts, gp.next, p, k, m, s, vars);
    var o := ExecStmts(c.stmts, vars);
    if o.Done? {
      var u := RunEpilogue(p, k + |gs.nodes|, m, t, o.vars);
      ReachTrans(p, s, t, u);
      t := u;
    }
  }

  /** From any state that represents the variables, the program of a clause stops, and
      leaves the variables as ExecClause says. */
  lemma {:induction false} ClauseLeaves(c: Clause, m: Layout, s: State, vars: Vars) returns (t: State)
    requires GenClause(c).Some? && ClauseKnown(c, vars.Keys)
    requires s.pc == 0 && Rep(m, s, vars)
    ensures Reaches(GenClause(c).value.nodes, s, t) && Finished(m, t, ExecClause(c, vars))
  {
    hide Rep, UniqueLabels, Contents, VarsOf, ExecTop, GenStmts, ExecStmts, CodeAt, Reaches;
    assert Inv(m, s, vars, [], 0);
    hide Inv;
    if c.pred.None? {
      NoPred(FIRST_LABEL);
      t := RunBody(c, 0, m, s, vars);
    } else {
      hide GenPred;
      var p := GenClause(c).value.nodes;
      var gp := GenPred(c.pred, FIRST_LABEL).value;
      var q := |gp.nodes| + |GenStmts(c.stmts, gp.next).value.nodes|;
      ClauseSplit(c);
      assert c.pred == Some(c.pred.value);
      t := RunPred(c.pred.value, FIRST_LABEL, p, q, m, s, vars);
      var o := ExecTop(c.pred.value, vars);
      if o.Done? {
        var u: State;
        if o.value == 0 {
          u := RunEpilogue(p, q, m, t, o.vars);
        } else {
          u := RunBody(c, |gp.nodes|, m, t, o.vars);
        }
        ReachTrans(p, s, t, u);
        t := u;
      }
    }
  }

  lemma {:induction false} NoPred(n: nat)
    ensures GenPred(None, n) == Some(Code([], n))
  {
  }

  lemma {:induction false} RunStops(code: seq<Insn>, s: State, m: nat, n: nat)
    requires Run(code, s, m).status == Exited
    ensures n >= m ==> Run(code, s, n) == Run(code, s, m)
    ensures n < m && Run(code, s, n).status == Exited ==> Run(code, s, n) == Run(code, s, m)
    decreases m + n
  {
    if m > 0 && n > 0 {
      RunStops(code, Step(code, s), m - 1, n - 1);
    } else if n > 0 {
      RunStops(code, s, 0, n - 1);
    } else if m > 0 && s.status == Exited {
      RunStops(code, s, m - 1, 0);
    }
  }

  /** The assembled program of a clause: it stops, and every run of it that has
      stopped is one that has left the variables as ExecClause says. */
  lemma {:induction false} ProgramLeaves(c: Clause, code: seq<Insn>, m: Layout, s: State, vars: Vars) returns (n: nat)
    requires GenClause(c).Some? && ClauseKnown(c, vars.Keys)
    requires IsAssembly(GenClause(c).value.nodes, code) && |code| <= 0x8000
    requires s.pc == 0 && Rep(m, s, vars)
    ensures Finished(m, Run(code, s, n), ExecClause(c, vars))
    ensures forall n' :: Run(code, s, n').status == Exited ==> Finished(m, Run(code, s, n'), ExecClause(c, vars))
  {
    hide Rep, Contents, GenClause, ExecClause, Closed;
    var p := GenClause(c).value.nodes;
    var t := ClauseLeaves(c, m, s, vars);
    ClauseClosed(c);
    ClosedAssemblable(p, 1, GenClause(c).value.next);
    var i: nat :| RunIr(p, s, i) == t;
    assert Image(p, s) == s;
    n := RunMatches(p, code, s, i);
    forall n': nat | Run(code, s, n').status == Exited
      ensures Finished(m, Run(code, s, n'), ExecClause(c, vars))
    {
      RunStops(code, s, n, n');
    }
  }

  // ----- producing it -----

  // ----- it does what the clause means -----

  /** No comparison or ?: of the clause is nested so deeply that its code has to spill. */
  ghost predicate ClauseSafe(c: Clause, keys: set<Var>) {
    && ClauseKnown(c, keys) && (c.pred.Some? ==> SpillSafe(c.pred.value, 0))
    && forall i :: 0 <= i < |c.stmts| ==> SpillSafe(c.stmts[i], 0)
  }

  lemma {:induction false} TopAgrees(e: Expr, vars: Vars)
    requires SpillSafe(e, 0)
    ensures ExecTop(e, vars) == Eval(e, vars)
  {
    hide Exec, Eval, SpillSafe;
    AgreeAlways(e, vars, []);
    var o := Eval(e, vars);
    if o.Done? { assert ([] + [o.value])[0] == o.value; }
  }

  lemma {:induction false} StmtsAgree(stmts: seq<Expr>, vars: Vars)
    requires forall i :: 0 <= i < |stmts| ==> SpillSafe(stmts[i], 0)
    ensures ExecStmts(stmts, vars) == EvalStmts(stmts, vars)
    decreases stmts
  {
    hide ExecTop, Eval, SpillSafe;
    if stmts != [] {
      TopAgrees(stmts[0], vars);
      StmtsAgree(stmts[1..], Eval(stmts[0], vars).vars);
    }
  }

  lemma {:induction false} ClauseAgrees(c: Clause, vars: Vars)
    requires ClauseSafe(c, vars.Keys)
    ensures ExecClause(c, vars) == EvalClause(c, vars)
  {
    hide ExecTop, Eval, SpillSafe, ExecStmts, EvalStmts;
    StmtsAgree(c.stmts, vars);
    if c.pred.Some? {
      TopAgrees(c.pred.value, vars);
      StmtsAgree(c.stmts, Eval(c.pred.value, vars).vars);
    }
  }

  /** From any state that represents the variables, the program of a clause stops, with the
      variables as the clause's meaning says, and with a fault exactly when evaluating it
      divides by zero. */
  lemma {:induction false} ClauseRuns(c: Clause, m: Layout, s: State, vars: Vars) returns (t: State)
    requires GenClause(c).Some? && ClauseSafe(c, vars.Keys)
    requires s.pc == 0 && Rep(m, s, vars)
    ensures Reaches(GenClause(c).value.nodes, s, t) && Finished(m, t, EvalClause(c, vars))
  {
    hide Rep, Reaches, ExecClause, EvalClause, GenClause, ClauseKnown, Finished;
    ClauseAgrees(c, vars);
    t := ClauseLeaves(c, m, s, vars);
  }

  /** And so does its assembled program: it stops, and every run of it that has stopped is one
      that did what the clause means. */
  lemma {:induction false} ProgramCorrect(c: Clause, code: seq<Insn>, m: Layout, s: State, vars: Vars) returns (n: nat)
    requires GenClause(c).Some? && ClauseSafe(c, vars.Keys)
    requires IsAssembly(GenClause(c).value.nodes, code) && |code| <= 0x8000
    requires s.pc == 0 && Rep(m, s, vars)
    ensures Finished(m, Run(code, s, n), EvalClause(c, vars))
    ensures forall n' :: Run(code, s, n').status == Exited ==> Finished(m, Run(code, s, n'), EvalClause(c, vars))
  {
    hide Rep, ExecClause, EvalClause, GenClause, ClauseKnown, Finished, IsAssembly;
    ClauseAgrees(c, vars);
    n := ProgramLeaves(c, code, m, s, vars);
  }

  lemma {:induction false} NoStmts(n: nat)
    ensures GenStmts([], n) == Some(Code([], n))
  {
  }

  lemma {:induction false} StmtsUnfold(stmts: seq<Expr>, i: nat, n: nat, acc: seq<Node>)
    requires i < |stmts|
    ensures var g := Gen(stmts[i], n, 0);
      var all := GenStmts(stmts[i..], n);
      if g.None? then all.None? else
      var rest := GenStmts(stmts[i + 1..], g.value.next);
      && all.Some? == rest.Some?
      && (all.Some? ==> all.value.next == rest.value.next &&
                        acc + all.value.nodes == acc + g.value.nodes + FreeCode(0) + rest.value.nodes)
  {
    hide Gen;
    assert stmts[i..][0] == stmts[i] && stmts[i..][1..] == stmts[i + 1..];
  }

  /** The statements of a clause, one after the other. */
  method TranslateStmts(gen: Generator, stmts: seq<Expr>) returns (ok: bool)
    requires gen.Ready(0)
    modifies gen.ir, gen.regs
    ensures var g := GenStmts(stmts, old(gen.ir.nextLabel));
      && ok == g.Some?
      && (ok ==> gen.Ready(0) && gen.ir.nodes == old(gen.ir.nodes) + g.value.nodes && gen.ir.nextLabel == g.value.next)
  {
    hide Gen, GenStmts, Generator.Ready;
    ghost var was, n := gen.ir.nodes, gen.ir.nextLabel;
    ghost var acc: seq<Node> := [];
    assert stmts[0..] == stmts && was + [] == was;
    var i := 0;
    while i < |stmts|
      invariant 0 <= i <= |stmts| && gen.Ready(0)
      invariant gen.ir.nodes == was + acc
      invariant var rest := GenStmts(stmts[i..], gen.ir.nextLabel);
        && GenStmts(stmts, n).Some? == rest.Some?
        && (rest.Some? ==> GenStmts(stmts, n).value == Code(acc + rest.value.nodes, rest.value.next))
    {
      ghost var g := Gen(stmts[i], gen.ir.nextLabel, 0);
      StmtsUnfold(stmts, i, gen.ir.nextLabel, acc);
      var done, reg := gen.GenNode(stmts[i], 0);
      if !done { return false; }
      EmptyPrefix(g.value.nodes, g.value.nodes);
      assert was + acc + g.value.nodes == was + (acc + g.value.nodes);
      gen.Free(reg, 0, was, acc + g.value.nodes);
      acc := acc + g.value.nodes + FreeCode(0);
      i := i + 1;
    }
    NoStmts(gen.ir.nextLabel);
    assert stmts[i..] == [] && acc + [] == acc;
    ok := true;
  }

  /** The predicate of a clause: leave if it is zero. */
  method TranslatePred(gen: Generator, pred: Option<Expr>) returns (ok: bool)
    requires gen.Ready(0) && gen.ir.nodes == [] && gen.ir.nextLabel == FIRST_LABEL
    modifies gen.ir, gen.regs
    ensures var g := GenPred(pred, FIRST_LABEL);
      && ok == g.Some?
      && (ok ==> gen.Ready(0) && gen.ir.nodes == g.value.nodes && gen.ir.nextLabel == g.value.next)
  {
    hide Gen, Generator.Ready;
    if pred.Some? {
      var done, reg := gen.GenNode(pred.value, 0);
      if !done { return false; }
      ghost var g := Gen(pred.value, FIRST_LABEL, 0).value;
      EmptyPrefix(g.nodes, g.nodes);
      gen.Emit(BranchZero(reg, EXIT_LABEL), 1, [], g.nodes);
      gen.Free(reg, 0, [], g.nodes + BranchZero(reg, EXIT_LABEL));
      ghost var acc := g.nodes + BranchZero(reg, EXIT_LABEL) + FreeCode(0);
      EmptyPrefix(acc, acc);
    }
    ok := true;
  }

  /** dt_cg() for a clause. */
  method Translate(c: Clause) returns (ok: bool, gen: Generator)
    ensures ok == GenClause(c).Some? && fresh(gen.ir)
    ensures ok ==> gen.ir.Valid() && gen.ir.nodes == GenClause(c).value.nodes
    ensures ok ==> gen.ir.nextLabel == GenClause(c).value.next
  {
    hide Gen, GenStmts, GenPred;
    gen := new Generator();
    var _ := gen.FreshLabels(2, 0);
    ok := TranslatePred(gen, c.pred);
    if !ok { return; }
    ghost var acc := gen.ir.nodes;
    ghost var gs := GenStmts(c.stmts, gen.ir.nextLabel);
    ok := TranslateStmts(gen, c.stmts);
    if ok {
      gen.Emit(Epilogue, 0, acc, gs.value.nodes);
      assert acc + (gs.value.nodes + Epilogue) == acc + gs.value.nodes + Epilogue;
    }
  }

  /** From clause to instructions.  Only running out of registers stops it: the
      assembler never refuses what the code generator produces. */
  method CompileClause(c: Clause) returns (r: Option<seq<Insn>>, relocs: seq<Reloc>)
    ensures r.Some? == GenClause(c).Some?
    ensures r.Some? ==> IsAssembly(GenClause(c).value.nodes, r.value)
    ensures r.Some? ==> relocs == Relocs(GenClause(c).value.nodes, |GenClause(c).value.nodes|)
  {
    hide GenClause, Closed;
    r, relocs := None, [];
    var ok, gen := Translate(c);
    if ok {
      ClauseClosed(c);
      ClosedAssemblable(gen.ir.nodes, 1, gen.ir.nextLabel);
      var code, rel := Assemble(gen.ir);
      r, relocs := Some(code.value), rel;
    }
  }
}
