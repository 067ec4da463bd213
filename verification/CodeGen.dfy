/**
 The code generator for integer expressions, dt_cg_node() and the functions it
 calls in libdtrace/dt_cg.c.

 `Gen` says which instructions are generated for an expression when `d` registers
 are in use and `n` is the next unused label; the methods of `Generator` produce
 them the way the source does, by appending to the instruction list and allocating
 registers as they go.
 */
module CodeGen {
  import opened Basics
  import opened Word
  import opened Bpf
  import opened Ir
  import opened Registers
  import opened Expr

  const DT_STK_DCTX := -8
  const DCTX_GVARS := 72
  const DCTX_LVARS := 80
  const DIVZERO := 4

  /** dt_cg_setx: a 64-bit immediate takes two slots. */
  function SetX(r: Reg, x: U64): seq<Node> {
    [Plain(Lddw(r, x % 0x1_0000_0000)), Plain(LddwHi(x / 0x1_0000_0000))]
  }

  function LoadImm(r: Reg, x: U64): seq<Node> {
    if x > 0x7fff_ffff then SetX(r, x) else [Plain(MovImm(r, x))]
  }

  function Member(scope: Scope): int {
    if scope == Global then DCTX_GVARS else DCTX_LVARS
  }

  /** dt_cg_access_dctx in a clause: the base of a scope's variable storage. */
  function AccessVars(r: Reg, scope: Scope): seq<Node> {
    [Plain(LoadMem(8, r, FP, DT_STK_DCTX)), Plain(LoadMem(8, r, r, Member(scope)))]
  }

  /** The number of bits by which a narrower type misses a full register. */
  function Gap(t: Type): nat {
    64 - 8 * t.size
  }

  /** dt_cg_promote: sign-extend a narrow signed value. */
  function PromoteCode(t: Type, r: Reg): seq<Node> {
    if t.signed && t.size < 8
    then [Plain(AluImm(Lsh, r, Gap(t))), Plain(AluImm(Arsh, r, Gap(t)))] else []
  }

  /** dt_cg_typecast within one register. */
  function CastCode(src: Type, dst: Type, r: Reg): seq<Node> {
    if NoCast(src, dst) then []
    else [Plain(AluImm(Lsh, r, Gap(dst))), Plain(AluImm(if dst.signed then Arsh else Rsh, r, Gap(dst)))]
  }

  /** dt_cg_probe_error for a fault with illegal value 0. */
  const ProbeErrorCode: seq<Node> :=
    [Plain(MovImm(4, 0)),
     Plain(LoadMem(8, 1, FP, DT_STK_DCTX)),
     External(MovImm(2, -1), "PC"),
     Plain(AluImm(Add, 2, 3)),
     Plain(MovImm(3, DIVZERO)),
     External(Call(ProbeError), "dt_probe_error"),
     Plain(Exit)]

  /** Signed division and remainder in terms of the unsigned instruction; the six
      labels from `n` on are L1 to L5 and the one past the zero check. */
  function SignedDivision(op: AluOp, a: Reg, b: Reg, n: nat): seq<Node> {
    [Plain(JmpImm(Jne, b, 0, n + 5))] +
    ProbeErrorCode +
    [Labelled(n + 5, NOP),
     Plain(JmpImm(Jslt, a, 0, n + 2)),
     Plain(JmpImm(Jslt, b, 0, n)),
     Plain(Jump(n + 3)),
     Labelled(n, NegReg(b)),
     Labelled(n + 1, AluReg(op, a, b)),
     Plain(NegReg(a)),
     Plain(Jump(n + 4)),
     Labelled(n + 2, NegReg(a)),
     Plain(JmpImm(Jsge, b, 0, n + 1)),
     Plain(NegReg(b)),
     Labelled(n + 3, AluReg(op, a, b)),
     Labelled(n + 4, NOP)]
  }

  function OpcodeOf(op: BinOp, signed: bool): AluOp {
    match op
    case Plus => Add
    case Minus => Sub
    case Times => Mul
    case Divide => Div
    case Modulo => Mod
    case BAnd => And
    case BOr => Or
    case BXor => Xor
    case LShift => Lsh
    case RShift => if signed then Arsh else Rsh
  }

  predicate IsSignedDivision(op: BinOp, signed: bool) {
    (op == Divide || op == Modulo) && signed
  }

  /** The operation proper of dt_cg_arithmetic_op. */
  function OpCode(op: BinOp, signed: bool, a: Reg, b: Reg, n: nat): seq<Node> {
    if IsSignedDivision(op, signed) then SignedDivision(OpcodeOf(op, signed), a, b, n)
    else [Plain(AluReg(OpcodeOf(op, signed), a, b))]
  }

  function OpLabels(op: BinOp, signed: bool): nat {
    if IsSignedDivision(op, signed) then 6 else 0
  }

  function JumpFor(cmp: CmpOp, signed: bool): JmpOp {
    match cmp
    case Equal => Jeq
    case NotEqual => Jne
    case Less => if signed then Jslt else Jlt
    case LessEqual => if signed then Jsle else Jle
    case Greater => if signed then Jsgt else Jgt
    case GreaterEqual => if signed then Jsge else Jge
  }

  predicate ComparesSigned(l: Expr, r: Expr) {
    Promote(TypeOf(l), TypeOf(r)).signed
  }

  function BranchZero(r: Reg, l: nat): seq<Node> {
    [Plain(JmpImm(Jeq, r, 0, l))]
  }

  // The code of each kind of expression, from the code of its operands.  The result
  // is in RegAt(d), a second operand in RegAt(d + 1).

  /** dt_cg_load_var of a global or local scalar. */
  function GetNodes(v: Var, d: nat): seq<Node>
    requires d < 2 * NREGS
  {
    AllocCode(d) + AccessVars(RegAt(d), v.scope) +
    [Plain(LoadMem(v.ty.size, RegAt(d), RegAt(d), v.offset))] + PromoteCode(v.ty, RegAt(d))
  }

  /** dt_cg_asgn_op to a variable: dt_cg_store_var. */
  function StoreNodes(a: seq<Node>, v: Var, d: nat): seq<Node>
    requires d + 1 < 2 * NREGS
  {
    a + AllocCode(d + 1) + AccessVars(RegAt(d + 1), v.scope) +
    [Plain(StoreMem(v.ty.size, RegAt(d + 1), v.offset, RegAt(d)))] + FreeCode(d + 1)
  }

  function BinaryNodes(a: seq<Node>, b: seq<Node>, op: BinOp, signed: bool, n: nat, d: nat): seq<Node>
    requires d + 1 < 2 * NREGS
  {
    a + b + OpCode(op, signed, RegAt(d), RegAt(d + 1), n) + FreeCode(d + 1)
  }

  function CompareNodes(a: seq<Node>, b: seq<Node>, j: JmpOp, n: nat, d: nat): seq<Node>
    requires d + 1 < 2 * NREGS
  {
    a + b + [Plain(JmpReg(j, RegAt(d), RegAt(d + 1), n))] + FreeCode(d + 1) +
    [Plain(MovImm(RegAt(d), 0)), Plain(Jump(n + 1)), Labelled(n, MovImm(RegAt(d), 1)), Labelled(n + 1, NOP)]
  }

  function CondPrefix(c: seq<Node>, a: seq<Node>, n: nat, d: nat): seq<Node>
    requires d < 2 * NREGS
  {
    c + BranchZero(RegAt(d), n) + FreeCode(d) + a
  }

  function CondNodes(c: seq<Node>, a: seq<Node>, b: seq<Node>, n: nat, d: nat): seq<Node>
    requires d < 2 * NREGS
  {
    CondPrefix(c, a, n, d) + [Plain(MovReg(RegAt(d), RegAt(d)))] + FreeCode(d) +
    [Plain(Jump(n + 1)), Labelled(n, NOP)] + b + [Labelled(n + 1, NOP)]
  }

  /** The end of &&: 1 unless %r is zero; label `n` is where it is 0. */
  function AndTail(r: Reg, n: nat): seq<Node> {
    [Plain(JmpImm(Jeq, r, 0, n))] + SetX(r, 1) +
    [Plain(Jump(n + 1)), Labelled(n, MovImm(r, 0)), Labelled(n + 1, NOP)]
  }

  function AndNodes(a: seq<Node>, b: seq<Node>, n: nat, d: nat): seq<Node>
    requires d < 2 * NREGS
  {
    a + BranchZero(RegAt(d), n) + FreeCode(d) + b + AndTail(RegAt(d), n)
  }

  /** The end of ||: label `n` is where it is 1, label `n` + 1 where it is 0. */
  function OrTail(r: Reg, n: nat): seq<Node> {
    [Plain(JmpImm(Jeq, r, 0, n + 1)), Labelled(n, MovImm(r, 1)), Plain(Jump(n + 2)),
     Labelled(n + 1, MovImm(r, 0)), Labelled(n + 2, NOP)]
  }

  function OrNodes(a: seq<Node>, b: seq<Node>, n: nat, d: nat): seq<Node>
    requires d < 2 * NREGS
  {
    a + [Plain(JmpImm(Jne, RegAt(d), 0, n))] + FreeCode(d) + b + OrTail(RegAt(d), n)
  }

  /** Replace a non-zero %r by 1; label `l` is on the instruction after that. */
  function TruthCode(r: Reg, l: nat, last: Insn): (c: seq<Node>)
    ensures forall i :: 0 <= i < |c| ==> c[i].lbl == NO_LABEL || c[i].lbl == l
  {
    [Plain(JmpImm(Jeq, r, 0, l))] + SetX(r, 1) + [Labelled(l, last)]
  }

  function XorNodes(a: seq<Node>, b: seq<Node>, n: nat, d: nat): seq<Node>
    requires d + 1 < 2 * NREGS
  {
    a + TruthCode(RegAt(d), n, NOP) + b +
    TruthCode(RegAt(d + 1), n + 1, AluReg(Xor, RegAt(d), RegAt(d + 1))) + FreeCode(d + 1)
  }

  function NotTail(r: Reg, n: nat): seq<Node> {
    [Plain(JmpImm(Jeq, r, 0, n)),
     Plain(MovImm(r, 0)), Plain(Jump(n + 1)), Labelled(n, MovImm(r, 1)), Labelled(n + 1, NOP)]
  }

  function NotNodes(a: seq<Node>, n: nat, d: nat): seq<Node>
    requires d < 2 * NREGS
  {
    a + NotTail(RegAt(d), n)
  }

  predicate IsUnary(e: Expr) {
    e.BitNot? || e.Negate? || e.UnaryPlus? || e.Cast?
  }

  /** What follows the operand of a branch-free unary operator. */
  function UnaryCode(e: Expr, r: Reg): seq<Node>
    requires IsUnary(e)
  {
    match e
    case BitNot(_, _) => [Plain(AluImm(Xor, r, -1))]
    case Negate(_, _) => [Plain(NegReg(r))]
    case UnaryPlus(_, _) => []
    case Cast(ty, x) => CastCode(TypeOf(x), ty, r)
  }

  /** Generated code, and the next unused label; None when registers run out. */
  datatype Code = Code(nodes: seq<Node>, next: nat)

  /** The code for `e` when `d` registers are in use and `n` is the next label. */
  function Gen(e: Expr, n: nat, d: nat): (g: Option<Code>)
    ensures g.Some? ==> d < 2 * NREGS && g.value.next >= n
    decreases e, 1
  {
    match e
    case Int(x, _) => if d < 2 * NREGS then Some(Code(AllocCode(d) + LoadImm(RegAt(d), x), n)) else None
    case Get(v) => GenGet(v, n, d)
    case Binary(op, ty, l, r) => GenBinary(op, ty.signed, Gen(l, n, d), r, d)
    case Compare(_, _, _) => GenCompare(e, n, d)
    case Cond(_, _, _, _) => GenCond(e, n, d)
    case LogAnd(_, _) => GenAnd(e, n, d)
    case LogOr(_, _) => GenOr(e, n, d)
    case LogXor(_, _) => GenXor(e, n, d)
    case LogNot(_) => GenNot(e, n, d)
    case BitNot(_, _) => GenUnary(e, n, d)
    case Negate(_, _) => GenUnary(e, n, d)
    case UnaryPlus(_, _) => GenUnary(e, n, d)
    case Comma(_, _) => GenComma(e, n, d)
    case Cast(_, _) => GenUnary(e, n, d)
    case Assign(v, x) => GenStore(v, Gen(x, n, d), d)
    case AssignOp(op, ty, v, x) => GenStore(v, GenBinary(op, ty.signed, GenGet(v, n, d), x, d), d)
  }

  function GenCompare(e: Expr, n: nat, d: nat): (g: Option<Code>)
    requires e.Compare?
    ensures g.Some? ==> d + 1 < 2 * NREGS && g.value.next >= n + 2
    decreases e, 0
  {
    var gl := Gen(e.l, n + 2, d);
    if gl.None? then None else
    var gr := Gen(e.r, gl.value.next, d + 1);
    if gr.None? then None else
    Some(Code(CompareNodes(gl.value.nodes, gr.value.nodes, JumpFor(e.cmp, ComparesSigned(e.l, e.r)), n, d),
              gr.value.next))
  }

  function GenCond(e: Expr, n: nat, d: nat): (g: Option<Code>)
    requires e.Cond?
    ensures g.Some? ==> d < 2 * NREGS && g.value.next >= n + 2
    decreases e, 0
  {
    var gc := Gen(e.c, n + 2, d);
    if gc.None? then None else
    var gl := Gen(e.l, gc.value.next, d);
    if gl.None? then None else
    var gr := Gen(e.r, gl.value.next, d);
    if gr.None? then None else
    Some(Code(CondNodes(gc.value.nodes, gl.value.nodes, gr.value.nodes, n, d), gr.value.next))
  }

  function GenAnd(e: Expr, n: nat, d: nat): (g: Option<Code>)
    requires e.LogAnd?
    ensures g.Some? ==> d < 2 * NREGS && g.value.next >= n + 2
    decreases e, 0
  {
    var gl := Gen(e.l, n + 2, d);
    if gl.None? then None else
    var gr := Gen(e.r, gl.value.next, d);
    if gr.None? then None else Some(Code(AndNodes(gl.value.nodes, gr.value.nodes, n, d), gr.value.next))
  }

  function GenOr(e: Expr, n: nat, d: nat): (g: Option<Code>)
    requires e.LogOr?
    ensures g.Some? ==> d < 2 * NREGS && g.value.next >= n + 3
    decreases e, 0
  {
    var gl := Gen(e.l, n + 3, d);
    if gl.None? then None else
    var gr := Gen(e.r, gl.value.next, d);
    if gr.None? then None else Some(Code(OrNodes(gl.value.nodes, gr.value.nodes, n, d), gr.value.next))
  }

  function GenXor(e: Expr, n: nat, d: nat): (g: Option<Code>)
    requires e.LogXor?
    ensures g.Some? ==> d + 1 < 2 * NREGS && g.value.next >= n + 2
    decreases e, 0
  {
    var gl := Gen(e.l, n + 2, d);
    if gl.None? then None else
    var gr := Gen(e.r, gl.value.next, d + 1);
    if gr.None? then None else Some(Code(XorNodes(gl.value.nodes, gr.value.nodes, n, d), gr.value.next))
  }

  function GenNot(e: Expr, n: nat, d: nat): (g: Option<Code>)
    requires e.LogNot?
    ensures g.Some? ==> d < 2 * NREGS && g.value.next >= n + 2
    decreases e, 0
  {
    var g := Gen(e.e, n + 2, d);
    if g.None? then None else Some(Code(NotNodes(g.value.nodes, n, d), g.value.next))
  }

  function GenUnary(e: Expr, n: nat, d: nat): (g: Option<Code>)
    requires IsUnary(e)
    ensures g.Some? ==> d < 2 * NREGS && g.value.next >= n
    decreases e, 0
  {
    var g := Gen(e.e, n, d);
    if g.None? then None else Some(Code(g.value.nodes + UnaryCode(e, RegAt(d)), g.value.next))
  }

  function GenComma(e: Expr, n: nat, d: nat): (g: Option<Code>)
    requires e.Comma?
    ensures g.Some? ==> d < 2 * NREGS && g.value.next >= n
    decreases e, 0
  {
    var gl := Gen(e.l, n, d);
    if gl.None? then None else
    var gr := Gen(e.r, gl.value.next, d);
    if gr.None? then None else Some(Code(gl.value.nodes + FreeCode(d) + gr.value.nodes, gr.value.next))
  }

  function GenGet(v: Var, n: nat, d: nat): (g: Option<Code>)
    ensures g.Some? ==> d < 2 * NREGS && g.value.next == n
  {
    if d < 2 * NREGS then Some(Code(GetNodes(v, d), n)) else None
  }

  /** dt_cg_arithmetic_op, given the code of its left operand. */
  function GenBinary(op: BinOp, signed: bool, gl: Option<Code>, r: Expr, d: nat): (g: Option<Code>)
    ensures g.Some? ==> d + 1 < 2 * NREGS && gl.Some? && g.value.next >= gl.value.next
    decreases r, 2
  {
    if gl.None? then None else
    var gr := Gen(r, gl.value.next, d + 1);
    if gr.None? then None else
    Some(Code(BinaryNodes(gl.value.nodes, gr.value.nodes, op, signed, gr.value.next, d),
              gr.value.next + OpLabels(op, signed)))
  }

  function GenStore(v: Var, g: Option<Code>, d: nat): (g': Option<Code>)
    ensures g'.Some? ==> d + 1 < 2 * NREGS && g.Some? && g'.value.next == g.value.next
  {
    if g.None? || d + 1 >= 2 * NREGS then None
    else Some(Code(StoreNodes(g.value.nodes, v, d), g.value.next))
  }

  function Max(a: nat, b: nat): nat {
    if a >= b then a else b
  }

  /** How many registers, spilled ones included, an expression needs at once. */
  function Need(e: Expr): (r: nat)
    ensures r >= 1
  {
    match e
    case Int(_, _) => 1
    case Get(_) => 1
    case Binary(_, _, l, r) => Max(Need(l), 1 + Need(r))
    case Compare(_, l, r) => Max(Need(l), 1 + Need(r))
    case Cond(_, c, l, r) => Max(Need(c), Max(Need(l), Need(r)))
    case LogAnd(l, r) => Max(Need(l), Need(r))
    case LogOr(l, r) => Max(Need(l), Need(r))
    case LogXor(l, r) => Max(Need(l), 1 + Need(r))
    case LogNot(x) => Need(x)
    case BitNot(_, x) => Need(x)
    case Negate(_, x) => Need(x)
    case UnaryPlus(_, x) => Need(x)
    case Comma(l, r) => Max(Need(l), Need(r))
    case Cast(_, x) => Need(x)
    case Assign(_, x) => Max(Need(x), 2)
    case AssignOp(_, _, _, x) => 1 + Need(x)
  }

  /** Code is generated for an expression exactly if the registers suffice. */
  lemma {:induction false} GenExactly(e: Expr, n: nat, d: nat)
    ensures Gen(e, n, d).Some? <==> d + Need(e) <= 2 * NREGS
    decreases e, 1
  {
    hide Gen, Need;
    if e.Binary? || e.Compare? || e.LogXor? {
      PairExactly(e, n, d);
    } else if e.Cond? || e.LogAnd? || e.LogOr? || e.Comma? {
      ChoiceExactly(e, n, d);
    } else {
      SingleExactly(e, n, d);
    }
  }

  lemma {:induction false} PairExactly(e: Expr, n: nat, d: nat)
    requires e.Binary? || e.Compare? || e.LogXor?
    ensures Gen(e, n, d).Some? <==> d + Need(e) <= 2 * NREGS
    decreases e, 0
  {
    hide CompareNodes, CondNodes, AndNodes, OrNodes, XorNodes, NotNodes, StoreNodes, BinaryNodes, GetNodes;
    hide UnaryCode, FreeCode, RegAt, AllocCode, LoadImm, JumpFor, ComparesSigned;
    var m := if e.Binary? then n else n + 2;
    if e.Compare? {
      assert Gen(e, n, d) == GenCompare(e, n, d);
    } else if e.LogXor? {
      assert Gen(e, n, d) == GenXor(e, n, d);
    }
    GenExactly(e.l, m, d);
    if Gen(e.l, m, d).Some? { GenExactly(e.r, Gen(e.l, m, d).value.next, d + 1); }
  }

  lemma {:induction false} ChoiceExactly(e: Expr, n: nat, d: nat)
    requires e.Cond? || e.LogAnd? || e.LogOr? || e.Comma?
    ensures Gen(e, n, d).Some? <==> d + Need(e) <= 2 * NREGS
    decreases e, 0
  {
    hide CompareNodes, CondNodes, AndNodes, OrNodes, XorNodes, NotNodes, StoreNodes, BinaryNodes, GetNodes;
    hide UnaryCode, FreeCode, RegAt, AllocCode, LoadImm, JumpFor, ComparesSigned;
    if e.Cond? {
      assert Gen(e, n, d) == GenCond(e, n, d);
      var gc := Gen(e.c, n + 2, d);
      GenExactly(e.c, n + 2, d);
      if gc.Some? {
        GenExactly(e.l, gc.value.next, d);
        if Gen(e.l, gc.value.next, d).Some? { GenExactly(e.r, Gen(e.l, gc.value.next, d).value.next, d); }
      }
    } else {
      var m := if e.LogAnd? then n + 2 else if e.LogOr? then n + 3 else n;
      if e.LogAnd? {
        assert Gen(e, n, d) == GenAnd(e, n, d);
      } else if e.LogOr? {
        assert Gen(e, n, d) == GenOr(e, n, d);
      } else {
        assert Gen(e, n, d) == GenComma(e, n, d);
      }
      GenExactly(e.l, m, d);
      if Gen(e.l, m, d).Some? { GenExactly(e.r, Gen(e.l, m, d).value.next, d); }
    }
  }

  lemma {:induction false} SingleExactly(e: Expr, n: nat, d: nat)
    requires e.Int? || e.Get? || e.LogNot? || IsUnary(e) || e.Assign? || e.AssignOp?
    ensures Gen(e, n, d).Some? <==> d + Need(e) <= 2 * NREGS
    decreases e, 0
  {
    hide CompareNodes, CondNodes, AndNodes, OrNodes, XorNodes, NotNodes, StoreNodes, BinaryNodes, GetNodes;
    hide UnaryCode, FreeCode, RegAt, AllocCode, LoadImm, JumpFor, ComparesSigned;
    match e
    case LogNot(x) => GenExactly(x, n + 2, d);
    case BitNot(_, x) => GenExactly(x, n, d);
    case Negate(_, x) => GenExactly(x, n, d);
    case UnaryPlus(_, x) => GenExactly(x, n, d);
    case Cast(_, x) => GenExactly(x, n, d);
    case Assign(_, x) => GenExactly(x, n, d);
    case AssignOp(_, _, _, x) => GenExactly(x, n, d + 1);
    case _ =>
  }

  /** The generator's state: the instruction list and the register set.  Running out
      of registers abandons the compilation, whatever has been emitted by then. */
  class Generator {
    const ir: IrList
    const regs: RegSet

    constructor ()
      ensures fresh(ir) && fresh(regs)
      ensures Ready(0) && ir.nodes == [] && ir.nextLabel == 1
    {
      ir := new IrList();
      regs := new RegSet();
    }

    ghost predicate Ready(d: nat)
      reads this, ir, regs
    {
      ir.Valid() && regs.AtDepth(d)
    }

    /** What generating `g` at depth `d` leaves behind, after `was` and `acc`. */
    ghost predicate Generated(was: seq<Node>, acc: seq<Node>, g: Option<Code>, ok: bool, reg: nat, d: nat)
      reads this, ir, regs
    {
      && ok == g.Some?
      && (ok ==>
            && Ready(d + 1)
            && d < 2 * NREGS && reg == RegAt(d)
            && ir.nodes == was + (acc + g.value.nodes)
            && ir.nextLabel == g.value.next)
    }

    /** A run of emit and emitl calls. */
    method Emit(nodes: seq<Node>, ghost d: nat, ghost was: seq<Node>, ghost acc: seq<Node>)
      requires Ready(d) && ir.nodes == was + acc
      requires forall i :: 0 <= i < |nodes| ==> nodes[i].lbl == NO_LABEL || nodes[i].lbl < ir.nextLabel
      modifies ir
      ensures Ready(d) && ir.nodes == was + (acc + nodes) && ir.nextLabel == old(ir.nextLabel)
    {
      hide RegSet.AtDepth;
      var i := 0;
      while i < |nodes|
        invariant 0 <= i <= |nodes| && Ready(d)
        invariant ir.nodes == was + acc + nodes[..i] && ir.nextLabel == old(ir.nextLabel)
      {
        ir.Append(nodes[i]);
        i := i + 1;
      }
      assert nodes[..i] == nodes;
      assert was + (acc + nodes) == was + acc + nodes;
    }

    method Alloc(ghost d: nat, ghost was: seq<Node>, ghost acc: seq<Node>) returns (ok: bool, reg: nat)
      requires Ready(d) && ir.nodes == was + acc
      modifies ir, regs
      ensures ir.nextLabel == old(ir.nextLabel) && ok == (d < 2 * NREGS)
      ensures ok ==> reg == RegAt(d) && Ready(d + 1) && ir.nodes == was + (acc + AllocCode(d))
    {
      assert d <= 2 * NREGS;
      reg := regs.Alloc(ir, d);
      ok := reg != 0;
      if ok {
        assert was + (acc + AllocCode(d)) == was + acc + AllocCode(d);
      }
    }

    method Free(reg: nat, ghost d: nat, ghost was: seq<Node>, ghost acc: seq<Node>)
      requires d < 2 * NREGS && Ready(d + 1) && reg == RegAt(d) && ir.nodes == was + acc
      modifies ir, regs
      ensures ir.nextLabel == old(ir.nextLabel)
      ensures Ready(d) && ir.nodes == was + (acc + FreeCode(d))
    {
      regs.Free(ir, reg, d);
      assert was + (acc + FreeCode(d)) == was + acc + FreeCode(d);
    }

    method FreshLabels(k: nat, ghost d: nat) returns (n: nat)
      requires Ready(d)
      modifies ir
      ensures Ready(d) && n == old(ir.nextLabel) && ir.nextLabel == n + k && ir.nodes == old(ir.nodes)
    {
      n := ir.nextLabel;
      var i := 0;
      while i < k
        invariant 0 <= i <= k && Ready(d) && ir.nextLabel == n + i && ir.nodes == old(ir.nodes)
      {
        var _ := ir.FreshLabel();
        i := i + 1;
      }
    }

    /** An operand. */
    method Operand(e: Expr, ghost d: nat, ghost was: seq<Node>, ghost acc: seq<Node>) returns (ok: bool, reg: nat)
      requires Ready(d) && ir.nodes == was + acc
      modifies ir, regs
      ensures Generated(was, acc, Gen(e, old(ir.nextLabel), d), ok, reg, d)
      decreases e, 3
    {
      hide Gen;
      hide Ready;
      ghost var g := Gen(e, ir.nextLabel, d);
      ok, reg := GenNode(e, d);
      if ok {
        assert was + (acc + g.value.nodes) == was + acc + g.value.nodes;
      }
    }

    method LoadVar(v: Var, ghost d: nat) returns (ok: bool, reg: nat)
      requires Ready(d)
      modifies ir, regs
      ensures Generated(old(ir.nodes), [], GenGet(v, old(ir.nextLabel), d), ok, reg, d)
    {
      hide Ready;
      ghost var was := ir.nodes;
      ok, reg := Alloc(d, was, []);
      if ok {
        Emit(AccessVars(reg, v.scope), d + 1, was, [] + AllocCode(d));
        Emit([Plain(LoadMem(v.ty.size, reg, reg, v.offset))], d + 1, was, AllocCode(d) + AccessVars(reg, v.scope));
        Emit(PromoteCode(v.ty, reg), d + 1, was,
             AllocCode(d) + AccessVars(reg, v.scope) + [Plain(LoadMem(v.ty.size, reg, reg, v.offset))]);
        assert [] + GetNodes(v, d) == GetNodes(v, d);
      }
    }

    /** dt_cg_store_var: the value is in %reg and stays there. */
    method StoreVar(v: Var, reg: nat, ghost d: nat, ghost was: seq<Node>, ghost acc: seq<Node>) returns (ok: bool)
      requires d < 2 * NREGS && Ready(d + 1) && reg == RegAt(d) && ir.nodes == was + acc
      modifies ir, regs
      ensures ok == (d + 1 < 2 * NREGS)
      ensures ok ==> Ready(d + 1) && ir.nodes == was + StoreNodes(acc, v, d) && ir.nextLabel == old(ir.nextLabel)
    {
      hide Ready;
      var t;
      ok, t := Alloc(d + 1, was, acc);
      if ok {
        ghost var a := acc + AllocCode(d + 1);
        Emit(AccessVars(t, v.scope), d + 2, was, a);
        a := a + AccessVars(t, v.scope);
        Emit([Plain(StoreMem(v.ty.size, t, v.offset, reg))], d + 2, was, a);
        a := a + [Plain(StoreMem(v.ty.size, t, v.offset, reg))];
        Free(t, d + 1, was, a);
      }
    }

    /** dt_cg_arithmetic_op once its left operand is in %a. */
    method Arithmetic(op: BinOp, signed: bool, ghost gl: Option<Code>, a: nat, r: Expr, ghost d: nat,
                      ghost was: seq<Node>)
      returns (ok: bool, reg: nat)
      requires gl.Some? && Generated(was, [], gl, true, a, d)
      modifies ir, regs
      ensures Generated(was, [], GenBinary(op, signed, gl, r, d), ok, reg, d)
      decreases r, 4
    {
      hide Ready;
      hide Gen;
      hide OpCode;
      assert [] + gl.value.nodes == gl.value.nodes;
      var b;
      ghost var gr := Gen(r, ir.nextLabel, d + 1);
      ok, b := Operand(r, d + 1, was, gl.value.nodes);
      reg := a;
      if ok {
        var n := FreshLabels(OpLabels(op, signed), d + 2);
        OpLabelsBound(op, signed, a, b, n);
        ghost var acc := gl.value.nodes + gr.value.nodes;
        Emit(OpCode(op, signed, a, b, n), d + 2, was, acc);
        acc := acc + OpCode(op, signed, a, b, n);
        Free(b, d + 1, was, acc);
        acc := acc + FreeCode(d + 1);
        assert [] + acc == acc;
      }
    }

    /** dt_cg_compare_op. */
    method CompareOp(e: Expr, ghost d: nat) returns (ok: bool, reg: nat)
      requires Ready(d) && e.Compare?
      modifies ir, regs
      ensures Generated(old(ir.nodes), [], GenCompare(e, old(ir.nextLabel), d), ok, reg, d)
      decreases e, 0
    {
      hide Ready;
      hide Gen;
      ghost var was := ir.nodes;
      var n := FreshLabels(2, d);
      ghost var gl := Gen(e.l, ir.nextLabel, d);
      ok, reg := Operand(e.l, d, was, []);
      if ok {
        var b;
        ghost var acc := [] + gl.value.nodes;
        ghost var gr := Gen(e.r, ir.nextLabel, d + 1);
        ok, b := Operand(e.r, d + 1, was, acc);
        if ok {
          acc := acc + gr.value.nodes;
          Emit([Plain(JmpReg(JumpFor(e.cmp, ComparesSigned(e.l, e.r)), reg, b, n))], d + 2, was, acc);
          acc := acc + [Plain(JmpReg(JumpFor(e.cmp, ComparesSigned(e.l, e.r)), reg, b, n))];
          Free(b, d + 1, was, acc);
          acc := acc + FreeCode(d + 1);
          Emit([Plain(MovImm(reg, 0)), Plain(Jump(n + 1)), Labelled(n, MovImm(reg, 1)), Labelled(n + 1, NOP)],
               d + 1, was, acc);
          var j := JumpFor(e.cmp, ComparesSigned(e.l, e.r));
          EmptyPrefix(gl.value.nodes, CompareNodes(gl.value.nodes, gr.value.nodes, j, n, d));
        }
      }
    }

    /** Reach back and rewrite the instruction of an earlier node. */
    method Patch(dip: nat, i: Insn, ghost d: nat, ghost was: seq<Node>, ghost pre: seq<Node>, ghost x: Insn,
                 ghost post: seq<Node>)
      requires Ready(d) && ir.nodes == was + (pre + [Plain(x)] + post) && dip == |was| + |pre|
      modifies ir
      ensures Ready(d) && ir.nodes == was + (pre + [Plain(i)] + post) && ir.nextLabel == old(ir.nextLabel)
    {
      hide RegSet.AtDepth;
      assert ir.nodes[dip] == Plain(x);
      ir.Patch(dip, i);
      assert ir.nodes == was + (pre + [Plain(i)] + post);
    }

    /** The condition and the left arm of dt_cg_ternary_op, up to the placeholder MOV,
        whose position is returned. */
    method LeftArm(e: Expr, n: nat, ghost gc: Option<Code>, ghost gl: Option<Code>, ghost d: nat, ghost was: seq<Node>)
      returns (ok: bool, rl: nat, dip: nat)
      requires e.Cond? && Ready(d) && ir.nodes == was && ir.nextLabel == n + 2
      requires gc == Gen(e.c, n + 2, d) && (gc.Some? ==> gl == Gen(e.l, gc.value.next, d))
      modifies ir, regs
      ensures ok == (gc.Some? && gl.Some?)
      ensures ok ==>
        && Ready(d + 1) && rl == RegAt(d) && ir.nextLabel == gl.value.next
        && ir.nodes == was + (CondPrefix(gc.value.nodes, gl.value.nodes, n, d) + [Plain(MovImm(RegAt(d), 0))])
        && dip == |was| + |CondPrefix(gc.value.nodes, gl.value.nodes, n, d)|
      decreases e, 0
    {
      hide Ready;
      hide Gen;
      hide FreeCode;
      var rc;
      dip, rl := 0, 0;
      assert was + [] == was;
      ok, rc := Operand(e.c, d, was, []);
      if ok {
        ghost var acc := [] + gc.value.nodes;
        Emit(BranchZero(rc, n), d + 1, was, acc);
        acc := acc + BranchZero(rc, n);
        Free(rc, d, was, acc);
        acc := acc + FreeCode(d);
        ok, rl := Operand(e.l, d, was, acc);
        if ok {
          acc := acc + gl.value.nodes;
          EmptyPrefix(gc.value.nodes, acc);
          dip := |ir.nodes|;
          Emit([Plain(MovImm(rl, 0))], d + 1, was, acc);
        }
      }
    }

    /** dt_cg_ternary_op: the MOV at the end of the left arm is a placeholder until
        the right arm's register is known. */
    method Ternary(e: Expr, ghost d: nat) returns (ok: bool, reg: nat)
      requires Ready(d) && e.Cond?
      modifies ir, regs
      ensures Generated(old(ir.nodes), [], GenCond(e, old(ir.nextLabel), d), ok, reg, d)
      decreases e, 1
    {
      hide Ready;
      hide Gen;
      hide FreeCode;
      hide CondPrefix;
      ghost var was := ir.nodes;
      var n := FreshLabels(2, d);
      ghost var gc := Gen(e.c, ir.nextLabel, d);
      ghost var gl := if gc.Some? then Gen(e.l, gc.value.next, d) else None;
      var rl, dip;
      reg := 0;
      ok, rl, dip := LeftArm(e, n, gc, gl, d, was);
      if ok {
        ok, reg := RightArm(e, n, rl, dip, d, was, CondPrefix(gc.value.nodes, gl.value.nodes, n, d));
      }
    }

    /** The right arm of dt_cg_ternary_op, and the patch of the left one. */
    method RightArm(e: Expr, n: nat, rl: nat, dip: nat, ghost d: nat, ghost was: seq<Node>, ghost pre: seq<Node>)
      returns (ok: bool, reg: nat)
      requires e.Cond? && d < 2 * NREGS && Ready(d + 1) && rl == RegAt(d) && ir.nextLabel >= n + 2
      requires ir.nodes == was + (pre + [Plain(MovImm(RegAt(d), 0))]) && dip == |was| + |pre|
      modifies ir, regs
      ensures ok == Gen(e.r, old(ir.nextLabel), d).Some?
      ensures ok ==>
        && Ready(d + 1) && reg == RegAt(d) && ir.nextLabel == Gen(e.r, old(ir.nextLabel), d).value.next
        && ir.nodes == was + (pre + [Plain(MovReg(RegAt(d), RegAt(d)))] + FreeCode(d) +
                              [Plain(Jump(n + 1)), Labelled(n, NOP)] +
                              Gen(e.r, old(ir.nextLabel), d).value.nodes + [Labelled(n + 1, NOP)])
      decreases e, 0
    {
      hide Ready;
      hide Gen;
      hide FreeCode;
      ghost var jump := [Plain(Jump(n + 1)), Labelled(n, NOP)];
      ghost var acc := pre + [Plain(MovImm(rl, 0))];
      Free(rl, d, was, acc);
      acc := acc + FreeCode(d);
      Emit([Plain(Jump(n + 1)), Labelled(n, NOP)], d, was, acc);
      acc := acc + jump;
      ghost var gr := Gen(e.r, ir.nextLabel, d);
      ok, reg := Operand(e.r, d, was, acc);
      if ok {
        Regroup(pre, [Plain(MovImm(rl, 0))], FreeCode(d), jump, gr.value.nodes);
        Patch(dip, MovReg(reg, rl), d + 1, was, pre, MovImm(rl, 0), FreeCode(d) + jump + gr.value.nodes);
        Regroup(pre, [Plain(MovReg(reg, rl))], FreeCode(d), jump, gr.value.nodes);
        acc := pre + [Plain(MovReg(reg, rl))] + FreeCode(d) + jump + gr.value.nodes;
        Emit([Labelled(n + 1, NOP)], d + 1, was, acc);
      }
    }

    /** dt_cg_logical_and. */
    method LogicalAnd(e: Expr, ghost d: nat) returns (ok: bool, reg: nat)
      requires Ready(d) && e.LogAnd?
      modifies ir, regs
      ensures Generated(old(ir.nodes), [], GenAnd(e, old(ir.nextLabel), d), ok, reg, d)
      decreases e, 0
    {
      hide Ready;
      hide Gen;
      hide FreeCode;
      ghost var was := ir.nodes;
      var n := FreshLabels(2, d);
      ghost var gl := Gen(e.l, ir.nextLabel, d);
      ok, reg := Operand(e.l, d, was, []);
      if ok {
        ghost var acc := [] + gl.value.nodes;
        Emit(BranchZero(reg, n), d + 1, was, acc);
        acc := acc + BranchZero(reg, n);
        Free(reg, d, was, acc);
        acc := acc + FreeCode(d);
        ghost var gr := Gen(e.r, ir.nextLabel, d);
        ok, reg := Operand(e.r, d, was, acc);
        if ok {
          acc := acc + gr.value.nodes;
          Emit(AndTail(reg, n), d + 1, was, acc);
          EmptyPrefix(gl.value.nodes, AndNodes(gl.value.nodes, gr.value.nodes, n, d));
        }
      }
    }

    /** dt_cg_logical_or. */
    method LogicalOr(e: Expr, ghost d: nat) returns (ok: bool, reg: nat)
      requires Ready(d) && e.LogOr?
      modifies ir, regs
      ensures Generated(old(ir.nodes), [], GenOr(e, old(ir.nextLabel), d), ok, reg, d)
      decreases e, 0
    {
      hide Ready;
      hide Gen;
      hide FreeCode;
      ghost var was := ir.nodes;
      var n := FreshLabels(3, d);
      ghost var gl := Gen(e.l, ir.nextLabel, d);
      ok, reg := Operand(e.l, d, was, []);
      if ok {
        ghost var acc := [] + gl.value.nodes;
        Emit([Plain(JmpImm(Jne, reg, 0, n))], d + 1, was, acc);
        acc := acc + [Plain(JmpImm(Jne, reg, 0, n))];
        Free(reg, d, was, acc);
        acc := acc + FreeCode(d);
        ghost var gr := Gen(e.r, ir.nextLabel, d);
        ok, reg := Operand(e.r, d, was, acc);
        if ok {
          acc := acc + gr.value.nodes;
          Emit(OrTail(reg, n), d + 1, was, acc);
          EmptyPrefix(gl.value.nodes, OrNodes(gl.value.nodes, gr.value.nodes, n, d));
        }
      }
    }

    /** dt_cg_logical_xor. */
    method LogicalXor(e: Expr, ghost d: nat) returns (ok: bool, reg: nat)
      requires Ready(d) && e.LogXor?
      modifies ir, regs
      ensures Generated(old(ir.nodes), [], GenXor(e, old(ir.nextLabel), d), ok, reg, d)
      decreases e, 0
    {
      hide Ready;
      hide Gen;
      hide FreeCode;
      hide TruthCode;
      ghost var was := ir.nodes;
      var n := FreshLabels(2, d);
      ghost var gl := Gen(e.l, ir.nextLabel, d);
      ok, reg := Operand(e.l, d, was, []);
      if ok {
        ghost var acc := [] + gl.value.nodes;
        Emit(TruthCode(reg, n, NOP), d + 1, was, acc);
        acc := acc + TruthCode(reg, n, NOP);
        var b;
        ghost var gr := Gen(e.r, ir.nextLabel, d + 1);
        ok, b := Operand(e.r, d + 1, was, acc);
        if ok {
          acc := acc + gr.value.nodes;
          Emit(TruthCode(b, n + 1, AluReg(Xor, reg, b)), d + 2, was, acc);
          acc := acc + TruthCode(b, n + 1, AluReg(Xor, reg, b));
          Free(b, d + 1, was, acc);
          EmptyPrefix(gl.value.nodes, XorNodes(gl.value.nodes, gr.value.nodes, n, d));
        }
      }
    }

    /** dt_cg_logical_neg. */
    method LogicalNot(e: Expr, ghost d: nat) returns (ok: bool, reg: nat)
      requires Ready(d) && e.LogNot?
      modifies ir, regs
      ensures Generated(old(ir.nodes), [], GenNot(e, old(ir.nextLabel), d), ok, reg, d)
      decreases e, 0
    {
      hide Ready;
      hide Gen;
      ghost var was := ir.nodes;
      var n := FreshLabels(2, d);
      ghost var g := Gen(e.e, ir.nextLabel, d);
      ok, reg := Operand(e.e, d, was, []);
      if ok {
        ghost var acc := [] + g.value.nodes;
        Emit(NotTail(reg, n), d + 1, was, acc);
        EmptyPrefix(g.value.nodes, NotNodes(g.value.nodes, n, d));
      }
    }

    method UnaryOp(e: Expr, ghost d: nat) returns (ok: bool, reg: nat)
      requires Ready(d) && IsUnary(e)
      modifies ir, regs
      ensures Generated(old(ir.nodes), [], GenUnary(e, old(ir.nextLabel), d), ok, reg, d)
      decreases e, 0
    {
      hide Ready;
      hide Gen;
      ghost var was := ir.nodes;
      assert was + [] == was;
      ghost var g := Gen(e.e, ir.nextLabel, d);
      ok, reg := Operand(e.e, d, was, []);
      if ok {
        Emit(UnaryCode(e, reg), d + 1, was, [] + g.value.nodes);
        EmptyPrefix(g.value.nodes, g.value.nodes + UnaryCode(e, reg));
      }
    }

    method AssignTo(e: Expr, ghost d: nat) returns (ok: bool, reg: nat)
      requires Ready(d) && e.Assign?
      modifies ir, regs
      ensures Generated(old(ir.nodes), [], GenStore(e.v, Gen(e.e, old(ir.nextLabel), d), d), ok, reg, d)
      decreases e, 0
    {
      hide Ready;
      hide Gen;
      ghost var was := ir.nodes;
      assert was + [] == was;
      ghost var g := Gen(e.e, ir.nextLabel, d);
      ok, reg := Operand(e.e, d, was, []);
      if ok {
        EmptyPrefix(g.value.nodes, g.value.nodes);
        ok := StoreVar(e.v, reg, d, was, g.value.nodes);
        if ok {
          EmptyPrefix([], StoreNodes(g.value.nodes, e.v, d));
        }
      }
    }

    /** The compound assignments: arithmetic on the variable, then a store to it. */
    method Accumulate(e: Expr, ghost d: nat) returns (ok: bool, reg: nat)
      requires Ready(d) && e.AssignOp?
      modifies ir, regs
      ensures Generated(old(ir.nodes), [],
        GenStore(e.v, GenBinary(e.op, e.ty.signed, GenGet(e.v, old(ir.nextLabel), d), e.e, d), d), ok, reg, d)
      decreases e, 0
    {
      hide Ready;
      hide Gen;
      hide GenBinary;
      ghost var was := ir.nodes;
      ghost var gl := GenGet(e.v, ir.nextLabel, d);
      ok, reg := LoadVar(e.v, d);
      if ok {
        ghost var g := GenBinary(e.op, e.ty.signed, gl, e.e, d);
        ok, reg := Arithmetic(e.op, e.ty.signed, gl, reg, e.e, d, was);
        if ok {
          EmptyPrefix(g.value.nodes, g.value.nodes);
          ok := StoreVar(e.v, reg, d, was, g.value.nodes);
          if ok {
            EmptyPrefix([], StoreNodes(g.value.nodes, e.v, d));
          }
        }
      }
    }

    method CommaOp(e: Expr, ghost d: nat) returns (ok: bool, reg: nat)
      requires Ready(d) && e.Comma?
      modifies ir, regs
      ensures Generated(old(ir.nodes), [], GenComma(e, old(ir.nextLabel), d), ok, reg, d)
      decreases e, 0
    {
      hide Ready;
      hide Gen;
      hide FreeCode;
      ghost var was := ir.nodes;
      ghost var gl := Gen(e.l, ir.nextLabel, d);
      assert was + [] == was;
      ok, reg := Operand(e.l, d, was, []);
      if ok {
        ghost var acc := [] + gl.value.nodes;
        Free(reg, d, was, acc);
        acc := acc + FreeCode(d);
        ghost var gr := Gen(e.r, ir.nextLabel, d);
        ok, reg := Operand(e.r, d, was, acc);
        if ok {
          EmptyPrefix(gl.value.nodes, acc + gr.value.nodes);
        }
      }
    }

    /** dt_cg_node: generate `e`, returning the register with its value. */
    method GenNode(e: Expr, ghost d: nat) returns (ok: bool, reg: nat)
      requires Ready(d)
      modifies ir, regs
      ensures Generated(old(ir.nodes), [], Gen(e, old(ir.nextLabel), d), ok, reg, d)
      decreases e, 2
    {
      hide Ready;
      ghost var was := ir.nodes;
      assert was + [] == was;
      match e
      case Int(x, _) =>
        ok, reg := Alloc(d, was, []);
        if ok {
          Emit(LoadImm(reg, x), d + 1, was, [] + AllocCode(d));
          EmptyPrefix(AllocCode(d), AllocCode(d) + LoadImm(reg, x));
        }
      case Get(v) =>
        ok, reg := LoadVar(v, d);
      case Binary(op, ty, l, r) =>
        ghost var gl := Gen(l, ir.nextLabel, d);
        ok, reg := Operand(l, d, was, []);
        if ok {
          ok, reg := Arithmetic(op, ty.signed, gl, reg, r, d, was);
        }
      case Compare(_, _, _) =>
        ok, reg := CompareOp(e, d);
      case Cond(_, _, _, _) =>
        ok, reg := Ternary(e, d);
      case LogAnd(_, _) =>
        ok, reg := LogicalAnd(e, d);
      case LogOr(_, _) =>
        ok, reg := LogicalOr(e, d);
      case LogXor(_, _) =>
        ok, reg := LogicalXor(e, d);
      case LogNot(_) =>
        ok, reg := LogicalNot(e, d);
      case Comma(_, _) =>
        ok, reg := CommaOp(e, d);
      case Assign(_, _) =>
        ok, reg := AssignTo(e, d);
      case AssignOp(_, _, _, _) =>
        ok, reg := Accumulate(e, d);
      case _ =>
        ok, reg := UnaryOp(e, d);
    }
  }

  lemma {:induction false} Regroup(a: seq<Node>, b: seq<Node>, c: seq<Node>, x: seq<Node>, y: seq<Node>)
    ensures a + b + c + x + y == a + b + (c + x + y)
  {
  }

  lemma {:induction false} EmptyPrefix(a: seq<Node>, b: seq<Node>)
    ensures [] + a == a && [] + b == b
  {
  }

  lemma {:induction false} OpLabelsBound(op: BinOp, signed: bool, a: Reg, b: Reg, n: nat)
    ensures forall i :: 0 <= i < |OpCode(op, signed, a, b, n)| ==>
      OpCode(op, signed, a, b, n)[i].lbl < n + OpLabels(op, signed) || OpCode(op, signed, a, b, n)[i].lbl == 0
  {
  }
}
