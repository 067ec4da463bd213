/**
 The pieces of generated code, run one by one: from a machine state that represents the
 variables and holds a stack of values, in registers and spill slots, each of them leaves
 the machine in another such state.
 */
module Compile {
  import opened Basics
  import opened Word
  import opened Memory
  import opened Bpf
  import opened Ir
  import opened Registers
  import opened Expr
  import opened CodeGen
  import opened Window
  import opened WordFacts

  /** State `s` is about to run the code `c` at node `k` of `p`. */
  ghost predicate Before(p: seq<Node>, k: nat, c: seq<Node>, m: Layout, s: State, vars: Vars, l: seq<U64>) {
    CodeAt(p, k, c) && UniqueLabels(p) && s.pc == k && Inv(m, s, vars, l, |l|)
  }

  /** State `t` is the outcome `o`, with a value pushed at node `pc`. */
  ghost predicate After(m: Layout, t: State, o: Outcome, l: seq<U64>, pc: int) {
    match o
    case Done(v, vars) => t.pc == pc && Inv(m, t, vars, l + [v], |l| + 1)
    case DivByZero(vars) => t.status == Exited && t.fault == DIVZERO && Contents(m, t.mem, vars)
  }

  // ----- leaves -----

  /** Setting register `j` of the window to an immediate. */
  lemma {:induction false} StepMov(p: seq<Node>, m: Layout, s: State, vars: Vars, l: seq<U64>, d: nat, j: nat, x: U64)
    returns (t: State)
    requires Inv(m, s, vars, l, d) && |l| <= j < d <= 2 * NREGS
    requires 0 <= s.pc < |p| && p[s.pc].insn == MovImm(RegAt(j), x)
    ensures Reaches(p, s, t) && Inv(m, t, vars, l, d) && t.pc == s.pc + 1
    ensures t.regs == s.regs[RegAt(j) := x]
  {
    hide Alu;
    hide Inv;
    t := StepWrite(p, m, s, vars, l, d, j);
    MovValue(s.regs[RegAt(j)], x);
  }

  lemma {:induction false} MovValue(a: U64, x: U64)
    ensures Alu(Mov, a, Wrap(x)) == x
  {
  }

  lemma {:induction false} RunImm(p: seq<Node>, k: nat, m: Layout, s: State, vars: Vars, l: seq<U64>, x: U64)
    returns (t: State)
    requires |l| < 2 * NREGS && Inv(m, s, vars, l, |l| + 1) && s.pc == k && CodeAt(p, k, LoadImm(RegAt(|l|), x))
    ensures Reaches(p, s, t) && t.pc == k + |LoadImm(RegAt(|l|), x)| && Inv(m, t, vars, l + [x], |l| + 1)
  {
    hide Inv;
    var d := |l|;
    if x > 0x7fff_ffff {
      t := RunSetX(p, k, m, s, vars, l, d + 1, d, x);
    } else {
      CodeNode(p, k, LoadImm(RegAt(d), x), 0);
      t := StepMov(p, m, s, vars, l, d + 1, d, x);
    }
    Push(m, t, vars, l, x, d + 1);
  }

  lemma {:induction false} IntCase(e: Expr, n: nat, p: seq<Node>, k: nat, m: Layout, s: State, vars: Vars, l: seq<U64>)
    returns (t: State)
    requires e.Int? && Gen(e, n, |l|).Some? && Before(p, k, Gen(e, n, |l|).value.nodes, m, s, vars, l)
    ensures Reaches(p, s, t) && After(m, t, Eval(e, vars), l, k + |Gen(e, n, |l|).value.nodes|)
  {
    hide UniqueLabels;
    hide Inv;
    hide LoadImm;
    var d := |l|;
    assert Gen(e, n, d).value.nodes == AllocCode(d) + LoadImm(RegAt(d), e.value);
    hide Gen;
    CodeSplit(p, k, AllocCode(d), LoadImm(RegAt(d), e.value));
    var u := RunAlloc(p, k, m, s, vars, l);
    t := RunImm(p, k + |AllocCode(d)|, m, u, vars, l, e.value);
    ReachTrans(p, s, u, t);
  }

  /** Two shifts of the top register by the same amount. */
  lemma {:induction false} RunShifts(p: seq<Node>, k: nat, m: Layout, s: State, vars: Vars, l: seq<U64>, op: AluOp,
                                     g: int)
    returns (t: State)
    requires Inv(m, s, vars, l, |l| + 1) && s.pc == k
    requires CodeAt(p, k, [Plain(AluImm(Lsh, RegAt(|l|), g)), Plain(AluImm(op, RegAt(|l|), g))])
    ensures Reaches(p, s, t) && Inv(m, t, vars, l, |l| + 1) && t.pc == k + 2
    ensures t.regs[RegAt(|l|)] == Alu(op, Alu(Lsh, s.regs[RegAt(|l|)], Wrap(g)), Wrap(g))
  {
    hide Alu;
    var d := |l|;
    var c := [Plain(AluImm(Lsh, RegAt(d), g)), Plain(AluImm(op, RegAt(d), g))];
    CodeNode(p, k, c, 0);
    CodeNode(p, k, c, 1);
    var u := StepWrite(p, m, s, vars, l, d + 1, d);
    t := StepWrite(p, m, u, vars, l, d + 1, d);
    ReachTrans(p, s, u, t);
  }

  lemma {:induction false} RunPromote(p: seq<Node>, k: nat, m: Layout, s: State, vars: Vars, l: seq<U64>, ty: Type)
    returns (t: State)
    requires |l| < 2 * NREGS && Inv(m, s, vars, l, |l| + 1) && s.pc == k && CodeAt(p, k, PromoteCode(ty, RegAt(|l|)))
    requires s.regs[RegAt(|l|)] < Pow2(8 * ty.size)
    ensures Reaches(p, s, t) && Inv(m, t, vars, l, |l| + 1) && t.pc == k + |PromoteCode(ty, RegAt(|l|))|
    ensures t.regs[RegAt(|l|)] == Extend(ty, s.regs[RegAt(|l|)])
  {
    hide Alu;
    ShiftsExtend(ty, s.regs[RegAt(|l|)]);
    if ty.signed && ty.size < 8 {
      t := RunShifts(p, k, m, s, vars, l, Arsh, Gap(ty));
    } else {
      t := s;
      ReachSelf(p, s);
    }
  }

  /** The load proper, once the base of the variable's storage is in the register. */
  lemma {:induction false} RunLoad(p: seq<Node>, k: nat, m: Layout, s: State, vars: Vars, l: seq<U64>, v: Var)
    returns (t: State)
    requires |l| < 2 * NREGS && Inv(m, s, vars, l, |l| + 1) && s.pc == k && v in vars
    requires CodeAt(p, k, [Plain(LoadMem(v.ty.size, RegAt(|l|), RegAt(|l|), v.offset))])
    requires s.regs[RegAt(|l|)] + v.offset == VarAddr(m, v)
    ensures Reaches(p, s, t) && Inv(m, t, vars, l, |l| + 1) && t.pc == k + 1
    ensures t.regs[RegAt(|l|)] == vars[v] < Pow2(8 * v.ty.size)
  {
    hide Pow2;
    hide Load;
    CodeNode(p, k, [Plain(LoadMem(v.ty.size, RegAt(|l|), RegAt(|l|), v.offset))], 0);
    assert VarClear(m, v);
    AddressExact(s.regs[RegAt(|l|)], v.offset);
    t := StepWrite(p, m, s, vars, l, |l| + 1, |l|);
  }

  /** Reading a variable at the current depth. */
  lemma {:induction false} RunGet(p: seq<Node>, k: nat, m: Layout, s: State, vars: Vars, l: seq<U64>, v: Var)
    returns (t: State)
    requires |l| < 2 * NREGS && v in vars && Before(p, k, GetNodes(v, |l|), m, s, vars, l)
    ensures Reaches(p, s, t) && t.pc == k + |GetNodes(v, |l|)| && Inv(m, t, vars, l + [Fetch(vars, v)], |l| + 1)
  {
    hide UniqueLabels;
    hide Pow2;
    hide Load;
    hide Inv;
    hide PromoteCode;
    var d := |l|;
    var r := RegAt(d);
    var load := [Plain(LoadMem(v.ty.size, r, r, v.offset))];
    var a, b := AllocCode(d), AccessVars(r, v.scope);
    CodeSplit(p, k, a + b + load, PromoteCode(v.ty, r));
    CodeSplit(p, k, a + b, load);
    CodeSplit(p, k, a, b);
    var s1 := RunAlloc(p, k, m, s, vars, l);
    var s2 := RunAccess(p, k + |a|, m, s1, vars, l, d + 1, d, v);
    var s3 := RunLoad(p, k + |a + b|, m, s2, vars, l, v);
    t := RunPromote(p, k + |a + b| + 1, m, s3, vars, l, v.ty);
    Push(m, t, vars, l, Fetch(vars, v), d + 1);
    ReachTrans(p, s, s1, s2);
    ReachTrans(p, s, s2, s3);
    ReachTrans(p, s, s3, t);
  }

  // ----- arithmetic -----

  /** What an operation on the top two registers achieves. */
  ghost predicate Operated(m: Layout, t: State, vars: Vars, l: seq<U64>, op: BinOp, signed: bool, a: U64, b: U64,
                           pc: int)
    requires |l| + 2 <= 2 * NREGS
  {
    if Faults(op, signed, b)
    then t.status == Exited && t.fault == DIVZERO && Contents(m, t.mem, vars)
    else t.pc == pc && Inv(m, t, vars, l, |l| + 2) && t.regs[RegAt(|l|)] == BinaryValue(op, signed, a, b)
  }

  lemma {:induction false} RunPlainOp(p: seq<Node>, k: nat, m: Layout, s: State, vars: Vars, l: seq<U64>, op: BinOp,
                                      signed: bool, a: U64, b: U64) returns (t: State)
    requires |l| + 2 <= 2 * NREGS && Inv(m, s, vars, l, |l| + 2) && s.pc == k && !IsSignedDivision(op, signed)
    requires CodeAt(p, k, [Plain(AluReg(OpcodeOf(op, signed), RegAt(|l|), RegAt(|l| + 1)))])
    requires s.regs[RegAt(|l|)] == a && s.regs[RegAt(|l| + 1)] == b
    ensures Reaches(p, s, t) && Operated(m, t, vars, l, op, signed, a, b, k + 1)
  {
    hide Alu;
    hide BinaryValue;
    hide Inv;
    hide OpcodeOf;
    var d := |l|;
    CodeNode(p, k, [Plain(AluReg(OpcodeOf(op, signed), RegAt(d), RegAt(d + 1)))], 0);
    t := StepWrite(p, m, s, vars, l, d + 2, d);
    PlainValue(op, signed, a, b);
  }

  lemma {:induction false} PlainValue(op: BinOp, signed: bool, a: U64, b: U64)
    requires !IsSignedDivision(op, signed)
    ensures !Faults(op, signed, b) && BinaryValue(op, signed, a, b) == Alu(OpcodeOf(op, signed), a, b)
  {
    hide Bitwise;
    hide ShiftLeft;
    hide ShiftRight;
    hide ShiftRightSigned;
  }

  /** The call that reports a fault, and the exit after it. */
  lemma {:induction false} RunProbeError(p: seq<Node>, k: nat, s: State) returns (t: State)
    requires s.status == Running && s.pc == k && CodeAt(p, k, ProbeErrorCode)
    ensures Reaches(p, s, t) && t.status == Exited && t.fault == DIVZERO && t.mem == s.mem
  {
    assert ProbeErrorCode == LinkedErrorCode(-1);
    var c := ProbeErrorCall(p, k, s, -1);
    t := ProbeErrorEnd(p, k, c);
    ReachTrans(p, s, c, t);
  }

  /** The same code after linking, when the constant PC has a value. */
  function LinkedErrorCode(pc: int): seq<Node> {
    ProbeErrorCode[2 := External(MovImm(2, pc), "PC")]
  }

  /** What dt_probe_error() is called with: the context, the number of the instruction that
      calls it if PC is that of the instruction that loads it, the fault, and value 0. */
  lemma {:induction false} ProbeErrorCall(p: seq<Node>, k: nat, s: State, pc: int) returns (c: State)
    requires s.status == Running && s.pc == k && CodeAt(p, k, LinkedErrorCode(pc))
    ensures Reaches(p, s, c) && c.status == Running && c.mem == s.mem
    ensures c.pc == k + 5 < |p| && p[c.pc].insn == Call(ProbeError)
    ensures c.regs[1] == Read(s.mem, Address(s.regs[FP], DT_STK_DCTX), 8)
    ensures c.regs[2] == Wrap(pc + 3) && (pc == k + 2 && c.pc < W ==> c.regs[2] == c.pc)
    ensures c.regs[3] == DIVZERO && c.regs[4] == 0
  {
    hide Reaches, CodeAt, Read;
    var code := LinkedErrorCode(pc);
    CodeInside(p, k, code);
    CodeNode(p, k, code, 0);
    CodeNode(p, k, code, 1);
    CodeNode(p, k, code, 2);
    CodeNode(p, k, code, 3);
    CodeNode(p, k, code, 4);
    CodeNode(p, k, code, 5);
    var s1 := StepRegister(p, s, 4);
    var s2 := StepRegister(p, s1, 1);
    var s3 := StepRegister(p, s2, 2);
    var s4 := StepRegister(p, s3, 2);
    c := StepRegister(p, s4, 3);
    WrapInner(pc, 3);
    ReachTrans(p, s, s1, s2);
    ReachTrans(p, s, s2, s3);
    ReachTrans(p, s, s3, s4);
    ReachTrans(p, s, s4, c);
  }

  lemma {:induction false} StepRegister(p: seq<Node>, s: State, r: Reg) returns (t: State)
    requires s.status == Running && 0 <= s.pc < |p| && Writes(p[s.pc].insn, r)
    ensures Reaches(p, s, t) && t.status == Running && t.pc == s.pc + 1 && t.mem == s.mem
    ensures t.regs == s.regs[r := Effect(p[s.pc].insn, None, s).regs[r]]
  {
    hide Alu;
    hide Read;
    t := StepIr(p, s);
    ReachStep(p, s);
  }

  lemma {:induction false} ProbeErrorEnd(p: seq<Node>, k: nat, s: State) returns (t: State)
    requires s.status == Running && s.pc == k + 5 && s.regs[3] == DIVZERO && CodeAt(p, k, ProbeErrorCode)
    ensures Reaches(p, s, t) && t.status == Exited && t.fault == DIVZERO && t.mem == s.mem
  {
    hide Reaches, CodeAt, Load, Store;
    CodeInside(p, k, ProbeErrorCode);
    CodeNode(p, k, ProbeErrorCode, 5);
    CodeNode(p, k, ProbeErrorCode, 6);
    var s2 := StepCall(p, s);
    t := StepIr(p, s2);
    ReachStep(p, s2);
    ReachTrans(p, s, s2, t);
  }

  lemma {:induction false} StepCall(p: seq<Node>, s: State) returns (t: State)
    requires s.status == Running && 0 <= s.pc < |p| && p[s.pc].insn == Call(ProbeError)
    ensures Reaches(p, s, t) && t.status == Running && t.pc == s.pc + 1
    ensures t.fault == s.regs[3] && t.mem == s.mem
  {
    t := StepIr(p, s);
    ReachStep(p, s);
  }

  /** The layout of the signed division sequence. */
  ghost predicate DivisionAt(p: seq<Node>, k: nat, op: AluOp, a: Reg, b: Reg, n: nat) {
    && k + 21 <= |p|
    && p[k] == Plain(JmpImm(Jne, b, 0, n + 5))
    && p[k + 8] == Labelled(n + 5, NOP)
    && p[k + 9] == Plain(JmpImm(Jslt, a, 0, n + 2))
    && p[k + 10] == Plain(JmpImm(Jslt, b, 0, n))
    && p[k + 11] == Plain(Jump(n + 3))
    && p[k + 12] == Labelled(n, NegReg(b))
    && p[k + 13] == Labelled(n + 1, AluReg(op, a, b))
    && p[k + 14] == Plain(NegReg(a))
    && p[k + 15] == Plain(Jump(n + 4))
    && p[k + 16] == Labelled(n + 2, NegReg(a))
    && p[k + 17] == Plain(JmpImm(Jsge, b, 0, n + 1))
    && p[k + 18] == Plain(NegReg(b))
    && p[k + 19] == Labelled(n + 3, AluReg(op, a, b))
    && p[k + 20] == Labelled(n + 4, NOP)
  }

  lemma {:induction false} DivisionNodes(p: seq<Node>, k: nat, op: AluOp, a: Reg, b: Reg, n: nat)
    requires CodeAt(p, k, SignedDivision(op, a, b, n))
    ensures DivisionAt(p, k, op, a, b, n) && CodeAt(p, k + 1, ProbeErrorCode)
  {
    var c := SignedDivision(op, a, b, n);
    var jne := [Plain(JmpImm(Jne, b, 0, n + 5))];
    assert c == jne + ProbeErrorCode + c[8..];
    CodeSplit(p, k, jne + ProbeErrorCode, c[8..]);
    CodeSplit(p, k, jne, ProbeErrorCode);
    forall i | 0 <= i < 21 ensures p[k + i] == c[i] { CodeNode(p, k, c, i); }
  }

  /** The state between the steps of a division: operand values and position. */
  ghost predicate Dividing(m: Layout, s: State, vars: Vars, l: seq<U64>, a: U64, b: U64, pc: int)
  {
    && |l| + 2 <= 2 * NREGS
    && Inv(m, s, vars, l, |l| + 2) && s.pc == pc
    && s.regs[RegAt(|l|)] == a && s.regs[RegAt(|l| + 1)] == b
  }

  lemma {:induction false} DivNegate(p: seq<Node>, m: Layout, s: State, vars: Vars, l: seq<U64>, a: U64, b: U64,
                                     left: bool)
    returns (t: State)
    requires Dividing(m, s, vars, l, a, b, s.pc) && 0 <= s.pc < |p|
    requires p[s.pc].insn == NegReg(RegAt(if left then |l| else |l| + 1))
    ensures Reaches(p, s, t)
    ensures Dividing(m, t, vars, l, if left then Negated(a) else a, if left then b else Negated(b), s.pc + 1)
  {
    RegsDistinct(|l|, |l| + 1);
    t := StepWrite(p, m, s, vars, l, |l| + 2, if left then |l| else |l| + 1);
  }

  lemma {:induction false} DivBranch(p: seq<Node>, m: Layout, s: State, vars: Vars, l: seq<U64>, a: U64, b: U64, q: nat)
    returns (t: State)
    requires Dividing(m, s, vars, l, a, b, s.pc) && UniqueLabels(p) && 0 <= s.pc < |p| && p[s.pc].insn.IsBranch()
    requires q < |p| && p[q].lbl != NO_LABEL && p[q].lbl == p[s.pc].insn.off
    ensures Reaches(p, s, t)
    ensures Dividing(m, t, vars, l, a, b, if Taken(p[s.pc].insn, s) then q else s.pc + 1)
  {
    hide UniqueLabels;
    t := StepBranch(p, s, q);
    Repoint(m, s, vars, l, |l| + 2, t.pc);
  }

  /** The sign analysis: both operands become magnitudes, and control goes to the
      operation that negates its result just when the signs differ. */
  lemma {:induction false} DivSigns(p: seq<Node>, k: nat, m: Layout, s: State, vars: Vars, l: seq<U64>, op: AluOp,
                                    a: U64, b: U64, n: nat) returns (t: State)
    requires Dividing(m, s, vars, l, a, b, k + 9) && UniqueLabels(p) && n >= 1
    requires DivisionAt(p, k, op, RegAt(|l|), RegAt(|l| + 1), n)
    ensures Reaches(p, s, t)
    ensures Dividing(m, t, vars, l, Magnitude(a), Magnitude(b), if (a < HALF) == (b < HALF) then k + 19 else k + 13)
  {
    hide UniqueLabels;
    hide Inv;
    var s1 := DivBranch(p, m, s, vars, l, a, b, k + 16);
    if a < HALF {
      var s2 := DivBranch(p, m, s1, vars, l, a, b, k + 12);
      ReachTrans(p, s, s1, s2);
      if b < HALF {
        t := DivBranch(p, m, s2, vars, l, a, b, k + 19);
      } else {
        t := DivNegate(p, m, s2, vars, l, a, b, false);
      }
      ReachTrans(p, s, s2, t);
    } else {
      var s2 := DivNegate(p, m, s1, vars, l, a, b, true);
      var s3 := DivBranch(p, m, s2, vars, l, Negated(a), b, k + 13);
      ReachTrans(p, s, s1, s2);
      ReachTrans(p, s, s2, s3);
      t := s3;
      if b >= HALF {
        t := DivNegate(p, m, s3, vars, l, Negated(a), b, false);
        ReachTrans(p, s, s3, t);
      }
    }
  }

  lemma {:induction false} DivOperate(p: seq<Node>, m: Layout, s: State, vars: Vars, l: seq<U64>, op: AluOp, a: U64,
                                      b: U64)
    returns (t: State)
    requires Dividing(m, s, vars, l, a, b, s.pc) && 0 <= s.pc < |p|
    requires p[s.pc].insn == AluReg(op, RegAt(|l|), RegAt(|l| + 1))
    ensures Reaches(p, s, t) && Dividing(m, t, vars, l, Alu(op, a, b), b, s.pc + 1)
  {
    hide Alu;
    RegsDistinct(|l|, |l| + 1);
    t := StepWrite(p, m, s, vars, l, |l| + 2, |l|);
  }

  lemma {:induction false} DivEnd(p: seq<Node>, k: nat, m: Layout, s: State, vars: Vars, l: seq<U64>, op: AluOp,
                                  a: U64, b: U64, n: nat, mixed: bool) returns (t: State)
    requires Dividing(m, s, vars, l, a, b, if mixed then k + 13 else k + 19) && UniqueLabels(p) && n >= 1
    requires DivisionAt(p, k, op, RegAt(|l|), RegAt(|l| + 1), n)
    ensures Reaches(p, s, t)
    ensures Dividing(m, t, vars, l, if mixed then Negated(Alu(op, a, b)) else Alu(op, a, b), b, k + 21)
  {
    hide UniqueLabels;
    hide Inv;
    hide Alu;
    var u := Alu(op, a, b);
    var s1 := DivOperate(p, m, s, vars, l, op, a, b);
    var s3 := s1;
    if mixed {
      var s2 := DivNegate(p, m, s1, vars, l, u, b, true);
      s3 := DivBranch(p, m, s2, vars, l, Negated(u), b, k + 20);
      ReachTrans(p, s, s1, s2);
      ReachTrans(p, s, s2, s3);
    }
    t := DivNop(p, m, s3, vars, l, if mixed then Negated(u) else u, b);
    ReachTrans(p, s, s3, t);
  }

  lemma {:induction false} DivNop(p: seq<Node>, m: Layout, s: State, vars: Vars, l: seq<U64>, a: U64, b: U64)
    returns (t: State)
    requires Dividing(m, s, vars, l, a, b, s.pc) && 0 <= s.pc < |p| && p[s.pc].insn.IsNop()
    ensures Reaches(p, s, t) && Dividing(m, t, vars, l, a, b, s.pc + 1)
  {
    t := StepNop(p, s);
    Repoint(m, s, vars, l, |l| + 2, t.pc);
  }

  lemma {:induction false} RunDivision(p: seq<Node>, k: nat, m: Layout, s: State, vars: Vars, l: seq<U64>, op: BinOp,
                                       a: U64, b: U64, n: nat) returns (t: State)
    requires |l| + 2 <= 2 * NREGS && Dividing(m, s, vars, l, a, b, k) && UniqueLabels(p) && n >= 1
    requires op == Divide || op == Modulo
    requires CodeAt(p, k, SignedDivision(OpcodeOf(op, true), RegAt(|l|), RegAt(|l| + 1), n))
    ensures Reaches(p, s, t) && Operated(m, t, vars, l, op, true, a, b, k + 21)
  {
    hide UniqueLabels;
    hide Inv;
    var o := OpcodeOf(op, true);
    DivisionNodes(p, k, o, RegAt(|l|), RegAt(|l| + 1), n);
    var s1 := DivBranch(p, m, s, vars, l, a, b, k + 8);
    if b == 0 {
      DivisionFault(p, k, m, s1, vars, l);
      t := RunProbeError(p, k + 1, s1);
      ReachTrans(p, s, s1, t);
    } else {
      var s2 := DivNop(p, m, s1, vars, l, a, b);
      var s3 := DivSigns(p, k, m, s2, vars, l, o, a, b, n);
      t := DivEnd(p, k, m, s3, vars, l, o, Magnitude(a), Magnitude(b), n, (a < HALF) != (b < HALF));
      ReachTrans(p, s, s1, s2);
      ReachTrans(p, s, s2, s3);
      ReachTrans(p, s, s3, t);
      DivisionBySigns(op, a, b);
    }
  }

  lemma {:induction false} DivisionFault(p: seq<Node>, k: nat, m: Layout, s: State, vars: Vars, l: seq<U64>)
    requires Inv(m, s, vars, l, |l| + 2)
    ensures s.status == Running && Contents(m, s.mem, vars)
  {
  }

  lemma {:induction false} RunOp(p: seq<Node>, k: nat, m: Layout, s: State, vars: Vars, l: seq<U64>, op: BinOp,
                                 signed: bool, a: U64, b: U64, n: nat) returns (t: State)
    requires |l| + 2 <= 2 * NREGS && UniqueLabels(p) && n >= 1 && s.pc == k
    requires Inv(m, s, vars, l + [a] + [b], |l| + 2)
    requires CodeAt(p, k, OpCode(op, signed, RegAt(|l|), RegAt(|l| + 1), n))
    ensures Reaches(p, s, t)
    ensures Operated(m, t, vars, l, op, signed, a, b, k + |OpCode(op, signed, RegAt(|l|), RegAt(|l| + 1), n)|)
  {
    hide UniqueLabels;
    hide Inv;
    Top2(m, s, vars, l, a, b, |l| + 2);
    if IsSignedDivision(op, signed) {
      t := RunDivision(p, k, m, s, vars, l, op, a, b, n);
    } else {
      t := RunPlainOp(p, k, m, s, vars, l, op, signed, a, b);
    }
  }

  // ----- operators -----

  /** Freeing the second operand's register leaves the result on the stack. */
  lemma {:induction false} RunFreeSecond(p: seq<Node>, k: nat, m: Layout, s: State, vars: Vars, l: seq<U64>, x: U64)
    returns (t: State)
    requires |l| + 2 <= 2 * NREGS && Inv(m, s, vars, l, |l| + 2) && s.regs[RegAt(|l|)] == x
    requires s.pc == k && CodeAt(p, k, FreeCode(|l| + 1))
    ensures Reaches(p, s, t) && t.pc == k + |FreeCode(|l| + 1)| && Inv(m, t, vars, l + [x], |l| + 1)
  {
    hide Inv;
    t := RunFree(p, k, m, s, vars, l, |l| + 1);
    RegsDistinct(|l|, |l| + 1);
    Push(m, t, vars, l, x, |l| + 1);
  }

  /** dt_cg_arithmetic_op after both operands. */
  lemma {:induction false} BinaryTail(p: seq<Node>, k: nat, m: Layout, s: State, vars: Vars, l: seq<U64>, op: BinOp,
                                      signed: bool, a: U64, b: U64, n: nat) returns (t: State)
    requires |l| + 2 <= 2 * NREGS && UniqueLabels(p) && n >= 1 && s.pc == k
    requires Inv(m, s, vars, l + [a] + [b], |l| + 2)
    requires CodeAt(p, k, OpCode(op, signed, RegAt(|l|), RegAt(|l| + 1), n) + FreeCode(|l| + 1))
    ensures Reaches(p, s, t)
    ensures After(m, t, Combine(op, signed, a, b, vars), l,
                  k + |OpCode(op, signed, RegAt(|l|), RegAt(|l| + 1), n)| + |FreeCode(|l| + 1)|)
  {
    hide UniqueLabels;
    hide Inv;
    hide BinaryValue;
    var c := OpCode(op, signed, RegAt(|l|), RegAt(|l| + 1), n);
    CodeSplit(p, k, c, FreeCode(|l| + 1));
    var u := RunOp(p, k, m, s, vars, l, op, signed, a, b, n);
    if Faults(op, signed, b) {
      t := u;
    } else {
      t := RunFreeSecond(p, k + |c|, m, u, vars, l, BinaryValue(op, signed, a, b));
      ReachTrans(p, s, u, t);
    }
  }

  /** dt_cg_compare_op after both operands, when the second one needed no spill. */
  lemma {:induction false} CompareEnd(p: seq<Node>, k: nat, m: Layout, s: State, vars: Vars, l: seq<U64>, j: JmpOp,
                                      a: U64, b: U64, n: nat) returns (t: State)
    requires |l| + 1 < NREGS && UniqueLabels(p) && n >= 1 && s.pc == k
    requires Inv(m, s, vars, l + [a] + [b], |l| + 2)
    requires CodeAt(p, k, CompareTail(j, n, |l|))
    ensures Reaches(p, s, t) && t.pc == k + 5 && Inv(m, t, vars, l + [Truth(Test(j, a, b))], |l| + 1)
  {
    hide UniqueLabels;
    hide Inv;
    hide Test;
    var d := |l|;
    var c := CompareTail(j, n, d);
    forall i | 0 <= i < 5 ensures p[k + i] == c[i] { CodeNode(p, k, c, i); }
    Top2(m, s, vars, l, a, b, d + 2);
    t := SetTruth(p, k, m, s, vars, l, d + 2, Test(j, a, b), k + 3, k + 4);
    var u := RunFree(p, t.pc, m, t, vars, l, d + 1);
    ReachTrans(p, s, t, u);
    RegsDistinct(d, d + 1);
    t := u;
    Push(m, t, vars, l, Truth(Test(j, a, b)), d + 1);
  }

  /** The common shape "branch; %r = 0; jump post; true: %r = 1; post: nop". */
  lemma {:induction false} SetTruth(p: seq<Node>, k: nat, m: Layout, s: State, vars: Vars, l: seq<U64>, d: nat,
                                    cond: bool, q: nat, post: nat) returns (t: State)
    requires UniqueLabels(p) && Inv(m, s, vars, l, d) && |l| < d <= 2 * NREGS && s.pc == k && q == k + 3
    requires post == k + 4 < |p|
    requires p[k].insn.IsBranch() && p[q].lbl != NO_LABEL && p[q].lbl == p[k].insn.off && Taken(p[k].insn, s) == cond
    requires p[k + 1].insn == MovImm(RegAt(|l|), 0)
    requires p[k + 2].insn.Jump? && p[k + 2].insn.off != 0 && p[k + 2].insn.off == p[post].lbl
    requires p[q].insn == MovImm(RegAt(|l|), 1) && p[post].insn == NOP
    ensures Reaches(p, s, t) && t.pc == k + 5 && Inv(m, t, vars, l, d) && t.regs[RegAt(|l|)] == Truth(cond)
  {
    hide UniqueLabels;
    hide Taken;
    var s1 := StepAway(p, m, s, vars, l, d, q);
    hide Inv;
    var s2 := StepMov(p, m, s1, vars, l, d, |l|, Truth(cond));
    ReachTrans(p, s, s1, s2);
    var s3 := s2;
    if !cond {
      s3 := StepJump(p, m, s2, vars, l, d, post);
      ReachTrans(p, s, s2, s3);
    }
    t := StepNopInv(p, m, s3, vars, l, d);
    ReachTrans(p, s, s3, t);
  }

  lemma {:induction false} StepAway(p: seq<Node>, m: Layout, s: State, vars: Vars, l: seq<U64>, d: nat, q: nat)
    returns (t: State)
    requires UniqueLabels(p) && Inv(m, s, vars, l, d) && 0 <= s.pc < |p| && p[s.pc].insn.IsBranch()
    requires q < |p| && p[q].lbl != NO_LABEL && p[q].lbl == p[s.pc].insn.off
    ensures Reaches(p, s, t) && Inv(m, t, vars, l, d) && t.pc == if Taken(p[s.pc].insn, s) then q else s.pc + 1
  {
    hide UniqueLabels;
    hide Taken;
    t := StepBranch(p, s, q);
    Repoint(m, s, vars, l, d, t.pc);
  }

  lemma {:induction false} StepJump(p: seq<Node>, m: Layout, s: State, vars: Vars, l: seq<U64>, d: nat, q: nat)
    returns (t: State)
    requires UniqueLabels(p) && Inv(m, s, vars, l, d) && 0 <= s.pc < |p| && p[s.pc].insn.Jump? && p[s.pc].insn.off != 0
    requires q < |p| && p[q].lbl == p[s.pc].insn.off
    ensures Reaches(p, s, t) && Inv(m, t, vars, l, d) && t.pc == q && t.regs == s.regs
  {
    hide UniqueLabels;
    t := StepBranch(p, s, q);
    Repoint(m, s, vars, l, d, t.pc);
  }

  lemma {:induction false} StepNopInv(p: seq<Node>, m: Layout, s: State, vars: Vars, l: seq<U64>, d: nat)
    returns (t: State)
    requires Inv(m, s, vars, l, d) && 0 <= s.pc < |p| && p[s.pc].insn.IsNop()
    ensures Reaches(p, s, t) && Inv(m, t, vars, l, d) && t.pc == s.pc + 1 && t.regs == s.regs
  {
    t := StepNop(p, s);
    Repoint(m, s, vars, l, d, t.pc);
  }

  /** A conditional jump on the top value; the stack stays as it is. */
  lemma {:induction false} StepTest(p: seq<Node>, m: Layout, s: State, vars: Vars, l: seq<U64>, x: U64, zero: bool,
                                    q: nat)
    returns (t: State)
    requires UniqueLabels(p) && Inv(m, s, vars, l + [x], |l| + 1) && 0 <= s.pc < |p| && q < |p|
    requires p[s.pc].insn.JmpImm? && p[s.pc].insn == JmpImm(if zero then Jeq else Jne, RegAt(|l|), 0, p[s.pc].insn.off)
    requires p[q].lbl != NO_LABEL && p[q].lbl == p[s.pc].insn.off
    ensures Reaches(p, s, t) && Inv(m, t, vars, l + [x], |l| + 1)
    ensures t.pc == if (x == 0) == zero then q else s.pc + 1
  {
    hide UniqueLabels;
    Top(m, s, vars, l, x, |l| + 1);
    t := StepBranch(p, s, q);
    Repoint(m, s, vars, l + [x], |l| + 1, t.pc);
  }

  /** Popping the top value. */
  lemma {:induction false} RunPop(p: seq<Node>, k: nat, m: Layout, s: State, vars: Vars, l: seq<U64>, x: U64)
    returns (t: State)
    requires Inv(m, s, vars, l + [x], |l| + 1) && s.pc == k && |l| < 2 * NREGS && CodeAt(p, k, FreeCode(|l|))
    ensures Reaches(p, s, t) && t.pc == k + |FreeCode(|l|)| && Inv(m, t, vars, l, |l|) && t.mem == s.mem
  {
    Top(m, s, vars, l, x, |l| + 1);
    t := RunFree(p, k, m, s, vars, l, |l|);
  }

  /** Overwriting the top value with an immediate. */
  lemma {:induction false} StepSet(p: seq<Node>, m: Layout, s: State, vars: Vars, l: seq<U64>, x: U64, y: U64)
    returns (t: State)
    requires Inv(m, s, vars, l + [x], |l| + 1) && 0 <= s.pc < |p| && p[s.pc].insn == MovImm(RegAt(|l|), y)
    ensures Reaches(p, s, t) && t.pc == s.pc + 1 && Inv(m, t, vars, l + [y], |l| + 1)
  {
    hide Inv;
    Top(m, s, vars, l, x, |l| + 1);
    t := StepMov(p, m, s, vars, l, |l| + 1, |l|, y);
    Push(m, t, vars, l, y, |l| + 1);
  }

  lemma {:induction false} RunSetTop(p: seq<Node>, k: nat, m: Layout, s: State, vars: Vars, l: seq<U64>, x: U64, y: U64)
    returns (t: State)
    requires |l| < 2 * NREGS && Inv(m, s, vars, l + [x], |l| + 1) && s.pc == k && CodeAt(p, k, SetX(RegAt(|l|), y))
    ensures Reaches(p, s, t) && t.pc == k + 2 && Inv(m, t, vars, l + [y], |l| + 1)
  {
    Top(m, s, vars, l, x, |l| + 1);
    t := RunSetX(p, k, m, s, vars, l, |l| + 1, |l|, y);
    Push(m, t, vars, l, y, |l| + 1);
  }

  lemma {:induction false} AndFalse(p: seq<Node>, k: nat, m: Layout, s: State, vars: Vars, l: seq<U64>, x: U64, n: nat)
    returns (t: State)
    requires |l| < 2 * NREGS && Inv(m, s, vars, l + [x], |l| + 1) && s.pc == k + 4
    requires CodeAt(p, k, AndTail(RegAt(|l|), n))
    ensures Reaches(p, s, t) && t.pc == k + 6 && Inv(m, t, vars, l + [0], |l| + 1)
  {
    hide Inv;
    CodeNode(p, k, AndTail(RegAt(|l|), n), 4);
    CodeNode(p, k, AndTail(RegAt(|l|), n), 5);
    var u := StepSet(p, m, s, vars, l, x, 0);
    t := StepNopInv(p, m, u, vars, l + [0], |l| + 1);
    ReachTrans(p, s, u, t);
  }

  lemma {:induction false} AndEnd(p: seq<Node>, k: nat, m: Layout, s: State, vars: Vars, l: seq<U64>, x: U64, n: nat)
    returns (t: State)
    requires |l| < 2 * NREGS && UniqueLabels(p) && n >= 1 && Inv(m, s, vars, l + [x], |l| + 1) && s.pc == k
    requires CodeAt(p, k, AndTail(RegAt(|l|), n))
    ensures Reaches(p, s, t) && t.pc == k + 6 && Inv(m, t, vars, l + [Truth(x != 0)], |l| + 1)
  {
    hide UniqueLabels;
    hide Inv;
    var r := RegAt(|l|);
    var jeq, one, rest := [Plain(JmpImm(Jeq, r, 0, n))], SetX(r, 1),
                          [Plain(Jump(n + 1)), Labelled(n, MovImm(r, 0)), Labelled(n + 1, NOP)];
    CodeSplit(p, k, jeq + one, rest);
    CodeSplit(p, k, jeq, one);
    CodeNode(p, k, jeq, 0);
    forall i | 0 <= i < 3 ensures p[k + 3 + i] == rest[i] { CodeNode(p, k + 3, rest, i); }
    var s1 := StepTest(p, m, s, vars, l, x, true, k + 4);
    if x == 0 {
      t := AndFalse(p, k, m, s1, vars, l, x, n);
      ReachTrans(p, s, s1, t);
    } else {
      var s2 := RunSetTop(p, k + 1, m, s1, vars, l, x, 1);
      var s3 := StepJump(p, m, s2, vars, l + [1], |l| + 1, k + 5);
      t := StepNopInv(p, m, s3, vars, l + [1], |l| + 1);
      ReachTrans(p, s, s1, s2);
      ReachTrans(p, s, s2, s3);
      ReachTrans(p, s, s3, t);
    }
  }

  lemma {:induction false} OrTrue(p: seq<Node>, k: nat, m: Layout, s: State, vars: Vars, l: seq<U64>, x: U64, n: nat)
    returns (t: State)
    requires |l| < 2 * NREGS && UniqueLabels(p) && n >= 1 && Inv(m, s, vars, l + [x], |l| + 1) && s.pc == k + 1
    requires CodeAt(p, k, OrTail(RegAt(|l|), n))
    ensures Reaches(p, s, t) && t.pc == k + 5 && Inv(m, t, vars, l + [1], |l| + 1)
  {
    hide UniqueLabels;
    hide Inv;
    var c := OrTail(RegAt(|l|), n);
    CodeNode(p, k, c, 1);
    CodeNode(p, k, c, 2);
    CodeNode(p, k, c, 4);
    var s1 := StepSet(p, m, s, vars, l, x, 1);
    var s2 := StepJump(p, m, s1, vars, l + [1], |l| + 1, k + 4);
    t := StepNopInv(p, m, s2, vars, l + [1], |l| + 1);
    ReachTrans(p, s, s1, s2);
    ReachTrans(p, s, s2, t);
  }

  lemma {:induction false} OrEnd(p: seq<Node>, k: nat, m: Layout, s: State, vars: Vars, l: seq<U64>, x: U64, n: nat)
    returns (t: State)
    requires |l| < 2 * NREGS && UniqueLabels(p) && n >= 1 && Inv(m, s, vars, l + [x], |l| + 1) && s.pc == k
    requires CodeAt(p, k, OrTail(RegAt(|l|), n))
    ensures Reaches(p, s, t) && t.pc == k + 5 && Inv(m, t, vars, l + [Truth(x != 0)], |l| + 1)
  {
    hide UniqueLabels;
    hide Inv;
    var c := OrTail(RegAt(|l|), n);
    CodeNode(p, k, c, 0);
    CodeNode(p, k, c, 3);
    CodeNode(p, k, c, 4);
    var s1 := StepTest(p, m, s, vars, l, x, true, k + 3);
    if x == 0 {
      var s2 := StepSet(p, m, s1, vars, l, x, 0);
      t := StepNopInv(p, m, s2, vars, l + [0], |l| + 1);
      ReachTrans(p, s, s1, s2);
      ReachTrans(p, s, s2, t);
    } else {
      t := OrTrue(p, k, m, s1, vars, l, x, n);
      ReachTrans(p, s, s1, t);
    }
  }

  /** Normalising the top value; the last node of the sequence is not run yet. */
  lemma {:induction false} RunTruth(p: seq<Node>, k: nat, m: Layout, s: State, vars: Vars, l: seq<U64>, x: U64, n: nat,
                                    last: Insn)
    returns (t: State)
    requires |l| < 2 * NREGS && UniqueLabels(p) && n >= 1 && Inv(m, s, vars, l + [x], |l| + 1) && s.pc == k
    requires CodeAt(p, k, TruthCode(RegAt(|l|), n, last))
    ensures Reaches(p, s, t) && t.pc == k + 3 && Inv(m, t, vars, l + [Truth(x != 0)], |l| + 1)
    ensures k + 3 < |p| && p[k + 3] == Labelled(n, last)
  {
    hide UniqueLabels;
    hide Inv;
    var r := RegAt(|l|);
    var jeq, one, rest := [Plain(JmpImm(Jeq, r, 0, n))], SetX(r, 1), [Labelled(n, last)];
    CodeSplit(p, k, jeq + one, rest);
    CodeSplit(p, k, jeq, one);
    CodeNode(p, k, jeq, 0);
    CodeNode(p, k + 3, rest, 0);
    t := StepTest(p, m, s, vars, l, x, true, k + 3);
    if x != 0 {
      var u := RunSetTop(p, k + 1, m, t, vars, l, x, 1);
      ReachTrans(p, s, t, u);
      t := u;
    }
  }

  lemma {:induction false} XorEnd(p: seq<Node>, k: nat, m: Layout, s: State, vars: Vars, l: seq<U64>, a: U64, b: U64,
                                  n: nat)
    returns (t: State)
    requires |l| + 2 <= 2 * NREGS && UniqueLabels(p) && n >= 1
    requires Inv(m, s, vars, l + [a] + [b], |l| + 2) && s.pc == k
    requires CodeAt(p, k, TruthCode(RegAt(|l| + 1), n, AluReg(Xor, RegAt(|l|), RegAt(|l| + 1))) + FreeCode(|l| + 1))
    ensures Reaches(p, s, t) && t.pc == k + 4 + |FreeCode(|l| + 1)|
    ensures Inv(m, t, vars, l + [Alu(Xor, a, Truth(b != 0))], |l| + 1)
  {
    hide UniqueLabels;
    hide Inv;
    hide Alu;
    hide TruthCode;
    var c := TruthCode(RegAt(|l| + 1), n, AluReg(Xor, RegAt(|l|), RegAt(|l| + 1)));
    TruthLength(RegAt(|l| + 1), n, AluReg(Xor, RegAt(|l|), RegAt(|l| + 1)));
    CodeSplit(p, k, c, FreeCode(|l| + 1));
    var s1 := RunTruth(p, k, m, s, vars, l + [a], b, n, AluReg(Xor, RegAt(|l|), RegAt(|l| + 1)));
    Top2(m, s1, vars, l, a, Truth(b != 0), |l| + 2);
    var s2 := StepWrite(p, m, s1, vars, l, |l| + 2, |l|);
    t := RunFreeSecond(p, k + 4, m, s2, vars, l, Alu(Xor, a, Truth(b != 0)));
    ReachTrans(p, s, s1, s2);
    ReachTrans(p, s, s2, t);
  }

  lemma {:induction false} TruthLength(r: Reg, n: nat, last: Insn)
    ensures |TruthCode(r, n, last)| == 4
  {
  }

  lemma {:induction false} NotEnd(p: seq<Node>, k: nat, m: Layout, s: State, vars: Vars, l: seq<U64>, x: U64, n: nat)
    returns (t: State)
    requires |l| < 2 * NREGS && UniqueLabels(p) && n >= 1 && Inv(m, s, vars, l + [x], |l| + 1) && s.pc == k
    requires CodeAt(p, k, NotTail(RegAt(|l|), n))
    ensures Reaches(p, s, t) && t.pc == k + 5 && Inv(m, t, vars, l + [Truth(x == 0)], |l| + 1)
  {
    hide UniqueLabels;
    hide Inv;
    var c := NotTail(RegAt(|l|), n);
    forall i | 0 <= i < 5 ensures p[k + i] == c[i] { CodeNode(p, k, c, i); }
    Top(m, s, vars, l, x, |l| + 1);
    t := SetTruth(p, k, m, s, vars, l, |l| + 1, x == 0, k + 3, k + 4);
    Push(m, t, vars, l, Truth(x == 0), |l| + 1);
  }

  function UnaryValue(e: Expr, a: U64): U64
    requires IsUnary(e)
  {
    match e
    case BitNot(_, _) => W - 1 - a
    case Negate(_, _) => Negated(a)
    case UnaryPlus(_, _) => a
    case Cast(ty, x) => CastValue(TypeOf(x), ty, a)
  }

  lemma {:induction false} UnaryEnd(e: Expr, p: seq<Node>, k: nat, m: Layout, s: State, vars: Vars, l: seq<U64>, x: U64)
    returns (t: State)
    requires IsUnary(e) && |l| < 2 * NREGS && Inv(m, s, vars, l + [x], |l| + 1) && s.pc == k
    requires CodeAt(p, k, UnaryCode(e, RegAt(|l|)))
    ensures Reaches(p, s, t) && t.pc == k + |UnaryCode(e, RegAt(|l|))|
    ensures Inv(m, t, vars, l + [UnaryValue(e, x)], |l| + 1)
  {
    hide Inv;
    hide Alu;
    var r, c := RegAt(|l|), UnaryCode(e, RegAt(|l|));
    Top(m, s, vars, l, x, |l| + 1);
    if e.UnaryPlus? || (e.Cast? && NoCast(TypeOf(e.e), e.ty)) {
      t := s;
      ReachSelf(p, s);
    } else if e.Cast? {
      t := RunShifts(p, k, m, s, vars, l, if e.ty.signed then Arsh else Rsh, Gap(e.ty));
      ShiftsConvert(e.ty, x);
      Push(m, t, vars, l, UnaryValue(e, x), |l| + 1);
    } else {
      CodeNode(p, k, c, 0);
      t := StepWrite(p, m, s, vars, l, |l| + 1, |l|);
      ComplementWord(x);
      Push(m, t, vars, l, UnaryValue(e, x), |l| + 1);
    }
  }

  /** dt_cg_store_var: the value stays on the stack and reaches the variable. */
  lemma {:induction false} StoreEnd(p: seq<Node>, k: nat, m: Layout, s: State, vars: Vars, l: seq<U64>, v: Var, x: U64)
    returns (t: State)
    requires |l| + 2 <= 2 * NREGS && v in vars && Inv(m, s, vars, l + [x], |l| + 1) && s.pc == k
    requires CodeAt(p, k, StoreNodes([], v, |l|))
    ensures Reaches(p, s, t) && t.pc == k + |StoreNodes([], v, |l|)|
    ensures Inv(m, t, Put(vars, v, x), l + [x], |l| + 1)
  {
    hide Inv, CodeAt, Reaches, AllocCode, FreeCode, AccessVars, RegAt, Put;
    var d := |l|;
    var b := RegAt(d + 1);
    var al, ac, st, fr := AllocCode(d + 1), AccessVars(b, v.scope),
                          [Plain(StoreMem(v.ty.size, b, v.offset, RegAt(d)))], FreeCode(d + 1);
    assert [] + al == al;
    AccessLength(b, v.scope);
    CodeSplit(p, k, al + ac + st, fr);
    CodeSplit(p, k, al + ac, st);
    CodeSplit(p, k, al, ac);
    var s1 := RunAlloc(p, k, m, s, vars, l + [x]);
    var s2 := RunAccess(p, k + |al|, m, s1, vars, l + [x], d + 2, d + 1, v);
    var s3 := RunStore(p, k + |al + ac|, m, s2, vars, l, v, x);
    t := RunFree(p, k + |al + ac| + 1, m, s3, Put(vars, v, x), l + [x], d + 1);
    ReachTrans(p, s, s1, s2);
    ReachTrans(p, s, s2, s3);
    ReachTrans(p, s, s3, t);
  }

  lemma {:induction false} AccessLength(r: Reg, scope: Scope)
    ensures |AccessVars(r, scope)| == 2
  {
  }

  lemma {:induction false} RunStore(p: seq<Node>, k: nat, m: Layout, s: State, vars: Vars, l: seq<U64>, v: Var, x: U64)
    returns (t: State)
    requires |l| + 2 <= 2 * NREGS && v in vars && Inv(m, s, vars, l + [x], |l| + 2) && s.pc == k
    requires CodeAt(p, k, [Plain(StoreMem(v.ty.size, RegAt(|l| + 1), v.offset, RegAt(|l|)))])
    requires s.regs[RegAt(|l| + 1)] + v.offset == VarAddr(m, v)
    ensures Reaches(p, s, t) && t.pc == k + 1 && Inv(m, t, Put(vars, v, x), l + [x], |l| + 2)
  {
    hide Load;
    hide Store;
    hide Pow2;
    CodeNode(p, k, [Plain(StoreMem(v.ty.size, RegAt(|l| + 1), v.offset, RegAt(|l|)))], 0);
    Top(m, s, vars, l, x, |l| + 2);
    assert VarClear(m, v);
    AddressExact(s.regs[RegAt(|l| + 1)], v.offset);
    var mem' := StoreVariable(m, s.mem, vars, v, x);
    t := StepIr(p, s);
    ReachStep(p, s);
    assert t == s.(mem := mem', pc := k + 1);
    forall i | 0 <= i < |l + [x]|
      ensures Held(m, t, i, (l + [x])[i], |l| + 2)
    {
      assert Held(m, s, i, (l + [x])[i], |l| + 2);
    }
  }

  /** What follows the operands of a comparison without spills. */
  function CompareTail(j: JmpOp, n: nat, d: nat): (c: seq<Node>)
    requires d + 1 < NREGS
    ensures |c| == 5
  {
    [Plain(JmpReg(j, RegAt(d), RegAt(d + 1), n)), Plain(MovImm(RegAt(d), 0)),
     Plain(Jump(n + 1)), Labelled(n, MovImm(RegAt(d), 1)), Labelled(n + 1, NOP)]
  }

  // ----- where the pieces of the code are -----

  lemma {:induction false} BinarySplit(a: seq<Node>, b: seq<Node>, op: BinOp, signed: bool, n: nat, d: nat)
    requires d + 1 < 2 * NREGS
    ensures BinaryNodes(a, b, op, signed, n, d) ==
            a + b + (OpCode(op, signed, RegAt(d), RegAt(d + 1), n) + FreeCode(d + 1))
  {
  }

  lemma {:induction false} JumpHolds(cmp: CmpOp, signed: bool, a: U64, b: U64)
    ensures Test(JumpFor(cmp, signed), a, b) == Holds(cmp, signed, a, b)
  {
  }

  /** Where the pieces of a ?: without spills are. */
  lemma {:induction false} CondSplit(p: seq<Node>, k: nat, c: seq<Node>, a: seq<Node>, b: seq<Node>, n: nat, d: nat)
    requires d < NREGS && CodeAt(p, k, CondNodes(c, a, b, n, d))
    ensures |CondNodes(c, a, b, n, d)| == |c| + |a| + |b| + 5
    ensures var ka, kb := k + |c| + 1, k + |c| + 1 + |a| + 3;
      && CodeAt(p, k, c) && CodeAt(p, ka, a) && CodeAt(p, kb, b)
      && kb + |b| < |p|
      && p[k + |c|] == Plain(JmpImm(Jeq, RegAt(d), 0, n))
      && p[ka + |a|] == Plain(MovReg(RegAt(d), RegAt(d)))
      && p[ka + |a| + 1] == Plain(Jump(n + 1))
      && p[kb - 1] == Labelled(n, NOP)
      && p[kb + |b|] == Labelled(n + 1, NOP)
  {
    var x1 := [Plain(JmpImm(Jeq, RegAt(d), 0, n))];
    var x2 := [Plain(MovReg(RegAt(d), RegAt(d))), Plain(Jump(n + 1)), Labelled(n, NOP)];
    var x3 := [Labelled(n + 1, NOP)];
    CondFlat(c, a, b, n, d);
    hide CondNodes, CodeAt, RegAt;
    CondPieces(p, k, c, x1, a, x2, b, x3);
  }

  lemma {:induction false} CondPieces(p: seq<Node>, k: nat, c: seq<Node>, x1: seq<Node>, a: seq<Node>, x2: seq<Node>,
                                      b: seq<Node>, x3: seq<Node>)
    requires CodeAt(p, k, c + x1 + a + (x2 + (b + x3))) && |x1| == 1 && |x2| == 3 && |x3| == 1
    ensures var q := k + |c| + 1 + |a|;
      && CodeAt(p, k, c) && CodeAt(p, k + |c| + 1, a) && CodeAt(p, q + 3, b) && q + 3 + |b| < |p|
      && p[k + |c|] == x1[0] && p[q] == x2[0] && p[q + 1] == x2[1] && p[q + 2] == x2[2] && p[q + 3 + |b|] == x3[0]
  {
    hide CodeAt;
    var q := k + |c| + 1 + |a|;
    CodeSplitFour(p, k, c, x1, a, x2 + (b + x3));
    CodeSplit(p, q, x2, b + x3);
    CodeSplit(p, q + 3, b, x3);
    CodeNode(p, k + |c|, x1, 0);
    CodeNode(p, q, x2, 0);
    CodeNode(p, q, x2, 1);
    CodeNode(p, q, x2, 2);
    CodeNode(p, q + 3 + |b|, x3, 0);
    CodeInside(p, q + 3 + |b|, x3);
  }

  lemma {:induction false} CondFlat(c: seq<Node>, a: seq<Node>, b: seq<Node>, n: nat, d: nat)
    requires d < NREGS
    ensures CondNodes(c, a, b, n, d) ==
      c + [Plain(JmpImm(Jeq, RegAt(d), 0, n))] + a +
      ([Plain(MovReg(RegAt(d), RegAt(d))), Plain(Jump(n + 1)), Labelled(n, NOP)] + (b + [Labelled(n + 1, NOP)]))
  {
    hide RegAt;
  }

  /** The end of the left arm: the patched MOV and the jump over the right arm. */
  lemma {:induction false} CondLeftEnd(p: seq<Node>, k: nat, q: nat, m: Layout, s: State, vars: Vars, l: seq<U64>,
                                       x: U64, n: nat)
    returns (t: State)
    requires |l| < NREGS && UniqueLabels(p) && n >= 1 && Inv(m, s, vars, l + [x], |l| + 1) && s.pc == k
    requires k + 1 < |p| && p[k] == Plain(MovReg(RegAt(|l|), RegAt(|l|))) && p[k + 1] == Plain(Jump(n + 1))
    requires q < |p| && p[q] == Labelled(n + 1, NOP)
    ensures Reaches(p, s, t) && t.pc == q + 1 && Inv(m, t, vars, l + [x], |l| + 1)
  {
    hide UniqueLabels;
    hide Inv;
    Top(m, s, vars, l, x, |l| + 1);
    var s1 := StepWrite(p, m, s, vars, l, |l| + 1, |l|);
    assert s1.regs[RegAt(|l|)] == x;
    Push(m, s1, vars, l, x, |l| + 1);
    var s2 := StepJump(p, m, s1, vars, l + [x], |l| + 1, q);
    t := StepNopInv(p, m, s2, vars, l + [x], |l| + 1);
    ReachTrans(p, s, s1, s2);
    ReachTrans(p, s, s2, t);
  }

  /** Where the pieces of && and || are. */
  lemma {:induction false} LogicSplit(p: seq<Node>, k: nat, a: seq<Node>, x: seq<Node>, f: seq<Node>, b: seq<Node>,
                                      y: seq<Node>)
    requires CodeAt(p, k, a + x + f + b + y) && |x| == 1
    ensures CodeAt(p, k, a) && k + |a| < |p| && p[k + |a|] == x[0]
    ensures CodeAt(p, k + |a| + 1, f) && CodeAt(p, k + |a| + 1 + |f|, b) && CodeAt(p, k + |a| + 1 + |f| + |b|, y)
  {
    CodeSplit(p, k, a + x + f + b, y);
    CodeSplit(p, k, a + x + f, b);
    CodeSplit(p, k, a + x, f);
    CodeSplit(p, k, a, x);
    CodeNode(p, k + |a|, x, 0);
  }

  lemma {:induction false} AndTailLabel(r: Reg, n: nat)
    ensures |AndTail(r, n)| == 6 && AndTail(r, n)[4].lbl == n
  {
  }

  lemma {:induction false} OrTailLabel(r: Reg, n: nat)
    ensures |OrTail(r, n)| == 5 && OrTail(r, n)[1].lbl == n
  {
  }

  lemma {:induction false} XorSplit(p: seq<Node>, k: nat, a: seq<Node>, b: seq<Node>, n: nat, d: nat)
    requires d + 1 < 2 * NREGS && CodeAt(p, k, XorNodes(a, b, n, d))
    ensures |XorNodes(a, b, n, d)| == |a| + 4 + |b| + 4 + |FreeCode(d + 1)|
    ensures CodeAt(p, k, a) && CodeAt(p, k + |a|, TruthCode(RegAt(d), n, NOP)) && CodeAt(p, k + |a| + 4, b)
    ensures CodeAt(p, k + |a| + 4 + |b|,
                   TruthCode(RegAt(d + 1), n + 1, AluReg(Xor, RegAt(d), RegAt(d + 1))) + FreeCode(d + 1))
  {
    hide TruthCode;
    var x, y, f := TruthCode(RegAt(d), n, NOP),
                   TruthCode(RegAt(d + 1), n + 1, AluReg(Xor, RegAt(d), RegAt(d + 1))), FreeCode(d + 1);
    TruthLength(RegAt(d), n, NOP);
    TruthLength(RegAt(d + 1), n + 1, AluReg(Xor, RegAt(d), RegAt(d + 1)));
    assert XorNodes(a, b, n, d) == a + x + b + (y + f);
    CodeSplit(p, k, a + x + b, y + f);
    CodeSplit(p, k, a + x, b);
    CodeSplit(p, k, a, x);
  }

  lemma {:induction false} StoreSplit(a: seq<Node>, v: Var, d: nat)
    requires d + 1 < 2 * NREGS
    ensures StoreNodes(a, v, d) == a + StoreNodes([], v, d)
  {
  }

  lemma {:induction false} AssignOpSplit(p: seq<Node>, k: nat, a: seq<Node>, b: seq<Node>, op: BinOp, signed: bool,
                                         n: nat, v: Var, d: nat)
    requires d + 1 < 2 * NREGS && CodeAt(p, k, StoreNodes(BinaryNodes(a, b, op, signed, n, d), v, d))
    ensures var tail := OpCode(op, signed, RegAt(d), RegAt(d + 1), n) + FreeCode(d + 1);
      && |StoreNodes(BinaryNodes(a, b, op, signed, n, d), v, d)| == |a| + |b| + |tail| + |StoreNodes([], v, d)|
      && CodeAt(p, k, a) && CodeAt(p, k + |a|, b) && CodeAt(p, k + |a| + |b|, tail)
      && CodeAt(p, k + |a| + |b| + |tail|, StoreNodes([], v, d))
  {
    hide StoreNodes;
    hide OpCode;
    var tail := OpCode(op, signed, RegAt(d), RegAt(d + 1), n) + FreeCode(d + 1);
    BinarySplit(a, b, op, signed, n, d);
    StoreSplit(a + b + tail, v, d);
    CodeSplit(p, k, a + b + tail, StoreNodes([], v, d));
    CodeSplit(p, k, a + b, tail);
    CodeSplit(p, k, a, b);
  }
}
