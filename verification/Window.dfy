/**
 Where a running clause keeps things: its variables, the pointers that lead to them,
 and the values of the expressions being evaluated.

 The last are a stack of words.  With `d` registers handed out, the topmost eight are
 in registers and the ones below in their registers' spill slots.
 */
module Window {
  import opened Basics
  import opened Word
  import opened Memory
  import opened Bpf
  import opened Ir
  import opened Registers
  import opened Expr
  import opened CodeGen

  datatype Layout = Layout(fp: U64, dctx: U64, gvars: U64, lvars: U64)

  function VarAddr(m: Layout, v: Var): int {
    (if v.scope == Global then m.gvars else m.lvars) + v.offset
  }

  function SlotAddr(m: Layout, r: Reg): int {
    m.fp + SpillSlot(r)
  }

  const FRAME := 96
  const DCTX_SIZE := 88

  /** A variable's storage is clear of the stack frame and of the DTrace context. */
  ghost predicate VarClear(m: Layout, v: Var) {
    && 0 <= VarAddr(m, v) && VarAddr(m, v) + v.ty.size <= W
    && Disjoint(VarAddr(m, v), v.ty.size, m.fp - FRAME, FRAME)
    && Disjoint(VarAddr(m, v), v.ty.size, m.dctx, DCTX_SIZE)
  }

  /** Stack frame, DTrace context and variables do not overlap. */
  ghost predicate LayoutOk(m: Layout, vars: set<Var>) {
    && FRAME <= m.fp && m.dctx + DCTX_SIZE <= W
    && Disjoint(m.fp - FRAME, FRAME, m.dctx, DCTX_SIZE)
    && (forall v :: v in vars ==> VarClear(m, v))
    && (forall v, w :: v in vars && w in vars && v != w ==>
          Disjoint(VarAddr(m, v), v.ty.size, VarAddr(m, w), w.ty.size))
  }

  /** The DTrace context is where the frame says, and leads to the variables. */
  ghost predicate Pointers(m: Layout, mem: Mem) {
    && Read(mem, m.fp + DT_STK_DCTX, 8) == m.dctx
    && Read(mem, m.dctx + DCTX_GVARS, 8) == m.gvars
    && Read(mem, m.dctx + DCTX_LVARS, 8) == m.lvars
  }

  ghost predicate Contents(m: Layout, mem: Mem, vars: Vars) {
    forall v :: v in vars ==> Read(mem, VarAddr(m, v), v.ty.size) == vars[v]
  }

  /** The machine runs fault-free and its memory holds the variables. */
  ghost predicate Rep(m: Layout, s: State, vars: Vars) {
    && s.status == Running && s.fault == 0 && s.regs[FP] == m.fp
    && LayoutOk(m, vars.Keys) && Pointers(m, s.mem) && Contents(m, s.mem, vars)
  }

  /** With `d` registers handed out, value `i` of the stack is `x`. */
  ghost predicate Held(m: Layout, s: State, i: nat, x: U64, d: nat)
    requires i < 2 * NREGS
  {
    if i + NREGS >= d then s.regs[RegAt(i)] == x else Read(s.mem, SlotAddr(m, RegAt(i)), 8) == x
  }

  /** The values `l` are the bottom of the stack of a machine at depth `d`. */
  ghost predicate Inv(m: Layout, s: State, vars: Vars, l: seq<U64>, d: nat) {
    && Rep(m, s, vars)
    && |l| <= d <= 2 * NREGS
    && forall i :: 0 <= i < |l| ==> Held(m, s, i, l[i], d)
  }

  lemma {:induction false} RegsDistinct(i: nat, j: nat)
    requires i < j < 2 * NREGS && j < i + NREGS
    ensures RegAt(i) != RegAt(j)
  {
  }

  /** A value on top of `l` is one more value of the stack. */
  lemma {:induction false} Push(m: Layout, s: State, vars: Vars, l: seq<U64>, x: U64, d: nat)
    requires Inv(m, s, vars, l, d) && |l| < d <= |l| + NREGS && s.regs[RegAt(|l|)] == x
    ensures Inv(m, s, vars, l + [x], d)
  {
    forall i | 0 <= i < |l + [x]|
      ensures Held(m, s, i, (l + [x])[i], d)
    {
      if i < |l| { assert Held(m, s, i, l[i], d); }
    }
  }

  lemma {:induction false} Top(m: Layout, s: State, vars: Vars, l: seq<U64>, x: U64, d: nat)
    requires Inv(m, s, vars, l + [x], d) && d <= |l| + NREGS
    ensures Inv(m, s, vars, l, d) && s.regs[RegAt(|l|)] == x
  {
    assert (l + [x])[|l|] == x;
    assert Held(m, s, |l|, x, d);
    forall i | 0 <= i < |l|
      ensures Held(m, s, i, l[i], d)
    {
      assert (l + [x])[i] == l[i];
      assert Held(m, s, i, (l + [x])[i], d);
    }
  }

  lemma {:induction false} Top2(m: Layout, s: State, vars: Vars, l: seq<U64>, x: U64, y: U64, d: nat)
    requires Inv(m, s, vars, l + [x] + [y], d) && d == |l| + 2
    ensures Inv(m, s, vars, l, d) && s.regs[RegAt(|l|)] == x && s.regs[RegAt(|l| + 1)] == y
  {
    Top(m, s, vars, l + [x], y, d);
    Top(m, s, vars, l, x, d);
  }

  // ----- running code -----

  ghost predicate CodeAt(p: seq<Node>, k: nat, c: seq<Node>) {
    k + |c| <= |p| && p[k..k + |c|] == c
  }

  lemma {:induction false} CodeSplit(p: seq<Node>, k: nat, a: seq<Node>, b: seq<Node>)
    requires CodeAt(p, k, a + b)
    ensures CodeAt(p, k, a) && CodeAt(p, k + |a|, b)
  {
    assert p[k..k + |a|] == (a + b)[..|a|];
    assert p[k + |a|..k + |a| + |b|] == (a + b)[|a|..];
  }

  lemma {:induction false} CodeSplitFour(p: seq<Node>, k: nat, a: seq<Node>, b: seq<Node>, c: seq<Node>, d: seq<Node>)
    requires CodeAt(p, k, a + b + c + d)
    ensures CodeAt(p, k, a) && CodeAt(p, k + |a|, b) && CodeAt(p, k + |a| + |b|, c) && CodeAt(p, k + |a| + |b| + |c|, d)
  {
    hide CodeAt;
    CodeSplit(p, k, a + b + c, d);
    CodeSplit(p, k, a + b, c);
    CodeSplit(p, k, a, b);
  }

  lemma {:induction false} CodeInside(p: seq<Node>, k: nat, c: seq<Node>)
    requires CodeAt(p, k, c)
    ensures k + |c| <= |p|
  {
  }

  lemma {:induction false} CodeNode(p: seq<Node>, k: nat, c: seq<Node>, i: nat)
    requires CodeAt(p, k, c) && i < |c|
    ensures p[k + i] == c[i]
  {
    assert p[k..k + |c|][i] == c[i];
  }

  /** Instructions that only change the register `r`. */
  predicate Writes(i: Insn, r: Reg) {
    match i
    case AluReg(_, dst, _) => dst == r
    case AluImm(_, dst, _) => dst == r
    case NegReg(dst) => dst == r
    case LoadMem(_, dst, _, _) => dst == r
    case _ => false
  }

  /** Changing a register above the stack does not disturb the stack. */
  lemma {:induction false} WriteAbove(m: Layout, s: State, t: State, vars: Vars, l: seq<U64>, d: nat, j: nat)
    requires Inv(m, s, vars, l, d) && |l| <= j < d
    requires t.mem == s.mem && t.fault == s.fault && t.status == Running
    requires forall r: Reg :: r != RegAt(j) ==> t.regs[r] == s.regs[r]
    ensures Inv(m, t, vars, l, d)
  {
    forall i | 0 <= i < |l|
      ensures Held(m, t, i, l[i], d)
    {
      assert Held(m, s, i, l[i], d);
      if i + NREGS >= d { RegsDistinct(i, j); }
    }
  }

  /** One instruction that writes register `j` of the window. */
  lemma {:induction false} StepWrite(p: seq<Node>, m: Layout, s: State, vars: Vars, l: seq<U64>, d: nat, j: nat)
    returns (t: State)
    requires Inv(m, s, vars, l, d) && |l| <= j < d
    requires 0 <= s.pc < |p| && Writes(p[s.pc].insn, RegAt(j))
    ensures Reaches(p, s, t) && Inv(m, t, vars, l, d) && t.pc == s.pc + 1
    ensures t.regs == Effect(p[s.pc].insn, None, s).regs && t.mem == s.mem
    ensures forall r: Reg :: r != RegAt(j) ==> t.regs[r] == s.regs[r]
  {
    hide Alu;
    t := StepIr(p, s);
    ReachStep(p, s);
    WriteAbove(m, s, t, vars, l, d, j);
  }

  predicate Taken(i: Insn, s: State) {
    match i
    case JmpReg(op, a, b, _) => Test(op, s.regs[a], s.regs[b])
    case JmpImm(op, a, imm, _) => Test(op, s.regs[a], Wrap(imm))
    case _ => true
  }

  /** One jump; `q` is the node with its label. */
  lemma {:induction false} StepBranch(p: seq<Node>, s: State, q: nat) returns (t: State)
    requires UniqueLabels(p) && s.status == Running && 0 <= s.pc < |p| && p[s.pc].insn.IsBranch()
    requires q < |p| && p[q].lbl != NO_LABEL && p[q].lbl == p[s.pc].insn.off
    ensures t == s.(pc := if Taken(p[s.pc].insn, s) then q else s.pc + 1) && Reaches(p, s, t)
  {
    hide Test;
    FindUnique(p, q);
    t := StepIr(p, s);
    ReachStep(p, s);
  }

  lemma {:induction false} StepNop(p: seq<Node>, s: State) returns (t: State)
    requires s.status == Running && 0 <= s.pc < |p| && p[s.pc].insn.IsNop()
    ensures t == s.(pc := s.pc + 1) && Reaches(p, s, t)
  {
    t := StepIr(p, s);
    ReachStep(p, s);
  }

  lemma {:induction false} Repoint(m: Layout, s: State, vars: Vars, l: seq<U64>, d: nat, pc: int)
    requires Inv(m, s, vars, l, d)
    ensures Inv(m, s.(pc := pc), vars, l, d)
  {
    forall i | 0 <= i < |l|
      ensures Held(m, s.(pc := pc), i, l[i], d)
    {
      assert Held(m, s, i, l[i], d);
    }
  }

  /** A 64-bit immediate, in two slots. */
  lemma {:induction false} RunSetX(p: seq<Node>, k: nat, m: Layout, s: State, vars: Vars, l: seq<U64>, d: nat, j: nat,
                                   x: U64)
    returns (t: State)
    requires Inv(m, s, vars, l, d) && |l| <= j < d && s.pc == k && CodeAt(p, k, SetX(RegAt(j), x))
    ensures Reaches(p, s, t) && Inv(m, t, vars, l, d) && t.pc == k + 2
    ensures t.regs == s.regs[RegAt(j) := x]
  {
    CodeNode(p, k, SetX(RegAt(j), x), 0);
    CodeNode(p, k, SetX(RegAt(j), x), 1);
    t := StepIr(p, s);
    ReachStep(p, s);
    assert t.regs == s.regs[RegAt(j) := x];
    WriteAbove(m, s, t, vars, l, d, j);
  }

  // ----- memory -----

  lemma {:induction false} AddressExact(base: U64, ofs: int)
    requires 0 <= base + ofs < W
    ensures Address(base, ofs) == base + ofs
  {
  }

  /** A store to a spill slot changes that slot only. */
  lemma {:induction false} StoreSlot(m: Layout, mem: Mem, vars: Vars, r: Reg, x: U64) returns (mem': Mem)
    requires LayoutOk(m, vars.Keys) && Pointers(m, mem) && Contents(m, mem, vars) && r <= NREGS
    ensures mem' == Store(mem, SlotAddr(m, r), 8, x)
    ensures Pointers(m, mem') && Contents(m, mem', vars) && Read(mem', SlotAddr(m, r), 8) == x
    ensures forall q: Reg :: q <= NREGS && q != r ==> Read(mem', SlotAddr(m, q), 8) == Read(mem, SlotAddr(m, q), 8)
  {
    hide Load;
    hide Store;
    hide Pow2;
    var a := SlotAddr(m, r);
    mem' := Store(mem, a, 8, x);
    LoadOther(mem, a, 8, x, m.fp + DT_STK_DCTX, 8);
    LoadOther(mem, a, 8, x, m.dctx + DCTX_GVARS, 8);
    LoadOther(mem, a, 8, x, m.dctx + DCTX_LVARS, 8);
    forall v | v in vars
      ensures Read(mem', VarAddr(m, v), v.ty.size) == vars[v]
    {
      assert VarClear(m, v);
      LoadOther(mem, a, 8, x, VarAddr(m, v), v.ty.size);
    }
    LoadStored(mem, a, 8, x);
    Pow2Of64();
    forall q: Reg | q <= NREGS && q != r
      ensures Read(mem', SlotAddr(m, q), 8) == Read(mem, SlotAddr(m, q), 8)
    {
      LoadOther(mem, a, 8, x, SlotAddr(m, q), 8);
    }
  }

  /** A store to a variable changes that variable only. */
  lemma {:induction false} StoreVariable(m: Layout, mem: Mem, vars: Vars, v: Var, x: U64) returns (mem': Mem)
    requires LayoutOk(m, vars.Keys) && Pointers(m, mem) && Contents(m, mem, vars) && v in vars
    ensures mem' == Store(mem, VarAddr(m, v), v.ty.size, x)
    ensures Pointers(m, mem') && Contents(m, mem', Put(vars, v, x)) && Put(vars, v, x).Keys == vars.Keys
    ensures forall q: Reg :: q <= NREGS ==> Read(mem', SlotAddr(m, q), 8) == Read(mem, SlotAddr(m, q), 8)
  {
    hide Load;
    hide Store;
    hide Pow2;
    var a, n := VarAddr(m, v), v.ty.size;
    assert VarClear(m, v);
    mem' := Store(mem, a, n, x);
    LoadOther(mem, a, n, x, m.fp + DT_STK_DCTX, 8);
    LoadOther(mem, a, n, x, m.dctx + DCTX_GVARS, 8);
    LoadOther(mem, a, n, x, m.dctx + DCTX_LVARS, 8);
    LoadStored(mem, a, n, x);
    forall w | w in Put(vars, v, x)
      ensures Read(mem', VarAddr(m, w), w.ty.size) == Put(vars, v, x)[w]
    {
      if w != v {
        LoadOther(mem, a, n, x, VarAddr(m, w), w.ty.size);
      }
    }
    forall q: Reg | q <= NREGS
      ensures Read(mem', SlotAddr(m, q), 8) == Read(mem, SlotAddr(m, q), 8)
    {
      LoadOther(mem, a, n, x, SlotAddr(m, q), 8);
    }
  }

  // ----- handing registers out and taking them back -----

  /** Allocating makes room for one more value and loses none. */
  lemma {:induction false} RunAlloc(p: seq<Node>, k: nat, m: Layout, s: State, vars: Vars, l: seq<U64>)
    returns (t: State)
    requires Inv(m, s, vars, l, |l|) && |l| < 2 * NREGS && s.pc == k && CodeAt(p, k, AllocCode(|l|))
    ensures Reaches(p, s, t) && Inv(m, t, vars, l, |l| + 1) && t.pc == k + |AllocCode(|l|)|
    ensures t.regs == s.regs
  {
    hide Load;
    hide Store;
    hide Pow2;
    var d := |l|;
    if d < NREGS {
      t := s;
      ReachSelf(p, s);
      forall i | 0 <= i < |l|
        ensures Held(m, t, i, l[i], d + 1)
      {
        assert Held(m, s, i, l[i], d);
      }
    } else {
      var r := RegAt(d);
      CodeNode(p, k, AllocCode(d), 0);
      t := StepIr(p, s);
      ReachStep(p, s);
      AddressExact(m.fp, SpillSlot(r));
      var mem' := StoreSlot(m, s.mem, vars, r, s.regs[r]);
      assert t == s.(mem := mem', pc := k + 1);
      forall i | 0 <= i < |l|
        ensures Held(m, t, i, l[i], d + 1)
      {
        assert Held(m, s, i, l[i], d);
        assert RegAt(d - NREGS) == r;
      }
    }
  }

  /** Freeing the register of depth `d` brings the value below back into it. */
  lemma {:induction false} RunFree(p: seq<Node>, k: nat, m: Layout, s: State, vars: Vars, l: seq<U64>, d: nat)
    returns (t: State)
    requires Inv(m, s, vars, l, d + 1) && |l| <= d && s.pc == k && CodeAt(p, k, FreeCode(d))
    ensures Reaches(p, s, t) && Inv(m, t, vars, l, d) && t.pc == k + |FreeCode(d)| && t.mem == s.mem
    ensures forall r: Reg :: r != RegAt(d) ==> t.regs[r] == s.regs[r]
  {
    hide Load;
    hide Store;
    hide Pow2;
    if d < NREGS {
      t := s;
      ReachSelf(p, s);
      forall i | 0 <= i < |l|
        ensures Held(m, t, i, l[i], d)
      {
        assert Held(m, s, i, l[i], d + 1);
      }
    } else {
      var r := RegAt(d);
      CodeNode(p, k, FreeCode(d), 0);
      t := StepIr(p, s);
      ReachStep(p, s);
      AddressExact(m.fp, SpillSlot(r));
      forall i | 0 <= i < |l|
        ensures Held(m, t, i, l[i], d)
      {
        assert Held(m, s, i, l[i], d + 1);
        if i + NREGS > d { RegsDistinct(i, d); }
      }
    }
  }

  /** dt_cg_access_dctx: the base of a scope's storage. */
  lemma {:induction false} RunAccess(p: seq<Node>, k: nat, m: Layout, s: State, vars: Vars, l: seq<U64>, d: nat,
                                     j: nat, v: Var)
    returns (t: State)
    requires Inv(m, s, vars, l, d) && |l| <= j < d && s.pc == k && CodeAt(p, k, AccessVars(RegAt(j), v.scope))
    ensures Reaches(p, s, t) && Inv(m, t, vars, l, d) && t.pc == k + 2
    ensures t.regs[RegAt(j)] + v.offset == VarAddr(m, v)
    ensures forall r: Reg :: r != RegAt(j) ==> t.regs[r] == s.regs[r]
  {
    hide Load;
    hide Store;
    hide Pow2;
    var c := AccessVars(RegAt(j), v.scope);
    CodeNode(p, k, c, 0);
    CodeNode(p, k, c, 1);
    AddressExact(m.fp, DT_STK_DCTX);
    AddressExact(m.dctx, Member(v.scope));
    var u := StepWrite(p, m, s, vars, l, d, j);
    assert u.regs[RegAt(j)] == m.dctx;
    t := StepWrite(p, m, u, vars, l, d, j);
    ReachTrans(p, s, u, t);
  }
}
