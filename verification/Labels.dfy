/**
 Generated code is always fit for the assembler: every label it declares is new and
 declared once, every label it jumps to is declared, and two-slot immediates stay
 together.
 */
module Labels {
  import opened Word
  import opened Bpf
  import opened Ir
  import opened Asm
  import opened Registers
  import opened Expr
  import opened CodeGen

  ghost function Declared(c: seq<Node>): set<nat> {
    set i | 0 <= i < |c| && c[i].lbl != NO_LABEL :: c[i].lbl
  }

  /** Every jump of `c` goes to one of these labels. */
  ghost predicate JumpsInto(c: seq<Node>, targets: set<nat>) {
    forall i :: 0 <= i < |c| && c[i].insn.IsBranch() ==> c[i].insn.off >= 1 && c[i].insn.off in targets
  }

  /** Two-slot immediates are whole, and relocations are on instructions that can
      have them. */
  ghost predicate Paired(c: seq<Node>) {
    && WidePaired(c) && (|c| > 0 ==> !c[0].insn.LddwHi?)
    && forall i :: 0 <= i < |c| ==> !BadReloc(c[i])
  }

  /** A stretch of code that declares exactly `decl` and jumps into `targets`. */
  ghost predicate Piece(c: seq<Node>, decl: set<nat>, targets: set<nat>) {
    UniqueLabels(c) && Declared(c) == decl && JumpsInto(c, targets) && Paired(c)
  }

  lemma {:induction false} JoinDeclared(a: seq<Node>, b: seq<Node>)
    ensures Declared(a + b) == Declared(a) + Declared(b)
  {
    var c := a + b;
    forall x | x in Declared(a) + Declared(b) ensures x in Declared(c) {
      if x in Declared(a) {
        var i :| 0 <= i < |a| && a[i].lbl != NO_LABEL && a[i].lbl == x;
        assert c[i].lbl == x;
      } else {
        var i :| 0 <= i < |b| && b[i].lbl != NO_LABEL && b[i].lbl == x;
        assert c[|a| + i].lbl == x;
      }
    }
  }

  lemma {:induction false} Join(a: seq<Node>, da: set<nat>, ta: set<nat>, b: seq<Node>, db: set<nat>, tb: set<nat>)
    requires Piece(a, da, ta) && Piece(b, db, tb) && da !! db
    ensures Piece(a + b, da + db, ta + tb)
  {
    var c := a + b;
    forall i, j | 0 <= i < j < |c| && c[i].lbl != NO_LABEL
      ensures c[i].lbl != c[j].lbl
    {
      if i < |a| <= j {
        assert a[i].lbl in da;
        if b[j - |a|].lbl != NO_LABEL { assert b[j - |a|].lbl in db; }
      }
    }
    JoinDeclared(a, b);
  }

  /** Joining code that declares nothing of its own. */
  lemma {:induction false} JoinPlain(a: seq<Node>, da: set<nat>, ta: set<nat>, b: seq<Node>, tb: set<nat>)
    requires Piece(a, da, ta) && Piece(b, {}, tb)
    ensures Piece(a + b, da, ta + tb)
  {
    Join(a, da, ta, b, {}, tb);
    assert da + {} == da;
  }

  /** One-slot instructions without labels or jumps. */
  ghost predicate Straight(c: seq<Node>) {
    forall i :: 0 <= i < |c| ==>
      && c[i].lbl == NO_LABEL && !c[i].insn.IsBranch() && !BadReloc(c[i])
      && !c[i].insn.Lddw? && !c[i].insn.LddwHi?
  }

  lemma {:induction false} StraightPiece(c: seq<Node>)
    requires Straight(c)
    ensures Piece(c, {}, {})
  {
  }

  lemma {:induction false} JumpPiece(x: Node)
    requires x.lbl == NO_LABEL && x.insn.IsBranch() && x.insn.off >= 1 && x.ext.None?
    ensures Piece([x], {}, {x.insn.off})
  {
  }

  lemma {:induction false} LoadImmPiece(r: Reg, x: U64)
    ensures Piece(SetX(r, x), {}, {}) && Piece(LoadImm(r, x), {}, {})
  {
  }

  lemma {:induction false} CompareTailPiece(r: Reg, n: nat)
    requires n >= 1
    ensures Piece([Plain(MovImm(r, 0)), Plain(Jump(n + 1)), Labelled(n, MovImm(r, 1)), Labelled(n + 1, NOP)],
                  {n, n + 1}, {n + 1})
  {
    var c := [Plain(MovImm(r, 0)), Plain(Jump(n + 1)), Labelled(n, MovImm(r, 1)), Labelled(n + 1, NOP)];
    assert c[2].lbl == n && c[3].lbl == n + 1;
  }

  lemma {:induction false} NotTailPiece(r: Reg, n: nat)
    requires n >= 1
    ensures Piece(NotTail(r, n), {n, n + 1}, {n, n + 1})
  {
    var j := Plain(JmpImm(Jeq, r, 0, n));
    var t := [Plain(MovImm(r, 0)), Plain(Jump(n + 1)), Labelled(n, MovImm(r, 1)), Labelled(n + 1, NOP)];
    JumpPiece(j);
    CompareTailPiece(r, n);
    Join([j], {}, {n}, t, {n, n + 1}, {n + 1});
    assert NotTail(r, n) == [j] + t;
    assert {} + {n, n + 1} == {n, n + 1} && {n} + {n + 1} == {n, n + 1};
  }

  lemma {:induction false} AndTailPiece(r: Reg, n: nat)
    requires n >= 1
    ensures Piece(AndTail(r, n), {n, n + 1}, {n, n + 1})
  {
    var c := AndTail(r, n);
    assert c[4].lbl == n && c[5].lbl == n + 1;
  }

  lemma {:induction false} OrTailPiece(r: Reg, n: nat)
    requires n >= 1
    ensures Piece(OrTail(r, n), {n, n + 1, n + 2}, {n + 1, n + 2})
  {
    var c := OrTail(r, n);
    assert c[1].lbl == n && c[3].lbl == n + 1 && c[4].lbl == n + 2;
  }

  lemma {:induction false} TruthPiece(r: Reg, n: nat, last: Insn)
    requires n >= 1 && !last.IsBranch() && !last.Lddw? && !last.LddwHi?
    ensures Piece(TruthCode(r, n, last), {n}, {n})
  {
    var c := TruthCode(r, n, last);
    assert c[3].lbl == n;
  }

  function DivisionTail(op: AluOp, a: Reg, b: Reg, n: nat): seq<Node> {
    [Labelled(n + 5, NOP),
     Plain(JmpImm(Jslt, a, 0, n + 2)),
     Plain(JmpImm(Jslt, b, 0, n)),
     Plain(Jump(n + 3)),
     Labelled(n, NegReg(b)),
     Labelled(n + 1, AluReg(op, a, b)),
     Plain(NegReg(a)),
     Plain(Jump(n + 4)),
     Labelled(n + 2, NegReg(a)),
     Plain(JmpImm(Jsge, b, 0, n + 1)),
     Plain(NegReg(b)),
     Labelled(n + 3, AluReg(op, a, b)),
     Labelled(n + 4, NOP)]
  }

  lemma {:induction false} DivisionTailPiece(op: AluOp, a: Reg, b: Reg, n: nat)
    requires n >= 1
    ensures Piece(DivisionTail(op, a, b, n), {n, n + 1, n + 2, n + 3, n + 4, n + 5}, {n, n + 1, n + 2, n + 3, n + 4})
  {
    var c := DivisionTail(op, a, b, n);
    assert c[4].lbl == n && c[5].lbl == n + 1 && c[8].lbl == n + 2;
    assert c[11].lbl == n + 3 && c[12].lbl == n + 4 && c[0].lbl == n + 5;
  }

  lemma {:induction false} DivisionPiece(op: AluOp, a: Reg, b: Reg, n: nat)
    requires n >= 1
    ensures Piece(SignedDivision(op, a, b, n), {n, n + 1, n + 2, n + 3, n + 4, n + 5},
                  {n, n + 1, n + 2, n + 3, n + 4, n + 5})
  {
    hide Piece;
    var j := Plain(JmpImm(Jne, b, 0, n + 5));
    JumpPiece(j);
    StraightPiece(ProbeErrorCode);
    JoinPlain([j], {}, {n + 5}, ProbeErrorCode, {});
    DivisionTailPiece(op, a, b, n);
    var decl := {n, n + 1, n + 2, n + 3, n + 4, n + 5};
    Join([j] + ProbeErrorCode, {}, {n + 5} + {}, DivisionTail(op, a, b, n), decl, {n, n + 1, n + 2, n + 3, n + 4});
    assert SignedDivision(op, a, b, n) == [j] + ProbeErrorCode + DivisionTail(op, a, b, n);
    assert {} + decl == decl && {n + 5} + {} + {n, n + 1, n + 2, n + 3, n + 4} == decl;
  }

  /** What holds of the code of every expression: its labels are from `n` up to
      `next`, and it jumps only to labels of its own. */
  ghost predicate Closed(c: seq<Node>, n: nat, next: nat) {
    && Piece(c, Declared(c), Declared(c))
    && (forall x :: x in Declared(c) ==> n <= x < next)
  }

  lemma {:induction false} CloseUp(c: seq<Node>, decl: set<nat>, targets: set<nat>, n: nat, next: nat)
    requires Piece(c, decl, targets) && targets <= decl
    requires forall x :: x in decl ==> n <= x < next
    ensures Closed(c, n, next)
  {
  }

  lemma {:induction false} ClosedStraight(c: seq<Node>, n: nat)
    requires Piece(c, {}, {})
    ensures Closed(c, n, n)
  {
    CloseUp(c, {}, {}, n, n);
  }

  lemma {:induction false} ClosedAppend(a: seq<Node>, b: seq<Node>, n: nat, x: nat)
    requires Closed(a, n, x) && Piece(b, {}, {})
    ensures Closed(a + b, n, x)
  {
    JoinPlain(a, Declared(a), Declared(a), b, {});
    CloseUp(a + b, Declared(a), Declared(a) + {}, n, x);
  }

  lemma {:induction false} ClosedJoin(a: seq<Node>, b: seq<Node>, n: nat, x: nat, y: nat)
    requires n <= x <= y && Closed(a, n, x) && Closed(b, x, y)
    ensures Closed(a + b, n, y)
  {
    Join(a, Declared(a), Declared(a), b, Declared(b), Declared(b));
    CloseUp(a + b, Declared(a) + Declared(b), Declared(a) + Declared(b), n, y);
  }

  lemma {:induction false} BinaryClosed(a: seq<Node>, b: seq<Node>, op: BinOp, signed: bool, n: nat, x: nat, y: nat,
                                        d: nat)
    requires 1 <= n <= x <= y && d + 1 < 2 * NREGS
    requires Closed(a, n, x) && Closed(b, x, y)
    ensures Closed(BinaryNodes(a, b, op, signed, y, d), n, y + OpLabels(op, signed))
  {
    hide Piece, Declared, SignedDivision;
    var z := y + OpLabels(op, signed);
    var o := OpCode(op, signed, RegAt(d), RegAt(d + 1), y);
    ClosedJoin(a, b, n, x, y);
    assert Closed(o, y, z) by {
      if IsSignedDivision(op, signed) {
        DivisionPiece(OpcodeOf(op, signed), RegAt(d), RegAt(d + 1), y);
        var decl := {y, y + 1, y + 2, y + 3, y + 4, y + 5};
        CloseUp(o, decl, decl, y, z);
      } else {
        StraightPiece(o);
        ClosedStraight(o, y);
      }
    }
    ClosedJoin(a + b, o, n, y, z);
    StraightPiece(FreeCode(d + 1));
    ClosedAppend(a + b + o, FreeCode(d + 1), n, z);
  }

  lemma {:induction false} CompareClosed(a: seq<Node>, b: seq<Node>, j: JmpOp, n: nat, x: nat, y: nat, d: nat)
    requires 1 <= n && n + 2 <= x <= y && d + 1 < 2 * NREGS
    requires Closed(a, n + 2, x) && Closed(b, x, y)
    ensures Closed(CompareNodes(a, b, j, n, d), n, y)
  {
    hide Piece, Declared;
    ClosedJoin(a, b, n + 2, x, y);
    var ab := a + b;
    var decl := Declared(ab);
    var jump := Plain(JmpReg(j, RegAt(d), RegAt(d + 1), n));
    JumpPiece(jump);
    JoinPlain(ab, decl, decl, [jump], {n});
    StraightPiece(FreeCode(d + 1));
    JoinPlain(ab + [jump], decl, decl + {n}, FreeCode(d + 1), {});
    CompareTailPiece(RegAt(d), n);
    var c := CompareNodes(a, b, j, n, d);
    Join(ab + [jump] + FreeCode(d + 1), decl, decl + {n} + {},
         [Plain(MovImm(RegAt(d), 0)), Plain(Jump(n + 1)), Labelled(n, MovImm(RegAt(d), 1)), Labelled(n + 1, NOP)],
         {n, n + 1}, {n + 1});
    CloseUp(c, decl + {n, n + 1}, decl + {n} + {} + {n + 1}, n, y);
  }

  lemma {:induction false} CondClosed(c: seq<Node>, a: seq<Node>, b: seq<Node>, n: nat, x: nat, y: nat, z: nat, d: nat)
    requires 1 <= n && n + 2 <= x <= y <= z && d < 2 * NREGS
    requires Closed(c, n + 2, x) && Closed(a, x, y) && Closed(b, y, z)
    ensures Closed(CondNodes(c, a, b, n, d), n, z)
  {
    hide Piece, Declared;
    var r := RegAt(d);
    var f := FreeCode(d);
    StraightPiece(f);
    var c0 := c + BranchZero(r, n);
    JumpPiece(Plain(JmpImm(Jeq, r, 0, n)));
    var dc := Declared(c);
    JoinPlain(c, dc, dc, BranchZero(r, n), {n});
    JoinPlain(c0, dc, dc + {n}, f, {});
    var da := Declared(a);
    Join(c0 + f, dc, dc + {n} + {}, a, da, da);
    var p := CondPrefix(c, a, n, d);
    var tp := dc + {n} + {} + da;
    var mv := [Plain(MovReg(r, r))];
    StraightPiece(mv);
    JoinPlain(p, dc + da, tp, mv, {});
    JoinPlain(p + mv, dc + da, tp + {}, f, {});
    var t := tp + {} + {};
    CondMiddle(n);
    Join(p + mv + f, dc + da, t, [Plain(Jump(n + 1)), Labelled(n, NOP)], {n}, {n + 1});
    var q := p + mv + f + [Plain(Jump(n + 1)), Labelled(n, NOP)];
    var db := Declared(b);
    Join(q, dc + da + {n}, t + {n + 1}, b, db, db);
    LabelPiece(n + 1);
    Join(q + b, dc + da + {n} + db, t + {n + 1} + db, [Labelled(n + 1, NOP)], {n + 1}, {});
    CloseUp(CondNodes(c, a, b, n, d), dc + da + {n} + db + {n + 1}, t + {n + 1} + db + {}, n, z);
  }

  lemma {:induction false} CondMiddle(n: nat)
    requires n >= 1
    ensures Piece([Plain(Jump(n + 1)), Labelled(n, NOP)], {n}, {n + 1})
  {
    var c := [Plain(Jump(n + 1)), Labelled(n, NOP)];
    assert c[1].lbl == n;
  }

  lemma {:induction false} LabelPiece(n: nat)
    requires n >= 1
    ensures Piece([Labelled(n, NOP)], {n}, {})
  {
    var c := [Labelled(n, NOP)];
    assert c[0].lbl == n;
  }

  /** The common shape of && and ||: operand, early exit, operand, tail. */
  lemma {:induction false} ShortCircuitClosed(a: seq<Node>, jump: Node, b: seq<Node>, tail: seq<Node>,
                                              n: nat, own: set<nat>, into: set<nat>, x: nat, y: nat, d: nat)
    requires 1 <= n && n < x <= y && d < 2 * NREGS
    requires jump.lbl == NO_LABEL && jump.insn.IsBranch() && jump.insn.off == n && jump.ext.None?
    requires n in own && into <= own && Piece(tail, own, into)
    requires exists m :: n < m <= x && Closed(a, m, x) && forall l :: l in own ==> n <= l < m
    requires Closed(b, x, y)
    ensures Closed(a + [jump] + FreeCode(d) + b + tail, n, y)
  {
    hide Piece, Declared;
    var da, db := Declared(a), Declared(b);
    JumpPiece(jump);
    JoinPlain(a, da, da, [jump], {n});
    StraightPiece(FreeCode(d));
    JoinPlain(a + [jump], da, da + {n}, FreeCode(d), {});
    Join(a + [jump] + FreeCode(d), da, da + {n} + {}, b, db, db);
    Join(a + [jump] + FreeCode(d) + b, da + db, da + {n} + {} + db, tail, own, into);
    CloseUp(a + [jump] + FreeCode(d) + b + tail, da + db + own, da + {n} + {} + db + into, n, y);
  }

  lemma {:induction false} AndClosed(a: seq<Node>, b: seq<Node>, n: nat, x: nat, y: nat, d: nat)
    requires 1 <= n && n + 2 <= x <= y && d < 2 * NREGS
    requires Closed(a, n + 2, x) && Closed(b, x, y)
    ensures Closed(AndNodes(a, b, n, d), n, y)
  {
    hide Piece, Declared, Closed;
    AndTailPiece(RegAt(d), n);
    ShortCircuitClosed(a, Plain(JmpImm(Jeq, RegAt(d), 0, n)), b, AndTail(RegAt(d), n), n, {n, n + 1}, {n, n + 1}, x,
        y, d);
  }

  lemma {:induction false} OrClosed(a: seq<Node>, b: seq<Node>, n: nat, x: nat, y: nat, d: nat)
    requires 1 <= n && n + 3 <= x <= y && d < 2 * NREGS
    requires Closed(a, n + 3, x) && Closed(b, x, y)
    ensures Closed(OrNodes(a, b, n, d), n, y)
  {
    hide Piece, Declared, Closed;
    OrTailPiece(RegAt(d), n);
    ShortCircuitClosed(a, Plain(JmpImm(Jne, RegAt(d), 0, n)), b, OrTail(RegAt(d), n), n,
                       {n, n + 1, n + 2}, {n + 1, n + 2}, x, y, d);
  }

  lemma {:induction false} XorClosed(a: seq<Node>, b: seq<Node>, n: nat, x: nat, y: nat, d: nat)
    requires 1 <= n && n + 2 <= x <= y && d + 1 < 2 * NREGS
    requires Closed(a, n + 2, x) && Closed(b, x, y)
    ensures Closed(XorNodes(a, b, n, d), n, y)
  {
    hide Piece, Declared, TruthCode;
    var da, db := Declared(a), Declared(b);
    var s := TruthCode(RegAt(d), n, NOP);
    var t := TruthCode(RegAt(d + 1), n + 1, AluReg(Xor, RegAt(d), RegAt(d + 1)));
    TruthPiece(RegAt(d), n, NOP);
    TruthPiece(RegAt(d + 1), n + 1, AluReg(Xor, RegAt(d), RegAt(d + 1)));
    Join(a, da, da, s, {n}, {n});
    Join(a + s, da + {n}, da + {n}, b, db, db);
    Join(a + s + b, da + {n} + db, da + {n} + db, t, {n + 1}, {n + 1});
    StraightPiece(FreeCode(d + 1));
    var decl := da + {n} + db + {n + 1};
    JoinPlain(a + s + b + t, decl, decl, FreeCode(d + 1), {});
    CloseUp(XorNodes(a, b, n, d), decl, decl + {}, n, y);
  }

  lemma {:induction false} NotClosed(a: seq<Node>, n: nat, x: nat, d: nat)
    requires 1 <= n && n + 2 <= x && d < 2 * NREGS && Closed(a, n + 2, x)
    ensures Closed(NotNodes(a, n, d), n, x)
  {
    hide Piece, Declared, NotTail;
    var da := Declared(a);
    NotTailPiece(RegAt(d), n);
    Join(a, da, da, NotTail(RegAt(d), n), {n, n + 1}, {n, n + 1});
    CloseUp(NotNodes(a, n, d), da + {n, n + 1}, da + {n, n + 1}, n, x);
  }

  lemma {:induction false} StoreClosed(a: seq<Node>, v: Var, n: nat, x: nat, d: nat)
    requires d + 1 < 2 * NREGS && Closed(a, n, x)
    ensures Closed(StoreNodes(a, v, d), n, x)
  {
    hide Closed;
    var b := AllocCode(d + 1) + AccessVars(RegAt(d + 1), v.scope) +
             [Plain(StoreMem(v.ty.size, RegAt(d + 1), v.offset, RegAt(d)))] + FreeCode(d + 1);
    StraightPiece(b);
    ClosedAppend(a, b, n, x);
    assert StoreNodes(a, v, d) == a + b;
  }

  lemma {:induction false} GetClosed(v: Var, n: nat, d: nat)
    requires d < 2 * NREGS
    ensures Closed(GetNodes(v, d), n, n)
  {
    StraightPiece(GetNodes(v, d));
    ClosedStraight(GetNodes(v, d), n);
  }

  lemma {:induction false} SpillPiece(d: nat)
    requires d < 2 * NREGS
    ensures Piece(AllocCode(d), {}, {}) && Piece(FreeCode(d), {}, {})
  {
    StraightPiece(AllocCode(d));
    StraightPiece(FreeCode(d));
  }

  lemma {:induction false} UnaryPiece(e: Expr, r: Reg)
    requires IsUnary(e)
    ensures Piece(UnaryCode(e, r), {}, {})
  {
    StraightPiece(UnaryCode(e, r));
  }

  /** The code of an expression declares labels from `n` up to `next` only, each once,
      and jumps to these alone. */
  lemma {:induction false} GenClosed(e: Expr, n: nat, d: nat)
    requires n >= 1 && Gen(e, n, d).Some?
    ensures Closed(Gen(e, n, d).value.nodes, n, Gen(e, n, d).value.next)
    decreases e
  {
    hide Closed, CompareNodes, CondNodes, AndNodes, OrNodes, XorNodes, NotNodes, StoreNodes, BinaryNodes, GetNodes;
    hide LoadImm, Piece, AllocCode, FreeCode, UnaryCode, JumpFor, ComparesSigned;
    var g := Gen(e, n, d).value;
    match e
    case Int(x, _) =>
      LoadImmPiece(RegAt(d), x);
      SpillPiece(d);
      ClosedStraight(AllocCode(d), n);
      ClosedAppend(AllocCode(d), LoadImm(RegAt(d), x), n, n);
    case Get(v) =>
      GetClosed(v, n, d);
    case Binary(op, ty, l, r) =>
      GenClosed(l, n, d);
      var gl := Gen(l, n, d).value;
      GenClosed(r, gl.next, d + 1);
      var gr := Gen(r, gl.next, d + 1).value;
      BinaryClosed(gl.nodes, gr.nodes, op, ty.signed, n, gl.next, gr.next, d);
    case Compare(_, l, r) =>
      assert Gen(e, n, d) == GenCompare(e, n, d);
      GenClosed(l, n + 2, d);
      var gl := Gen(l, n + 2, d).value;
      GenClosed(r, gl.next, d + 1);
      var gr := Gen(r, gl.next, d + 1).value;
      CompareClosed(gl.nodes, gr.nodes, JumpFor(e.cmp, ComparesSigned(l, r)), n, gl.next, gr.next, d);
    case Cond(_, c, l, r) =>
      assert Gen(e, n, d) == GenCond(e, n, d);
      GenClosed(c, n + 2, d);
      var gc := Gen(c, n + 2, d).value;
      GenClosed(l, gc.next, d);
      var gl := Gen(l, gc.next, d).value;
      GenClosed(r, gl.next, d);
      var gr := Gen(r, gl.next, d).value;
      CondClosed(gc.nodes, gl.nodes, gr.nodes, n, gc.next, gl.next, gr.next, d);
    case LogAnd(l, r) =>
      assert Gen(e, n, d) == GenAnd(e, n, d);
      GenClosed(l, n + 2, d);
      var gl := Gen(l, n + 2, d).value;
      GenClosed(r, gl.next, d);
      AndClosed(gl.nodes, Gen(r, gl.next, d).value.nodes, n, gl.next, g.next, d);
    case LogOr(l, r) =>
      assert Gen(e, n, d) == GenOr(e, n, d);
      GenClosed(l, n + 3, d);
      var gl := Gen(l, n + 3, d).value;
      GenClosed(r, gl.next, d);
      OrClosed(gl.nodes, Gen(r, gl.next, d).value.nodes, n, gl.next, g.next, d);
    case LogXor(l, r) =>
      assert Gen(e, n, d) == GenXor(e, n, d);
      GenClosed(l, n + 2, d);
      var gl := Gen(l, n + 2, d).value;
      GenClosed(r, gl.next, d + 1);
      XorClosed(gl.nodes, Gen(r, gl.next, d + 1).value.nodes, n, gl.next, g.next, d);
    case LogNot(x) =>
      assert Gen(e, n, d) == GenNot(e, n, d);
      GenClosed(x, n + 2, d);
      var gx := Gen(x, n + 2, d).value;
      NotClosed(gx.nodes, n, gx.next, d);
    case Comma(l, r) =>
      assert Gen(e, n, d) == GenComma(e, n, d);
      GenClosed(l, n, d);
      var gl := Gen(l, n, d).value;
      GenClosed(r, gl.next, d);
      var gr := Gen(r, gl.next, d).value;
      SpillPiece(d);
      ClosedAppend(gl.nodes, FreeCode(d), n, gl.next);
      ClosedJoin(gl.nodes + FreeCode(d), gr.nodes, n, gl.next, gr.next);
    case Assign(v, x) =>
      GenClosed(x, n, d);
      StoreClosed(Gen(x, n, d).value.nodes, v, n, g.next, d);
    case AssignOp(op, ty, v, x) =>
      GetClosed(v, n, d);
      GenClosed(x, n, d + 1);
      var gx := Gen(x, n, d + 1).value;
      BinaryClosed(GetNodes(v, d), gx.nodes, op, ty.signed, n, n, gx.next, d);
      StoreClosed(BinaryNodes(GetNodes(v, d), gx.nodes, op, ty.signed, gx.next, d), v, n, g.next, d);
    case _ =>
      assert Gen(e, n, d) == GenUnary(e, n, d);
      GenClosed(e.e, n, d);
      var gx := Gen(e.e, n, d).value;
      UnaryPiece(e, RegAt(d));
      ClosedAppend(gx.nodes, UnaryCode(e, RegAt(d)), n, gx.next);
  }
}
