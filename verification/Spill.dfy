/**
 Comparisons and ?: under register pressure.

 Their code jumps over the instruction that brings a spilled register back, so that
 it is executed on one of two paths only.
 */
module Spill {
  import opened Basics
  import opened Word
  import opened Bpf
  import opened Ir
  import opened Registers
  import opened Expr
  import opened CodeGen
  import opened Window
  import opened Compile

  /** A machine state has one stack of values only. */
  lemma {:induction false} StackUnique(m: Layout, s: State, vars: Vars, l: seq<U64>, vars': Vars, l': seq<U64>, d: nat)
    requires Inv(m, s, vars, l, d) && Inv(m, s, vars', l', d) && |l| == |l'|
    ensures l == l'
  {
    forall i | 0 <= i < |l| ensures l[i] == l'[i] {
      assert Held(m, s, i, l[i], d) && Held(m, s, i, l'[i], d);
    }
  }

  /** Popping without bringing the spilled value back loses that value. */
  lemma {:induction false} Clobber(m: Layout, s: State, vars: Vars, l: seq<U64>, x: U64)
    requires NREGS <= |l| < 2 * NREGS && Inv(m, s, vars, l + [x], |l| + 1)
    ensures Inv(m, s, vars, l[|l| - NREGS := x], |l|)
  {
    var l' := l[|l| - NREGS := x];
    Top(m, s, vars, l, x, |l| + 1);
    forall i | 0 <= i < |l'| ensures Held(m, s, i, l'[i], |l|) {
      assert Held(m, s, i, l[i], |l| + 1);
    }
  }

  /** Bringing the spilled value back over the top value loses the latter. */
  lemma {:induction false} Shadow(m: Layout, s: State, t: State, vars: Vars, l: seq<U64>, x: U64)
    requires NREGS <= |l| < 2 * NREGS && Inv(m, s, vars, l + [x], |l| + 1)
    requires Inv(m, t, vars, l, |l|) && t.mem == s.mem
    ensures Inv(m, t, vars, l + [l[|l| - NREGS]], |l| + 1)
  {
    Top(m, s, vars, l, x, |l| + 1);
    var l' := l + [l[|l| - NREGS]];
    forall i | 0 <= i < |l'| ensures Held(m, t, i, l'[i], |l| + 1) {
      if i < |l| {
        assert Held(m, s, i, l[i], |l| + 1);
        assert Held(m, t, i, l[i], |l|);
      } else {
        assert Held(m, t, |l| - NREGS, l[|l| - NREGS], |l|);
      }
    }
  }

  // ----- comparisons -----

  /** What follows the operands of a comparison whose second register is spilled. */
  function SpilledTail(j: JmpOp, n: nat, d: nat): (c: seq<Node>)
    requires NREGS <= d + 1 < 2 * NREGS
    ensures |c| == 6
  {
    [Plain(JmpReg(j, RegAt(d), RegAt(d + 1), n)), Plain(LoadMem(8, RegAt(d + 1), FP, SpillSlot(RegAt(d + 1)))),
     Plain(MovImm(RegAt(d), 0)), Plain(Jump(n + 1)), Labelled(n, MovImm(RegAt(d), 1)), Labelled(n + 1, NOP)]
  }

  lemma {:induction false} ComparedTrue(p: seq<Node>, k: nat, m: Layout, s: State, vars: Vars, l: seq<U64>, a: U64,
                                        b: U64)
    returns (t: State)
    requires NREGS <= |l| + 1 && |l| + 2 <= 2 * NREGS && s.pc == k
    requires Inv(m, s, vars, l + [a] + [b], |l| + 2)
    requires k + 1 < |p| && p[k].insn == MovImm(RegAt(|l|), 1) && p[k + 1].insn == NOP
    ensures Reaches(p, s, t) && t.pc == k + 2
    ensures Inv(m, t, vars, l[|l| + 1 - NREGS := b] + [1], |l| + 1)
  {
    hide Inv;
    var l' := l[|l| + 1 - NREGS := b];
    Clobber(m, s, vars, l + [a], b);
    assert (l + [a])[|l| + 1 - NREGS := b] == l' + [a];
    var u := StepSet(p, m, s, vars, l', a, 1);
    t := StepNopInv(p, m, u, vars, l' + [1], |l| + 1);
    ReachTrans(p, s, u, t);
  }

  lemma {:induction false} ComparedFalse(p: seq<Node>, k: nat, m: Layout, s: State, vars: Vars, l: seq<U64>, a: U64,
                                         b: U64)
    returns (t: State)
    requires |l| + 2 <= 2 * NREGS && s.pc == k && UniqueLabels(p)
    requires Inv(m, s, vars, l + [a] + [b], |l| + 2) && CodeAt(p, k, FreeCode(|l| + 1))
    requires var q := k + |FreeCode(|l| + 1)|;
      && q + 3 < |p| && p[q].insn == MovImm(RegAt(|l|), 0) && p[q + 3].insn == NOP
      && p[q + 1].insn.Jump? && p[q + 1].insn.off != 0 && p[q + 1].insn.off == p[q + 3].lbl
    ensures Reaches(p, s, t) && t.pc == k + |FreeCode(|l| + 1)| + 4
    ensures Inv(m, t, vars, l + [0], |l| + 1)
  {
    hide Inv, UniqueLabels, FreeCode, CodeAt;
    var s2 := RunPop(p, k, m, s, vars, l + [a], b);
    var s3 := StepSet(p, m, s2, vars, l, a, 0);
    ReachTrans(p, s, s2, s3);
    var s4 := StepJump(p, m, s3, vars, l + [0], |l| + 1, s3.pc + 2);
    ReachTrans(p, s, s3, s4);
    t := StepNopInv(p, m, s4, vars, l + [0], |l| + 1);
    ReachTrans(p, s, s4, t);
  }

  /** The operands of the comparison have been evaluated. */
  lemma {:induction false} CompareSpilledEnd(p: seq<Node>, k: nat, m: Layout, s: State, vars: Vars, l: seq<U64>,
                                             j: JmpOp, a: U64, b: U64, n: nat) returns (t: State)
    requires NREGS <= |l| + 1 && |l| + 2 <= 2 * NREGS && UniqueLabels(p) && n >= 1 && s.pc == k
    requires Inv(m, s, vars, l + [a] + [b], |l| + 2)
    requires CodeAt(p, k, SpilledTail(j, n, |l|))
    ensures Reaches(p, s, t) && t.pc == k + 6
    ensures Inv(m, t, vars, if Test(j, a, b) then l[|l| + 1 - NREGS := b] + [1] else l + [0], |l| + 1)
  {
    hide UniqueLabels, Inv, Test;
    var d := |l|;
    var c := SpilledTail(j, n, d);
    forall i | 0 <= i < 6 ensures p[k + i] == c[i] { CodeNode(p, k, c, i); }
    Top2(m, s, vars, l, a, b, d + 2);
    var u := StepAway(p, m, s, vars, l + [a] + [b], d + 2, k + 4);
    if Test(j, a, b) {
      t := ComparedTrue(p, k + 4, m, u, vars, l, a, b);
    } else {
      CodeOne(p, k + 1, FreeCode(d + 1));
      var q := k + 1 + |FreeCode(d + 1)|;
      assert q == k + 2 && p[q] == c[2] && p[q + 1] == c[3] && p[q + 3] == c[5];
      t := ComparedFalse(p, k + 1, m, u, vars, l, a, b);
    }
    ReachTrans(p, s, u, t);
  }

  lemma {:induction false} CompareSpilledNodes(e: Expr, n: nat, d: nat)
    requires e.Compare? && n >= 1 && Gen(e, n, d).Some? && d + 1 >= NREGS
    ensures d + 2 <= 2 * NREGS
    ensures var gl := Gen(e.l, n + 2, d);
      && gl.Some? && gl.value.next >= 1
      && var gr := Gen(e.r, gl.value.next, d + 1);
      && gr.Some?
      && Gen(e, n, d).value.nodes ==
         gl.value.nodes + gr.value.nodes + SpilledTail(JumpFor(e.cmp, ComparesSigned(e.l, e.r)), n, d)
  {
    hide RegAt, JumpFor, ComparesSigned;
    assert Gen(e, n, d) == GenCompare(e, n, d);
  }

  lemma {:induction false} CodeOne(p: seq<Node>, k: nat, c: seq<Node>)
    requires |c| == 1 && k < |p| && p[k] == c[0]
    ensures CodeAt(p, k, c)
  {
    assert p[k..k + 1] == [p[k]];
  }

  // ----- ?: -----

  /** Where the pieces of a ?: with spills are. */
  lemma {:induction false} CondSpilledSplit(p: seq<Node>, k: nat, c: seq<Node>, a: seq<Node>, b: seq<Node>, n: nat,
                                            d: nat)
    requires NREGS <= d < 2 * NREGS && CodeAt(p, k, CondNodes(c, a, b, n, d))
    ensures |CondNodes(c, a, b, n, d)| == |c| + |a| + |b| + 7
    ensures var ka, kb := k + |c| + 2, k + |c| + 2 + |a| + 4;
      && CodeAt(p, k, c) && CodeAt(p, ka, a) && CodeAt(p, kb, b)
      && CodeAt(p, ka - 1, FreeCode(d)) && CodeAt(p, ka + |a| + 1, FreeCode(d))
      && kb + |b| < |p|
      && p[k + |c|] == Plain(JmpImm(Jeq, RegAt(d), 0, n))
      && p[ka + |a|] == Plain(MovReg(RegAt(d), RegAt(d)))
      && p[ka + |a| + 2] == Plain(Jump(n + 1))
      && p[kb - 1] == Labelled(n, NOP)
      && p[kb + |b|] == Labelled(n + 1, NOP)
  {
    var f := FreeCode(d);
    assert |f| == 1;
    hide FreeCode;
    var x1 := [Plain(JmpImm(Jeq, RegAt(d), 0, n))];
    var x2 := [Plain(MovReg(RegAt(d), RegAt(d)))];
    var x3 := [Plain(Jump(n + 1)), Labelled(n, NOP)];
    var x4 := [Labelled(n + 1, NOP)];
    CondSpilledFlat(c, a, b, n, d);
    hide CondNodes, CodeAt, RegAt;
    CondSpilledPieces(p, k, c, x1, f, a, x2, x3, b, x4);
  }

  lemma {:induction false} CondSpilledPieces(p: seq<Node>, k: nat, c: seq<Node>, x1: seq<Node>, f: seq<Node>,
                                             a: seq<Node>, x2: seq<Node>, x3: seq<Node>, b: seq<Node>, x4: seq<Node>)
    requires CodeAt(p, k, (c + x1 + f + a) + (x2 + f + x3 + (b + x4)))
    requires |x1| == |f| == |x2| == |x4| == 1 && |x3| == 2
    ensures var q := k + |c| + 2 + |a|;
      && CodeAt(p, k, c) && CodeAt(p, k + |c| + 2, a) && CodeAt(p, q + 4, b)
      && CodeAt(p, k + |c| + 1, f) && CodeAt(p, q + 1, f) && q + 4 + |b| < |p|
      && p[k + |c|] == x1[0] && p[q] == x2[0] && p[q + 2] == x3[0] && p[q + 3] == x3[1] && p[q + 4 + |b|] == x4[0]
  {
    hide CodeAt;
    var q := k + |c| + 2 + |a|;
    CodeSplit(p, k, c + x1 + f + a, x2 + f + x3 + (b + x4));
    CodeSplitFour(p, k, c, x1, f, a);
    CodeSplitFour(p, q, x2, f, x3, b + x4);
    CodeSplit(p, q + 4, b, x4);
    CodeNode(p, k + |c|, x1, 0);
    CodeNode(p, q, x2, 0);
    CodeNode(p, q + 2, x3, 0);
    CodeNode(p, q + 2, x3, 1);
    CodeNode(p, q + 4 + |b|, x4, 0);
    CodeInside(p, q + 4 + |b|, x4);
  }

  lemma {:induction false} CondSpilledFlat(c: seq<Node>, a: seq<Node>, b: seq<Node>, n: nat, d: nat)
    requires d < 2 * NREGS
    ensures CondNodes(c, a, b, n, d) ==
      (c + [Plain(JmpImm(Jeq, RegAt(d), 0, n))] + FreeCode(d) + a) +
      ([Plain(MovReg(RegAt(d), RegAt(d)))] + FreeCode(d) + [Plain(Jump(n + 1)), Labelled(n, NOP)] +
       (b + [Labelled(n + 1, NOP)]))
  {
    hide FreeCode;
    hide RegAt;
  }

  /** The left arm has been evaluated to `x`, which the reload then overwrites. */
  lemma {:induction false} CondSpilledLeft(p: seq<Node>, k: nat, q: nat, m: Layout, s: State, vars: Vars, l: seq<U64>,
                                           x: U64, n: nat)
    returns (t: State)
    requires NREGS <= |l| < 2 * NREGS && UniqueLabels(p) && n >= 1 && Inv(m, s, vars, l + [x], |l| + 1) && s.pc == k
    requires k + 2 < |p| && p[k] == Plain(MovReg(RegAt(|l|), RegAt(|l|))) && CodeAt(p, k + 1, FreeCode(|l|))
    requires p[k + 2] == Plain(Jump(n + 1)) && q < |p| && p[q] == Labelled(n + 1, NOP)
    ensures Reaches(p, s, t) && t.pc == q + 1 && Inv(m, t, vars, l + [l[|l| - NREGS]], |l| + 1)
  {
    hide UniqueLabels, Inv;
    Top(m, s, vars, l, x, |l| + 1);
    var s1 := StepWrite(p, m, s, vars, l, |l| + 1, |l|);
    Push(m, s1, vars, l, x, |l| + 1);
    var s2 := RunPop(p, k + 1, m, s1, vars, l, x);
    ReachTrans(p, s, s1, s2);
    Shadow(m, s1, s2, vars, l, x);
    var l' := l + [l[|l| - NREGS]];
    var s3 := StepJump(p, m, s2, vars, l', |l| + 1, q);
    ReachTrans(p, s, s2, s3);
    t := StepNopInv(p, m, s3, vars, l', |l| + 1);
    ReachTrans(p, s, s3, t);
  }
}
