/**
 The intermediate representation between code generator and assembler
 (libdtrace/dt_as.h): a list of instructions, some of them labelled, whose jumps
 name labels.  A labelled NOP only declares its label and is not emitted.
 */
module Ir {
  import opened Basics
  import opened Bpf

  const NO_LABEL: nat := 0

  /** `ext` names the identifier a relocation is needed for, if any. */
  datatype Node = Node(lbl: nat, insn: Insn, ext: Option<string>) {
    predicate Emitted() {
      lbl == NO_LABEL || !insn.IsNop()
    }
  }

  function Plain(i: Insn): Node { Node(NO_LABEL, i, None) }
  function Labelled(l: nat, i: Insn): Node { Node(l, i, None) }
  function External(i: Insn, name: string): Node { Node(NO_LABEL, i, Some(name)) }

  /** The position of the (last) node before `k` that declares label `l`, or -1. */
  function FindBefore(p: seq<Node>, k: nat, l: nat): (r: int)
    requires k <= |p|
    ensures -1 <= r < k
    ensures r >= 0 ==> p[r].lbl == l
  {
    if k == 0 then -1
    else if p[k - 1].lbl == l then k - 1
    else FindBefore(p, k - 1, l)
  }

  function FindLabel(p: seq<Node>, l: nat): (r: int)
    ensures -1 <= r < |p|
    ensures r >= 0 ==> p[r].lbl == l
  {
    FindBefore(p, |p|, l)
  }

  /** Running the labelled list itself: jumps go to labels. */
  function StepIr(p: seq<Node>, s: State): State {
    if s.status != Running then s
    else if s.pc < 0 || s.pc >= |p| then s.(status := Stuck)
    else
      var i := p[s.pc].insn;
      StepInsn(i, if s.pc + 1 < |p| then Some(p[s.pc + 1].insn) else None, s,
               if i.IsNop() then s.pc + 1
               else if i.IsBranch() && i.off >= 0 then FindLabel(p, i.off) else -1)
  }

  function RunIr(p: seq<Node>, s: State, n: nat): State
    decreases n
  {
    if n == 0 then s else RunIr(p, StepIr(p, s), n - 1)
  }

  ghost predicate Reaches(p: seq<Node>, s: State, t: State) {
    exists n: nat :: RunIr(p, s, n) == t
  }

  lemma {:induction false} RunIrAdd(p: seq<Node>, s: State, m: nat, n: nat)
    ensures RunIr(p, s, m + n) == RunIr(p, RunIr(p, s, m), n)
    decreases m
  {
    if m > 0 { RunIrAdd(p, StepIr(p, s), m - 1, n); }
  }

  lemma {:induction false} ReachSelf(p: seq<Node>, s: State)
    ensures Reaches(p, s, s)
  {
    assert RunIr(p, s, 0) == s;
  }

  lemma {:induction false} ReachStep(p: seq<Node>, s: State)
    ensures Reaches(p, s, StepIr(p, s))
  {
    assert RunIr(p, s, 1) == RunIr(p, StepIr(p, s), 0);
  }

  lemma {:induction false} ReachTrans(p: seq<Node>, s: State, t: State, u: State)
    requires Reaches(p, s, t) && Reaches(p, t, u)
    ensures Reaches(p, s, u)
  {
    var m: nat :| RunIr(p, s, m) == t;
    var n: nat :| RunIr(p, t, n) == u;
    RunIrAdd(p, s, m, n);
  }

  /** Labels declared at most once. */
  ghost predicate UniqueLabels(p: seq<Node>) {
    forall i, j :: 0 <= i < j < |p| && p[i].lbl != NO_LABEL ==> p[i].lbl != p[j].lbl
  }

  lemma {:induction false} FindUniqueBefore(p: seq<Node>, k: nat, i: nat)
    requires i < k <= |p| && UniqueLabels(p) && p[i].lbl != NO_LABEL
    ensures FindBefore(p, k, p[i].lbl) == i
  {
    if i < k - 1 {
      FindUniqueBefore(p, k - 1, i);
    }
  }

  lemma {:induction false} FindUnique(p: seq<Node>, i: nat)
    requires i < |p| && UniqueLabels(p) && p[i].lbl != NO_LABEL
    ensures FindLabel(p, p[i].lbl) == i
  {
    FindUniqueBefore(p, |p|, i);
  }

  /** The number of emitted instructions among the first `k` nodes. */
  function Index(p: seq<Node>, k: nat): (r: nat)
    requires k <= |p|
    ensures r <= k
  {
    if k == 0 then 0 else Index(p, k - 1) + (if p[k - 1].Emitted() then 1 else 0)
  }

  lemma {:induction false} IndexMono(p: seq<Node>, j: nat, k: nat)
    requires j <= k <= |p|
    ensures Index(p, j) <= Index(p, k)
    ensures j < k && p[j].Emitted() ==> Index(p, j) < Index(p, k)
    decreases k
  {
    if j < k { IndexMono(p, j, k - 1); }
  }

  lemma {:induction false} IndexAppend(p: seq<Node>, q: seq<Node>, k: nat)
    requires k <= |p|
    ensures Index(p + q, k) == Index(p, k)
  {
    if k > 0 { IndexAppend(p, q, k - 1); }
  }

  /** Every emitted index comes from exactly one node. */
  lemma {:induction false} IndexOnto(p: seq<Node>, i: nat) returns (k: nat)
    requires i < Index(p, |p|)
    ensures k < |p| && p[k].Emitted() && Index(p, k) == i
  {
    k := |p| - 1;
    if !(p[k].Emitted() && Index(p, k) == i) {
      IndexAppend(p[..k], [p[k]], k);
      assert p[..k] + [p[k]] == p;
      k := IndexOnto(p[..k], i);
      IndexAppend(p[..|p| - 1], [p[|p| - 1]], k);
    }
  }

  /** The list under construction, dt_irlist_t. */
  class IrList {
    var nodes: seq<Node>
    var len: nat
    var nextLabel: nat

    ghost predicate Valid()
      reads this
    {
      && len == Index(nodes, |nodes|)
      && nextLabel >= 1
      && forall i :: 0 <= i < |nodes| ==> nodes[i].lbl < nextLabel
    }

    constructor ()
      ensures Valid() && nodes == [] && nextLabel == 1
    {
      nodes, len, nextLabel := [], 0, 1;
    }

    /** dt_irlist_append: labelled NOPs do not count towards the length. */
    method Append(n: Node)
      requires Valid() && n.lbl < nextLabel
      modifies this
      ensures Valid() && nodes == old(nodes) + [n] && nextLabel == old(nextLabel)
    {
      IndexAppend(nodes, [n], |nodes|);
      nodes := nodes + [n];
      if n.lbl == NO_LABEL || !n.insn.IsNop() {
        len := len + 1;
      }
    }

    method Emit(i: Insn)
      requires Valid()
      modifies this
      ensures Valid() && nodes == old(nodes) + [Plain(i)] && nextLabel == old(nextLabel)
    {
      Append(Plain(i));
    }

    /** Rewrite the instruction of an unlabelled node that is already in the list. */
    method Patch(k: nat, i: Insn)
      requires Valid() && k < |nodes| && nodes[k].lbl == NO_LABEL
      modifies this
      ensures Valid() && nextLabel == old(nextLabel)
      ensures nodes == old(nodes)[k := old(nodes)[k].(insn := i)]
    {
      PatchIndex(nodes, k, i, |nodes|);
      nodes := nodes[k := nodes[k].(insn := i)];
    }

    /** dt_irlist_label. */
    method FreshLabel() returns (l: nat)
      requires Valid()
      modifies this
      ensures Valid() && l == old(nextLabel) && nextLabel == l + 1 && nodes == old(nodes)
    {
      l := nextLabel;
      nextLabel := nextLabel + 1;
    }
  }

  lemma {:induction false} PatchIndex(p: seq<Node>, k: nat, i: Insn, j: nat)
    requires k < |p| && p[k].lbl == NO_LABEL && j <= |p|
    ensures Index(p[k := p[k].(insn := i)], j) == Index(p, j)
    decreases j
  {
    if j > 0 { PatchIndex(p, k, i, j - 1); }
  }
}
