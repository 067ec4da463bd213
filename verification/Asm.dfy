/**
 The assembler, dt_as() in libdtrace/dt_as.c: it drops labelled NOPs, turns label
 numbers into displacements, and lists the relocations.
 */
module Asm {
  import opened Basics
  import opened Bpf
  import opened Ir

  /** The 16-bit signed `off` field that `x` is stored as. */
  function Short(x: int): (r: int)
    ensures -0x8000 <= r < 0x8000
    ensures -0x8000 <= x < 0x8000 ==> r == x
  {
    (x + 0x8000) % 0x1_0000 - 0x8000
  }

  /** The instruction index that label `l` stands for; a label that is never
      declared keeps the zero of the freshly allocated table. */
  function LabelIndex(p: seq<Node>, l: nat): nat {
    LabelBefore(p, |p|, l)
  }

  /** The label table's entry after the first `n` nodes. */
  function LabelBefore(p: seq<Node>, n: nat, l: nat): nat
    requires n <= |p|
  {
    var k := FindBefore(p, n, l);
    if k < 0 then 0 else Index(p, k)
  }

  function WithOffset(i: Insn, off: int): Insn
    requires i.IsBranch()
  {
    match i
    case JmpReg(op, a, b, _) => JmpReg(op, a, b, off)
    case JmpImm(op, a, v, _) => JmpImm(op, a, v, off)
    case Jump(_) => Jump(off)
  }

  function Relocated(p: seq<Node>, i: Insn, at: int): Insn {
    if i.IsBranch() && i.off >= 0 then WithOffset(i, Short(LabelIndex(p, i.off) - at - 1)) else i
  }

  /** `code` is the assembled form of `p`: instruction by instruction, the emitted
      nodes with their jumps made relative. */
  ghost predicate IsAssembly(p: seq<Node>, code: seq<Insn>) {
    && |code| == Index(p, |p|)
    && forall k {:trigger p[k].Emitted()} :: 0 <= k < |p| && p[k].Emitted() ==>
         Index(p, k) < |code| && code[Index(p, k)] == Relocated(p, p[k].insn, Index(p, k))
  }

  datatype RelocType = Abs32 | Wide64 | Call32

  /** Offsets are in bytes, eight per instruction slot. */
  datatype Reloc = Reloc(kind: RelocType, offset: nat, name: string)

  /** The relocation type for an instruction, if it may have one. */
  function RelocKind(i: Insn): Option<RelocType> {
    match i
    case AluImm(op, _, _) => if op == Mov || op == Add then Some(Abs32) else None
    case Lddw(_, _) => Some(Wide64)
    case Call(_) => Some(Call32)
    case _ => None
  }

  predicate BadReloc(n: Node) {
    n.ext.Some? && RelocKind(n.insn).None?
  }

  /** The relocation table of the first `k` nodes. */
  function Relocs(p: seq<Node>, k: nat): seq<Reloc>
    requires k <= |p|
  {
    if k == 0 then []
    else
      var n := p[k - 1];
      Relocs(p, k - 1) +
        (if n.ext.Some? && RelocKind(n.insn).Some?
         then [Reloc(RelocKind(n.insn).value, 8 * Index(p, k - 1), n.ext.value)] else [])
  }

  datatype Result<T> = Ok(value: T) | UnexpectedReloc(at: nat)

  /** The emitted ones among the first `n` nodes are in the buffer. */
  ghost predicate Filled(p: seq<Node>, n: nat, buf: array<Insn>)
    requires n <= |p|
    reads buf
  {
    forall k {:trigger p[k].Emitted()} :: 0 <= k < n && p[k].Emitted() ==>
      Index(p, k) < buf.Length && buf[Index(p, k)] == p[k].insn
  }

  /** The label table as of the first `n` nodes. */
  ghost predicate Tabled(p: seq<Node>, n: nat, labels: array<nat>)
    requires n <= |p|
    reads labels
  {
    forall l :: 1 <= l < labels.Length ==> labels[l] == LabelBefore(p, n, l)
  }

  /** Enter node `k` into the label table and the instruction buffer. */
  method Place(p: seq<Node>, k: nat, i: nat, buf: array<Insn>, labels: array<nat>) returns (i': nat)
    requires k < |p| && i == Index(p, k) && buf.Length == Index(p, |p|)
    requires p[k].lbl < labels.Length
    requires Tabled(p, k, labels) && Filled(p, k, buf)
    modifies buf, labels
    ensures i' == Index(p, k + 1)
    ensures Tabled(p, k + 1, labels) && Filled(p, k + 1, buf)
  {
    i' := i;
    IndexMono(p, k + 1, |p|);
    if p[k].lbl != NO_LABEL {
      labels[p[k].lbl] := i;
    }
    assert Tabled(p, k + 1, labels);
    if p[k].lbl == NO_LABEL || !p[k].insn.IsNop() {
      FilledBelow(p, k);
      buf[i] := p[k].insn;
      i' := i + 1;
    }
  }

  /** The first pass: fill the instruction buffer and the label table, and count
      relocations.  The label table ends up holding what LabelIndex says. */
  method FirstPass(p: seq<Node>, buf: array<Insn>, labels: array<nat>) returns (r: Result<nat>)
    requires buf.Length == Index(p, |p|)
    requires forall k :: 0 <= k < |p| ==> p[k].lbl < labels.Length
    requires forall l :: 0 <= l < labels.Length ==> labels[l] == 0
    modifies buf, labels
    ensures r.Ok? ==> Tabled(p, |p|, labels) && Filled(p, |p|, buf)
    ensures r.Ok? ==> r.value == |Relocs(p, |p|)|
    ensures r.Ok? <==> forall k :: 0 <= k < |p| ==> !BadReloc(p[k])
  {
    var i, k, brel := 0, 0, 0;
    while k < |p|
      invariant 0 <= k <= |p| && i == Index(p, k)
      invariant brel == |Relocs(p, k)|
      invariant Tabled(p, k, labels) && Filled(p, k, buf)
      invariant forall j :: 0 <= j < k ==> !BadReloc(p[j])
    {
      i := Place(p, k, i, buf, labels);
      if p[k].ext.Some? {
        if RelocKind(p[k].insn).None? {
          return UnexpectedReloc(k);
        }
        brel := brel + 1;
      }
      k := k + 1;
    }
    r := Ok(brel);
  }

  lemma {:induction false} FilledBelow(p: seq<Node>, n: nat)
    requires n <= |p|
    ensures forall k {:trigger p[k].Emitted()} :: 0 <= k < n && p[k].Emitted() ==> Index(p, k) < Index(p, n)
  {
    forall k | 0 <= k < n && p[k].Emitted() {
      IndexMono(p, k, n);
    }
  }

  /** The second pass: rewrite every branch's label into a displacement. */
  method SecondPass(buf: array<Insn>, labels: array<nat>)
    requires forall i :: 0 <= i < buf.Length && buf[i].IsBranch() ==> 1 <= buf[i].off < labels.Length
    modifies buf
    ensures forall i :: 0 <= i < buf.Length ==>
      buf[i] == if old(buf[i]).IsBranch()
                then WithOffset(old(buf[i]), Short(labels[old(buf[i]).off] - i - 1)) else old(buf[i])
  {
    var i := 0;
    while i < buf.Length
      invariant 0 <= i <= buf.Length
      invariant forall j :: i <= j < buf.Length ==> buf[j] == old(buf[j])
      invariant forall j :: 0 <= j < i ==>
        buf[j] == if old(buf[j]).IsBranch()
                  then WithOffset(old(buf[j]), Short(labels[old(buf[j]).off] - j - 1)) else old(buf[j])
    {
      if buf[i].IsBranch() {
        buf[i] := WithOffset(buf[i], Short(labels[buf[i].off] - i - 1));
      }
      i := i + 1;
    }
  }

  /** Branches of the list name labels that were handed out for it. */
  ghost predicate BranchesInRange(p: seq<Node>, limit: nat) {
    forall k :: 0 <= k < |p| && p[k].insn.IsBranch() ==> 1 <= p[k].insn.off < limit
  }

  /** dt_as(): the instruction buffer and the relocation table, or the first node
      that asks for a relocation its instruction cannot have. */
  method Assemble(ir: IrList) returns (r: Result<seq<Insn>>, relocs: seq<Reloc>)
    requires ir.Valid() && BranchesInRange(ir.nodes, ir.nextLabel)
    ensures r.Ok? ==> IsAssembly(ir.nodes, r.value) && |r.value| == ir.len
    ensures r.Ok? ==> relocs == Relocs(ir.nodes, |ir.nodes|)
    ensures r.Ok? <==> forall k :: 0 <= k < |ir.nodes| ==> !BadReloc(ir.nodes[k])
  {
    relocs := [];
    var p := ir.nodes;
    var buf := new Insn[ir.len](_ => NOP);
    var labels := new nat[ir.nextLabel](_ => 0);
    var first := FirstPass(p, buf, labels);
    if first.UnexpectedReloc? {
      return UnexpectedReloc(first.at), [];
    }
    hide IsAssembly, Index, Relocs, BadReloc, Filled, Tabled, BranchesInRange;
    ResolveLabels(p, buf, labels);
    relocs := RelocPass(p, ir.len, first.value);
    r := Ok(buf[..]);
  }

  /** Between the passes everything is in its place; after the second one the buffer is the
      assembled list. */
  method ResolveLabels(p: seq<Node>, buf: array<Insn>, labels: array<nat>)
    requires buf.Length == Index(p, |p|) && Filled(p, |p|, buf) && Tabled(p, |p|, labels)
    requires BranchesInRange(p, labels.Length)
    modifies buf
    ensures IsAssembly(p, buf[..])
  {
    hide IsAssembly, Index, BranchesInRange, WithOffset, Short;
    ghost var filled, table := buf[..], labels[..];
    BranchesTabled(p, filled, labels.Length);
    assert forall i :: 0 <= i < buf.Length ==> buf[i] == filled[i];
    SecondPass(buf, labels);
    AssemblyFrom(p, filled, table, buf[..]);
  }

  lemma {:induction false} BranchesTabled(p: seq<Node>, filled: seq<Insn>, limit: nat)
    requires |filled| == Index(p, |p|) && BranchesInRange(p, limit)
    requires forall k {:trigger p[k].Emitted()} :: 0 <= k < |p| && p[k].Emitted() ==>
      Index(p, k) < |filled| && filled[Index(p, k)] == p[k].insn
    ensures forall i :: 0 <= i < |filled| && filled[i].IsBranch() ==> 1 <= filled[i].off < limit
  {
    forall i | 0 <= i < |filled| && filled[i].IsBranch() ensures 1 <= filled[i].off < limit {
      var k := IndexOnto(p, i);
      assert p[k].Emitted();
    }
  }

  lemma {:induction false} AssemblyFrom(p: seq<Node>, filled: seq<Insn>, table: seq<nat>, code: seq<Insn>)
    requires |filled| == |code| == Index(p, |p|)
    requires forall k {:trigger p[k].Emitted()} :: 0 <= k < |p| && p[k].Emitted() ==>
      Index(p, k) < |filled| && filled[Index(p, k)] == p[k].insn
    requires forall l :: 1 <= l < |table| ==> table[l] == LabelIndex(p, l)
    requires BranchesInRange(p, |table|)
    requires forall i :: 0 <= i < |code| && filled[i].IsBranch() ==>
      1 <= filled[i].off < |table| && code[i] == WithOffset(filled[i], Short(table[filled[i].off] - i - 1))
    requires forall i :: 0 <= i < |code| && !filled[i].IsBranch() ==> code[i] == filled[i]
    ensures IsAssembly(p, code)
  {
    forall k | 0 <= k < |p| && p[k].Emitted()
      ensures Index(p, k) < |code| && code[Index(p, k)] == Relocated(p, p[k].insn, Index(p, k))
    {
      var i := Index(p, k);
      assert filled[i] == p[k].insn;
      if filled[i].IsBranch() {
        assert table[filled[i].off] == LabelIndex(p, filled[i].off);
      }
    }
  }

  /** The last pass: list the relocations in instruction order. */
  method RelocPass(p: seq<Node>, len: nat, brel: nat) returns (table: seq<Reloc>)
    requires forall k :: 0 <= k < |p| ==> !BadReloc(p[k])
    requires len == Index(p, |p|) && brel == |Relocs(p, |p|)|
    ensures table == Relocs(p, |p|)
  {
    table := [];
    var i, k := 0, 0;
    while k < |p|
      invariant 0 <= k <= |p| && i == Index(p, k) && table == Relocs(p, k)
    {
      if p[k].lbl == NO_LABEL || !p[k].insn.IsNop() {
        i := i + 1;
        if p[k].ext.Some? {
          table := table + [Reloc(RelocKind(p[k].insn).value, (i - 1) * 8, p[k].ext.value)];
        }
      }
      k := k + 1;
    }
  }

  /** Relocations come out in strictly ascending order, inside the program. */
  lemma {:induction false} RelocsAscending(p: seq<Node>, k: nat)
    requires k <= |p|
    ensures forall i :: 0 <= i < |Relocs(p, k)| ==> Relocs(p, k)[i].offset < 8 * Index(p, k)
    ensures forall i, j :: 0 <= i < j < |Relocs(p, k)| ==> Relocs(p, k)[i].offset < Relocs(p, k)[j].offset
  {
    if k > 0 {
      RelocsAscending(p, k - 1);
      IndexMono(p, k - 1, k);
    }
  }

  /** The instructions that a kind of relocation is for. */
  predicate IsKindOf(kind: RelocType, i: Insn) {
    match kind
    case Abs32 => i.AluImm? && (i.op == Mov || i.op == Add)
    case Wide64 => i.Lddw?
    case Call32 => i.Call?
  }

  /** Record `r` is for node `k`: it has the node's name, and at its offset the assembled code
      has the node's instruction, which is one for that kind of relocation. */
  ghost predicate IsFor(p: seq<Node>, code: seq<Insn>, r: Reloc, k: nat) {
    && k < |p| && p[k].ext == Some(r.name)
    && r.offset % 8 == 0 && r.offset / 8 == Index(p, k) < |code|
    && code[r.offset / 8] == p[k].insn && IsKindOf(r.kind, p[k].insn)
  }

  /** Every record is for an external node ... */
  lemma {:induction false} RelocNode(p: seq<Node>, n: nat, code: seq<Insn>, i: nat) returns (k: nat)
    requires n <= |p| && IsAssembly(p, code) && i < |Relocs(p, n)|
    ensures k < n && IsFor(p, code, Relocs(p, n)[i], k)
    decreases n
  {
    if i < |Relocs(p, n - 1)| {
      k := RelocNode(p, n - 1, code, i);
    } else {
      k := n - 1;
      assert p[k].Emitted();
    }
  }

  /** ... and for every external node there is one. */
  lemma {:induction false} RelocOf(p: seq<Node>, n: nat, code: seq<Insn>, k: nat) returns (i: nat)
    requires k < n <= |p| && IsAssembly(p, code) && p[k].ext.Some? && !BadReloc(p[k])
    ensures i < |Relocs(p, n)| && IsFor(p, code, Relocs(p, n)[i], k)
    decreases n
  {
    if k < n - 1 {
      i := RelocOf(p, n - 1, code, k);
    } else {
      i := |Relocs(p, k)|;
      assert p[k].Emitted();
    }
  }

  // ----- assembling preserves meaning -----

  /** A two-slot immediate load is one unit: its second slot directly follows and
      cannot be jumped to. */
  ghost predicate WidePaired(p: seq<Node>) {
    && (forall k :: 0 <= k < |p| && p[k].insn.Lddw? ==> k + 1 < |p| && p[k + 1].insn.LddwHi?)
    && (forall k :: 0 <= k < |p| && p[k].insn.LddwHi? ==> p[k].lbl == NO_LABEL)
  }

  ghost predicate BranchesPlaced(p: seq<Node>) {
    forall k :: 0 <= k < |p| && p[k].insn.IsBranch() ==>
      p[k].insn.off >= 1 && FindLabel(p, p[k].insn.off) >= 0
  }

  /** What the assembler needs of a list to keep its meaning: every label jumped to
      is declared, and displacements fit their 16 bits. */
  ghost predicate Assemblable(p: seq<Node>) {
    WidePaired(p) && BranchesPlaced(p) && Index(p, |p|) <= 0x8000
  }

  /** The assembled machine's counterpart of a state of the labelled list. */
  ghost function Image(p: seq<Node>, s: State): State
    requires 0 <= s.pc <= |p|
  {
    s.(pc := Index(p, s.pc))
  }

  /** A one-slot instruction's effect does not depend on where it stands. */
  lemma {:induction false} EffectMoves(i: Insn, next: Option<Insn>, next': Option<Insn>, s: State, pc: int)
    requires !i.Lddw?
    ensures Effect(i, next', s.(pc := pc)) == Effect(i, next, s).(pc := pc)
  {
  }

  lemma {:induction false} EffectStays(i: Insn, next: Option<Insn>, s: State)
    ensures Effect(i, next, s).pc == s.pc
  {
  }

  lemma {:induction false} NopElsewhere(i: Insn, s: State, jump: int)
    requires !i.IsBranch() && !i.Lddw?
    ensures i.IsNop() ==> Advance(i, s, jump) == jump
    ensures !i.IsNop() ==> Advance(i, s, jump) == s.pc + 1
  {
  }

  lemma {:induction false} ImageOfPlain(p: seq<Node>, code: seq<Insn>, s: State)
    requires Assemblable(p) && IsAssembly(p, code) && 0 <= s.pc < |p| && s.status == Running
    requires p[s.pc].Emitted() && !p[s.pc].insn.IsBranch() && !p[s.pc].insn.Lddw?
    ensures 0 <= StepIr(p, s).pc <= |p| && Image(p, StepIr(p, s)) == Step(code, Image(p, s))
  {
    hide Effect;
    var k, i := s.pc, p[s.pc].insn;
    var x := Index(p, k);
    IndexMono(p, k, |p|);
    assert code[x] == i;
    var n1 := if k + 1 < |p| then Some(p[k + 1].insn) else None;
    var n2 := if x + 1 < |code| then Some(code[x + 1]) else None;
    EffectMoves(i, n1, n2, s, x);
    EffectStays(i, n1, s);
    assert Index(p, k + 1) == x + 1;
    NopElsewhere(i, s, k + 1);
  }

  lemma {:induction false} ImageOfWide(p: seq<Node>, code: seq<Insn>, s: State)
    requires Assemblable(p) && IsAssembly(p, code) && 0 <= s.pc < |p| && s.status == Running
    requires p[s.pc].insn.Lddw?
    ensures 0 <= StepIr(p, s).pc <= |p| && Image(p, StepIr(p, s)) == Step(code, Image(p, s))
  {
    var k := s.pc;
    var x := Index(p, k);
    assert p[k].Emitted() && p[k + 1].Emitted();
    assert code[x] == p[k].insn;
    assert Index(p, k + 1) == x + 1 && code[x + 1] == p[k + 1].insn;
    assert Index(p, k + 2) == x + 2;
  }

  lemma {:induction false} BranchCode(p: seq<Node>, code: seq<Insn>, k: nat)
    requires Assemblable(p) && IsAssembly(p, code) && k < |p| && p[k].insn.IsBranch()
    ensures Index(p, k) < |code| && FindLabel(p, p[k].insn.off) >= 0
    ensures code[Index(p, k)] ==
            WithOffset(p[k].insn, Index(p, FindLabel(p, p[k].insn.off)) - Index(p, k) - 1)
  {
    assert p[k].Emitted();
    IndexMono(p, k, |p|);
    IndexMono(p, FindLabel(p, p[k].insn.off), |p|);
  }

  lemma {:induction false} ImageOfBranch(p: seq<Node>, code: seq<Insn>, s: State)
    requires Assemblable(p) && IsAssembly(p, code) && 0 <= s.pc < |p| && s.status == Running
    requires p[s.pc].insn.IsBranch()
    ensures 0 <= StepIr(p, s).pc <= |p| && Image(p, StepIr(p, s)) == Step(code, Image(p, s))
  {
    var k, i := s.pc, p[s.pc].insn;
    BranchCode(p, code, k);
    var t, x := FindLabel(p, i.off), Index(p, k);
    var i' := code[x];
    assert Step(code, Image(p, s)) == Image(p, s).(pc := Advance(i', Image(p, s), Index(p, t)));
    assert StepIr(p, s) == s.(pc := Advance(i, s, t));
    assert Index(p, k + 1) == x + 1;
  }

  /** One step of the list is no step at a label declaration and one step of the
      assembled code everywhere else. */
  lemma {:induction false} StepMatches(p: seq<Node>, code: seq<Insn>, s: State)
    requires Assemblable(p) && IsAssembly(p, code) && 0 <= s.pc <= |p|
    ensures 0 <= StepIr(p, s).pc <= |p|
    ensures Image(p, StepIr(p, s)) ==
            if s.status == Running && s.pc < |p| && !p[s.pc].Emitted()
            then Image(p, s) else Step(code, Image(p, s))
  {
    if s.status == Running && s.pc < |p| && p[s.pc].Emitted() {
      if p[s.pc].insn.IsBranch() {
        ImageOfBranch(p, code, s);
      } else if p[s.pc].insn.Lddw? {
        ImageOfWide(p, code, s);
      } else {
        ImageOfPlain(p, code, s);
      }
    }
  }

  /** Every run of the labelled list is matched by the assembled program. */
  lemma {:induction false} RunMatches(p: seq<Node>, code: seq<Insn>, s: State, n: nat) returns (m: nat)
    requires Assemblable(p) && IsAssembly(p, code) && 0 <= s.pc <= |p|
    ensures 0 <= RunIr(p, s, n).pc <= |p|
    ensures m <= n && Run(code, Image(p, s), m) == Image(p, RunIr(p, s, n))
    decreases n
  {
    m := 0;
    if n > 0 {
      StepMatches(p, code, s);
      m := RunMatches(p, code, StepIr(p, s), n - 1);
      if !(s.status == Running && s.pc < |p| && !p[s.pc].Emitted()) {
        m := m + 1;
      }
    }
  }

  lemma {:induction false} DeclarationStep(p: seq<Node>, s: State)
    requires 0 <= s.pc < |p| && s.status == Running && !p[s.pc].Emitted()
    ensures StepIr(p, s) == s.(pc := s.pc + 1)
  {
  }

  /** And every run of the assembled program is a run of the labelled list. */
  lemma {:induction false} RunMatchesBack(p: seq<Node>, code: seq<Insn>, s: State, m: nat) returns (n: nat)
    requires Assemblable(p) && IsAssembly(p, code) && 0 <= s.pc <= |p|
    ensures n >= m && 0 <= RunIr(p, s, n).pc <= |p|
    ensures Run(code, Image(p, s), m) == Image(p, RunIr(p, s, n))
    decreases m, |p| - s.pc
  {
    hide Effect;
    hide Advance;
    if m == 0 {
      n := 0;
    } else {
      StepMatches(p, code, s);
      var t := StepIr(p, s);
      if s.status == Running && s.pc < |p| && !p[s.pc].Emitted() {
        DeclarationStep(p, s);
        n := RunMatchesBack(p, code, t, m);
      } else {
        n := RunMatchesBack(p, code, t, m - 1);
      }
      n := n + 1;
    }
  }

  /** Jumps of the assembled program stay inside it, provided the list does not end
      in a label declaration. */
  lemma {:induction false} JumpsStayInside(p: seq<Node>, code: seq<Insn>, k: nat)
    requires Assemblable(p) && IsAssembly(p, code)
    requires k < |p| && p[k].insn.IsBranch() && p[|p| - 1].Emitted()
    ensures Index(p, k) < |code| && (code[Index(p, k)].IsBranch() || code[Index(p, k)].IsNop())
    ensures 0 <= Index(p, k) + 1 + code[Index(p, k)].off < |code|
  {
    var t := FindLabel(p, p[k].insn.off);
    IndexMono(p, k, |p|);
    IndexMono(p, t, |p| - 1);
    assert p[k].Emitted();
  }
}
