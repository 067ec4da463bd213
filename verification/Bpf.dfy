/**
 Byte-addressed memory, as BPF loads and stores see it: little-endian scalars of
 1, 2, 4 or 8 bytes.
 */
module Memory {
  import opened Word

  type Byte = x: int | 0 <= x < 256
  type Mem = map<int, Byte>
  type Size = n: int | n == 1 || n == 2 || n == 4 || n == 8 witness 1

  function ByteAt(m: Mem, a: int): Byte {
    if a in m then m[a] else 0
  }

  /** The little-endian number in the `n` bytes at address `a`. */
  function Load(m: Mem, a: int, n: nat): (r: nat)
    ensures r < Pow2(8 * n)
    decreases n
  {
    if n == 0 then 0
    else
      Pow2Add(8, 8 * (n - 1));
      ByteAt(m, a) + 256 * Load(m, a + 1, n - 1)
  }

  function Store(m: Mem, a: int, n: nat, v: nat): (m': Mem)
    decreases n
  {
    if n == 0 then m else Store(m[a := v % 256], a + 1, n - 1, v / 256)
  }

  predicate Disjoint(a: int, n: nat, b: int, k: nat) {
    a + n <= b || b + k <= a
  }

  lemma {:induction false} StoreByte(m: Mem, a: int, n: nat, v: nat, x: int)
    requires x < a || a + n <= x
    ensures ByteAt(Store(m, a, n, v), x) == ByteAt(m, x)
    decreases n
  {
    if n > 0 { StoreByte(m[a := v % 256], a + 1, n - 1, v / 256, x); }
  }

  /** A store leaves every scalar that does not overlap it unchanged. */
  lemma {:induction false} LoadOther(m: Mem, a: int, n: nat, v: nat, b: int, k: nat)
    requires Disjoint(a, n, b, k)
    ensures Load(Store(m, a, n, v), b, k) == Load(m, b, k)
    decreases k
  {
    if k > 0 {
      StoreByte(m, a, n, v, b);
      LoadOther(m, a, n, v, b + 1, k - 1);
    }
  }

  /** A load gives back what was stored there, truncated to the stored width. */
  lemma {:induction false} LoadStored(m: Mem, a: int, n: nat, v: nat)
    ensures Load(Store(m, a, n, v), a, n) == v % Pow2(8 * n)
    decreases n
  {
    if n > 0 {
      var m' := m[a := v % 256];
      LoadStored(m', a + 1, n - 1, v / 256);
      StoreByte(m', a + 1, n - 1, v / 256, a);
      SplitMod(v, 8 * (n - 1));
    }
  }

  lemma {:induction false} SplitMod(v: nat, k: nat)
    ensures v % Pow2(8 + k) == v % 256 + 256 * ((v / 256) % Pow2(k))
  {
    Pow2Add(8, k);
    assert Pow2(8) == 256;
    var p := Pow2(k);
    var q, r := (v / 256) / p, (v / 256) % p;
    assert v / 256 == p * q + r;
    assert v == 256 * (p * q + r) + v % 256;
    assert 256 * (p * q) == q * (256 * p);
    DivModUnique(v, 256 * p, q, 256 * r + v % 256);
  }

  lemma {:induction false} Pow2OfSize(n: Size)
    ensures Pow2(8 * n) <= W && (n == 8 ==> Pow2(8 * n) == W)
  {
    Pow2Of64();
    Pow2Add(8 * n, 64 - 8 * n);
    MulMono(1, Pow2(64 - 8 * n), Pow2(8 * n));
  }

  function Read(m: Mem, a: int, n: Size): U64 {
    Pow2OfSize(n);
    Load(m, a, n)
  }
}

/**
 The BPF instructions that DTrace generates for integer code (include/bpf_asm.h)
 and their effect on a register file and memory (RFC 9669, sections 4.1, 4.3, 5).
 Jump instructions carry their 16-bit `off` field unread: before assembly it holds
 a label number, afterwards a displacement from the following instruction.
 */
module Bpf {
  import opened Basics
  import opened Word
  import opened Memory

  type Reg = r: int | 0 <= r < 11
  type Regs = s: seq<U64> | |s| == 11 witness seq(11, _ => 0)

  const FP: Reg := 10

  datatype AluOp = Add | Sub | Mul | Div | Mod | And | Or | Xor | Lsh | Rsh | Arsh | Mov
  datatype JmpOp = Jeq | Jne | Jlt | Jle | Jgt | Jge | Jslt | Jsle | Jsgt | Jsge

  /** Functions that generated code calls; each is reached through a relocation. */
  datatype Func = ProbeError

  datatype Insn =
    | AluReg(op: AluOp, dst: Reg, src: Reg)
    | AluImm(op: AluOp, dst: Reg, imm: int)
    | NegReg(dst: Reg)
    | LoadMem(sz: Size, dst: Reg, src: Reg, ofs: int)
    | StoreMem(sz: Size, dst: Reg, ofs: int, src: Reg)
    | Lddw(dst: Reg, lo: U32)
    | LddwHi(hi: U32)
    | JmpReg(jop: JmpOp, dst: Reg, src: Reg, off: int)
    | JmpImm(jop: JmpOp, dst: Reg, imm: int, off: int)
    | Jump(off: int)
    | Call(func: Func)
    | Exit
  {
    predicate IsNop() {
      Jump? && off == 0
    }

    /** Instructions whose `off` the assembler rewrites. */
    predicate IsBranch() {
      JmpReg? || JmpImm? || (Jump? && off != 0)
    }
  }

  function MovReg(dst: Reg, src: Reg): Insn { AluReg(Mov, dst, src) }
  function MovImm(dst: Reg, v: int): Insn { AluImm(Mov, dst, v) }
  const NOP := Jump(0)

  datatype Status = Running | Exited | Stuck

  /** `fault` is the machine state's fault code: 0 as long as there is none. */
  datatype State = State(pc: int, regs: Regs, mem: Mem, fault: U64, status: Status)

  function Alu(op: AluOp, a: U64, b: U64): U64 {
    match op
    case Add => Wrap(a + b)
    case Sub => Wrap(a - b)
    case Mul => Wrap(a * b)
    case Div => if b == 0 then 0 else (DivShrinks(a, b); a / b)
    case Mod => if b == 0 then a else a % b
    case And => Bitwise(BitAnd, a, b)
    case Or => Bitwise(BitOr, a, b)
    case Xor => Bitwise(BitXor, a, b)
    case Lsh => ShiftLeft(a, b % 64)
    case Rsh => ShiftRight(a, b % 64)
    case Arsh => ShiftRightSigned(a, b % 64)
    case Mov => b
  }

  function Negated(a: U64): U64 {
    if a == 0 then 0 else W - a
  }

  predicate Test(op: JmpOp, a: U64, b: U64) {
    match op
    case Jeq => a == b
    case Jne => a != b
    case Jlt => a < b
    case Jle => a <= b
    case Jgt => a > b
    case Jge => a >= b
    case Jslt => Signed(a) < Signed(b)
    case Jsle => Signed(a) <= Signed(b)
    case Jsgt => Signed(a) > Signed(b)
    case Jsge => Signed(a) >= Signed(b)
  }

  function Address(base: U64, ofs: int): U64 {
    Wrap(base + ofs)
  }

  /** dt_probe_error() records its third argument as the fault; as any call it
      leaves nothing useful in the caller-saved registers. */
  function AfterProbeError(s: State): State {
    s.(fault := s.regs[3],
       regs := s.regs[0 := 0][1 := 0][2 := 0][3 := 0][4 := 0][5 := 0])
  }

  /** What instruction `i` does to registers, memory and status; `next` is the
      instruction slot after it. */
  function Effect(i: Insn, next: Option<Insn>, s: State): State {
    match i
    case AluReg(op, dst, src) => s.(regs := s.regs[dst := Alu(op, s.regs[dst], s.regs[src])])
    case AluImm(op, dst, imm) => s.(regs := s.regs[dst := Alu(op, s.regs[dst], Wrap(imm))])
    case NegReg(dst) => s.(regs := s.regs[dst := Negated(s.regs[dst])])
    case LoadMem(sz, dst, src, ofs) =>
      s.(regs := s.regs[dst := Read(s.mem, Address(s.regs[src], ofs), sz)])
    case StoreMem(sz, dst, ofs, src) =>
      s.(mem := Store(s.mem, Address(s.regs[dst], ofs), sz, s.regs[src]))
    case Lddw(dst, lo) =>
      if next.Some? && next.value.LddwHi?
      then s.(regs := s.regs[dst := lo + 0x1_0000_0000 * next.value.hi])
      else s.(status := Stuck)
    case LddwHi(_) => s.(status := Stuck)
    case Call(_) => AfterProbeError(s)
    case Exit => s.(status := Exited)
    case _ => s
  }

  /** Where control goes after `i`; `jump` is where a taken jump leads. */
  function Advance(i: Insn, s: State, jump: int): int {
    match i
    case JmpReg(op, a, b, _) => if Test(op, s.regs[a], s.regs[b]) then jump else s.pc + 1
    case JmpImm(op, a, imm, _) => if Test(op, s.regs[a], Wrap(imm)) then jump else s.pc + 1
    case Jump(_) => jump
    case Lddw(_, _) => s.pc + 2
    case _ => s.pc + 1
  }

  /** One step of instruction `i`.  A program that stops stays where it is. */
  function StepInsn(i: Insn, next: Option<Insn>, s: State, jump: int): State {
    var t := Effect(i, next, s);
    if t.status == Running then t.(pc := Advance(i, s, jump)) else t
  }

  /** One step of an assembled program, whose jumps are relative to the next
      instruction. */
  function Step(code: seq<Insn>, s: State): State {
    if s.status != Running then s
    else if s.pc < 0 || s.pc >= |code| then s.(status := Stuck)
    else
      var i := code[s.pc];
      StepInsn(i, if s.pc + 1 < |code| then Some(code[s.pc + 1]) else None, s,
               if i.JmpReg? || i.JmpImm? || i.Jump? then s.pc + 1 + i.off else 0)
  }

  function Run(code: seq<Insn>, s: State, n: nat): State
    decreases n
  {
    if n == 0 then s else Run(code, Step(code, s), n - 1)
  }
}
