/**
 The register allocator (libdtrace/dt_regset.c) as clause code uses it: %r1 to %r8,
 handed out from the highest number down, with spilling to fixed stack slots once
 all of them are in use (libdtrace/dt_cg.c, dt_cg_spill_store and dt_cg_spill_load).

 Expression code allocates and frees in last-in-first-out order, so the allocator
 is always `AtDepth` some d: d registers handed out and not yet freed.  The d-th of
 them has a number that depends on d alone.
 */
module Registers {
  import opened Bpf
  import opened Ir

  const NREGS := 8

  /** DT_STK_SPILL(r): the frame offset of a register's spill slot. */
  function SpillSlot(r: Reg): int {
    -24 - 8 * r
  }

  /** The register that holds the allocation made at depth `d`. */
  function RegAt(d: nat): Reg
    requires d < 2 * NREGS
  {
    if d < NREGS then NREGS - d else 2 * NREGS - d
  }

  /** What allocating at depth `d` emits: nothing, or a spill of the old value. */
  function AllocCode(d: nat): seq<Node>
    requires d < 2 * NREGS
  {
    if d < NREGS then [] else [Plain(StoreMem(8, FP, SpillSlot(RegAt(d)), RegAt(d)))]
  }

  /** What freeing the allocation made at depth `d` emits. */
  function FreeCode(d: nat): seq<Node>
    requires d < 2 * NREGS
  {
    if d < NREGS then [] else [Plain(LoadMem(8, RegAt(d), FP, SpillSlot(RegAt(d))))]
  }

  class RegSet {
    var active: seq<bool>
    var spilled: seq<bool>

    ghost predicate AtDepth(d: nat)
      reads this
    {
      && |active| == |spilled| == NREGS + 1
      && d <= 2 * NREGS
      && !active[0] && !spilled[0]
      && (forall r :: 1 <= r <= NREGS ==> active[r] == (r > NREGS - d))
      && (forall r :: 1 <= r <= NREGS ==> spilled[r] == (r > 2 * NREGS - d))
    }

    constructor ()
      ensures AtDepth(0)
    {
      active := seq(NREGS + 1, _ => false);
      spilled := seq(NREGS + 1, _ => false);
    }

    /** dt_regset_alloc: the highest unused register; failing that, the highest one
        not spilled yet, whose value is saved first; failing that, none (0). */
    method Alloc(ir: IrList, ghost d: nat) returns (reg: nat)
      requires AtDepth(d) && ir.Valid()
      modifies this, ir
      ensures ir.Valid() && ir.nextLabel == old(ir.nextLabel)
      ensures d < 2 * NREGS ==> reg == RegAt(d) && AtDepth(d + 1) && ir.nodes == old(ir.nodes) + AllocCode(d)
      ensures d == 2 * NREGS ==> reg == 0 && AtDepth(d) && ir.nodes == old(ir.nodes)
    {
      reg := NREGS;
      while reg > 0
        invariant 0 <= reg <= NREGS && unchanged(this) && unchanged(ir)
        invariant forall r :: reg < r <= NREGS ==> active[r]
      {
        if !active[reg] {
          assert reg < NREGS ==> active[reg + 1];
          active := active[reg := true];
          return;
        }
        reg := reg - 1;
      }
      assert active[1] && d >= NREGS;
      reg := NREGS;
      while reg > 0
        invariant 0 <= reg <= NREGS && unchanged(this) && unchanged(ir)
        invariant forall r :: reg < r <= NREGS ==> spilled[r]
      {
        if !spilled[reg] {
          assert reg < NREGS ==> spilled[reg + 1];
          ir.Emit(StoreMem(8, FP, SpillSlot(reg), reg));
          spilled := spilled[reg := true];
          return;
        }
        reg := reg - 1;
      }
      assert spilled[1];
    }

    /** dt_regset_free of the most recent allocation. */
    method Free(ir: IrList, reg: Reg, ghost d: nat)
      requires d < 2 * NREGS && AtDepth(d + 1) && reg == RegAt(d) && ir.Valid()
      modifies this, ir
      ensures ir.Valid() && ir.nextLabel == old(ir.nextLabel)
      ensures AtDepth(d) && ir.nodes == old(ir.nodes) + FreeCode(d)
    {
      assert active[reg];
      if spilled[reg] {
        ir.Emit(LoadMem(8, reg, FP, SpillSlot(reg)));
        spilled := spilled[reg := false];
        return;
      }
      active := active[reg := false];
    }
  }
}
