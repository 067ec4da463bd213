/**
 The guard against re-entry: the programs of one CPU share a machine state, whose `prid`
 is non-zero while one of them uses it (dt_cg_tramp_prologue_act(), dt_cg_add_dependent()
 and dt_cg_tramp_return() in libdtrace/dt_cg.c, bpf/probe_error.c).

 A probe can fire anywhere in another probe's program, also between its looking at
 `prid` and its setting it; the program that was interrupted goes on when the other has
 returned.

 A fault is reported by dt_probe_error(), which runs the clauses of the ERROR probe.  A
 fault in one of these calls dt_probe_error() again, which then runs no clauses
 (dt_bpf_reloc_error_prog() in libdtrace/dt_bpf.c).
 */
module Reentry {
  import opened Basics

  const ERROR_ID := 3
  const NARGS := 10

  /** The shared state: `prid`, the probe's arguments, the copies of them that dt_probe_error()
      and dependent probes make, and everything else in it. */
  datatype Machine = Machine(prid: nat, argv: seq<nat>, saved: seq<nat>, orig: seq<nat>, rest: nat)

  /** Where a program is: not yet at the test, past it having read zero, in its clauses,
      or about to return. */
  datatype Phase = Started | Passed | Inside | Leaving

  /** A program: its probe's id; once it is inside, the id of the probe whose clauses it runs,
      which may be a dependent one; and for every call of dt_probe_error() that it is in, the
      id in the local variable of that call. */
  datatype Frame = Frame(id: nat, phase: Phase, current: nat, olds: seq<nat>)

  /** The programs that have not returned, the running one last. */
  datatype System = System(mst: Machine, stack: seq<Frame>)

  const NoArgs: seq<nat> := [0, 0, 0, 0, 0, 0, 0, 0, 0, 0]
  const Initial := System(Machine(0, NoArgs, NoArgs, NoArgs, 0), [])

  /** What can happen next: a probe with some id fires; the running program finds that it has
      no state, tests `prid`, sets it, sets its arguments, works with the rest of the state,
      goes on to a dependent probe, comes back from it, calls dt_probe_error(), comes back
      from that, clears `prid`, or returns. */
  datatype Step =
    | Fire(id: nat)
    | NoState
    | Test
    | Enter
    | SetArgs(argv: seq<nat>)
    | Work(rest: nat)
    | Depend(id: nat)
    | EndDepend
    | Error(stid: nat, pc: nat, fault: nat, illval: nat)
    | EndError
    | Exit
    | Return

  function Top(s: System): Frame
    requires s.stack != []
  {
    s.stack[|s.stack| - 1]
  }

  function WithTop(s: System, f: Frame): seq<Frame>
    requires s.stack != []
  {
    s.stack[|s.stack| - 1 := f]
  }

  predicate In(s: System, p: Phase) {
    s.stack != [] && Top(s).phase == p
  }

  /** Ids of probes are not zero; ERROR clauses have no dependent probes and do not leave; and
      a dt_probe_error() called from one of them does nothing but return. */
  predicate Enabled(s: System, t: Step) {
    match t
    case Fire(id) => id != 0
    case NoState => In(s, Started)
    case Test => In(s, Started)
    case Enter => In(s, Passed)
    case SetArgs(argv) => In(s, Inside) && Top(s).olds == [] && |argv| == NARGS
    case Work(_) => In(s, Inside) && |Top(s).olds| <= 1
    case Depend(id) => In(s, Inside) && Top(s).olds == [] && id != 0
    case EndDepend => In(s, Inside) && Top(s).olds == []
    case Error(_, _, _, _) => In(s, Inside) && |Top(s).olds| <= 1
    case EndError => In(s, Inside) && Top(s).olds != []
    case Exit => In(s, Inside) && Top(s).olds == []
    case Return => In(s, Leaving)
  }

  /** The arguments of the ERROR probe. */
  function ErrorArgs(m: Machine, stid: nat, pc: nat, fault: nat, illval: nat): seq<nat> {
    [0, m.prid, stid, pc, fault, illval] + if |m.argv| >= 6 then m.argv[6..] else []
  }

  function Next(s: System, t: Step): System
    requires Enabled(s, t)
  {
    match t
    case Fire(id) => s.(stack := s.stack + [Frame(id, Started, id, [])])
    case NoState => s.(stack := WithTop(s, Top(s).(phase := Leaving)))
    case Test => s.(stack := WithTop(s, Top(s).(phase := if s.mst.prid != 0 then Leaving else Passed)))
    case Enter => System(s.mst.(prid := Top(s).id), WithTop(s, Top(s).(phase := Inside, current := Top(s).id)))
    case SetArgs(argv) => s.(mst := s.mst.(argv := argv))
    case Work(rest) => s.(mst := s.mst.(rest := rest))
    case Depend(id) =>
      System(s.mst.(orig := s.mst.argv, prid := id), WithTop(s, Top(s).(current := id)))
    case EndDepend => s.(mst := s.mst.(argv := s.mst.orig))
    case Error(stid, pc, fault, illval) =>
      System(s.mst.(saved := s.mst.argv, argv := ErrorArgs(s.mst, stid, pc, fault, illval), prid := ERROR_ID),
             WithTop(s, Top(s).(olds := Top(s).olds + [s.mst.prid])))
    case EndError =>
      var n := |Top(s).olds| - 1;
      System(s.mst.(prid := Top(s).olds[n], argv := s.mst.saved), WithTop(s, Top(s).(olds := Top(s).olds[..n])))
    case Exit => System(s.mst.(prid := 0), WithTop(s, Top(s).(phase := Leaving)))
    case Return => s.(stack := s.stack[..|s.stack| - 1])
  }

  /** A run: every step is possible where it is taken. */
  ghost predicate Runs(s: System, steps: seq<Step>, t: System)
    decreases |steps|
  {
    if steps == [] then s == t else Enabled(s, steps[0]) && Runs(Next(s, steps[0]), steps[1..], t)
  }

  ghost predicate Reachable(s: System) {
    exists steps :: Runs(Initial, steps, s)
  }

  /** What the state holds for a program that is inside: the id of the probe whose clauses are
      being run, or of the ERROR probe, and in the latter case the id to come back to. */
  predicate Using(m: Machine, f: Frame) {
    && f.current != 0 && |f.olds| <= 2
    && m.prid == (if f.olds == [] then f.current else ERROR_ID)
    && (|f.olds| >= 1 ==> f.olds[0] == f.current)
    && (|f.olds| == 2 ==> f.olds[1] == ERROR_ID)
  }

  /** At most one program is inside, and the state is as it left it; `prid` is zero if there is
      none; and no program that fired after it has passed the test. */
  ghost predicate Guarded(s: System) {
    && |s.mst.argv| == |s.mst.saved| == |s.mst.orig| == NARGS
    && (forall i :: 0 <= i < |s.stack| ==> s.stack[i].id != 0 && (s.stack[i].phase != Inside ==> s.stack[i].olds == []))
    && (forall i, j :: 0 <= i < j < |s.stack| && s.stack[i].phase == Inside ==>
          s.stack[j].phase != Inside && s.stack[j].phase != Passed)
    && (forall i :: 0 <= i < |s.stack| && s.stack[i].phase == Inside ==> Using(s.mst, s.stack[i]))
    && (s.mst.prid != 0 ==> exists i :: 0 <= i < |s.stack| && s.stack[i].phase == Inside)
  }

  lemma {:induction false} StillInside(t: System, i: nat)
    requires i < |t.stack| && t.stack[i].phase == Inside
    ensures exists j :: 0 <= j < |t.stack| && t.stack[j].phase == Inside
  {
  }

  /** Every step keeps the guard. */
  lemma {:induction false} StepGuarded(s: System, t: Step)
    requires Guarded(s) && Enabled(s, t)
    ensures Guarded(Next(s, t))
  {
    var s' := Next(s, t);
    var n := |s.stack| - 1;
    if t.Fire? || !In(s, Inside) {
      if t.Enter? {
        NoneInside(s);
        assert s'.stack[n].phase == Inside;
      } else {
        KeepsInside(s, s');
      }
    } else if t.Exit? {
      forall i | 0 <= i < n ensures s'.stack[i].phase != Inside { assert s.stack[i].phase != Inside; }
    } else {
      assert Using(s.mst, s.stack[n]);
      StepUsing(s, t);
      OneInside(s, s');
    }
  }

  /** A step of the program that is inside, which stays there. */
  lemma {:induction false} StepUsing(s: System, t: Step)
    requires Enabled(s, t) && !t.Fire? && !t.Exit? && In(s, Inside) && Using(s.mst, Top(s))
    requires |s.mst.argv| == |s.mst.saved| == |s.mst.orig| == NARGS
    ensures var s' := Next(s, t);
      && s'.stack == WithTop(s, Top(s')) && In(s', Inside) && Top(s').id == Top(s).id && Using(s'.mst, Top(s'))
      && |s'.mst.argv| == |s'.mst.saved| == |s'.mst.orig| == NARGS
  {
  }

  lemma {:induction false} OneInside(s: System, s': System)
    requires Guarded(s) && In(s, Inside) && In(s', Inside) && s'.stack == WithTop(s, Top(s'))
    requires Top(s').id == Top(s).id && Using(s'.mst, Top(s'))
    requires |s'.mst.argv| == |s'.mst.saved| == |s'.mst.orig| == NARGS
    ensures Guarded(s')
  {
    var n := |s.stack| - 1;
    assert s.stack[n].phase == Inside && s'.stack[n].phase == Inside;
    forall i | 0 <= i < n ensures s'.stack[i].phase != Inside && s'.stack[i] == s.stack[i] {
      assert s.stack[i].phase != Inside;
    }
  }

  /** When the running program has passed the test, none is inside. */
  lemma {:induction false} NoneInside(s: System)
    requires Guarded(s) && In(s, Passed)
    ensures forall i :: 0 <= i < |s.stack| ==> s.stack[i].phase != Inside
  {
    assert s.stack[|s.stack| - 1].phase == Passed;
  }

  /** A step of a program that is not inside, and does not get there. */
  lemma {:induction false} KeepsInside(s: System, s': System)
    requires Guarded(s) && s.mst == s'.mst
    requires || (exists id :: s'.stack == s.stack + [Frame(id, Started, id, [])])
             || (s.stack != [] && Top(s).phase != Inside)
    requires || (exists id :: s'.stack == s.stack + [Frame(id, Started, id, [])])
             || (s.stack != [] && s'.stack == s.stack[..|s.stack| - 1])
             || (s.stack != [] && exists p :: p != Inside && s'.stack == WithTop(s, Top(s).(phase := p)))
    ensures s.mst.prid != 0 ==> exists i :: 0 <= i < |s'.stack| && s'.stack[i].phase == Inside
    ensures forall i :: 0 <= i < |s'.stack| && s'.stack[i].phase == Inside ==> Using(s'.mst, s'.stack[i])
  {
    if s.mst.prid != 0 {
      var i :| 0 <= i < |s.stack| && s.stack[i].phase == Inside;
      StillInside(s', i);
    }
    forall i | 0 <= i < |s'.stack| && s'.stack[i].phase == Inside ensures Using(s'.mst, s'.stack[i]) {
      assert s.stack[i].phase == Inside;
    }
  }

  lemma {:induction false} RunGuarded(s: System, steps: seq<Step>, t: System)
    requires Guarded(s) && Runs(s, steps, t)
    ensures Guarded(t)
    decreases |steps|
  {
    hide Guarded, Next;
    if steps != [] {
      StepGuarded(s, steps[0]);
      RunGuarded(Next(s, steps[0]), steps[1..], t);
    }
  }

  lemma {:induction false} ReachableGuarded(s: System)
    requires Reachable(s)
    ensures Guarded(s)
  {
    var steps :| Runs(Initial, steps, s);
    assert Guarded(Initial);
    hide Guarded;
    RunGuarded(Initial, steps, s);
  }

  /** In every reachable state at most one program is inside ... */
  lemma {:induction false} AtMostOneInside(s: System, i: nat, j: nat)
    requires Reachable(s)
    requires i < |s.stack| && j < |s.stack| && s.stack[i].phase == Inside && s.stack[j].phase == Inside
    ensures i == j
  {
    ReachableGuarded(s);
  }

  /** ... `prid` tells whether there is one: it is the id of the probe whose clauses that one
      runs ... */
  lemma {:induction false} PridTells(s: System)
    requires Reachable(s)
    ensures s.mst.prid != 0 <==> exists i :: 0 <= i < |s.stack| && s.stack[i].phase == Inside
    ensures forall i :: 0 <= i < |s.stack| && s.stack[i].phase == Inside ==>
      s.mst.prid == if s.stack[i].olds != [] then ERROR_ID else s.stack[i].current
  {
    ReachableGuarded(s);
    if i :| 0 <= i < |s.stack| && s.stack[i].phase == Inside { assert Using(s.mst, s.stack[i]); }
  }

  /** ... and once all programs have returned it is zero again. */
  lemma {:induction false} FreeAtTheEnd(s: System)
    requires Reachable(s) && s.stack == []
    ensures s.mst.prid == 0
  {
    ReachableGuarded(s);
  }

  /** During a run the stack stays above `n`. */
  ghost predicate StaysAbove(s: System, steps: seq<Step>, n: nat)
    decreases |steps|
  {
    |s.stack| > n && (steps != [] ==> Enabled(s, steps[0]) && StaysAbove(Next(s, steps[0]), steps[1..], n))
  }

  /** Programs that fire while another one is inside leave the shared state alone: as long
      as that one has not gone on, whatever fires above it, nothing of it changes. */
  lemma {:induction false} NestedChangesNothing(s: System, steps: seq<Step>, t: System, i: nat)
    requires Guarded(s) && i < |s.stack| && s.stack[i].phase == Inside
    requires Runs(s, steps, t) && StaysAbove(s, steps, i + 1)
    ensures t.mst == s.mst && i < |t.stack| && t.stack[i] == s.stack[i]
    decreases |steps|
  {
    if steps != [] {
      var u := Next(s, steps[0]);
      StepGuarded(s, steps[0]);
      assert s.stack[|s.stack| - 1].phase != Inside && s.stack[|s.stack| - 1].phase != Passed;
      hide Guarded;
      NestedChangesNothing(u, steps[1..], t, i);
    }
  }

  /** During a run, frame `i` is in dt_probe_error() or in what this calls. */
  ghost predicate StaysInError(s: System, steps: seq<Step>, i: nat)
    decreases |steps|
  {
    && i < |s.stack| && s.stack[i].phase == Inside && s.stack[i].olds != []
    && (steps != [] ==> Enabled(s, steps[0]) && StaysInError(Next(s, steps[0]), steps[1..], i))
  }

  /** A fault has been reported during the run. */
  predicate Faulted(steps: seq<Step>) {
    exists k :: 0 <= k < |steps| && steps[k].Error?
  }

  /** The ERROR probe's arguments are `args`, and if one of its clauses has faulted they are
      also what will be taken for the arguments of the probe. */
  predicate Reporting(m: Machine, f: Frame, args: seq<nat>) {
    && |f.olds| >= 1
    && (|f.olds| == 1 ==> m.argv == args)
    && (|f.olds| == 2 ==> m.saved == args)
  }

  lemma {:induction false} StepReporting(s: System, t: Step, i: nat, args: seq<nat>)
    requires Guarded(s) && Enabled(s, t) && i < |s.stack| && s.stack[i].phase == Inside
    requires Reporting(s.mst, s.stack[i], args)
    requires var u := Next(s, t); i < |u.stack| && u.stack[i].phase == Inside && u.stack[i].olds != []
    ensures var u := Next(s, t);
      && Reporting(u.mst, u.stack[i], args) && u.stack[i].olds[0] == s.stack[i].olds[0]
      && u.mst.saved == if t.Error? then args else s.mst.saved
  {
    var n := |s.stack| - 1;
    if i < n {
      assert s.stack[n].phase != Inside && s.stack[n].phase != Passed;
    } else {
      assert Using(s.mst, s.stack[n]);
    }
  }

  lemma {:induction false} RunReporting(s: System, steps: seq<Step>, t: System, i: nat, args: seq<nat>)
    requires Guarded(s) && Runs(s, steps, t) && StaysInError(s, steps, i) && Reporting(s.mst, s.stack[i], args)
    ensures i < |t.stack| && t.stack[i].phase == Inside && Reporting(t.mst, t.stack[i], args)
    ensures t.stack[i].olds[0] == s.stack[i].olds[0]
    ensures t.mst.saved == if Faulted(steps) then args else s.mst.saved
    decreases |steps|
  {
    if steps != [] {
      var u := Next(s, steps[0]);
      StepGuarded(s, steps[0]);
      StepReporting(s, steps[0], i, args);
      FaultedTail(steps);
      hide Guarded, Reporting, Next, Enabled, Faulted;
      RunReporting(u, steps[1..], t, i, args);
    }
  }

  lemma {:induction false} FaultedTail(steps: seq<Step>)
    requires steps != []
    ensures Faulted(steps) <==> steps[0].Error? || Faulted(steps[1..])
  {
    if Faulted(steps[1..]) {
      var k :| 0 <= k < |steps[1..]| && steps[1..][k].Error?;
      assert steps[k + 1].Error?;
    }
    if k :| 0 <= k < |steps| && steps[k].Error? && k > 0 {
      assert steps[1..][k - 1].Error?;
    }
  }

  /** Reporting a fault to the ERROR probe: whatever its clauses do and whatever else fires in
      the meantime, the probe's id is there again afterwards; its arguments are exactly if
      none of the clauses has faulted, or they were those of the ERROR probe anyway. */
  lemma {:induction false} ErrorRestores(s: System, e: Step, steps: seq<Step>, t: System)
    requires Guarded(s) && e.Error? && Enabled(s, e) && Top(s).olds == []
    requires var s1 := Next(s, e);
      && Runs(s1, steps, t) && StaysInError(s1, steps, |s.stack| - 1)
      && |t.stack| == |s.stack| && |Top(t).olds| == 1
    ensures Enabled(t, EndError)
    ensures var r := Next(t, EndError);
      && r.mst.prid == s.mst.prid == Top(s).current == Next(s, e).mst.argv[1] && Top(r).olds == []
      && r.mst.argv == (if Faulted(steps) then Next(s, e).mst.argv else s.mst.argv)
      && (r.mst.argv == s.mst.argv <==> !Faulted(steps) || Next(s, e).mst.argv == s.mst.argv)
  {
    var s1 := Next(s, e);
    var n := |s.stack| - 1;
    ErrorBegins(s, e);
    StepGuarded(s, e);
    hide Guarded, Next, Enabled, Faulted, StaysInError, Runs;
    RunReporting(s1, steps, t, n, s1.mst.argv);
    ErrorEnds(t);
  }

  lemma {:induction false} ErrorBegins(s: System, e: Step)
    requires Guarded(s) && e.Error? && Enabled(s, e) && Top(s).olds == []
    ensures var s1, n := Next(s, e), |s.stack| - 1;
      && |s1.stack| == |s.stack| && s1.stack[n].olds == [s.mst.prid] && s1.stack[n].phase == Inside
      && s1.mst.saved == s.mst.argv && Reporting(s1.mst, s1.stack[n], s1.mst.argv)
      && s.mst.prid == Top(s).current == s1.mst.argv[1]
  {
    assert Using(s.mst, s.stack[|s.stack| - 1]);
  }

  lemma {:induction false} ErrorEnds(t: System)
    requires t.stack != [] && Top(t).phase == Inside && |Top(t).olds| == 1
    ensures Enabled(t, EndError)
    ensures var r := Next(t, EndError);
      r.stack != [] && Top(r).olds == [] && r.mst.prid == Top(t).olds[0] && r.mst.argv == t.mst.saved
  {
  }

  /** During a run, frame `i` is inside and goes on to no dependent probe. */
  ghost predicate StaysInDependent(s: System, steps: seq<Step>, i: nat)
    decreases |steps|
  {
    && i < |s.stack| && s.stack[i].phase == Inside
    && (steps != [] ==>
          !steps[0].Depend? && Enabled(s, steps[0]) && StaysInDependent(Next(s, steps[0]), steps[1..], i))
  }

  lemma {:induction false} StepInDependent(s: System, t: Step, i: nat)
    requires Guarded(s) && Enabled(s, t) && !t.Depend? && i < |s.stack| && s.stack[i].phase == Inside
    requires var u := Next(s, t); i < |u.stack| && u.stack[i].phase == Inside
    ensures var u := Next(s, t); u.mst.orig == s.mst.orig && u.stack[i].current == s.stack[i].current
  {
    var n := |s.stack| - 1;
    if i < n { assert s.stack[n].phase != Inside && s.stack[n].phase != Passed; }
  }

  lemma {:induction false} RunInDependent(s: System, steps: seq<Step>, t: System, i: nat)
    requires Guarded(s) && Runs(s, steps, t) && StaysInDependent(s, steps, i)
    ensures Guarded(t) && i < |t.stack| && t.stack[i].phase == Inside
    ensures t.mst.orig == s.mst.orig && t.stack[i].current == s.stack[i].current
    decreases |steps|
  {
    hide Guarded, Next, Enabled;
    if steps != [] {
      var u := Next(s, steps[0]);
      StepGuarded(s, steps[0]);
      StepInDependent(s, steps[0], i);
      RunInDependent(u, steps[1..], t, i);
    }
  }

  /** A dependent probe: whatever its clauses do to the arguments, whatever faults and
      whatever else fires in the meantime, the arguments afterwards are those of before.  The
      probe's id is not: it stays that of the dependent probe. */
  lemma {:induction false} DependentRestores(s: System, id: nat, steps: seq<Step>, t: System)
    requires Guarded(s) && Enabled(s, Depend(id))
    requires var s1 := Next(s, Depend(id)); Runs(s1, steps, t) && StaysInDependent(s1, steps, |s.stack| - 1)
    requires |t.stack| == |s.stack| && Top(t).olds == []
    ensures Enabled(t, EndDepend)
    ensures var r := Next(t, EndDepend); r.mst.argv == s.mst.argv && r.mst.prid == Top(r).current == id
  {
    var s1 := Next(s, Depend(id));
    StepGuarded(s, Depend(id));
    RunInDependent(s1, steps, t, |s.stack| - 1);
    assert Using(t.mst, t.stack[|t.stack| - 1]);
  }

  lemma {:induction false} RunsThenStep(s: System, steps: seq<Step>, t: System, e: Step)
    requires Runs(s, steps, t) && Enabled(t, e)
    ensures Runs(s, steps + [e], Next(t, e))
    decreases |steps|
  {
    hide Next, Enabled;
    if steps == [] {
      assert ([e])[1..] == [];
      assert Runs(Next(s, e), [], Next(t, e));
    } else {
      RunsThenStep(Next(s, steps[0]), steps[1..], t, e);
      assert (steps + [e])[1..] == steps[1..] + [e];
    }
  }

  lemma {:induction false} StepReaches(s: System, e: Step)
    requires Reachable(s) && Enabled(s, e)
    ensures Reachable(Next(s, e))
  {
    var steps :| Runs(Initial, steps, s);
    RunsThenStep(Initial, steps, s, e);
  }

  /** A probe with arguments of one each faults in statement 2 at instruction 5, with fault 4
      for value 9, and so does a clause of the ERROR probe: afterwards the probe's arguments
      are zero, its own id, and these. */
  lemma {:induction false} ArgumentsLost() returns (s: System, t: System)
    ensures Reachable(s) && Reachable(t) && In(s, Inside) && In(t, Inside)
    ensures s.mst.argv == [1, 1, 1, 1, 1, 1, 1, 1, 1, 1]
    ensures t.mst.argv == [0, 7, 2, 5, 4, 9, 1, 1, 1, 1]
  {
    var ones: seq<nat> := [1, 1, 1, 1, 1, 1, 1, 1, 1, 1];
    var s0 := Entered(7);
    s := s0.(mst := s0.mst.(argv := ones));
    StepReaches(s0, SetArgs(ones));
    var first := [0, 7, 2, 5, 4, 9, 1, 1, 1, 1];
    var s1 := Faults(s, 7, [], first);
    assert [] + [s.mst.prid] == [7];
    var second := [0, ERROR_ID, 2, 5, 4, 9, 1, 1, 1, 1];
    var s2 := Faults(s1, 7, [7], second);
    var s3 := Resumes(s2, 7, [7], ERROR_ID);
    assert [7] == [] + [7];
    t := Resumes(s3, 7, [], 7);
  }

  lemma {:induction false} Faults(s: System, id: nat, olds: seq<nat>, args: seq<nat>) returns (t: System)
    requires Reachable(s) && s.stack == [Frame(id, Inside, id, olds)] && |olds| <= 1 && |s.mst.argv| == NARGS
    requires args == [0, s.mst.prid, 2, 5, 4, 9] + s.mst.argv[6..]
    ensures Reachable(t) && t.stack == [Frame(id, Inside, id, olds + [s.mst.prid])]
    ensures t.mst.argv == args && t.mst.saved == s.mst.argv && t.mst.prid == ERROR_ID
  {
    t := Next(s, Error(2, 5, 4, 9));
    StepReaches(s, Error(2, 5, 4, 9));
  }

  lemma {:induction false} Resumes(s: System, id: nat, olds: seq<nat>, prid: nat) returns (t: System)
    requires Reachable(s) && s.stack == [Frame(id, Inside, id, olds + [prid])]
    ensures Reachable(t) && t.stack == [Frame(id, Inside, id, olds)]
    ensures t.mst.argv == t.mst.saved == s.mst.saved && t.mst.prid == prid
  {
    t := Next(s, EndError);
    StepReaches(s, EndError);
    assert (olds + [prid])[..|olds|] == olds;
  }

  lemma {:induction false} Entered(id: nat) returns (s: System)
    requires id != 0
    ensures Reachable(s) && s.mst.prid == id && s.stack == [Frame(id, Inside, id, [])]
  {
    assert Runs(Initial, [], Initial);
    StepReaches(Initial, Fire(id));
    var s1 := Next(Initial, Fire(id));
    StepReaches(s1, Test);
    var s2 := Next(s1, Test);
    StepReaches(s2, Enter);
    s := Next(s2, Enter);
  }
}
