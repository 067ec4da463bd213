/**
 Aggregations: probes update per-CPU cells under generation counters, and the consumer
 clears and merges them (bpf/get_agg.c, the aggregating functions in libdtrace/dt_cg.c,
 dt_clear() in libdtrace/dt_consume.c and the snapshot code in
 libdtrace/dt_aggregate.c).

 Updates on different CPUs and the consumer's work are interleaved in any order.  The
 value that a snapshot yields is that of applying the same updates one after the other.
 */
module Aggregate {
  import opened Basics
  import opened Word

  type Data = seq<U64>

  /** What an aggregating function does to its words: max() and min() keep one of two
      values; count(), sum(), avg() and the distributions add word by word. */
  datatype Fn = Max | Min | Adds(words: nat)

  function Size(f: Fn): nat {
    if f.Adds? then f.words else 1
  }

  /** The initial value: INT64_MIN, INT64_MAX, or zeroes. */
  function Init(f: Fn): (d: Data)
    ensures |d| == Size(f)
  {
    match f
    case Max => [HALF]
    case Min => [HALF - 1]
    case Adds(n) => seq(n, _ => 0)
  }

  function Combine(f: Fn, a: Data, b: Data): (d: Data)
    requires |a| == |b| == Size(f)
    ensures |d| == Size(f)
  {
    match f
    case Max => if Signed(b[0]) > Signed(a[0]) then b else a
    case Min => if Signed(b[0]) < Signed(a[0]) then b else a
    case Adds(n) => seq(n, i requires 0 <= i < n => AddWord(a[i], b[i]))
  }

  lemma {:induction false} CombineInit(f: Fn, a: Data)
    requires |a| == Size(f)
    ensures Combine(f, Init(f), a) == a && Combine(f, a, Init(f)) == a
  {
    match f
    case Max => assert a == [a[0]];
    case Min => assert a == [a[0]];
    case Adds(n) =>
  }

  lemma {:induction false} CombineComm(f: Fn, a: Data, b: Data)
    requires |a| == |b| == Size(f)
    ensures Combine(f, a, b) == Combine(f, b, a)
  {
    match f
    case Max => assert a == [a[0]] && b == [b[0]];
    case Min => assert a == [a[0]] && b == [b[0]];
    case Adds(n) =>
      forall i | 0 <= i < n ensures Combine(f, a, b)[i] == Combine(f, b, a)[i] { }
  }

  lemma {:induction false} WrapAssoc(a: U64, b: U64, c: U64)
    ensures AddWord(AddWord(a, b), c) == AddWord(a, AddWord(b, c))
  {
    WrapInner(a + b, c);
    WrapInner(b + c, a);
  }

  lemma {:induction false} CombineAssoc(f: Fn, a: Data, b: Data, c: Data)
    requires |a| == |b| == |c| == Size(f)
    ensures Combine(f, Combine(f, a, b), c) == Combine(f, a, Combine(f, b, c))
  {
    if f.Adds? {
      var x, y := Combine(f, Combine(f, a, b), c), Combine(f, a, Combine(f, b, c));
      forall i | 0 <= i < f.words ensures x[i] == y[i] {
        WrapAssoc(a[i], b[i], c[i]);
      }
    }
  }

  // ----- one update after the other -----

  ghost predicate Sized(f: Fn, xs: seq<Data>) {
    forall i :: 0 <= i < |xs| ==> |xs[i]| == Size(f)
  }

  /** The aggregate of a sequence of updates. */
  function Fold(f: Fn, xs: seq<Data>): (d: Data)
    requires forall i :: 0 <= i < |xs| ==> |xs[i]| == Size(f)
    ensures |d| == Size(f)
  {
    if xs == [] then Init(f) else Combine(f, Fold(f, xs[..|xs| - 1]), xs[|xs| - 1])
  }

  lemma {:induction false} FoldJoin(f: Fn, xs: seq<Data>, ys: seq<Data>)
    requires Sized(f, xs) && Sized(f, ys)
    ensures Sized(f, xs + ys) && Fold(f, xs + ys) == Combine(f, Fold(f, xs), Fold(f, ys))
    decreases |ys|
  {
    hide Combine, Init;
    assert forall i :: 0 <= i < |xs + ys| ==> |(xs + ys)[i]| == Size(f);
    if ys == [] {
      assert xs + ys == xs;
      CombineInit(f, Fold(f, xs));
    } else {
      var n := |ys| - 1;
      assert (xs + ys)[..|xs| + n] == xs + ys[..n];
      FoldJoin(f, xs, ys[..n]);
      CombineAssoc(f, Fold(f, xs), Fold(f, ys[..n]), ys[n]);
    }
  }

  lemma {:induction false} FoldOne(f: Fn, x: Data)
    requires |x| == Size(f)
    ensures Fold(f, [x]) == x
  {
    assert [x][..0] == [];
    CombineInit(f, x);
  }

  lemma {:induction false} FoldSwap(f: Fn, xs: seq<Data>, y: Data, zs: seq<Data>)
    requires Sized(f, xs) && Sized(f, zs) && |y| == Size(f)
    ensures Sized(f, xs + [y] + zs) && Sized(f, [y] + (xs + zs)) && Fold(f, xs + [y] + zs) == Fold(f, [y] + (xs + zs))
  {
    hide Combine, Fold;
    FoldJoin(f, xs, [y]);
    FoldJoin(f, xs + [y], zs);
    FoldJoin(f, xs, zs);
    FoldJoin(f, [y], xs + zs);
    FoldOne(f, y);
    var a, c := Fold(f, xs), Fold(f, zs);
    CombineComm(f, a, y);
    CombineAssoc(f, y, a, c);
  }

  /** The aggregate does not depend on the order of the updates. */
  lemma {:induction false} FoldOrder(f: Fn, xs: seq<Data>, ys: seq<Data>)
    requires Sized(f, xs) && Sized(f, ys) && multiset(xs) == multiset(ys)
    ensures Fold(f, xs) == Fold(f, ys)
    decreases |xs|
  {
    hide Combine, Fold;
    if xs == [] {
      assert |multiset(ys)| == 0;
    } else {
      var x := xs[0];
      var i := Remove(xs, ys);
      var a, c := ys[..i], ys[i + 1..];
      assert ys == a + [x] + c;
      assert xs == [x] + xs[1..];
      FoldOrder(f, xs[1..], a + c);
      FoldSwap(f, a, x, c);
      FoldJoin(f, [x], xs[1..]);
      FoldJoin(f, [x], a + c);
    }
  }

  /** Where the first element of a sequence is in a rearrangement of it. */
  lemma {:induction false} Remove(xs: seq<Data>, ys: seq<Data>) returns (i: nat)
    requires xs != [] && multiset(xs) == multiset(ys)
    ensures i < |ys| && ys[i] == xs[0] && multiset(ys[..i] + ys[i + 1..]) == multiset(xs[1..])
  {
    var x := xs[0];
    assert x in multiset(xs);
    assert x in ys;
    i :| 0 <= i < |ys| && ys[i] == x;
    var a, c := ys[..i], ys[i + 1..];
    assert ys == a + ([x] + c);
    assert xs == [x] + xs[1..];
    assert multiset(ys) == multiset(a) + (multiset{x} + multiset(c));
    assert multiset(xs) == multiset{x} + multiset(xs[1..]);
    assert multiset(a + c) == multiset(a) + multiset(c);
    assert multiset(ys) == multiset{x} + multiset(a + c);
    Cancel(multiset(a + c), multiset(xs[1..]), x);
  }

  lemma {:induction false} Cancel(a: multiset<Data>, b: multiset<Data>, x: Data)
    requires multiset{x} + a == multiset{x} + b
    ensures a == b
  {
    forall y: Data ensures a[y] == b[y] {
      assert (multiset{x} + a)[y] == (multiset{x} + b)[y];
    }
  }

  // ----- what the aggregate is -----

  /** The sum of word `i` of the updates. */
  function SumAt(xs: seq<Data>, i: nat): int
    requires forall j :: 0 <= j < |xs| ==> i < |xs[j]|
  {
    if xs == [] then 0 else SumAt(xs[..|xs| - 1], i) + xs[|xs| - 1][i]
  }

  /** One of the updates, and no other is greater, or none less, as a signed number. */
  ghost predicate Extreme(xs: seq<Data>, d: Data, greatest: bool)
    requires |d| == 1 && forall j :: 0 <= j < |xs| ==> |xs[j]| == 1
  {
    && d in xs
    && forall j :: 0 <= j < |xs| ==>
         if greatest then Signed(xs[j][0]) <= Signed(d[0]) else Signed(xs[j][0]) >= Signed(d[0])
  }

  /** Every word is the sum of the updates' modulo 2^64; or the data is the greatest, or the
      least of them. */
  ghost predicate IsAggregate(f: Fn, xs: seq<Data>, d: Data)
    requires Sized(f, xs)
  {
    && |d| == Size(f)
    && match f
       case Adds(n) => forall i :: 0 <= i < n ==> d[i] == SumAt(xs, i) % W
       case Max => if xs == [] then Signed(d[0]) == -HALF else Extreme(xs, d, true)
       case Min => if xs == [] then Signed(d[0]) == HALF - 1 else Extreme(xs, d, false)
  }

  lemma {:induction false} FoldIs(f: Fn, xs: seq<Data>)
    requires Sized(f, xs)
    ensures IsAggregate(f, xs, Fold(f, xs))
    decreases |xs|
  {
    if xs != [] {
      var n := |xs| - 1;
      FoldIs(f, xs[..n]);
      assert xs == xs[..n] + [xs[n]];
      if f.Adds? {
        AddsMore(f.words, xs[..n], Fold(f, xs[..n]), xs[n]);
      } else {
        if n == 0 { CombineInit(f, xs[0]); }
        ExtremeMore(f, xs[..n], Fold(f, xs[..n]), xs[n]);
      }
    }
  }

  lemma {:induction false} AddsMore(n: nat, xs: seq<Data>, d: Data, x: Data)
    requires Sized(Adds(n), xs) && IsAggregate(Adds(n), xs, d) && |x| == n
    ensures Sized(Adds(n), xs + [x]) && IsAggregate(Adds(n), xs + [x], Combine(Adds(n), d, x))
  {
    var all := xs + [x];
    assert all[..|xs|] == xs;
    forall i | 0 <= i < n ensures Combine(Adds(n), d, x)[i] == SumAt(all, i) % W {
      WrapInner(SumAt(xs, i), x[i]);
    }
  }

  lemma {:induction false} ExtremeMore(f: Fn, xs: seq<Data>, d: Data, x: Data)
    requires !f.Adds? && Sized(f, xs) && IsAggregate(f, xs, d) && |x| == 1
    ensures Sized(f, xs + [x]) && IsAggregate(f, xs + [x], Combine(f, d, x))
  {
    var all := xs + [x];
    assert all[|xs|] == x;
    if xs != [] {
      var i :| 0 <= i < |xs| && xs[i] == d;
      assert all[i] == d;
    } else {
      assert d == Init(f) by { assert d == [d[0]]; }
      CombineInit(f, x);
    }
  }

  // ----- the system -----

  /** An aggregation's number and a key tuple. */
  datatype Key = Key(id: nat, tuple: seq<nat>)

  /** A cell: the generation it was last reset in, and its words. */
  datatype Cell = Cell(gen: nat, data: Data)

  /** `gens` is the agggen map (1 where nothing has been cleared), `cpus` the per-CPU
      maps, `table` the consumer's hash table. */
  datatype System = System(gens: map<nat, nat>, cpus: map<(nat, Key), Cell>, table: map<Key, Cell>)

  const Initial := System(map[], map[], map[])

  function Gen(s: System, id: nat): nat {
    if id in s.gens then s.gens[id] else 1
  }

  function At<K, V>(m: map<K, V>, k: K): Option<V> {
    if k in m then Some(m[k]) else None
  }

  /** dt_get_agg() and the aggregating function: the cell after an update. */
  function Updated(f: Fn, gen: nat, c: Option<Cell>, inc: Data): Cell
    requires |inc| == Size(f) && (c.Some? ==> |c.value.data| == Size(f))
  {
    var base := if c.None? || c.value.gen < gen then Init(f) else c.value.data;
    Cell(if c.None? || c.value.gen < gen then gen else c.value.gen, Combine(f, base, inc))
  }

  /** dt_aggregate_clear_one(). */
  function Cleared(f: Fn, gen: nat): Cell {
    Cell(gen, Init(f))
  }

  /** dt_aggregate_snap_one(): the consumer's entry after reading a CPU's cell. */
  function Merged(f: Fn, gen: nat, h: Option<Cell>, c: Cell): Option<Cell>
    requires |c.data| == Size(f) && (h.Some? ==> |h.value.data| == Size(f))
  {
    if c.gen == 0 then h
    else if h.None? then Some(c)
    else
      var h' := if c.gen > h.value.gen then Cleared(f, gen) else h.value;
      if c.gen < h'.gen then Some(h') else Some(h'.(data := Combine(f, h'.data, c.data)))
  }

  /** What happens, in whatever order: a probe updates an aggregation on some CPU, the
      consumer clears an aggregation, begins a snapshot, or reads a cell for it: that of key
      `a`, whose addresses are reduced to symbols or modules, which makes it `k`. */
  datatype Step = Update(cpu: nat, a: Key, inc: Data) | Clear(id: nat) | Begin | Read(cpu: nat, a: Key, k: Key)

  /** The entries of the aggregations `ids` reset to the present generation. */
  function ClearAll(fns: nat -> Fn, s: System, id: Option<nat>): map<Key, Cell> {
    map k | k in s.table :: if id == None || id == Some(k.id) then Cleared(fns(k.id), Gen(s, k.id)) else s.table[k]
  }

  ghost predicate Fits(fns: nat -> Fn, s: System) {
    && (forall p :: p in s.cpus ==> |s.cpus[p].data| == Size(fns(p.1.id)))
    && (forall k :: k in s.table ==> |s.table[k].data| == Size(fns(k.id)))
  }

  predicate StepFits(fns: nat -> Fn, t: Step) {
    match t
    case Update(_, a, inc) => |inc| == Size(fns(a.id))
    case Read(_, a, k) => k.id == a.id
    case _ => true
  }

  ghost function Next(fns: nat -> Fn, s: System, t: Step): (s': System)
    requires Fits(fns, s) && StepFits(fns, t)
    ensures Fits(fns, s')
  {
    match t
    case Update(cpu, a, inc) =>
      s.(cpus := s.cpus[(cpu, a) := Updated(fns(a.id), Gen(s, a.id), At(s.cpus, (cpu, a)), inc)])
    case Clear(id) =>
      var s1 := s.(gens := s.gens[id := Gen(s, id) + 1]);
      s1.(table := ClearAll(fns, s1, Some(id)))
    case Begin =>
      s.(table := ClearAll(fns, s, None))
    case Read(cpu, a, k) =>
      if (cpu, a) !in s.cpus then s
      else
        var h := Merged(fns(k.id), Gen(s, k.id), At(s.table, k), s.cpus[(cpu, a)]);
        if h.None? then s else s.(table := s.table[k := h.value])
  }

  ghost function Reached(fns: nat -> Fn, steps: seq<Step>): (s: System)
    requires forall i :: 0 <= i < |steps| ==> StepFits(fns, steps[i])
    ensures Fits(fns, s)
  {
    if steps == [] then Initial else Next(fns, Reached(fns, steps[..|steps| - 1]), steps[|steps| - 1])
  }

  // ----- what a snapshot should show -----

  /** The updates of `a` on a CPU since it was last cleared. */
  function Live(steps: seq<Step>, cpu: nat, a: Key): seq<Data> {
    if steps == [] then []
    else
      var before := Live(steps[..|steps| - 1], cpu, a);
      match steps[|steps| - 1]
      case Update(c, k, inc) => if c == cpu && k == a then before + [inc] else before
      case Clear(id) => if id == a.id then [] else before
      case _ => before
  }

  /** The updates that the snapshot in progress has seen for `k`: of every cell that is
      read for it, those made by then. */
  function Seen(steps: seq<Step>, k: Key): seq<Data> {
    if steps == [] then []
    else
      var before := Seen(steps[..|steps| - 1], k);
      match steps[|steps| - 1]
      case Begin => []
      case Clear(id) => if id == k.id then [] else before
      case Read(c, a, into) => if into == k then before + Live(steps[..|steps| - 1], c, a) else before
      case _ => before
  }

  ghost predicate AllFit(fns: nat -> Fn, steps: seq<Step>) {
    forall i :: 0 <= i < |steps| ==> StepFits(fns, steps[i])
  }

  lemma {:induction false} LiveSized(fns: nat -> Fn, steps: seq<Step>, cpu: nat, a: Key)
    requires AllFit(fns, steps)
    ensures Sized(fns(a.id), Live(steps, cpu, a))
    decreases |steps|
  {
    if steps != [] {
      LiveSized(fns, steps[..|steps| - 1], cpu, a);
      assert StepFits(fns, steps[|steps| - 1]);
    }
  }

  lemma {:induction false} SeenSized(fns: nat -> Fn, steps: seq<Step>, k: Key)
    requires AllFit(fns, steps)
    ensures Sized(fns(k.id), Seen(steps, k))
    decreases |steps|
  {
    if steps != [] {
      var before := steps[..|steps| - 1];
      SeenSized(fns, before, k);
      var t := steps[|steps| - 1];
      assert StepFits(fns, t);
      if t.Read? { LiveSized(fns, before, t.cpu, t.a); }
    }
  }

  // ----- what it does show -----

  /** A CPU's cell of the present generation holds the aggregate of its live updates;
      an older one means that there are none. */
  ghost predicate CellHolds(f: Fn, gen: nat, c: Option<Cell>, live: seq<Data>)
    requires Sized(f, live)
  {
    match c
    case None => live == []
    case Some(c) =>
      && 1 <= c.gen <= gen
      && (if c.gen == gen then c.data == Fold(f, live) else live == [])
  }

  lemma {:induction false} GenPositive(fns: nat -> Fn, steps: seq<Step>, id: nat)
    requires AllFit(fns, steps)
    ensures Gen(Reached(fns, steps), id) >= 1
    decreases |steps|
  {
    if steps != [] {
      hide Next;
      GenPositive(fns, steps[..|steps| - 1], id);
      assert StepFits(fns, steps[|steps| - 1]);
      NextOf(fns, Reached(fns, steps[..|steps| - 1]), steps[|steps| - 1], 0, Key(id, []));
    }
  }

  lemma {:induction false} UpdateHolds(f: Fn, gen: nat, c: Option<Cell>, live: seq<Data>, inc: Data)
    requires Sized(f, live) && |inc| == Size(f) && gen >= 1 && CellHolds(f, gen, c, live)
    requires c.Some? ==> |c.value.data| == Size(f)
    ensures Sized(f, live + [inc]) && CellHolds(f, gen, Some(Updated(f, gen, c, inc)), live + [inc])
  {
    hide Combine, Init;
    assert (live + [inc])[..|live|] == live;
    assert forall i :: 0 <= i < |live + [inc]| ==> |(live + [inc])[i]| == Size(f);
    assert Fold(f, live + [inc]) == Combine(f, Fold(f, live), inc);
  }

  /** What one step does to the generation of an aggregation, to a CPU's cell of it and
      to the consumer's entry. */
  lemma {:induction false} NextOf(fns: nat -> Fn, s: System, t: Step, cpu: nat, a: Key)
    requires Fits(fns, s) && StepFits(fns, t)
    ensures var s' := Next(fns, s, t);
      && Gen(s', a.id) == Gen(s, a.id) + (if t == Clear(a.id) then 1 else 0)
      && At(s'.cpus, (cpu, a)) ==
         (if t.Update? && t.cpu == cpu && t.a == a
          then Some(Updated(fns(a.id), Gen(s, a.id), At(s.cpus, (cpu, a)), t.inc)) else At(s.cpus, (cpu, a)))
      && At(s'.table, a) ==
         (if t.Begin? || t == Clear(a.id) then
            if a in s.table then Some(Cleared(fns(a.id), Gen(s', a.id))) else None
          else if t.Read? && t.k == a && (t.cpu, t.a) in s.cpus
          then Merged(fns(a.id), Gen(s, a.id), At(s.table, a), s.cpus[(t.cpu, t.a)])
          else At(s.table, a))
  {
    hide Updated, Merged, Cleared;
    if t.Read? && t.k == a && (t.cpu, t.a) in s.cpus {
      MergedKeeps(fns(a.id), Gen(s, a.id), At(s.table, a), s.cpus[(t.cpu, t.a)]);
    }
  }

  lemma {:induction false} MergedKeeps(f: Fn, gen: nat, h: Option<Cell>, c: Cell)
    requires |c.data| == Size(f) && (h.Some? ==> |h.value.data| == Size(f))
    ensures Merged(f, gen, h, c).None? ==> h.None?
  {
  }

  /** In every run, every CPU's cells hold what was aggregated there. */
  lemma {:induction false} CellsHold(fns: nat -> Fn, steps: seq<Step>, cpu: nat, a: Key)
    requires AllFit(fns, steps)
    ensures Sized(fns(a.id), Live(steps, cpu, a))
    ensures var s := Reached(fns, steps); CellHolds(fns(a.id), Gen(s, a.id), At(s.cpus, (cpu, a)), Live(steps, cpu, a))
    decreases |steps|
  {
    hide Fold, Updated, Next;
    LiveSized(fns, steps, cpu, a);
    if steps != [] {
      var before, t := steps[..|steps| - 1], steps[|steps| - 1];
      assert StepFits(fns, t);
      CellsHold(fns, before, cpu, a);
      var s := Reached(fns, before);
      assert Reached(fns, steps) == Next(fns, s, t);
      NextOf(fns, s, t, cpu, a);
      if t.Update? && t.cpu == cpu && t.a == a {
        GenPositive(fns, before, a.id);
        UpdateHolds(fns(a.id), Gen(s, a.id), At(s.cpus, (cpu, a)), Live(before, cpu, a), t.inc);
      }
    }
  }

  /** The consumer's entry of the present generation holds the aggregate of what the
      snapshot has seen; an older one means that it has seen nothing. */
  ghost predicate EntryHolds(f: Fn, gen: nat, h: Option<Cell>, seen: seq<Data>)
    requires Sized(f, seen)
  {
    match h
    case None => seen == []
    case Some(h) => h.gen <= gen && (if h.gen == gen then h.data == Fold(f, seen) else seen == [])
  }

  /** The same in plain terms: an entry of the present generation shows the sum, the
      greatest or the least of the updates. */
  ghost predicate Shows(f: Fn, gen: nat, h: Option<Cell>, xs: seq<Data>)
    requires Sized(f, xs)
  {
    match h
    case None => xs == []
    case Some(h) => h.gen <= gen && (if h.gen == gen then IsAggregate(f, xs, h.data) else xs == [])
  }

  lemma {:induction false} HoldsShows(f: Fn, gen: nat, h: Option<Cell>, xs: seq<Data>)
    requires Sized(f, xs) && EntryHolds(f, gen, h, xs)
    ensures Shows(f, gen, h, xs)
  {
    hide IsAggregate;
    FoldIs(f, xs);
  }

  lemma {:induction false} MergeHolds(f: Fn, gen: nat, h: Option<Cell>, seen: seq<Data>, c: Cell, live: seq<Data>)
    requires Sized(f, seen) && Sized(f, live) && EntryHolds(f, gen, h, seen) && CellHolds(f, gen, Some(c), live)
    requires |c.data| == Size(f) && (h.Some? ==> |h.value.data| == Size(f))
    ensures Sized(f, seen + live) && EntryHolds(f, gen, Merged(f, gen, h, c), seen + live)
  {
    hide Combine, Init;
    FoldJoin(f, seen, live);
    assert seen == [] ==> seen + live == live;
    assert live == [] ==> seen + live == seen;
    CombineInit(f, c.data);
  }

  /** In every run, the consumer's entries of the present generation hold what the
      snapshot has seen. */
  lemma {:induction false} EntriesHold(fns: nat -> Fn, steps: seq<Step>, a: Key)
    requires AllFit(fns, steps)
    ensures Sized(fns(a.id), Seen(steps, a))
    ensures var s := Reached(fns, steps); EntryHolds(fns(a.id), Gen(s, a.id), At(s.table, a), Seen(steps, a))
    decreases |steps|
  {
    hide Updated, Merged, Next, Live;
    SeenSized(fns, steps, a);
    if steps != [] {
      var before, t := steps[..|steps| - 1], steps[|steps| - 1];
      assert StepFits(fns, t);
      EntriesHold(fns, before, a);
      var s := Reached(fns, before);
      assert Reached(fns, steps) == Next(fns, s, t);
      NextOf(fns, s, t, 0, a);
      if t.Read? && t.k == a {
        CellsHold(fns, before, t.cpu, t.a);
        if (t.cpu, t.a) in s.cpus {
          MergeHolds(fns(a.id), Gen(s, a.id), At(s.table, a), Seen(before, a), s.cpus[(t.cpu, t.a)],
                     Live(before, t.cpu, t.a));
        } else {
          assert Seen(before, a) + [] == Seen(before, a);
        }
      }
    }
  }

  // ----- a snapshot shows the sequential aggregate -----

  /** A cell of a CPU's map: the CPU and the key as the probe gave it. */
  type Place = (nat, Key)

  /** The updates of any of these cells of aggregation `id` since it was last cleared, in the
      order in which they were made. */
  function Sequential(steps: seq<Step>, cells: seq<Place>, id: nat): seq<Data> {
    if steps == [] then []
    else
      var before := Sequential(steps[..|steps| - 1], cells, id);
      match steps[|steps| - 1]
      case Update(c, a, inc) => if (c, a) in cells then before + [inc] else before
      case Clear(x) => if x == id then [] else before
      case _ => before
  }

  /** Cell by cell. */
  function LiveOf(steps: seq<Step>, cells: seq<Place>): seq<Data> {
    if cells == [] then []
    else
      var n := |cells| - 1;
      LiveOf(steps, cells[..n]) + Live(steps, cells[n].0, cells[n].1)
  }

  ghost predicate Distinct(cells: seq<Place>) {
    forall i, j :: 0 <= i < j < |cells| ==> cells[i] != cells[j]
  }

  ghost predicate Belong(cells: seq<Place>, id: nat) {
    forall i :: 0 <= i < |cells| ==> cells[i].1.id == id
  }

  /** One more step: an update adds to one cell, clearing empties all of them. */
  lemma {:induction false} LiveOfStep(steps: seq<Step>, cells: seq<Place>, id: nat)
    requires steps != [] && Distinct(cells) && Belong(cells, id)
    ensures var before, t := steps[..|steps| - 1], steps[|steps| - 1];
      multiset(LiveOf(steps, cells)) ==
        if t == Clear(id) then multiset{}
        else if t.Update? && (t.cpu, t.a) in cells then multiset(LiveOf(before, cells)) + multiset{t.inc}
        else multiset(LiveOf(before, cells))
    decreases |cells|
  {
    if cells != [] {
      var before, t := steps[..|steps| - 1], steps[|steps| - 1];
      var n := |cells| - 1;
      LiveOfStep(steps, cells[..n], id);
      LastCell(steps, before, cells);
      var (c, a) := cells[n];
      LiveStep(steps, c, a);
      hide LiveOf, Live, Distinct;
      var x, y' := LiveOf(steps, cells[..n]), Live(before, c, a);
      if t.Update? && (t.cpu, t.a) == cells[n] {
        CountJoin(y', [t.inc]);
        CountJoin(x, y' + [t.inc]);
      } else {
        CountJoin(x, Live(steps, c, a));
      }
      CountJoin(LiveOf(before, cells[..n]), y');
    }
  }

  lemma {:induction false} LastCell(steps: seq<Step>, before: seq<Step>, cells: seq<Place>)
    requires cells != [] && Distinct(cells)
    ensures var n := |cells| - 1;
      && LiveOf(steps, cells) == LiveOf(steps, cells[..n]) + Live(steps, cells[n].0, cells[n].1)
      && LiveOf(before, cells) == LiveOf(before, cells[..n]) + Live(before, cells[n].0, cells[n].1)
      && (forall c :: c in cells <==> c in cells[..n] || c == cells[n])
      && cells[n] !in cells[..n]
  {
    assert cells == cells[..|cells| - 1] + [cells[|cells| - 1]];
  }

  lemma {:induction false} LiveStep(steps: seq<Step>, cpu: nat, a: Key)
    requires steps != []
    ensures var before, t := Live(steps[..|steps| - 1], cpu, a), steps[|steps| - 1];
      Live(steps, cpu, a) ==
        if t == Clear(a.id) then [] else if t.Update? && t.a == a && t.cpu == cpu then before + [t.inc] else before
  {
  }

  lemma {:induction false} CountJoin(x: seq<Data>, y: seq<Data>)
    ensures multiset(x + y) == multiset(x) + multiset(y)
  {
  }

  lemma {:induction false} SameUpdates(steps: seq<Step>, cells: seq<Place>, id: nat)
    requires Distinct(cells) && Belong(cells, id)
    ensures multiset(LiveOf(steps, cells)) == multiset(Sequential(steps, cells, id))
    decreases |steps|
  {
    if steps == [] {
      NoneLive(cells);
    } else {
      var before, t := steps[..|steps| - 1], steps[|steps| - 1];
      SameUpdates(before, cells, id);
      LiveOfStep(steps, cells, id);
      hide LiveOf;
      if t.Update? && (t.cpu, t.a) in cells {
        CountJoin(Sequential(before, cells, id), [t.inc]);
      }
    }
  }

  lemma {:induction false} NoneLive(cells: seq<Place>)
    ensures LiveOf([], cells) == []
    decreases |cells|
  {
    if cells != [] { NoneLive(cells[..|cells| - 1]); }
  }

  /** The cells that are read for `k`. */
  function ReadFor(snap: seq<Step>, k: Key): seq<Place> {
    if snap == [] then []
    else
      var t := snap[|snap| - 1];
      ReadFor(snap[..|snap| - 1], k) + (if t.Read? && t.k == k then [(t.cpu, t.a)] else [])
  }

  ghost predicate OnlyReads(snap: seq<Step>) {
    forall i :: 0 <= i < |snap| ==> snap[i].Read?
  }

  lemma {:induction false} Longer(before: seq<Step>, snap: seq<Step>)
    requires snap != []
    ensures var all := before + [Begin] + snap;
      all[|all| - 1] == snap[|snap| - 1] && all[..|all| - 1] == before + [Begin] + snap[..|snap| - 1]
  {
  }

  lemma {:induction false} LiveKept(before: seq<Step>, snap: seq<Step>, cpu: nat, a: Key)
    requires OnlyReads(snap)
    ensures Live(before + [Begin] + snap, cpu, a) == Live(before, cpu, a)
    decreases |snap|
  {
    if snap == [] {
      assert (before + [Begin] + snap)[..|before|] == before;
    } else {
      Longer(before, snap);
      LiveKept(before, snap[..|snap| - 1], cpu, a);
    }
  }

  lemma {:induction false} SeenAll(before: seq<Step>, snap: seq<Step>, k: Key)
    requires OnlyReads(snap)
    ensures Seen(before + [Begin] + snap, k) == LiveOf(before, ReadFor(snap, k))
    decreases |snap|
  {
    var all := before + [Begin] + snap;
    if snap == [] {
      assert all == before + [Begin];
    } else {
      var n := |snap| - 1;
      Longer(before, snap);
      SeenAll(before, snap[..n], k);
      var cells := ReadFor(snap, k);
      if snap[n].k == k {
        LiveKept(before, snap[..n], snap[n].cpu, snap[n].a);
        assert cells[..|cells| - 1] == ReadFor(snap[..n], k);
      } else {
        assert cells == ReadFor(snap[..n], k);
      }
    }
  }

  lemma {:induction false} ReadBelong(fns: nat -> Fn, snap: seq<Step>, k: Key)
    requires AllFit(fns, snap)
    ensures Belong(ReadFor(snap, k), k.id)
    decreases |snap|
  {
    if snap != [] {
      ReadBelong(fns, snap[..|snap| - 1], k);
      assert StepFits(fns, snap[|snap| - 1]);
    }
  }

  lemma {:induction false} SequentialSized(fns: nat -> Fn, steps: seq<Step>, cells: seq<Place>, id: nat)
    requires AllFit(fns, steps) && Belong(cells, id)
    ensures Sized(fns(id), Sequential(steps, cells, id))
    decreases |steps|
  {
    if steps != [] {
      SequentialSized(fns, steps[..|steps| - 1], cells, id);
      assert StepFits(fns, steps[|steps| - 1]);
    }
  }

  /** After any run, a snapshot that reads no cell twice ends, for every reduced key, with the
      aggregate of all updates since the last clear of all cells that are read for it, as if
      they had been applied in order to one cell.  Only an entry of an older generation may
      show something else, and then there have been no updates. */
  lemma {:induction false} SnapshotSequential(fns: nat -> Fn, before: seq<Step>, snap: seq<Step>, k: Key)
    requires AllFit(fns, before) && AllFit(fns, snap) && OnlyReads(snap) && Distinct(ReadFor(snap, k))
    ensures AllFit(fns, before + [Begin] + snap) && Sized(fns(k.id), Sequential(before, ReadFor(snap, k), k.id))
    ensures var s := Reached(fns, before + [Begin] + snap);
      EntryHolds(fns(k.id), Gen(s, k.id), At(s.table, k), Sequential(before, ReadFor(snap, k), k.id))
  {
    hide Seen, Sequential, LiveOf, Reached, Fold, Gen, At, ReadFor;
    var all, cells := before + [Begin] + snap, ReadFor(snap, k);
    assert forall i :: 0 <= i < |all| ==> StepFits(fns, all[i]);
    EntriesHold(fns, all, k);
    SeenAll(before, snap, k);
    ReadBelong(fns, snap, k);
    SameUpdates(before, cells, k.id);
    SequentialSized(fns, before, cells, k.id);
    FoldOrder(fns(k.id), Seen(all, k), Sequential(before, cells, k.id));
    if Seen(all, k) == [] {
      assert |multiset(Sequential(before, cells, k.id))| == 0;
    }
  }

  // ----- a whole snapshot -----

  /** How addresses in keys are reduced, for the time of a snapshot. */
  type Reduction = Key -> Key

  ghost predicate Lawful(reduce: Reduction) {
    forall a: Key :: reduce(a).id == a.id
  }

  /** All updates since the last clear whose key reduces to `k`, in the order in which they
      were made, on whatever CPUs. */
  function Reduced(steps: seq<Step>, reduce: Reduction, k: Key): seq<Data> {
    if steps == [] then []
    else
      var before := Reduced(steps[..|steps| - 1], reduce, k);
      match steps[|steps| - 1]
      case Update(_, a, inc) => if reduce(a) == k then before + [inc] else before
      case Clear(id) => if id == k.id then [] else before
      case _ => before
  }

  /** Every cell there is is read once, for its reduced key. */
  ghost predicate Covers(cpus: map<Place, Cell>, reduce: Reduction, snap: seq<Step>) {
    && (forall i :: 0 <= i < |snap| ==> snap[i].Read? && snap[i].k == reduce(snap[i].a))
    && (forall i, j :: 0 <= i < j < |snap| ==> (snap[i].cpu, snap[i].a) != (snap[j].cpu, snap[j].a))
    && (forall p :: p in cpus ==> Read(p.0, p.1, reduce(p.1)) in snap)
  }

  lemma {:induction false} ReadForIs(snap: seq<Step>, k: Key, p: Place)
    ensures p in ReadFor(snap, k) <==> Read(p.0, p.1, k) in snap
    decreases |snap|
  {
    if snap != [] {
      var n := |snap| - 1;
      ReadForIs(snap[..n], k, p);
      assert snap == snap[..n] + [snap[n]];
    }
  }

  lemma {:induction false} ReadForDistinct(snap: seq<Step>, k: Key)
    requires forall i, j :: 0 <= i < j < |snap| ==> Apart(snap[i], snap[j])
    ensures Distinct(ReadFor(snap, k))
    decreases |snap|
  {
    if snap != [] {
      var n := |snap| - 1;
      ReadForDistinct(snap[..n], k);
      if snap[n].Read? && snap[n].k == k {
        var p := (snap[n].cpu, snap[n].a);
        ReadForIs(snap[..n], k, p);
        assert p !in ReadFor(snap[..n], k);
      }
    }
  }

  /** Not two reads of the same cell. */
  predicate Apart(t: Step, u: Step) {
    t.Read? && u.Read? ==> (t.cpu, t.a) != (u.cpu, u.a)
  }

  /** A cell that has been updated is there. */
  lemma {:induction false} UpdatedExists(fns: nat -> Fn, steps: seq<Step>, i: nat)
    requires AllFit(fns, steps) && i < |steps| && steps[i].Update?
    ensures (steps[i].cpu, steps[i].a) in Reached(fns, steps).cpus
    decreases |steps|
  {
    hide Updated, Merged;
    var n := |steps| - 1;
    assert StepFits(fns, steps[n]);
    if i < n { UpdatedExists(fns, steps[..n], i); }
  }

  lemma {:induction false} SequentialIsReduced(steps: seq<Step>, cells: seq<Place>, reduce: Reduction, k: Key)
    requires forall i :: 0 <= i < |steps| && steps[i].Update? ==>
      ((steps[i].cpu, steps[i].a) in cells <==> reduce(steps[i].a) == k)
    ensures Sequential(steps, cells, k.id) == Reduced(steps, reduce, k)
    decreases |steps|
  {
    if steps != [] {
      var n := |steps| - 1;
      assert steps[n] == steps[|steps| - 1];
      SequentialIsReduced(steps[..n], cells, reduce, k);
    }
  }

  /** After any run, a snapshot of all cells shows, for every reduced key, the aggregate of all
      updates since the last clear whose key reduces to it. */
  lemma {:induction false} SnapshotShows(fns: nat -> Fn, before: seq<Step>, reduce: Reduction, snap: seq<Step>, k: Key)
    requires AllFit(fns, before) && Lawful(reduce) && Covers(Reached(fns, before).cpus, reduce, snap)
    ensures AllFit(fns, before + [Begin] + snap) && Sized(fns(k.id), Reduced(before, reduce, k))
    ensures var s := Reached(fns, before + [Begin] + snap);
      && EntryHolds(fns(k.id), Gen(s, k.id), At(s.table, k), Reduced(before, reduce, k))
      && Shows(fns(k.id), Gen(s, k.id), At(s.table, k), Reduced(before, reduce, k))
  {
    hide Reached, Sequential, Reduced, ReadFor, Gen, At, EntryHolds, Shows;
    assert AllFit(fns, snap) by {
      forall i | 0 <= i < |snap| ensures StepFits(fns, snap[i]) { assert snap[i].k == reduce(snap[i].a); }
    }
    assert forall i, j :: 0 <= i < j < |snap| ==> Apart(snap[i], snap[j]);
    ReadForDistinct(snap, k);
    SnapshotSequential(fns, before, snap, k);
    var cells := ReadFor(snap, k);
    forall i | 0 <= i < |before| && before[i].Update?
      ensures (before[i].cpu, before[i].a) in cells <==> reduce(before[i].a) == k
    {
      var p := (before[i].cpu, before[i].a);
      UpdatedExists(fns, before, i);
      ReadForIs(snap, k, p);
      assert Read(p.0, p.1, reduce(p.1)) in snap;
      if p in cells {
        var j :| 0 <= j < |snap| && snap[j] == Read(p.0, p.1, k);
        assert snap[j].k == reduce(snap[j].a);
      }
    }
    SequentialIsReduced(before, cells, reduce, k);
    var s := Reached(fns, before + [Begin] + snap);
    HoldsShows(fns(k.id), Gen(s, k.id), At(s.table, k), Reduced(before, reduce, k));
  }

  // ----- entries of an older generation -----

  /** The consumer's entry after reading one CPU after the other. */
  function ReadAll(f: Fn, gen: nat, h: Option<Cell>, cells: seq<Option<Cell>>): (r: Option<Cell>)
    requires h.Some? ==> |h.value.data| == Size(f)
    requires forall i :: 0 <= i < |cells| ==> cells[i].Some? ==> |cells[i].value.data| == Size(f)
    ensures r.Some? ==> |r.value.data| == Size(f)
  {
    if cells == [] then h
    else
      var before := ReadAll(f, gen, h, cells[..|cells| - 1]);
      if cells[|cells| - 1].None? then before else Merged(f, gen, before, cells[|cells| - 1].value)
  }

  /** The generations of the cells that exist. */
  function Gens(cells: seq<Option<Cell>>): seq<nat> {
    if cells == [] then []
    else Gens(cells[..|cells| - 1]) + (if cells[|cells| - 1].Some? then [cells[|cells| - 1].value.gen] else [])
  }

  /** All of them are of an older generation, and none is newer than the first. */
  ghost predicate Outdated(gens: seq<nat>, gen: nat) {
    gens != [] && gens[0] < gen && forall i :: 0 <= i < |gens| ==> gens[i] <= gens[0]
  }

  /** A snapshot that finds no entry for a key leaves an outdated one behind exactly
      when the cells it reads are outdated: the first of them is copied whatever its
      generation is. */
  lemma {:induction false} OutdatedExactly(f: Fn, gen: nat, cells: seq<Option<Cell>>)
    requires forall i :: 0 <= i < |cells| ==>
      cells[i].Some? ==> |cells[i].value.data| == Size(f) && 1 <= cells[i].value.gen <= gen
    ensures var r, gs := ReadAll(f, gen, None, cells), Gens(cells);
      && (r.Some? <==> gs != [])
      && (r.Some? ==> r.value.gen == if Outdated(gs, gen) then gs[0] else gen)
    decreases |cells|
  {
    hide Combine, Init, Outdated, Size;
    if cells != [] {
      OutdatedExactly(f, gen, cells[..|cells| - 1]);
      var c := cells[|cells| - 1];
      if c.Some? {
        OutdatedMore(Gens(cells[..|cells| - 1]), c.value.gen, gen);
      } else {
        assert Gens(cells) == Gens(cells[..|cells| - 1]);
      }
    }
  }

  lemma {:induction false} OutdatedMore(gens: seq<nat>, g: nat, gen: nat)
    ensures Outdated(gens + [g], gen) <==> if gens == [] then g < gen else Outdated(gens, gen) && g <= gens[0]
  {
    var all := gens + [g];
    assert all[|gens|] == g && (gens != [] ==> all[0] == gens[0]);
    if Outdated(all, gen) {
      forall i | 0 <= i < |gens| ensures gens[i] <= gens[0] { assert all[i] == gens[i]; }
    }
  }

  /** A key that has an entry when the snapshot begins never shows outdated data. */
  lemma {:induction false} KnownNeverOutdated(f: Fn, gen: nat, cells: seq<Option<Cell>>)
    requires forall i :: 0 <= i < |cells| ==>
      cells[i].Some? ==> |cells[i].value.data| == Size(f) && 1 <= cells[i].value.gen <= gen
    ensures var r := ReadAll(f, gen, Some(Cleared(f, gen)), cells); r.Some? && r.value.gen == gen
    decreases |cells|
  {
    hide Combine, Init;
    if cells != [] { KnownNeverOutdated(f, gen, cells[..|cells| - 1]); }
  }

  /** Data that was cleared before any snapshot saw it comes back: five is added, the
      aggregation is cleared, and the first snapshot shows five. */
  lemma {:induction false} ClearedComesBack(a: Key)
    ensures var fns := (id: nat) => Adds(1);
      var steps := [Update(0, a, [5]), Clear(a.id), Begin, Read(0, a, a)];
      && AllFit(fns, steps)
      && At(Reached(fns, steps).table, a) == Some(Cell(1, [5]))
      && Sequential(steps, [(0, a)], a.id) == []
  {
    var fns := (id: nat) => Adds(1);
    var u, c, b, r := Update(0, a, [5]), Clear(a.id), Begin, Read(0, a, a);
    var e0: seq<Step> := [];
    var e1, e2, e3, e4 := [u], [u, c], [u, c, b], [u, c, b, r];
    assert e1 == e0 + [u] && e2 == e1 + [c] && e3 == e2 + [b] && e4 == e3 + [r];
    assert Combine(Adds(1), Init(Adds(1)), [5]) == [5];
    assert Reached(fns, e0) == Initial;
    hide Next, Reached, Sequential;
    OneMore(fns, e0, u, [(0, a)], a);
    OneMore(fns, e1, c, [(0, a)], a);
    OneMore(fns, e2, b, [(0, a)], a);
    OneMore(fns, e3, r, [(0, a)], a);
    NextOf(fns, Initial, u, 0, a);
    NextOf(fns, Reached(fns, e1), c, 0, a);
    NextOf(fns, Reached(fns, e2), b, 0, a);
    NextOf(fns, Reached(fns, e3), r, 0, a);
  }

  lemma {:induction false} OneMore(fns: nat -> Fn, steps: seq<Step>, t: Step, cells: seq<Place>, a: Key)
    requires AllFit(fns, steps) && StepFits(fns, t)
    ensures AllFit(fns, steps + [t]) && Reached(fns, steps + [t]) == Next(fns, Reached(fns, steps), t)
    ensures t == Clear(a.id) ==> Sequential(steps + [t], cells, a.id) == []
    ensures !t.Update? && t != Clear(a.id) ==> Sequential(steps + [t], cells, a.id) == Sequential(steps, cells, a.id)
  {
    hide Next;
    var all := steps + [t];
    assert all[..|all| - 1] == steps;
  }

  // ----- the consumer -----

  /** Where steps lead from a state. */
  ghost function From(fns: nat -> Fn, s: System, steps: seq<Step>): (s': System)
    requires Fits(fns, s) && AllFit(fns, steps)
    ensures Fits(fns, s')
  {
    if steps == [] then s else Next(fns, From(fns, s, steps[..|steps| - 1]), steps[|steps| - 1])
  }

  lemma {:induction false} ReachedFrom(fns: nat -> Fn, before: seq<Step>, more: seq<Step>)
    requires AllFit(fns, before) && AllFit(fns, more)
    ensures AllFit(fns, before + more) && Reached(fns, before + more) == From(fns, Reached(fns, before), more)
    decreases |more|
  {
    hide Next;
    if more == [] {
      assert before + more == before;
    } else {
      var n := |more| - 1;
      ReachedFrom(fns, before, more[..n]);
      assert (before + more)[..|before + more| - 1] == before + more[..n];
    }
  }

  lemma {:induction false} FromNext(fns: nat -> Fn, s: System, steps: seq<Step>, t: Step)
    requires Fits(fns, s) && AllFit(fns, steps) && StepFits(fns, t)
    ensures AllFit(fns, steps + [t]) && From(fns, s, steps + [t]) == Next(fns, From(fns, s, steps), t)
  {
    hide Next;
    assert (steps + [t])[..|steps|] == steps;
  }

  lemma {:induction false} FromJoin(fns: nat -> Fn, s: System, a: seq<Step>, b: seq<Step>)
    requires Fits(fns, s) && AllFit(fns, a) && AllFit(fns, b)
    ensures AllFit(fns, a + b) && From(fns, s, a + b) == From(fns, From(fns, s, a), b)
    decreases |b|
  {
    hide Next;
    if b == [] {
      assert a + b == a;
    } else {
      var n := |b| - 1;
      FromJoin(fns, s, a, b[..n]);
      assert (a + b)[..|a + b| - 1] == a + b[..n];
    }
  }

  /** A snapshot changes neither the cells nor the generations. */
  lemma {:induction false} SnapKeeps(fns: nat -> Fn, s: System, snap: seq<Step>)
    requires Fits(fns, s) && AllFit(fns, snap) && forall i :: 0 <= i < |snap| ==> snap[i].Read? || snap[i].Begin?
    ensures From(fns, s, snap).cpus == s.cpus && From(fns, s, snap).gens == s.gens
    decreases |snap|
  {
    hide Merged;
    if snap != [] { SnapKeeps(fns, s, snap[..|snap| - 1]); }
  }

  /** The cells of one CPU's map, each read once for its reduced key. */
  ghost predicate CoversCpu(cpu: nat, keys: set<Key>, reduce: Reduction, snap: seq<Step>) {
    && (forall i :: 0 <= i < |snap| ==>
           snap[i].Read? && snap[i].cpu == cpu && snap[i].k == reduce(snap[i].a) && snap[i].a in keys)
    && (forall i, j :: 0 <= i < j < |snap| ==> snap[i].a != snap[j].a)
    && (forall a :: a in keys ==> Read(cpu, a, reduce(a)) in snap)
  }

  lemma {:induction false} CoversNone(cpu: nat, reduce: Reduction)
    ensures CoversCpu(cpu, {}, reduce, [])
  {
  }

  lemma {:induction false} CoversReads(cpu: nat, keys: set<Key>, reduce: Reduction, snap: seq<Step>)
    requires CoversCpu(cpu, keys, reduce, snap)
    ensures OnlyReads(snap)
  {
  }

  lemma {:induction false} CoversCpuMore(cpu: nat, keys: set<Key>, reduce: Reduction, snap: seq<Step>, a: Key)
    requires CoversCpu(cpu, keys, reduce, snap) && a !in keys
    ensures CoversCpu(cpu, keys + {a}, reduce, snap + [Read(cpu, a, reduce(a))])
  {
    var t := Read(cpu, a, reduce(a));
    var all := snap + [t];
    assert all[|snap|] == t;
    forall b | b in keys ensures Read(cpu, b, reduce(b)) in all {
      var i :| 0 <= i < |snap| && snap[i] == Read(cpu, b, reduce(b));
      assert all[i] == snap[i];
    }
  }

  /** dt_agg_one_agg: the data of a cell merged into that of an entry. */
  method Merge(f: Fn, dst: Data, src: Data) returns (d: Data)
    requires |dst| == |src| == Size(f)
    ensures d == Combine(f, dst, src)
  {
    d := dst;
    match f
    case Max => if Signed(src[0]) > Signed(dst[0]) { d := d[0 := src[0]]; assert d == src; }
    case Min => if Signed(src[0]) < Signed(dst[0]) { d := d[0 := src[0]]; assert d == src; }
    case Adds(n) =>
      var i := 0;
      while i < n
        invariant 0 <= i <= n && |d| == n
        invariant forall j :: 0 <= j < n ==> d[j] == if j < i then AddWord(dst[j], src[j]) else dst[j]
      {
        d := d[i := AddWord(d[i], src[i])];
        i := i + 1;
      }
  }

  /** The snapshot code: the hash table is a field that its methods update. */
  class Consumer {
    const fns: nat -> Fn
    var table: map<Key, Cell>

    constructor (fns: nat -> Fn)
      ensures this.fns == fns && table == map[]
    {
      this.fns, table := fns, map[];
    }

    ghost predicate Valid()
      reads this
    {
      forall k :: k in table ==> |table[k].data| == Size(fns(k.id))
    }

    /** dt_aggregate_snap_one: the key is reduced, and the entry of the reduced key made or
        updated; nothing for a cell without a generation. */
    method SnapOne(gens: nat -> nat, reduce: Reduction, a: Key, c: Cell)
      requires Valid() && Lawful(reduce) && |c.data| == Size(fns(a.id))
      modifies this
      ensures Valid()
      ensures At(table, reduce(a)) == Merged(fns(a.id), gens(a.id), At(old(table), reduce(a)), c)
      ensures forall k :: k != reduce(a) ==> At(table, k) == At(old(table), k)
    {
      if c.gen == 0 { return; }
      var k := reduce(a);
      if k !in table {
        table := table[k := c];
        return;
      }
      if c.gen > table[k].gen {
        table := table[k := Cell(gens(k.id), Init(fns(k.id)))];
      }
      if c.gen < table[k].gen { return; }
      var data := Merge(fns(k.id), table[k].data, c.data);
      table := table[k := table[k].(data := data)];
    }

    /** dtrace_aggregate_clear: every entry is reset. */
    method Clear(gens: nat -> nat)
      requires Valid()
      modifies this
      ensures Valid() && table.Keys == old(table).Keys
      ensures forall k :: k in table ==> table[k] == Cleared(fns(k.id), gens(k.id))
    {
      var todo := table.Keys;
      while todo != {}
        invariant Valid() && table.Keys == old(table).Keys && todo <= table.Keys
        invariant forall k :: k in table && k !in todo ==> table[k] == Cleared(fns(k.id), gens(k.id))
        decreases |todo|
      {
        var k :| k in todo;
        table := table[k := Cell(gens(k.id), Init(fns(k.id)))];
        todo := todo - {k};
      }
    }

    /** The cell of `a`, after those of `done`. */
    method SnapCell(gens: nat -> nat, reduce: Reduction, cpu: nat, a: Key, c: Cell, ghost s: System,
                    ghost done: set<Key>,
                    ghost snap: seq<Step>)
      requires Fits(fns, s) && Lawful(reduce) && At(s.cpus, (cpu, a)) == Some(c) && forall id :: gens(id) == Gen(s, id)
      requires a !in done && AllFit(fns, snap) && CoversCpu(cpu, done, reduce, snap)
      requires table == From(fns, s, snap).table
      modifies this
      ensures var snap' := snap + [Read(cpu, a, reduce(a))];
        AllFit(fns, snap') && CoversCpu(cpu, done + {a}, reduce, snap') && table == From(fns, s, snap').table
    {
      hide Merged, From, Gen, Next, CoversCpu;
      ghost var t := Read(cpu, a, reduce(a));
      CoversReads(cpu, done, reduce, snap);
      SnapKeeps(fns, s, snap);
      ghost var s1 := From(fns, s, snap);
      SameGens(s, s1);
      FromNext(fns, s, snap, t);
      ReadMeans(fns, s1, t);
      SnapOne(gens, reduce, a, c);
      SameTables(table, Next(fns, s1, t).table);
      CoversCpuMore(cpu, done, reduce, snap, a);
    }

    /** dt_aggregate_snap_cpu: every cell of one CPU's map, in whatever order. */
    method SnapCpu(gens: nat -> nat, reduce: Reduction, cpu: nat, cells: map<Key, Cell>, ghost s: System)
      returns (ghost snap: seq<Step>)
      requires Fits(fns, s) && Lawful(reduce) && table == s.table && forall id :: gens(id) == Gen(s, id)
      requires forall a :: At(cells, a) == At(s.cpus, (cpu, a))
      modifies this
      ensures CoversCpu(cpu, cells.Keys, reduce, snap) && AllFit(fns, snap)
      ensures table == From(fns, s, snap).table
    {
      hide Fits, AllFit, Lawful, From, Gen, CoversCpu;
      snap := [];
      FromNone(fns, s);
      CoversNone(cpu, reduce);
      var todo := cells.Keys;
      ghost var done: set<Key> := {};
      while todo != {}
        invariant todo + done == cells.Keys && todo !! done
        invariant AllFit(fns, snap) && CoversCpu(cpu, done, reduce, snap)
        invariant table == From(fns, s, snap).table
        decreases |todo|
      {
        var a :| a in todo;
        assert At(cells, a) == At(s.cpus, (cpu, a));
        SnapCell(gens, reduce, cpu, a, cells[a], s, done, snap);
        snap := snap + [Read(cpu, a, reduce(a))];
        todo := todo - {a};
        done := done + {a};
      }
      assert done == cells.Keys;
    }

    /** dtrace_aggregate_snap: clear, then read the CPUs one after the other.  Whatever has
        happened before, the entry of every reduced key then has the aggregate of the updates
        whose key reduces to it. */
    method Snapshot(gens: nat -> nat, reduce: Reduction, cpus: seq<map<Key, Cell>>, ghost before: seq<Step>)
      returns (ghost snap: seq<Step>)
      requires AllFit(fns, before) && Lawful(reduce)
      requires var s := Reached(fns, before);
        && table == s.table && (forall id :: gens(id) == Gen(s, id))
        && (forall p: Place :: At(s.cpus, p) == if p.0 < |cpus| then At(cpus[p.0], p.1) else None)
      modifies this
      ensures Covers(Reached(fns, before).cpus, reduce, snap)
      ensures AllFit(fns, before + [Begin] + snap) && table == Reached(fns, before + [Begin] + snap).table
      ensures forall k: Key ::
        && Sized(fns(k.id), Reduced(before, reduce, k))
        && EntryHolds(fns(k.id), Gen(Reached(fns, before), k.id), At(table, k), Reduced(before, reduce, k))
        && Shows(fns(k.id), Gen(Reached(fns, before), k.id), At(table, k), Reduced(before, reduce, k))
    {
      hide Merged, From, Gen, Next, Reached, EntryHolds, Shows, Reduced;
      ghost var s := Reached(fns, before);
      ghost var s1 := From(fns, s, [Begin]);
      ghost var begin: seq<Step> := [Begin];
      Clear(gens);
      BeginMeans(fns, s);
      SameTables(table, s1.table);
      snap := [];
      assert From(fns, s1, snap) == s1 by { FromNone(fns, s1); }
      var i := 0;
      while i < |cpus|
        invariant 0 <= i <= |cpus| && AllFit(fns, snap) && CoversTo(cpus, i, reduce, snap)
        invariant table == From(fns, s1, snap).table
      {
        SnapKeeps(fns, s1, snap);
        ghost var s2 := From(fns, s1, snap);
        assert forall a :: At(cpus[i], a) == At(s2.cpus, (i, a));
        assert forall id :: gens(id) == Gen(s2, id) by { SameGens(s, s2); }
        ghost var more := SnapCpu(gens, reduce, i, cpus[i], s2);
        FromJoin(fns, s1, snap, more);
        CoversMore(cpus, i, reduce, snap, more);
        snap := snap + more;
        i := i + 1;
      }
      CoversAll(s.cpus, cpus, reduce, snap);
      FromJoin(fns, s, begin, snap);
      ReachedFrom(fns, before, begin + snap);
      assert before + [Begin] + snap == before + (begin + snap);
      SnapKeeps(fns, s, begin + snap);
      forall k: Key ensures
        && Sized(fns(k.id), Reduced(before, reduce, k))
        && EntryHolds(fns(k.id), Gen(s, k.id), At(table, k), Reduced(before, reduce, k))
        && Shows(fns(k.id), Gen(s, k.id), At(table, k), Reduced(before, reduce, k))
      {
        SnapshotShows(fns, before, reduce, snap, k);
        assert Gen(Reached(fns, before + [Begin] + snap), k.id) == Gen(s, k.id) by {
          SameGens(s, Reached(fns, before + [Begin] + snap));
        }
      }
    }
  }

  lemma {:induction false} FromNone(fns: nat -> Fn, s: System)
    requires Fits(fns, s)
    ensures AllFit(fns, []) && From(fns, s, []) == s
  {
  }

  lemma {:induction false} SameGens(s: System, s': System)
    requires s.gens == s'.gens
    ensures forall id :: Gen(s, id) == Gen(s', id)
  {
  }

  lemma {:induction false} SameTables(a: map<Key, Cell>, b: map<Key, Cell>)
    requires forall k :: At(a, k) == At(b, k)
    ensures a == b
  {
    assert forall k :: k in a <==> k in b by {
      forall k ensures k in a <==> k in b { assert At(a, k) == At(b, k); }
    }
    forall k | k in a ensures a[k] == b[k] { assert At(a, k) == At(b, k); }
  }

  lemma {:induction false} ReadMeans(fns: nat -> Fn, s: System, t: Step)
    requires Fits(fns, s) && StepFits(fns, t) && t.Read? && (t.cpu, t.a) in s.cpus
    ensures var s' := Next(fns, s, t);
      && |s.cpus[(t.cpu, t.a)].data| == Size(fns(t.a.id))
      && At(s'.table, t.k) == Merged(fns(t.a.id), Gen(s, t.a.id), At(s.table, t.k), s.cpus[(t.cpu, t.a)])
      && forall k :: k != t.k ==> At(s'.table, k) == At(s.table, k)
  {
    hide Merged, Gen;
    MergedKeeps(fns(t.k.id), Gen(s, t.k.id), At(s.table, t.k), s.cpus[(t.cpu, t.a)]);
  }

  lemma {:induction false} BeginMeans(fns: nat -> Fn, s: System)
    requires Fits(fns, s)
    ensures AllFit(fns, [Begin])
    ensures var s' := From(fns, s, [Begin]);
      && s'.cpus == s.cpus && s'.gens == s.gens && s'.table.Keys == s.table.Keys
      && forall k :: k in s'.table ==> s'.table[k] == Cleared(fns(k.id), Gen(s, k.id))
  {
    FromNone(fns, s);
    var none: seq<Step> := [];
    assert none + [Begin] == [Begin];
    FromNext(fns, s, none, Begin);
  }

  /** The cells of the first `n` CPUs, each read once. */
  ghost predicate CoversTo(cpus: seq<map<Key, Cell>>, n: nat, reduce: Reduction, snap: seq<Step>)
    requires n <= |cpus|
  {
    && (forall i :: 0 <= i < |snap| ==>
          snap[i].Read? && snap[i].cpu < n && snap[i].k == reduce(snap[i].a) && snap[i].a in cpus[snap[i].cpu])
    && (forall i, j :: 0 <= i < j < |snap| ==> (snap[i].cpu, snap[i].a) != (snap[j].cpu, snap[j].a))
    && (forall c, a :: 0 <= c < n && a in cpus[c] ==> Read(c, a, reduce(a)) in snap)
  }

  lemma {:induction false} CoversMore(cpus: seq<map<Key, Cell>>, n: nat, reduce: Reduction, snap: seq<Step>,
                                      more: seq<Step>)
    requires n < |cpus| && CoversTo(cpus, n, reduce, snap) && CoversCpu(n, cpus[n].Keys, reduce, more)
    ensures CoversTo(cpus, n + 1, reduce, snap + more)
  {
    var all := snap + more;
    forall i | 0 <= i < |all|
      ensures all[i].Read? && all[i].cpu < n + 1 && all[i].k == reduce(all[i].a) && all[i].a in cpus[all[i].cpu]
    {
      if i >= |snap| { assert all[i] == more[i - |snap|]; }
    }
    forall i, j | 0 <= i < j < |all| ensures (all[i].cpu, all[i].a) != (all[j].cpu, all[j].a) {
      if i >= |snap| {
        assert all[i] == more[i - |snap|] && all[j] == more[j - |snap|];
      } else if j >= |snap| {
        assert all[j] == more[j - |snap|];
      }
    }
    forall c, a | 0 <= c < n + 1 && a in cpus[c] ensures Read(c, a, reduce(a)) in all {
      if c == n {
        var i :| 0 <= i < |more| && more[i] == Read(c, a, reduce(a));
        assert all[|snap| + i] == more[i];
      } else {
        var i :| 0 <= i < |snap| && snap[i] == Read(c, a, reduce(a));
        assert all[i] == snap[i];
      }
    }
  }

  lemma {:induction false} CoversAll(cells: map<Place, Cell>, cpus: seq<map<Key, Cell>>, reduce: Reduction,
                                     snap: seq<Step>)
    requires forall p: Place :: At(cells, p) == if p.0 < |cpus| then At(cpus[p.0], p.1) else None
    requires CoversTo(cpus, |cpus|, reduce, snap)
    ensures Covers(cells, reduce, snap)
  {
    forall p | p in cells ensures Read(p.0, p.1, reduce(p.1)) in snap {
      assert At(cells, p) == if p.0 < |cpus| then At(cpus[p.0], p.1) else None;
    }
  }

  // ----- the entry of a reduced key, cell by cell -----

  function CellsAt(cells: map<Place, Cell>, places: seq<Place>): (r: seq<Option<Cell>>)
    ensures |r| == |places| && forall i :: 0 <= i < |r| ==> r[i] == At(cells, places[i])
  {
    seq(|places|, i requires 0 <= i < |places| => At(cells, places[i]))
  }

  /** The entry after a snapshot is what the cells read for it make of it, in the order of
      reading; so the lemmas above say when it is outdated. */
  lemma {:induction false} EntryIs(fns: nat -> Fn, s: System, snap: seq<Step>, k: Key)
    requires Fits(fns, s) && AllFit(fns, snap) && OnlyReads(snap)
    ensures AllFit(fns, [Begin] + snap)
    ensures var cells := CellsAt(s.cpus, ReadFor(snap, k));
      && (forall i :: 0 <= i < |cells| ==> cells[i].Some? ==> |cells[i].value.data| == Size(fns(k.id)))
      && At(From(fns, s, [Begin] + snap).table, k) ==
         ReadAll(fns(k.id), Gen(s, k.id), if k in s.table then Some(Cleared(fns(k.id), Gen(s, k.id))) else None, cells)
    decreases |snap|
  {
    hide Merged, Next, Gen, From, ReadAll, ReadFor;
    CellsSized(fns, s, snap, k);
    if snap == [] {
      assert [Begin] + snap == [Begin];
      BeginMeans(fns, s);
      NoneRead(k);
      ReadNone(fns(k.id), Gen(s, k.id), if k in s.table then Some(Cleared(fns(k.id), Gen(s, k.id))) else None);
    } else {
      var n := |snap| - 1;
      var t := snap[n];
      assert StepFits(fns, t);
      EntryIs(fns, s, snap[..n], k);
      assert [Begin] + snap == [Begin] + snap[..n] + [t];
      SnapKeeps(fns, s, [Begin] + snap[..n]);
      var s1 := From(fns, s, [Begin] + snap[..n]);
      FromNext(fns, s, [Begin] + snap[..n], t);
      SameGens(s, s1);
      EntryNext(fns, s1, t, k);
      CellsSized(fns, s, snap[..n], k);
      ReadNext(fns, s, snap, k, if k in s.table then Some(Cleared(fns(k.id), Gen(s, k.id))) else None);
    }
  }

  lemma {:induction false} NoneRead(k: Key)
    ensures ReadFor([], k) == []
  {
  }

  lemma {:induction false} ReadNone(f: Fn, gen: nat, h: Option<Cell>)
    requires h.Some? ==> |h.value.data| == Size(f)
    ensures ReadAll(f, gen, h, []) == h
  {
  }

  lemma {:induction false} CellsSized(fns: nat -> Fn, s: System, snap: seq<Step>, k: Key)
    requires Fits(fns, s) && AllFit(fns, snap)
    ensures var cells := CellsAt(s.cpus, ReadFor(snap, k));
      forall i :: 0 <= i < |cells| ==> cells[i].Some? ==> |cells[i].value.data| == Size(fns(k.id))
  {
    var places := ReadFor(snap, k);
    var cells := CellsAt(s.cpus, places);
    ReadBelong(fns, snap, k);
    forall i | 0 <= i < |cells| && cells[i].Some? ensures |cells[i].value.data| == Size(fns(k.id)) {
      assert cells[i] == At(s.cpus, places[i]);
    }
  }

  lemma {:induction false} ReadNext(fns: nat -> Fn, s: System, snap: seq<Step>, k: Key, h: Option<Cell>)
    requires Fits(fns, s) && AllFit(fns, snap) && snap != [] && snap[|snap| - 1].Read?
    requires h.Some? ==> |h.value.data| == Size(fns(k.id))
    requires var cells := CellsAt(s.cpus, ReadFor(snap, k));
      forall i :: 0 <= i < |cells| ==> cells[i].Some? ==> |cells[i].value.data| == Size(fns(k.id))
    requires var cells := CellsAt(s.cpus, ReadFor(snap[..|snap| - 1], k));
      forall i :: 0 <= i < |cells| ==> cells[i].Some? ==> |cells[i].value.data| == Size(fns(k.id))
    ensures var t := snap[|snap| - 1];
      var f, gen := fns(k.id), Gen(s, k.id);
      var r := ReadAll(f, gen, h, CellsAt(s.cpus, ReadFor(snap[..|snap| - 1], k)));
      ReadAll(f, gen, h, CellsAt(s.cpus, ReadFor(snap, k))) ==
      if t.k == k && (t.cpu, t.a) in s.cpus
      then assert StepFits(fns, t); Merged(f, gen, r, s.cpus[(t.cpu, t.a)]) else r
  {
    hide Merged, Gen;
    var n := |snap| - 1;
    var places := ReadFor(snap, k);
    var cells := CellsAt(s.cpus, places);
    if snap[n].k == k {
      assert places[..|places| - 1] == ReadFor(snap[..n], k);
      assert cells[..|cells| - 1] == CellsAt(s.cpus, ReadFor(snap[..n], k));
      assert cells[|cells| - 1] == At(s.cpus, places[|places| - 1]);
    } else {
      assert places == ReadFor(snap[..n], k);
    }
  }

  lemma {:induction false} EntryNext(fns: nat -> Fn, s: System, t: Step, k: Key)
    requires Fits(fns, s) && StepFits(fns, t) && t.Read?
    ensures At(Next(fns, s, t).table, k) ==
      if t.k == k && (t.cpu, t.a) in s.cpus then Merged(fns(k.id), Gen(s, k.id), At(s.table, k), s.cpus[(t.cpu, t.a)])
      else At(s.table, k)
  {
    hide Merged, Gen, Next;
    NextOf(fns, s, t, 0, k);
  }

  /** After any run, a snapshot leaves an outdated entry behind for a reduced key exactly if it
      had no entry for it and all cells read for it are outdated, none being newer than the
      first. */
  lemma {:induction false} SnapshotOutdated(fns: nat -> Fn, before: seq<Step>, snap: seq<Step>, k: Key)
    requires AllFit(fns, before) && AllFit(fns, snap) && OnlyReads(snap)
    ensures AllFit(fns, before + ([Begin] + snap))
    ensures var s := Reached(fns, before);
      var h := At(Reached(fns, before + ([Begin] + snap)).table, k);
      var gens := Gens(CellsAt(s.cpus, ReadFor(snap, k)));
      && (h.Some? <==> k in s.table || gens != [])
      && (h.Some? ==> h.value.gen == if k !in s.table && Outdated(gens, Gen(s, k.id)) then gens[0] else Gen(s, k.id))
  {
    hide Reached, From, Gen, ReadAll, Gens, Outdated, ReadFor;
    var s := Reached(fns, before);
    EntryIs(fns, s, snap, k);
    ReachedFrom(fns, before, [Begin] + snap);
    var places := ReadFor(snap, k);
    var cells := CellsAt(s.cpus, places);
    ReadBelong(fns, snap, k);
    forall i | 0 <= i < |cells| && cells[i].Some?
      ensures |cells[i].value.data| == Size(fns(k.id)) && 1 <= cells[i].value.gen <= Gen(s, k.id)
    {
      CellsHold(fns, before, places[i].0, places[i].1);
    }
    OutdatedExactly(fns(k.id), Gen(s, k.id), cells);
    KnownNeverOutdated(fns(k.id), Gen(s, k.id), cells);
  }
}
