/**
 Reading back the file of a probe (the loop over the files of a process in
 dt_pid_create_usdt_probes_proc(), libdtrace/dt_pid.c): what comes out is what the notes
 of the program had said.
 */
module ProbeFile {
  import opened Basics
  import opened Usdt

  /** A tracepoint as it is handed to the provider. */
  datatype Tracepoint = Tracepoint(spec: Spec, addr: nat, enabled: bool, sargs: string, nargc: nat, nargs: string,
      xargc: nat, xargs: string, xmap: seq<nat>)

  /** Item `i` is a record; beyond the end there is none. */
  predicate IsRecord(items: seq<Item>, i: nat) {
    i < |items| && items[i].Record?
  }

  /** The first three items are a version that is known, a provider and a probe. */
  predicate Begins(items: seq<Item>) {
    && |items| >= 3 && items[0] == Version(DOF_PARSED_VERSION)
    && IsRecord(items, 1) && items[1].r.ProviderRec? && IsRecord(items, 2) && items[2].r.ProbeRec?
  }

  /** Where the translated arguments and the tracepoints are, by the counts of the probe. */
  function XlatAt(items: seq<Item>): nat
    requires Begins(items)
  {
    if items[2].r.nargc > 0 then 4 else 3
  }

  function FirstTp(items: seq<Item>): nat
    requires Begins(items)
  {
    XlatAt(items) + if items[2].r.xargc > 0 then 2 else 0
  }

  /** The records are those that the counts announce. */
  predicate Announced(items: seq<Item>)
    requires Begins(items)
  {
    var x, t := XlatAt(items), FirstTp(items);
    && (items[2].r.nargc > 0 ==> IsRecord(items, 3) && items[3].r.NativeRec?)
    && (items[2].r.xargc > 0 ==>
          IsRecord(items, x) && items[x].r.XlatRec? && IsRecord(items, x + 1) && items[x + 1].r.MapRec?)
    && (forall j :: 0 <= j < items[2].r.ntp ==> IsTracepoint(items, t, j))
  }

  predicate IsTracepoint(items: seq<Item>, t: nat, j: nat) {
    IsRecord(items, t + j) && items[t + j].r.TracepointRec?
  }

  function TracepointAt(items: seq<Item>, j: nat): Tracepoint
    requires Begins(items) && Announced(items) && j < items[2].r.ntp
  {
    var head, x := items[2].r, XlatAt(items);
    assert IsTracepoint(items, FirstTp(items), j);
    var tp := items[FirstTp(items) + j].r;
    Tracepoint(Spec(items[1].r.name, head.mod, head.fun, head.prb), tp.addr, tp.enabled, tp.args,
               head.nargc, if head.nargc > 0 then items[3].r.args else "",
               head.xargc, if head.xargc > 0 then items[x].r.args else "",
               if head.xargc > 0 then items[x + 1].r.m else [])
  }

  /** One round of the loop over files: all tracepoints of the probe, or none if a record is
      not the one expected. */
  method Load(items: seq<Item>) returns (r: Option<seq<Tracepoint>>)
    ensures r.Some? <==> Begins(items) && Announced(items)
    ensures r.Some? ==> |r.value| == items[2].r.ntp
    ensures r.Some? ==> forall j :: 0 <= j < |r.value| ==> r.value[j] == TracepointAt(items, j)
  {
    if |items| < 3 || items[0] != Version(DOF_PARSED_VERSION) { return None; }
    if !items[1].Record? || !items[1].r.ProviderRec? { return None; }
    if !items[2].Record? || !items[2].r.ProbeRec? { return None; }
    var head, p := items[2].r, 3;
    var spec := Spec(items[1].r.name, head.mod, head.fun, head.prb);
    var nargs, xargs, xmap := "", "", [];
    if head.nargc > 0 {
      if !IsRecord(items, p) || !items[p].r.NativeRec? { return None; }
      nargs := items[p].r.args;
      p := p + 1;
    }
    if head.xargc > 0 {
      if !IsRecord(items, p) || !items[p].r.XlatRec? { return None; }
      xargs := items[p].r.args;
      p := p + 1;
      if !IsRecord(items, p) || !items[p].r.MapRec? { return None; }
      xmap := items[p].r.m;
      p := p + 1;
    }
    ghost var t := FirstTp(items);
    assert p == t;
    var tps: seq<Tracepoint> := [];
    var j := 0;
    while j < head.ntp
      invariant 0 <= j <= head.ntp && p == t + j && |tps| == j
      invariant forall i :: 0 <= i < j ==>
        && IsTracepoint(items, t, i)
        && var tp := items[t + i].r;
           tps[i] == Tracepoint(spec, tp.addr, tp.enabled, tp.args, head.nargc, nargs, head.xargc, xargs, xmap)
    {
      if !IsRecord(items, p) || !items[p].r.TracepointRec? {
        assert !IsTracepoint(items, t, j);
        return None;
      }
      var tp := items[p].r;
      tps := tps +
        [Tracepoint(spec, tp.addr, tp.enabled, tp.args, head.nargc, nargs, head.xargc, xargs, xmap)];
      p := p + 1;
      j := j + 1;
    }
    r := Some(tps);
  }

  /** A tracepoint is that of note `n` of a probe with these names and arguments, in a program
      that is loaded at `base`. */
  predicate Tells(t: Tracepoint, spec: Spec, base: nat, args: Args, n: Note) {
    && t.spec == spec && t.addr - base == n.off && t.enabled == n.enabled && t.sargs == n.sargs
    && t.nargc == args.nargc && (args.nargc > 0 ==> t.nargs == args.nargs)
    && t.xargc == args.xargc && (args.xargc > 0 ==> t.xargs == args.xargs && t.xmap == args.xmap)
  }

  /** A file is read as the notes of a probe, one after the other. */
  ghost predicate ReadAs(base: nat, spec: Spec, args: Args, notes: seq<Note>, items: seq<Item>) {
    && Begins(items) && Announced(items) && items[2].r.ntp == |notes|
    && forall j :: 0 <= j < |notes| ==> Tells(TracepointAt(items, j), spec, base, args, notes[j])
  }

  /** Translated arguments are written only with native ones, and expected without. */
  predicate Readable(args: Args) {
    args.xargc > 0 ==> args.nargc > 0
  }

  lemma {:induction false} TpAt(base: nat, tps: seq<Note>, i: nat)
    requires i < |tps|
    ensures |TpRecs(base, tps)| == |tps|
    ensures TpRecs(base, tps)[i] == TracepointRec(tps[i].off + base, tps[i].enabled, tps[i].sargs)
  {
    TpsDetail(base, tps);
    if i > 0 { TpAt(base, tps[1..], i - 1); }
  }

  /** Where the records of a probe's file are. */
  lemma {:induction false} FileParts(base: nat, prov: Provider, p: Probe)
    ensures var f, a := FileOf(base, prov, p), ArgRecs(p.args);
      && Begins(f) && |f| == 3 + |a| + |p.tps|
      && f[1] == Record(ProviderRec(prov.name, prov.probec))
      && f[2] == Record(ProbeRec(p.mod, p.fun, p.prb, p.ntp, p.args.nargc, p.args.xargc))
      && (forall i :: 0 <= i < |a| ==> f[3 + i] == Record(a[i]))
  {
    hide Items, TpRecs;
    var f, a, s := FileOf(base, prov, p), ArgRecs(p.args), ArgRecs(p.args) + TpRecs(base, p.tps);
    TpsDetail(base, p.tps);
    ItemsSize(s);
    forall i | 0 <= i < |a| ensures f[3 + i] == Record(a[i]) { ItemAt(s, i); }
  }

  lemma {:induction false} FileTp(base: nat, prov: Provider, p: Probe, j: nat)
    requires j < |p.tps|
    ensures var f, k, n := FileOf(base, prov, p), 3 + |ArgRecs(p.args)| + j, p.tps[j];
      k < |f| && f[k] == Record(TracepointRec(n.off + base, n.enabled, n.sargs))
  {
    hide Items, TpRecs, ArgRecs;
    var s := ArgRecs(p.args) + TpRecs(base, p.tps);
    TpAt(base, p.tps, j);
    ItemAt(s, |ArgRecs(p.args)| + j);
  }

  /** The file of a probe is read as its notes, or not at all if it has translated arguments
      and no native ones. */
  lemma {:induction false} FileTells(base: nat, prov: Provider, p: Probe)
    requires p.tps != [] && p.ntp == |p.tps|
    ensures var f := FileOf(base, prov, p);
      if Readable(p.args) then ReadAs(base, SpecOf(prov.name, p), p.args, p.tps, f)
      else !(Begins(f) && Announced(f))
  {
    var f, a := FileOf(base, prov, p), ArgRecs(p.args);
    FileParts(base, prov, p);
    hide FileOf;
    if Readable(p.args) {
      assert FirstTp(f) == 3 + |a|;
      assert p.args.nargc > 0 ==> f[3] == Record(a[0]);
      assert p.args.xargc > 0 ==> f[3 + 1] == Record(a[1]) && f[3 + 2] == Record(a[2]);
      forall j | 0 <= j < p.ntp ensures IsTracepoint(f, FirstTp(f), j) { FileTp(base, prov, p, j); }
      forall j | 0 <= j < |p.tps| ensures Tells(TracepointAt(f, j), SpecOf(prov.name, p), base, p.args, p.tps[j]) {
        FileTp(base, prov, p, j);
      }
    } else {
      FileTp(base, prov, p, 0);
    }
  }

  lemma {:induction false} ItemsSize(s: seq<Rec>)
    ensures |Items(s)| == |s|
  {
  }

  lemma {:induction false} ItemAt(s: seq<Rec>, i: nat)
    requires i < |s|
    ensures |Items(s)| == |s| && Items(s)[i] == Record(s[i])
  {
  }
}
