/**
 USDT definitions on their way from notes in a program to one file per probe: the notes'
 tracepoints are grouped into probes and providers and printed as a stream of counted
 records (libcommon/usdt_parser_notes.c), which is read back (process_dof() in
 dtprobed/dtprobed.c) and written out probe by probe (dof_stash_write_parsed() in
 dtprobed/dof_stash.c).
 */
module Usdt {
  import opened Basics
  import opened HashValue
  import Word

  /** A usdt note: a tracepoint, with the number and the description of its arguments. */
  datatype Note = Note(prv: string, mod: string, fun: string, prb: string, off: Word.U32, enabled: bool, sargc: nat,
      sargs: string)

  /** The native and translated argument types of a probe. */
  datatype Args = Args(nargc: nat, nargs: string, xargc: nat, xargs: string, xmap: seq<nat>)

  /** A probe in a function, with its tracepoints; `ntp` is the count that is kept. */
  datatype Probe = Probe(mod: string, fun: string, prb: string, ntp: nat, args: Args, tps: seq<Note>)

  /** A provider: the probes it declares (without function), the probes in functions, and
      the count of these. */
  datatype Provider = Provider(name: string, decls: map<string, Args>, probes: seq<Probe>, probec: nat)

  // ----- grouping -----

  datatype Outcome<T> = Ok(value: T) | Failed

  /** The tracepoints of a list of probes, and of a list of providers. */
  function TpsOf(probes: seq<Probe>): seq<Note> {
    if probes == [] then [] else TpsOf(probes[..|probes| - 1]) + probes[|probes| - 1].tps
  }

  function AllTps(provs: seq<Provider>): seq<Note> {
    if provs == [] then [] else AllTps(provs[..|provs| - 1]) + TpsOf(provs[|provs| - 1].probes)
  }

  /** A probe's tracepoints all match it, and it has at least one; the counts are right. */
  ghost predicate GoodProbe(name: string, p: Probe) {
    && p.tps != [] && p.ntp == |p.tps|
    && forall i :: 0 <= i < |p.tps| ==> p.tps[i].prv == name && p.tps[i].fun == p.fun && p.tps[i].prb == p.prb
  }

  /** A probe has the arguments that the provider declares for its name. */
  predicate Declared(p: Provider, q: Probe) {
    q.prb in p.decls && q.args == p.decls[q.prb]
  }

  ghost predicate GoodProvider(p: Provider) {
    && p.probec == |p.probes|
    && forall i :: 0 <= i < |p.probes| ==> GoodProbe(p.name, p.probes[i]) && Declared(p, p.probes[i])
  }

  ghost predicate Good(provs: seq<Provider>) {
    forall i :: 0 <= i < |provs| ==> GoodProvider(provs[i])
  }

  /** dt_htab_lookup in prvmap: by name. */
  function FindProvider(provs: seq<Provider>, name: string): (r: nat)
    ensures r <= |provs|
    ensures r < |provs| ==> provs[r].name == name
    ensures forall i :: 0 <= i < r ==> provs[i].name != name
  {
    if provs == [] then 0
    else if provs[0].name == name then 0
    else 1 + FindProvider(provs[1..], name)
  }

  predicate Matches(n: Note, p: Probe) {
    p.fun == n.fun && p.prb == n.prb
  }

  /** prb_hval: the offset is part of the hash value. */
  function Hval(n: Note): Word.U32 {
    Str2Hval(n.prb, Str2Hval(n.fun, Str2Hval(n.mod, Str2Hval(n.prv, n.off))))
  }

  /** The hash value with which a probe in the note's function is looked up. */
  function Wanted(n: Note): Word.U32 {
    Hval(n.(off := 0))
  }

  /** The slots of a provider's table: every declared probe and every probe in a function has
      a bucket in it. */
  function Slots(p: Provider): nat {
    TableSize(|p.decls| + |p.probes|)
  }

  /** prb_cmp does not look at offsets then, but a probe is in the slot that the offset of
      its first tracepoint has led it to. */
  predicate Findable(size: nat, n: Note, q: Probe)
    requires size >= 1
  {
    q.tps != [] && Matches(n, q) && Hval(q.tps[0]) % size == Wanted(n) % size
  }

  /** The look-up of a probe in the note's function, among the first `i`. */
  function FindIn(probes: seq<Probe>, i: nat, size: nat, n: Note): (r: Option<nat>)
    requires i <= |probes| && size >= 1
    ensures r.Some? ==> r.value < i && Findable(size, n, probes[r.value])
    ensures r.None? ==> forall j :: 0 <= j < i ==> !Findable(size, n, probes[j])
  {
    if i == 0 then None
    else if Findable(size, n, probes[i - 1]) then Some(i - 1)
    else FindIn(probes, i - 1, size, n)
  }

  function FindProbe(p: Provider, n: Note): (r: Option<nat>)
    ensures r.Some? ==> r.value < |p.probes| && Findable(Slots(p), n, p.probes[r.value])
    ensures r.None? ==> forall j :: 0 <= j < |p.probes| ==> !Findable(Slots(p), n, p.probes[j])
  {
    FindIn(p.probes, |p.probes|, Slots(p), n)
  }

  /** A tracepoint goes into the chain of a probe behind its first one. */
  function Joined(p: Probe, n: Note): Probe
    requires p.tps != []
  {
    p.(ntp := p.ntp + 1, tps := [p.tps[0], n] + p.tps[1..])
  }

  predicate ArgsAgree(n: Note, args: Args) {
    n.sargc == args.nargc || (n.enabled && n.sargc == 1)
  }

  /** The provider declares the note's probe, with arguments that agree. */
  predicate Accepts(p: Provider, n: Note) {
    n.prb in p.decls && ArgsAgree(n, p.decls[n.prb])
  }

  /** The provider with the tracepoint in the probe that is found, or else in a new one. */
  function Added(p: Provider, n: Note): Provider
    requires n.prb in p.decls
  {
    var k := FindProbe(p, n);
    if k.Some? then p.(probes := p.probes[k.value := Joined(p.probes[k.value], n)])
    else p.(probes := p.probes + [Probe(n.mod, n.fun, n.prb, 1, p.decls[n.prb], [n])], probec := p.probec + 1)
  }

  /** One round of the loop over the tracepoints: the provider with the note added, or
      none if there is no such probe or its arguments do not agree. */
  method AddTracepoint(p: Provider, n: Note) returns (r: Outcome<Provider>)
    requires GoodProvider(p) && n.prv == p.name
    ensures r.Ok? <==> Accepts(p, n)
    ensures r.Ok? ==> r.value == Added(p, n) && GoodProvider(r.value)
    ensures r.Ok? ==> multiset(TpsOf(r.value.probes)) == multiset(TpsOf(p.probes)) + multiset{n}
  {
    hide Slots, Hval, GoodProbe, TpsOf;
    var k := FindProbe(p, n);
    if k.Some? {
      var q := p.probes[k.value];
      assert GoodProbe(p.name, q) && Declared(p, q);
      if n.sargc != q.args.nargc && !(n.enabled && n.sargc == 1) { return Failed; }
      AddedJoined(p, n, k.value);
      r := Ok(p.(probes := p.probes[k.value := Joined(q, n)]));
    } else {
      if n.prb !in p.decls { return Failed; }
      var args := p.decls[n.prb];
      if n.sargc != args.nargc && !(n.enabled && n.sargc == 1) { return Failed; }
      AddedNew(p, n);
      r := Ok(p.(probes := p.probes + [Probe(n.mod, n.fun, n.prb, 1, args, [n])], probec := p.probec + 1));
    }
  }

  lemma {:induction false} AddedJoined(p: Provider, n: Note, k: nat)
    requires GoodProvider(p) && n.prv == p.name && k < |p.probes| && Matches(n, p.probes[k])
    ensures p.probes[k].tps != []
    ensures var q := p.(probes := p.probes[k := Joined(p.probes[k], n)]);
      GoodProvider(q) && multiset(TpsOf(q.probes)) == multiset(TpsOf(p.probes)) + multiset{n}
  {
    hide TpsOf;
    var q := p.probes[k];
    assert GoodProbe(p.name, q) && Declared(p, q);
    JoinedGood(p.name, q, n);
    TpsReplace(p.probes, k, Joined(q, n), n);
  }

  lemma {:induction false} AddedNew(p: Provider, n: Note)
    requires GoodProvider(p) && n.prv == p.name && n.prb in p.decls
    ensures var q := Probe(n.mod, n.fun, n.prb, 1, p.decls[n.prb], [n]);
      var p' := p.(probes := p.probes + [q], probec := p.probec + 1);
      GoodProvider(p') && multiset(TpsOf(p'.probes)) == multiset(TpsOf(p.probes)) + multiset{n}
  {
    var q := Probe(n.mod, n.fun, n.prb, 1, p.decls[n.prb], [n]);
    assert GoodProbe(p.name, q);
    assert (p.probes + [q])[..|p.probes|] == p.probes;
  }

  lemma {:induction false} JoinedGood(name: string, p: Probe, n: Note)
    requires GoodProbe(name, p) && n.prv == name && Matches(n, p)
    ensures GoodProbe(name, Joined(p, n)) && multiset(Joined(p, n).tps) == multiset(p.tps) + multiset{n}
  {
    var t := Joined(p, n).tps;
    assert p.tps == [p.tps[0]] + p.tps[1..];
    forall i | 0 <= i < |t| ensures t[i].prv == name && t[i].fun == p.fun && t[i].prb == p.prb {
      if i > 1 { assert t[i] == p.tps[i - 1]; }
    }
  }

  lemma {:induction false} TpsJoin(a: seq<Probe>, b: seq<Probe>)
    ensures TpsOf(a + b) == TpsOf(a) + TpsOf(b)
    decreases |b|
  {
    if b == [] {
      assert a + b == a;
    } else {
      assert (a + b)[..|a + b| - 1] == a + b[..|b| - 1];
      TpsJoin(a, b[..|b| - 1]);
    }
  }

  lemma {:induction false} TpsOne(p: Probe)
    ensures TpsOf([p]) == p.tps
  {
    assert [p][..0] == [];
  }

  lemma {:induction false} TpsReplace(probes: seq<Probe>, k: nat, q: Probe, n: Note)
    requires k < |probes| && multiset(q.tps) == multiset(probes[k].tps) + multiset{n}
    ensures multiset(TpsOf(probes[k := q])) == multiset(TpsOf(probes)) + multiset{n}
  {
    var a, c := probes[..k], probes[k + 1..];
    assert probes == a + ([probes[k]] + c) && probes[k := q] == a + ([q] + c);
    TpsJoin(a, [probes[k]] + c);
    TpsJoin([probes[k]], c);
    TpsJoin(a, [q] + c);
    TpsJoin([q], c);
    TpsOne(q);
    TpsOne(probes[k]);
  }

  lemma {:induction false} AllJoin(a: seq<Provider>, b: seq<Provider>)
    ensures AllTps(a + b) == AllTps(a) + AllTps(b)
    decreases |b|
  {
    hide TpsOf;
    if b == [] {
      assert a + b == a;
      assert AllTps(a) + [] == AllTps(a);
    } else {
      var last := TpsOf(b[|b| - 1].probes);
      assert (a + b)[..|a + b| - 1] == a + b[..|b| - 1] && (a + b)[|a + b| - 1] == b[|b| - 1];
      AllJoin(a, b[..|b| - 1]);
      assert AllTps(a + b) == AllTps(a) + AllTps(b[..|b| - 1]) + last;
      assert AllTps(a) + AllTps(b[..|b| - 1]) + last == AllTps(a) + (AllTps(b[..|b| - 1]) + last);
    }
  }

  lemma {:induction false} AllReplace(provs: seq<Provider>, k: nat, q: Provider, n: Note)
    requires k < |provs| && multiset(TpsOf(q.probes)) == multiset(TpsOf(provs[k].probes)) + multiset{n}
    ensures multiset(AllTps(provs[k := q])) == multiset(AllTps(provs)) + multiset{n}
  {
    hide TpsOf, AllTps;
    var a, c := provs[..k], provs[k + 1..];
    assert provs == a + ([provs[k]] + c) && provs[k := q] == a + ([q] + c);
    AllJoin(a, [provs[k]] + c);
    AllJoin([provs[k]], c);
    AllJoin(a, [q] + c);
    AllJoin([q], c);
    AllOne(q);
    AllOne(provs[k]);
  }

  lemma {:induction false} AllOne(p: Provider)
    ensures AllTps([p]) == TpsOf(p.probes)
  {
    assert [p][..0] == [];
  }

  predicate Known(provs: seq<Provider>, n: Note) {
    var k := FindProvider(provs, n.prv);
    k < |provs| && Accepts(provs[k], n)
  }

  /** Providers with the same names and declarations. */
  ghost predicate Alike(provs: seq<Provider>, provs': seq<Provider>) {
    && |provs| == |provs'|
    && forall i :: 0 <= i < |provs| ==> provs[i].name == provs'[i].name && provs[i].decls == provs'[i].decls
  }

  lemma {:induction false} FoundAlike(provs: seq<Provider>, provs': seq<Provider>, n: Note)
    requires Alike(provs, provs')
    ensures FindProvider(provs, n.prv) == FindProvider(provs', n.prv) && Known(provs, n) == Known(provs', n)
  {
    var k, k' := FindProvider(provs, n.prv), FindProvider(provs', n.prv);
    assert k < |provs| ==> provs'[k].name == n.prv;
    assert k' < |provs| ==> provs[k'].name == n.prv;
  }

  /** The notes that go to provider `k`, in their order. */
  function Part(provs: seq<Provider>, notes: seq<Note>, k: nat): seq<Note> {
    if notes == [] then []
    else
      var n := |notes| - 1;
      Part(provs, notes[..n], k) + if FindProvider(provs, notes[n].prv) == k then [notes[n]] else []
  }

  /** A provider after some notes, all of which it accepts. */
  function AddAll(p: Provider, notes: seq<Note>): Provider {
    if notes == [] then p
    else
      var n := |notes| - 1;
      var q := AddAll(p, notes[..n]);
      if notes[n].prb in q.decls then Added(q, notes[n]) else q
  }

  /** All providers after all notes. */
  ghost predicate AreGrouped(provs0: seq<Provider>, notes: seq<Note>, provs: seq<Provider>) {
    |provs| == |provs0| && forall k :: 0 <= k < |provs0| ==> provs[k] == AddAll(provs0[k], Part(provs0, notes, k))
  }

  lemma {:induction false} AddAllAlike(p: Provider, notes: seq<Note>)
    ensures AddAll(p, notes).name == p.name && AddAll(p, notes).decls == p.decls
  {
    hide Slots, Hval;
    if notes != [] { AddAllAlike(p, notes[..|notes| - 1]); }
  }

  lemma {:induction false} GroupedAlike(provs0: seq<Provider>, notes: seq<Note>, provs: seq<Provider>)
    requires AreGrouped(provs0, notes, provs)
    ensures Alike(provs0, provs)
  {
    hide AddAll, Part;
    forall k | 0 <= k < |provs0| ensures provs0[k].name == provs[k].name && provs0[k].decls == provs[k].decls {
      AddAllAlike(provs0[k], Part(provs0, notes, k));
    }
  }

  lemma {:induction false} GroupedMore(provs0: seq<Provider>, notes: seq<Note>, n: Note, provs: seq<Provider>, k: nat)
    requires AreGrouped(provs0, notes, provs) && k == FindProvider(provs0, n.prv) < |provs| && n.prb in provs[k].decls
    ensures AreGrouped(provs0, notes + [n], provs[k := Added(provs[k], n)])
  {
    hide Added, FindProvider;
    var all := notes + [n];
    assert all[..|notes|] == notes && all[|notes|] == n;
    forall i | 0 <= i < |provs0|
      ensures provs[k := Added(provs[k], n)][i] == AddAll(provs0[i], Part(provs0, all, i))
    {
      var part := Part(provs0, notes, i);
      if i == k {
        assert (part + [n])[..|part|] == part && (part + [n])[|part|] == n;
      } else {
        assert part + [] == part;
      }
    }
  }

  /** The loop over all tracepoints, in whatever order they are met: it succeeds exactly if
      every note is for a declared probe with agreeing arguments; then every note is one
      tracepoint of one probe, and the counts are the numbers they stand for. */
  method GroupNotes(provs0: seq<Provider>, notes: seq<Note>) returns (r: Outcome<seq<Provider>>)
    requires Good(provs0)
    ensures r.Ok? <==> forall i :: 0 <= i < |notes| ==> Known(provs0, notes[i])
    ensures r.Ok? ==> Good(r.value) && AreGrouped(provs0, notes, r.value)
    ensures r.Ok? ==> multiset(AllTps(r.value)) == multiset(AllTps(provs0)) + multiset(notes)
  {
    hide AllTps, GoodProvider, TpsOf, Accepts, AddAll, Part, Added, AreGrouped;
    var provs := provs0;
    var i := 0;
    GroupedNone(provs0);
    while i < |notes|
      invariant 0 <= i <= |notes| && Good(provs) && AreGrouped(provs0, notes[..i], provs)
      invariant forall j :: 0 <= j < i ==> Known(provs0, notes[j])
      invariant multiset(AllTps(provs)) == multiset(AllTps(provs0)) + multiset(notes[..i])
    {
      var n := notes[i];
      GroupedAlike(provs0, notes[..i], provs);
      FoundAlike(provs0, provs, n);
      var k := FindProvider(provs, n.prv);
      if k == |provs| { return Failed; }
      assert GoodProvider(provs[k]);
      var q := AddTracepoint(provs[k], n);
      if q.Failed? { return Failed; }
      AllReplace(provs, k, q.value, n);
      GoodReplaced(provs, k, q.value);
      assert n.prb in provs[k].decls by { AcceptsDeclared(provs[k], n); }
      GroupedMore(provs0, notes[..i], n, provs, k);
      assert notes[..i + 1] == notes[..i] + [n];
      provs := provs[k := q.value];
      OneMore(notes, i);
      i := i + 1;
    }
    assert notes[..i] == notes;
    r := Ok(provs);
  }

  lemma {:induction false} GroupedNone(provs: seq<Provider>)
    ensures AreGrouped(provs, [], provs)
  {
  }

  lemma {:induction false} AcceptsDeclared(p: Provider, n: Note)
    requires Accepts(p, n)
    ensures n.prb in p.decls
  {
  }

  lemma {:induction false} OneMore(notes: seq<Note>, i: nat)
    requires i < |notes|
    ensures multiset(notes[..i + 1]) == multiset(notes[..i]) + multiset{notes[i]}
  {
    assert notes[..i + 1] == notes[..i] + [notes[i]];
  }

  lemma {:induction false} GoodReplaced(provs: seq<Provider>, k: nat, q: Provider)
    requires Good(provs) && k < |provs| && GoodProvider(q)
    ensures Good(provs[k := q])
  {
  }

  // ----- the stream of records -----

  datatype Rec =
    | ProviderRec(name: string, nprobes: nat)
    | ProbeRec(mod: string, fun: string, prb: string, ntp: nat, nargc: nat, xargc: nat)
    | NativeRec(args: string)
    | XlatRec(args: string)
    | MapRec(m: seq<nat>)
    | TracepointRec(addr: nat, enabled: bool, args: string)
    | EofRec
    | ErrRec

  /** The records between a probe and its tracepoints. */
  function ArgRecs(a: Args): seq<Rec> {
    if a.nargc == 0 then []
    else [NativeRec(a.nargs)] + if a.xargc == 0 then [] else [XlatRec(a.xargs), MapRec(a.xmap)]
  }

  function TpRec(base: nat, n: Note): Rec {
    TracepointRec(n.off + base, n.enabled, n.sargs)
  }

  function TpRecs(base: nat, tps: seq<Note>): seq<Rec> {
    if tps == [] then [] else [TpRec(base, tps[0])] + TpRecs(base, tps[1..])
  }

  function HeadOf(p: Probe): Rec {
    ProbeRec(p.mod, p.fun, p.prb, p.ntp, p.args.nargc, p.args.xargc)
  }

  function ProbeRecs(base: nat, p: Probe): seq<Rec> {
    [HeadOf(p)] + (ArgRecs(p.args) + TpRecs(base, p.tps))
  }

  function ProbesRecs(base: nat, probes: seq<Probe>): seq<Rec> {
    if probes == [] then [] else ProbeRecs(base, probes[0]) + ProbesRecs(base, probes[1..])
  }

  function ProviderRecs(base: nat, p: Provider): seq<Rec> {
    [ProviderRec(p.name, p.probec)] + ProbesRecs(base, p.probes)
  }

  /** Providers without tracepoints are not printed. */
  function AllRecs(base: nat, provs: seq<Provider>): seq<Rec> {
    if provs == [] then []
    else (if provs[0].probec > 0 then ProviderRecs(base, provs[0]) else []) + AllRecs(base, provs[1..])
  }

  function Stream(base: nat, provs: seq<Provider>): seq<Rec> {
    AllRecs(base, provs) + [EofRec]
  }

  /** What the parser writes, in order. */
  class Pipe {
    var out: seq<Rec>

    constructor ()
      ensures out == []
    {
      out := [];
    }

    /** usdt_parser_write_one. */
    method Write(r: Rec)
      modifies this
      ensures out == old(out) + [r]
    {
      out := out + [r];
    }

    /** emit_tp for every tracepoint of a chain. */
    method EmitTracepoints(base: nat, tps: seq<Note>)
      modifies this
      ensures out == old(out) + TpRecs(base, tps)
    {
      ghost var was := out;
      var i := 0;
      assert tps[0..] == tps;
      while i < |tps|
        invariant 0 <= i <= |tps| && out + TpRecs(base, tps[i..]) == was + TpRecs(base, tps)
      {
        assert tps[i..][0] == tps[i] && tps[i..][1..] == tps[i + 1..];
        Assoc(out, [TpRec(base, tps[i])], TpRecs(base, tps[i + 1..]));
        Write(TracepointRec(tps[i].off + base, tps[i].enabled, tps[i].sargs));
        i := i + 1;
      }
      assert tps[i..] == [] && out + [] == out;
    }

    /** emit_probe. */
    method EmitProbe(base: nat, p: Probe)
      modifies this
      ensures out == old(out) + ProbeRecs(base, p)
    {
      ghost var was := out;
      Write(ProbeRec(p.mod, p.fun, p.prb, p.ntp, p.args.nargc, p.args.xargc));
      if p.args.nargc != 0 {
        Write(NativeRec(p.args.nargs));
        if p.args.xargc != 0 {
          Write(XlatRec(p.args.xargs));
          Write(MapRec(p.args.xmap));
        }
      }
      assert out == was + ([HeadOf(p)] + ArgRecs(p.args));
      hide ArgRecs, HeadOf, TpRecs;
      EmitTracepoints(base, p.tps);
      assert was + ([HeadOf(p)] + ArgRecs(p.args)) + TpRecs(base, p.tps) == was + ProbeRecs(base, p);
    }

    /** emit_provider. */
    method EmitProvider(base: nat, p: Provider)
      modifies this
      ensures out == old(out) + ProviderRecs(base, p)
    {
      hide ProbeRecs;
      ghost var was := out;
      Write(ProviderRec(p.name, p.probec));
      ghost var mid := out;
      var i := 0;
      assert p.probes[0..] == p.probes;
      while i < |p.probes|
        invariant 0 <= i <= |p.probes| && out + ProbesRecs(base, p.probes[i..]) == mid + ProbesRecs(base, p.probes)
      {
        assert p.probes[i..][0] == p.probes[i] && p.probes[i..][1..] == p.probes[i + 1..];
        Assoc(out, ProbeRecs(base, p.probes[i]), ProbesRecs(base, p.probes[i + 1..]));
        EmitProbe(base, p.probes[i]);
        i := i + 1;
      }
      assert p.probes[i..] == [] && out + [] == out;
      Assoc(was, [ProviderRec(p.name, p.probec)], ProbesRecs(base, p.probes));
    }

    /** The end of usdt_parse_notes and of usdt_parse: every provider with tracepoints, and
        the end mark. */
    method EmitAll(base: nat, provs: seq<Provider>)
      modifies this
      ensures out == old(out) + Stream(base, provs)
    {
      hide ProviderRecs;
      ghost var was := out;
      var i := 0;
      assert provs[0..] == provs;
      while i < |provs|
        invariant 0 <= i <= |provs| && out + AllRecs(base, provs[i..]) == was + AllRecs(base, provs)
      {
        assert provs[i..][0] == provs[i] && provs[i..][1..] == provs[i + 1..];
        Assoc(out, ProviderRecs(base, provs[i]), AllRecs(base, provs[i + 1..]));
        assert [] + AllRecs(base, provs[i + 1..]) == AllRecs(base, provs[i + 1..]);
        if provs[i].probec > 0 {
          EmitProvider(base, provs[i]);
        }
        i := i + 1;
      }
      assert provs[i..] == [] && out + [] == out;
      Assoc(was, AllRecs(base, provs), [EofRec]);
      Write(EofRec);
    }
  }

  // ----- reading it back -----

  /** The records of a probe after its first: up to `ntp` tracepoints, at least one record. */
  function ReadTps(s: seq<Rec>, ntp: nat, j: nat): (r: Option<seq<Rec>>)
    ensures r.Some? ==> |r.value| < |s|
  {
    if s == [] || s[0].ErrRec? || s[0].ProviderRec? || s[0].ProbeRec? || s[0].EofRec? then None
    else
      var j' := if s[0].TracepointRec? then j + 1 else j;
      if j' < ntp then ReadTps(s[1..], ntp, j') else Some(s[1..])
  }

  function ReadProbes(s: seq<Rec>, n: nat): (r: Option<seq<Rec>>)
    ensures r.Some? ==> |r.value| <= |s|
    decreases n
  {
    if n == 0 then Some(s)
    else if s == [] || !s[0].ProbeRec? then None
    else
      var rest := ReadTps(s[1..], s[0].ntp, 0);
      if rest.None? then None else ReadProbes(rest.value, n - 1)
  }

  /** What is left of a stream after it has been read up to its end mark.  `count` is the
      number of probes that a record is taken to announce; only the first record is
      checked to be a provider. */
  function ReadProviders(s: seq<Rec>, count: Rec -> nat): (r: Option<seq<Rec>>)
    ensures r.Some? ==> |r.value| < |s|
    decreases |s|
  {
    if s == [] || s[0].ErrRec? then None
    else if s[0].EofRec? then Some(s[1..])
    else
      var rest := ReadProbes(s[1..], count(s[0]));
      if rest.None? then None else ReadProviders(rest.value, count)
  }

  predicate Counts(count: Rec -> nat, r: Rec) {
    r.ProviderRec? ==> count(r) == r.nprobes
  }

  lemma {:induction false} ReadArgs(a: Args, ntp: nat, rest: seq<Rec>)
    requires ntp > 0
    ensures ReadTps(ArgRecs(a) + rest, ntp, 0) == ReadTps(rest, ntp, 0)
  {
    hide ReadTps;
    if a.nargc != 0 {
      if a.xargc == 0 {
        ReadArg(NativeRec(a.nargs), ntp, rest);
        assert ArgRecs(a) + rest == [NativeRec(a.nargs)] + rest;
      } else {
        ReadArg(MapRec(a.xmap), ntp, rest);
        ReadArg(XlatRec(a.xargs), ntp, [MapRec(a.xmap)] + rest);
        ReadArg(NativeRec(a.nargs), ntp, [XlatRec(a.xargs)] + ([MapRec(a.xmap)] + rest));
        assert ArgRecs(a) + rest == [NativeRec(a.nargs)] + ([XlatRec(a.xargs)] + ([MapRec(a.xmap)] + rest));
      }
    } else {
      assert ArgRecs(a) + rest == rest;
    }
  }

  lemma {:induction false} ReadArg(r: Rec, ntp: nat, rest: seq<Rec>)
    requires ntp > 0 && (r.NativeRec? || r.XlatRec? || r.MapRec?)
    ensures ReadTps([r] + rest, ntp, 0) == ReadTps(rest, ntp, 0)
  {
    assert ([r] + rest)[1..] == rest;
  }

  lemma {:induction false} ReadTracepoints(base: nat, tps: seq<Note>, ntp: nat, j: nat, rest: seq<Rec>)
    requires tps != [] && j + |tps| == ntp
    ensures ReadTps(TpRecs(base, tps) + rest, ntp, j) == Some(rest)
  {
    hide ReadTps;
    var more := TpRecs(base, tps[1..]) + rest;
    assert TpRecs(base, tps) + rest == [TpRec(base, tps[0])] + more;
    ReadTracepoint(TpRec(base, tps[0]), ntp, j, more);
    if |tps| > 1 {
      ReadTracepoints(base, tps[1..], ntp, j + 1, rest);
    } else {
      assert [] + rest == rest;
    }
  }

  lemma {:induction false} ReadTracepoint(r: Rec, ntp: nat, j: nat, rest: seq<Rec>)
    requires r.TracepointRec?
    ensures ReadTps([r] + rest, ntp, j) == if j + 1 < ntp then ReadTps(rest, ntp, j + 1) else Some(rest)
  {
    assert ([r] + rest)[1..] == rest;
  }

  lemma {:induction false} AfterHead(r: Rec, a: seq<Rec>, b: seq<Rec>, rest: seq<Rec>)
    ensures var all := [r] + (a + b) + rest; all[0] == r && all[1..] == a + (b + rest)
  {
  }

  lemma {:induction false} ReadOneProbe(base: nat, p: Probe, rest: seq<Rec>)
    requires p.tps != [] && p.ntp == |p.tps|
    ensures var all := ProbeRecs(base, p) + rest;
      all != [] && all[0] == HeadOf(p) && ReadTps(all[1..], p.ntp, 0) == Some(rest)
  {
    hide ReadTps, ArgRecs, TpRecs, HeadOf;
    AfterHead(HeadOf(p), ArgRecs(p.args), TpRecs(base, p.tps), rest);
    ReadArgs(p.args, p.ntp, TpRecs(base, p.tps) + rest);
    ReadTracepoints(base, p.tps, p.ntp, 0, rest);
  }

  ghost predicate Printable(probes: seq<Probe>) {
    forall i :: 0 <= i < |probes| ==> probes[i].tps != [] && probes[i].ntp == |probes[i].tps|
  }

  lemma {:induction false} ReadAllProbes(base: nat, probes: seq<Probe>, rest: seq<Rec>)
    requires Printable(probes)
    ensures ReadProbes(ProbesRecs(base, probes) + rest, |probes|) == Some(rest)
    decreases |probes|
  {
    hide ProbeRecs, ReadTps;
    if probes == [] {
      assert [] + rest == rest;
    } else {
      var more := ProbesRecs(base, probes[1..]) + rest;
      Assoc(ProbeRecs(base, probes[0]), ProbesRecs(base, probes[1..]), rest);
      ReadOneProbe(base, probes[0], more);
      ReadAllProbes(base, probes[1..], rest);
    }
  }

  /** Whatever is printed is accepted, and read through exactly to its end mark: for every
      list of providers whose probes have tracepoints and whose counts are right. */
  lemma {:induction false} ReadStream(base: nat, provs: seq<Provider>, count: Rec -> nat, rest: seq<Rec>)
    requires forall i :: 0 <= i < |provs| ==> provs[i].probec == |provs[i].probes| && Printable(provs[i].probes)
    requires forall r :: Counts(count, r)
    ensures ReadProviders(Stream(base, provs) + rest, count) == Some(rest)
    ensures var s := Stream(base, provs); s[0].ProviderRec? || s[0].EofRec?
    decreases |provs|
  {
    hide ProbesRecs, ReadProbes;
    StreamFront(base, provs, rest);
    if provs != [] {
      hide AllRecs, ReadProviders;
      ReadStream(base, provs[1..], count, rest);
      var more := Stream(base, provs[1..]) + rest;
      if provs[0].probec > 0 {
        var head := ProviderRec(provs[0].name, provs[0].probec);
        assert Counts(count, head);
        ReadAllProbes(base, provs[0].probes, more);
        ReadOneProvider(head, ProbesRecs(base, provs[0].probes) + more, count, more);
      }
    }
  }

  lemma {:induction false} StreamFront(base: nat, provs: seq<Provider>, rest: seq<Rec>)
    ensures var s := Stream(base, provs);
      if provs == [] then s[0] == EofRec && (s + rest)[0] == EofRec && (s + rest)[1..] == rest
      else if provs[0].probec > 0 then
        && s[0] == ProviderRec(provs[0].name, provs[0].probec)
        && s + rest == [s[0]] + (ProbesRecs(base, provs[0].probes) + (Stream(base, provs[1..]) + rest))
      else s == Stream(base, provs[1..])
  {
    hide ProbesRecs;
    var s := Stream(base, provs);
    if provs != [] && provs[0].probec > 0 {
      var p, more := ProbesRecs(base, provs[0].probes), Stream(base, provs[1..]);
      assert s == [ProviderRec(provs[0].name, provs[0].probec)] + (p + more);
      Assoc(p, more, rest);
    } else if provs != [] {
      assert [] + AllRecs(base, provs[1..]) == AllRecs(base, provs[1..]);
    }
  }

  lemma {:induction false} ReadOneProvider(head: Rec, s: seq<Rec>, count: Rec -> nat, more: seq<Rec>)
    requires head.ProviderRec? && count(head) == head.nprobes && ReadProbes(s, head.nprobes) == Some(more)
    ensures ReadProviders([head] + s, count) == ReadProviders(more, count)
  {
    assert ([head] + s)[1..] == s;
  }

  /** The loop over the records of one probe in process_dof. */
  method TakeTps(s: seq<Rec>, pos0: nat, ntp: nat) returns (r: Option<nat>)
    requires pos0 <= |s|
    ensures var rest := ReadTps(s[pos0..], ntp, 0);
      r.Some? == rest.Some? && (r.Some? ==> pos0 < r.value <= |s| && s[r.value..] == rest.value)
  {
    var pos, j := pos0, 0;
    while true
      invariant pos0 <= pos <= |s| && ReadTps(s[pos..], ntp, j) == ReadTps(s[pos0..], ntp, 0)
      decreases |s| - pos
    {
      if pos == |s| { return None; }
      assert s[pos..][0] == s[pos] && s[pos..][1..] == s[pos + 1..];
      var tp := s[pos];
      if tp.ErrRec? || tp.ProviderRec? || tp.ProbeRec? || tp.EofRec? { return None; }
      pos := pos + 1;
      if tp.TracepointRec? { j := j + 1; }
      if j >= ntp { return Some(pos); }
    }
  }

  /** The loop over the probes of one provider. */
  method TakeProbes(s: seq<Rec>, pos0: nat, n: nat) returns (r: Option<nat>)
    requires pos0 <= |s|
    ensures var rest := ReadProbes(s[pos0..], n);
      r.Some? == rest.Some? && (r.Some? ==> pos0 <= r.value <= |s| && s[r.value..] == rest.value)
  {
    hide ReadTps;
    var pos, i := pos0, 0;
    while i < n
      invariant 0 <= i <= n && pos0 <= pos <= |s| && ReadProbes(s[pos..], n - i) == ReadProbes(s[pos0..], n)
    {
      if pos == |s| || !s[pos].ProbeRec? { return None; }
      assert s[pos..][0] == s[pos] && s[pos..][1..] == s[pos + 1..];
      var next := TakeTps(s, pos + 1, s[pos].ntp);
      if next.None? { return None; }
      pos := next.value;
      i := i + 1;
    }
    r := Some(pos);
  }

  /** process_dof, as far as it reads: the records it has accumulated, which are the
      stream up to its end mark unchanged, or none if the stream is not well formed. */
  method Accumulate(s: seq<Rec>, count: Rec -> nat) returns (accum: Option<seq<Rec>>)
    ensures accum.Some? <==> s != [] && (s[0].ProviderRec? || s[0].EofRec?) && ReadProviders(s, count).Some?
    ensures accum.Some? ==> accum.value + ReadProviders(s, count).value == s
  {
    hide ReadProbes;
    if s == [] { return None; }
    if !s[0].ProviderRec? && !s[0].EofRec? { return None; }
    var pos := 0;
    assert s[0..] == s;
    while pos < |s| && !s[pos].EofRec?
      invariant 0 <= pos <= |s| && ReadProviders(s[pos..], count) == ReadProviders(s, count)
      decreases |s| - pos
    {
      assert s[pos..][0] == s[pos] && s[pos..][1..] == s[pos + 1..];
      if s[pos].ErrRec? { return None; }
      var next := TakeProbes(s, pos + 1, count(s[pos]));
      if next.None? { return None; }
      pos := next.value;
    }
    if pos == |s| { return None; }
    assert s[pos..][1..] == s[pos + 1..];
    accum := Some(s[..pos + 1]);
  }

  // ----- the other producer -----

  /** A probe in DOF: a valid one, or one that is reported by an error record in its place
      (libcommon/usdt_parser_dof.c). */
  datatype DofProbe = Valid(p: Probe) | Invalid

  datatype DofProvider = DofProvider(name: string, probes: seq<DofProbe>)

  function DofProbeRecs(base: nat, q: DofProbe): seq<Rec> {
    if q.Valid? then ProbeRecs(base, q.p) else [ErrRec]
  }

  function DofProbesRecs(base: nat, probes: seq<DofProbe>): seq<Rec> {
    if probes == [] then [] else DofProbeRecs(base, probes[0]) + DofProbesRecs(base, probes[1..])
  }

  /** Every provider is printed, also one without probes, and announces all its probes. */
  function DofStream(base: nat, provs: seq<DofProvider>): seq<Rec> {
    if provs == [] then [EofRec]
    else
      [ProviderRec(provs[0].name, |provs[0].probes|)] +
      (DofProbesRecs(base, provs[0].probes) + DofStream(base, provs[1..]))
  }

  ghost predicate DofPrintable(probes: seq<DofProbe>) {
    forall i :: 0 <= i < |probes| && probes[i].Valid? ==> probes[i].p.tps != [] && probes[i].p.ntp == |probes[i].p.tps|
  }

  predicate AllValid(probes: seq<DofProbe>) {
    forall i :: 0 <= i < |probes| ==> probes[i].Valid?
  }

  lemma {:induction false} ReadDofProbes(base: nat, probes: seq<DofProbe>, rest: seq<Rec>)
    requires DofPrintable(probes)
    ensures ReadProbes(DofProbesRecs(base, probes) + rest, |probes|) == if AllValid(probes) then Some(rest) else None
    decreases |probes|
  {
    hide ProbeRecs, ReadTps;
    if probes == [] {
      assert [] + rest == rest;
    } else {
      var more := DofProbesRecs(base, probes[1..]) + rest;
      Assoc(DofProbeRecs(base, probes[0]), DofProbesRecs(base, probes[1..]), rest);
      if probes[0].Valid? {
        ReadOneProbe(base, probes[0].p, more);
        ReadDofProbes(base, probes[1..], rest);
        assert AllValid(probes) <==> AllValid(probes[1..]);
      } else {
        assert ([ErrRec] + more)[0] == ErrRec;
      }
    }
  }

  /** The stream of DOF is accepted, and read through to its end mark, exactly if all probes
      of all providers are valid. */
  lemma {:induction false} ReadDofStream(base: nat, provs: seq<DofProvider>, count: Rec -> nat, rest: seq<Rec>)
    requires forall i :: 0 <= i < |provs| ==> DofPrintable(provs[i].probes)
    requires forall r :: Counts(count, r)
    ensures ReadProviders(DofStream(base, provs) + rest, count) ==
      if forall i :: 0 <= i < |provs| ==> AllValid(provs[i].probes) then Some(rest) else None
    decreases |provs|
  {
    hide DofProbesRecs, ReadProbes, AllValid;
    if provs == [] {
      assert ([EofRec] + rest)[0] == EofRec && ([EofRec] + rest)[1..] == rest;
    } else {
      var head, recs := ProviderRec(provs[0].name, |provs[0].probes|), DofProbesRecs(base, provs[0].probes);
      var more := DofStream(base, provs[1..]) + rest;
      assert DofStream(base, provs) + rest == [head] + (recs + more);
      assert Counts(count, head);
      ReadDofProbes(base, provs[0].probes, more);
      ReadDofStream(base, provs[1..], count, rest);
      DofProviderRead(head, recs + more, count);
      assert (forall i :: 0 <= i < |provs| ==> AllValid(provs[i].probes)) <==>
             AllValid(provs[0].probes) && (forall i :: 0 <= i < |provs[1..]| ==> AllValid(provs[1..][i].probes)) by {
        assert forall i :: 0 < i < |provs| ==> provs[i] == provs[1..][i - 1];
      }
    }
  }

  /** A provider with a valid probe and an invalid one: the first is lost as well. */
  lemma {:induction false} BothRefused(base: nat, p: Probe, count: Rec -> nat)
    requires p.tps != [] && p.ntp == |p.tps| && forall r :: Counts(count, r)
    ensures ReadProviders(DofStream(base, [DofProvider("p", [Valid(p)])]), count) == Some([])
    ensures ReadProviders(DofStream(base, [DofProvider("p", [Valid(p), Invalid])]), count) == None
  {
    hide ReadProviders, DofStream;
    var one, two := [DofProvider("p", [Valid(p)])], [DofProvider("p", [Valid(p), Invalid])];
    ReadDofStream(base, one, count, []);
    ReadDofStream(base, two, count, []);
    assert DofStream(base, one) + [] == DofStream(base, one) && DofStream(base, two) + [] == DofStream(base, two);
    assert !two[0].probes[1].Valid?;
  }

  lemma {:induction false} DofProviderRead(head: Rec, s: seq<Rec>, count: Rec -> nat)
    requires head.ProviderRec? && count(head) == head.nprobes
    ensures ReadProviders([head] + s, count) ==
      var more := ReadProbes(s, head.nprobes); if more.None? then None else ReadProviders(more.value, count)
  {
    assert ([head] + s)[1..] == s;
  }

  // ----- one file per probe -----

  datatype Spec = Spec(prv: string, mod: string, fun: string, prb: string)

  /** What is in a file: the format's version, and records. */
  datatype Item = Version(v: nat) | Record(r: Rec)

  const DOF_PARSED_VERSION := 3

  /** The kind of the last record, which the writer checks the next one against. */
  datatype Last = Nothing | AtProvider | AtProbe | AtArgs | AtTracepoint

  /** The writer's state: its provider, the open file, and the files written. */
  datatype Writer = Writer(last: Last, provider: Rec, open: Option<Spec>, files: map<Spec, seq<Item>>)

  /** A file is open, and the last record was one of a probe's. */
  predicate InFile(w: Writer) {
    w.open.Some? && w.open.value in w.files && (w.last == AtProbe || w.last == AtArgs || w.last == AtTracepoint)
  }

  /** The assertions of dof_stash_write_parsed. */
  predicate Allowed(w: Writer, r: Rec) {
    match r
    case ProbeRec(_, _, _, _, _, _) =>
      w.provider.ProviderRec? && (w.last == AtProvider || w.last == AtProbe || w.last == AtTracepoint)
    case NativeRec(_) => InFile(w)
    case XlatRec(_) => InFile(w)
    case MapRec(_) => InFile(w)
    case TracepointRec(_, _, _) => InFile(w)
    case _ => true
  }

  /** The effect of one record: none if the probe's file exists already, or on an error
      record. */
  function WriteOne(w: Writer, r: Rec): Option<Writer>
    requires Allowed(w, r)
  {
    match r
    case ProviderRec(_, _) => Some(w.(last := AtProvider, provider := r))
    case ProbeRec(mod, fun, prb, _, _, _) =>
      var spec := Spec(w.provider.name, mod, fun, prb);
      if spec in w.files then None
      else Some(Writer(AtProbe, w.provider, Some(spec),
                       w.files[spec := [Version(DOF_PARSED_VERSION), Record(w.provider), Record(r)]]))
    case EofRec => Some(w)
    case ErrRec => None
    case _ =>
      Some(w.(last := if r.TracepointRec? then AtTracepoint else AtArgs,
              files := w.files[w.open.value := w.files[w.open.value] + [Record(r)]]))
  }

  /** All records written; or refused at a probe whose file exists, or at an error record;
      or an assertion failed. */
  datatype Written = Finished(w: Writer) | Refused | Asserted

  function WriteAll(w: Writer, s: seq<Rec>): Written
    decreases |s|
  {
    if s == [] then Finished(w)
    else if !Allowed(w, s[0]) then Asserted
    else if WriteOne(w, s[0]).None? then Refused
    else WriteAll(WriteOne(w, s[0]).value, s[1..])
  }

  lemma {:induction false} WriteJoin(w: Writer, a: seq<Rec>, b: seq<Rec>)
    ensures WriteAll(w, a + b) ==
      match WriteAll(w, a) case Finished(m) => WriteAll(m, b) case Refused => Refused case Asserted => Asserted
    decreases |a|
  {
    hide WriteOne, Allowed;
    if a == [] {
      assert a + b == b;
    } else {
      assert (a + b)[0] == a[0] && (a + b)[1..] == a[1..] + b;
      if Allowed(w, a[0]) && WriteOne(w, a[0]).Some? { WriteJoin(WriteOne(w, a[0]).value, a[1..], b); }
    }
  }

  function Items(s: seq<Rec>): (r: seq<Item>)
    ensures |r| == |s| && forall i :: 0 <= i < |s| ==> r[i] == Record(s[i])
  {
    seq(|s|, i requires 0 <= i < |s| => Record(s[i]))
  }

  /** Argument and tracepoint records. */
  predicate IsDetail(r: Rec) {
    r.NativeRec? || r.XlatRec? || r.MapRec? || r.TracepointRec?
  }

  lemma {:induction false} WriteDetail(w: Writer, r: Rec) returns (m: Writer)
    requires InFile(w)
    requires IsDetail(r)
    ensures Allowed(w, r) && WriteOne(w, r) == Some(m)
    ensures m == w.(last := if r.TracepointRec? then AtTracepoint else AtArgs,
                    files := w.files[w.open.value := w.files[w.open.value] + [Record(r)]])
  {
    m := WriteOne(w, r).value;
  }

  lemma {:induction false} WriteStep(w: Writer, s: seq<Rec>, m: Writer)
    requires s != [] && Allowed(w, s[0]) && WriteOne(w, s[0]) == Some(m)
    ensures WriteAll(w, s) == WriteAll(m, s[1..])
  {
  }

  /** They are added to the open file, in order. */
  lemma {:induction false} WriteDetails(w: Writer, s: seq<Rec>) returns (w': Writer)
    requires InFile(w)
    requires forall i :: 0 <= i < |s| ==> IsDetail(s[i])
    ensures WriteAll(w, s) == Finished(w')
    ensures w'.open == w.open && w'.provider == w.provider
    ensures w'.files == w.files[w.open.value := w.files[w.open.value] + Items(s)]
    ensures w'.last == if s == [] then w.last else if s[|s| - 1].TracepointRec? then AtTracepoint else AtArgs
    decreases |s|
  {
    hide Allowed, WriteOne, IsDetail, WriteAll, Items;
    if s == [] {
      w' := w;
      WriteNothing(w);
      assert w.files[w.open.value] + [] == w.files[w.open.value];
    } else {
      var m := WriteDetail(w, s[0]);
      WriteStep(w, s, m);
      w' := WriteDetails(m, s[1..]);
      var k, was := w.open.value, w.files[w.open.value];
      ItemsFirst(s);
      Assoc(was, [Record(s[0])], Items(s[1..]));
      PutTwice(w.files, k, was + [Record(s[0])], was + Items(s));
    }
  }

  lemma {:induction false} ItemsFirst(s: seq<Rec>)
    requires s != []
    ensures Items(s) == [Record(s[0])] + Items(s[1..])
  {
  }

  lemma {:induction false} PutTwice(files: map<Spec, seq<Item>>, k: Spec, a: seq<Item>, b: seq<Item>)
    ensures files[k := a][k := b] == files[k := b]
  {
  }

  function SpecOf(name: string, p: Probe): Spec {
    Spec(name, p.mod, p.fun, p.prb)
  }

  /** The file of a probe: version, provider, the probe, its arguments, its tracepoints. */
  function FileOf(base: nat, prov: Provider, p: Probe): seq<Item> {
    [Version(DOF_PARSED_VERSION), Record(ProviderRec(prov.name, prov.probec)), Record(HeadOf(p))] +
    Items(ArgRecs(p.args) + TpRecs(base, p.tps))
  }

  lemma {:induction false} DetailsOf(base: nat, p: Probe)
    requires p.tps != []
    ensures var s := ArgRecs(p.args) + TpRecs(base, p.tps);
      s != [] && s[|s| - 1].TracepointRec? && forall i :: 0 <= i < |s| ==> IsDetail(s[i])
  {
    TpsDetail(base, p.tps);
  }

  lemma {:induction false} TpsDetail(base: nat, tps: seq<Note>)
    ensures |TpRecs(base, tps)| == |tps| && forall i :: 0 <= i < |tps| ==> TpRecs(base, tps)[i].TracepointRec?
  {
    if tps != [] { TpsDetail(base, tps[1..]); }
  }

  lemma {:induction false} WriteProbe(w: Writer, base: nat, prov: Provider, p: Probe) returns (w': Writer)
    requires w.provider == ProviderRec(prov.name, prov.probec) && (w.last == AtProvider || w.last == AtTracepoint)
    requires p.tps != []
    ensures WriteAll(w, ProbeRecs(base, p)) == if SpecOf(prov.name, p) in w.files then Refused else Finished(w')
    ensures w'.provider == w.provider && w'.last == AtTracepoint
    ensures w'.files == w.files[SpecOf(prov.name, p) := FileOf(base, prov, p)]
  {
    var head, s := HeadOf(p), ArgRecs(p.args) + TpRecs(base, p.tps);
    DetailsOf(base, p);
    assert ProbeRecs(base, p)[0] == head && ProbeRecs(base, p)[1..] == s;
    var spec := SpecOf(prov.name, p);
    var m := Writer(AtProbe, w.provider, Some(spec),
                    w.files[spec := [Version(DOF_PARSED_VERSION), Record(w.provider), Record(head)]]);
    w' := WriteDetails(m, s);
  }

  /** The files of some probes of a provider. */
  function FilesOf(base: nat, prov: Provider, probes: seq<Probe>): map<Spec, seq<Item>> {
    if probes == [] then map[]
    else map[SpecOf(prov.name, probes[0]) := FileOf(base, prov, probes[0])] + FilesOf(base, prov, probes[1..])
  }

  /** The probes of a provider, by the names their files have. */
  function SpecsOf(name: string, probes: seq<Probe>): (r: seq<Spec>)
    ensures |r| == |probes| && forall i :: 0 <= i < |r| ==> r[i] == SpecOf(name, probes[i])
  {
    seq(|probes|, i requires 0 <= i < |probes| => SpecOf(name, probes[i]))
  }

  /** No probe appears twice, and none is one of `done`. */
  ghost predicate Fresh(specs: seq<Spec>, done: set<Spec>) {
    && (forall i :: 0 <= i < |specs| ==> specs[i] !in done)
    && (forall i, j :: 0 <= i < j < |specs| ==> specs[i] != specs[j])
  }

  ghost function Members(specs: seq<Spec>): set<Spec> {
    set i | 0 <= i < |specs| :: specs[i]
  }

  lemma {:induction false} FreshJoin(a: seq<Spec>, b: seq<Spec>, done: set<Spec>)
    ensures Fresh(a + b, done) <==> Fresh(a, done) && Fresh(b, done + Members(a))
  {
    var s := a + b;
    if Fresh(s, done) {
      forall i | 0 <= i < |a| ensures a[i] !in done { assert s[i] == a[i]; }
      forall i, j | 0 <= i < j < |a| ensures a[i] != a[j] { assert s[i] == a[i] && s[j] == a[j]; }
      forall i | 0 <= i < |b| ensures b[i] !in done + Members(a) {
        assert s[|a| + i] == b[i];
        forall k | 0 <= k < |a| ensures a[k] != b[i] { assert s[k] == a[k]; }
      }
      forall i, j | 0 <= i < j < |b| ensures b[i] != b[j] { assert s[|a| + i] == b[i] && s[|a| + j] == b[j]; }
    }
    if Fresh(a, done) && Fresh(b, done + Members(a)) {
      forall k | 0 <= k < |a| ensures a[k] in Members(a) {}
      forall i | 0 <= i < |s| ensures s[i] !in done {
        if i >= |a| { assert s[i] == b[i - |a|]; }
      }
    }
  }

  lemma {:induction false} WriteProbes(w: Writer, base: nat, prov: Provider, probes: seq<Probe>) returns (w': Writer)
    requires w.provider == ProviderRec(prov.name, prov.probec) && (w.last == AtProvider || w.last == AtTracepoint)
    requires Printable(probes)
    ensures WriteAll(w, ProbesRecs(base, probes)) == if Fresh(SpecsOf(prov.name, probes), w.files.Keys)
        then Finished(w') else Refused
    ensures w'.provider == w.provider && (w'.last == AtProvider || w'.last == AtTracepoint)
    ensures w'.files == w.files + FilesOf(base, prov, probes)
    decreases |probes|
  {
    hide ProbeRecs, FileOf, WriteOne, Allowed, Fresh, SpecsOf;
    if probes == [] {
      w' := w;
      assert Fresh(SpecsOf(prov.name, probes), w.files.Keys) by { NoneFresh(prov.name, probes, w.files.Keys); }
      assert w.files + map[] == w.files;
    } else {
      var m := WriteProbe(w, base, prov, probes[0]);
      w' := WriteProbes(m, base, prov, probes[1..]);
      WriteJoin(w, ProbeRecs(base, probes[0]), ProbesRecs(base, probes[1..]));
      FirstSpec(prov.name, probes, w.files.Keys);
      assert m.files.Keys == w.files.Keys + {SpecOf(prov.name, probes[0])};
      PutThen(w.files, SpecOf(prov.name, probes[0]), FileOf(base, prov, probes[0]), FilesOf(base, prov, probes[1..]));
    }
  }

  lemma {:induction false} NoneFresh(name: string, probes: seq<Probe>, done: set<Spec>)
    requires probes == []
    ensures Fresh(SpecsOf(name, probes), done)
  {
  }

  lemma {:induction false} FirstSpec(name: string, probes: seq<Probe>, done: set<Spec>)
    requires probes != []
    ensures var spec := SpecOf(name, probes[0]);
      Fresh(SpecsOf(name, probes), done) <==> spec !in done && Fresh(SpecsOf(name, probes[1..]), done + {spec})
  {
    hide Fresh;
    var spec := SpecOf(name, probes[0]);
    assert SpecsOf(name, probes) == [spec] + SpecsOf(name, probes[1..]);
    FreshJoin([spec], SpecsOf(name, probes[1..]), done);
    assert Members([spec]) == {spec} by { assert [spec][0] in Members([spec]); }
    assert Fresh([spec], done) <==> spec !in done by { OneFresh(spec, done); }
  }

  lemma {:induction false} OneFresh(spec: Spec, done: set<Spec>)
    ensures Fresh([spec], done) <==> spec !in done
  {
    if spec in done { assert [spec][0] in done; }
  }

  lemma {:induction false} PutThen(a: map<Spec, seq<Item>>, k: Spec, v: seq<Item>, b: map<Spec, seq<Item>>)
    ensures a[k := v] + b == a + (map[k := v] + b)
  {
  }

  /** The files of all providers that are printed. */
  function AllFiles(base: nat, provs: seq<Provider>): map<Spec, seq<Item>> {
    if provs == [] then map[]
    else (if provs[0].probec > 0 then FilesOf(base, provs[0], provs[0].probes) else map[]) + AllFiles(base, provs[1..])
  }

  /** The probes of all providers that are printed. */
  function AllSpecs(provs: seq<Provider>): seq<Spec> {
    if provs == [] then []
    else (if provs[0].probec > 0 then SpecsOf(provs[0].name, provs[0].probes) else []) + AllSpecs(provs[1..])
  }

  lemma {:induction false} FilesKeys(base: nat, prov: Provider, probes: seq<Probe>)
    ensures FilesOf(base, prov, probes).Keys == Members(SpecsOf(prov.name, probes))
  {
    hide FileOf;
    if probes != [] {
      FilesKeys(base, prov, probes[1..]);
      var all, rest := SpecsOf(prov.name, probes), SpecsOf(prov.name, probes[1..]);
      assert all == [SpecOf(prov.name, probes[0])] + rest;
      MembersFirst(all[0], rest);
    }
  }

  lemma {:induction false} MembersFirst(x: Spec, rest: seq<Spec>)
    ensures Members([x] + rest) == {x} + Members(rest)
  {
    var all := [x] + rest;
    assert all[0] in Members(all);
    forall y | y in Members(rest) ensures y in Members(all) {
      var i :| 0 <= i < |rest| && rest[i] == y;
      assert all[i + 1] == y;
    }
  }

  ghost predicate PrintableAll(provs: seq<Provider>) {
    forall i :: 0 <= i < |provs| ==> provs[i].probec == |provs[i].probes| && Printable(provs[i].probes)
  }

  /** Writing what was printed: no assertion fails; if no probe appears twice every probe
      gets its file with exactly the version, its provider, itself, its arguments and its
      tracepoints, and otherwise the writing stops at the one that does. */
  lemma {:induction false} WriteAllRecs(w: Writer, base: nat, provs: seq<Provider>) returns (w': Writer)
    requires PrintableAll(provs)
    ensures WriteAll(w, AllRecs(base, provs)) == if Fresh(AllSpecs(provs), w.files.Keys) then Finished(w') else Refused
    ensures w'.files == w.files + AllFiles(base, provs)
    decreases |provs|
  {
    hide ProviderRecs, FilesOf, Printable, Fresh, SpecsOf, Members, WriteAll;
    if provs == [] {
      w' := w;
      assert w.files + map[] == w.files;
      WriteNothing(w);
    } else {
      var p := provs[0];
      if p.probec > 0 {
        var n := WriteProvider(w, base, p);
        w' := WriteAllRecs(n, base, provs[1..]);
        WriteJoin(w, ProviderRecs(base, p), AllRecs(base, provs[1..]));
        FilesKeys(base, p, p.probes);
        FreshJoin(SpecsOf(p.name, p.probes), AllSpecs(provs[1..]), w.files.Keys);
        assert n.files.Keys == w.files.Keys + Members(SpecsOf(p.name, p.probes));
        MapAssoc(w.files, FilesOf(base, p, p.probes), AllFiles(base, provs[1..]));
      } else {
        w' := WriteAllRecs(w, base, provs[1..]);
        assert [] + AllRecs(base, provs[1..]) == AllRecs(base, provs[1..]);
        assert [] + AllSpecs(provs[1..]) == AllSpecs(provs[1..]);
        assert map[] + AllFiles(base, provs[1..]) == AllFiles(base, provs[1..]);
      }
    }
  }

  lemma {:induction false} WriteNothing(w: Writer)
    ensures WriteAll(w, []) == Finished(w) && Fresh([], w.files.Keys)
    ensures WriteAll(w, [EofRec]) == Finished(w)
  {
    assert [EofRec][1..] == [];
  }

  lemma {:induction false} WriteProvider(w: Writer, base: nat, p: Provider) returns (w': Writer)
    requires Printable(p.probes)
    ensures WriteAll(w, ProviderRecs(base, p)) == if Fresh(SpecsOf(p.name, p.probes), w.files.Keys)
        then Finished(w') else Refused
    ensures w'.files == w.files + FilesOf(base, p, p.probes)
  {
    hide ProbesRecs, FilesOf, Printable, Fresh, SpecsOf;
    var head := ProviderRec(p.name, p.probec);
    var m := w.(last := AtProvider, provider := head);
    w' := WriteProbes(m, base, p, p.probes);
    assert ProviderRecs(base, p)[0] == head && ProviderRecs(base, p)[1..] == ProbesRecs(base, p.probes);
  }

  lemma {:induction false} MapAssoc(a: map<Spec, seq<Item>>, b: map<Spec, seq<Item>>, c: map<Spec, seq<Item>>)
    ensures a + b + c == a + (b + c)
  {
  }

  const NewWriter := Writer(Nothing, EofRec, None, map[])

  lemma {:induction false} WriteStream(base: nat, provs: seq<Provider>) returns (w: Writer)
    requires PrintableAll(provs)
    ensures WriteAll(NewWriter, Stream(base, provs)) == if Fresh(AllSpecs(provs), {}) then Finished(w) else Refused
    ensures w.files == AllFiles(base, provs)
  {
    hide AllFiles, AllRecs, WriteAll, Fresh, AllSpecs;
    w := WriteAllRecs(NewWriter, base, provs);
    assert NewWriter.files.Keys == {};
    assert map[] + AllFiles(base, provs) == AllFiles(base, provs);
    WriteNothing(w);
    WriteJoin(NewWriter, AllRecs(base, provs), [EofRec]);
  }

  /** The loop of dof_stash_write_parsed, with its assertions. */
  method WriteParsed(accum: seq<Rec>) returns (files: Option<map<Spec, seq<Item>>>)
    requires !WriteAll(NewWriter, accum).Asserted?
    ensures match WriteAll(NewWriter, accum) case Finished(w) => files == Some(w.files) case _ => files == None
  {
    hide WriteOne, Allowed;
    var w := NewWriter;
    var i := 0;
    assert accum[0..] == accum;
    while i < |accum|
      invariant 0 <= i <= |accum| && WriteAll(w, accum[i..]) == WriteAll(NewWriter, accum)
    {
      var r := accum[i];
      assert accum[i..][0] == r && accum[i..][1..] == accum[i + 1..];
      assert Allowed(w, r);
      var next := WriteOne(w, r);
      if next.None? { return None; }
      w := next.value;
      i := i + 1;
    }
    files := Some(w.files);
  }

  lemma {:induction false} GoodPrintable(provs: seq<Provider>)
    requires Good(provs)
    ensures PrintableAll(provs)
  {
    forall i | 0 <= i < |provs| ensures provs[i].probec == |provs[i].probes| && Printable(provs[i].probes) {
      assert GoodProvider(provs[i]);
      forall j | 0 <= j < |provs[i].probes| ensures provs[i].probes[j].tps != [] &&
          provs[i].probes[j].ntp == |provs[i].probes[j].tps| {
        assert GoodProbe(provs[i].name, provs[i].probes[j]);
      }
    }
  }

  lemma {:induction false} NonEmpty(base: nat, provs: seq<Provider>)
    ensures Stream(base, provs) != []
  {
  }
}
