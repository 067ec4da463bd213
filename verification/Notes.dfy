/**
 When the tracepoints of a probe in a function are found to belong together: the loop over
 the tracepoints in usdt_parse_notes() (libcommon/usdt_parser_notes.c) looks for a probe
 that is already there with offset 0, but has put it into the hash table under its offset.
 The stream of records is accepted in any case, and its probes are written to files
 (dtprobed/dof_stash.c) if none of them is there twice.
 */
module Notes {
  import opened Basics
  import opened HashValue
  import opened Usdt
  import Word
  import BitFacts

  function NameOf(n: Note): (string, string) {
    (n.fun, n.prb)
  }

  function NamesOf(notes: seq<Note>): set<(string, string)> {
    set i | 0 <= i < |notes| :: NameOf(notes[i])
  }

  /** The first note with this function and probe. */
  function First(notes: seq<Note>, x: (string, string)): (r: nat)
    ensures r <= |notes|
    ensures r < |notes| ==> NameOf(notes[r]) == x
    ensures forall i :: 0 <= i < r ==> NameOf(notes[i]) != x
  {
    if notes == [] then 0 else if NameOf(notes[0]) == x then 0 else 1 + First(notes[1..], x)
  }

  /** Note `i` is the first for its function and probe, or the first one is in the slot in
      which it is looked for, in a table with so many declared probes and the probes before. */
  predicate Met(decls: nat, notes: seq<Note>, i: nat)
    requires i < |notes|
  {
    var f := First(notes, NameOf(notes[i]));
    var size := TableSize(decls + |NamesOf(notes[..i])|);
    f == i || (f < |notes| && Hval(notes[f]) % size == Wanted(notes[f]) % size)
  }

  predicate AllMet(decls: nat, notes: seq<Note>) {
    forall i :: 0 <= i < |notes| ==> Met(decls, notes, i)
  }

  predicate SameNames(a: Probe, b: Probe) {
    a.fun == b.fun && a.prb == b.prb
  }

  /** No function has a probe twice. */
  predicate Single(probes: seq<Probe>) {
    forall a, b :: 0 <= a < b < |probes| ==> !SameNames(probes[a], probes[b])
  }

  // ----- one provider -----

  /** The notes are for this provider and the module, and it declares their probes. */
  predicate Fitting(p: Provider, mod: string, notes: seq<Note>) {
    forall i :: 0 <= i < |notes| ==> notes[i].prv == p.name && notes[i].mod == mod && notes[i].prb in p.decls
  }

  /** One probe for every function and name, with the notes for it. */
  ghost predicate OneEach(probes: seq<Probe>, notes: seq<Note>) {
    && Single(probes) && |probes| == |NamesOf(notes)|
    && (forall a :: 0 <= a < |probes| ==> Chains(probes[a], notes))
    && (forall i :: 0 <= i < |notes| ==> HasProbe(probes, notes[i]))
  }

  ghost predicate HasProbe(probes: seq<Probe>, n: Note) {
    exists a :: 0 <= a < |probes| && Matches(n, probes[a])
  }

  /** The notes with this function and probe. */
  function OfName(notes: seq<Note>, x: (string, string)): seq<Note> {
    if notes == [] then []
    else
      var m := |notes| - 1;
      OfName(notes[..m], x) + if NameOf(notes[m]) == x then [notes[m]] else []
  }

  function Backwards(notes: seq<Note>): (r: seq<Note>)
    ensures |r| == |notes|
  {
    if notes == [] then [] else [notes[|notes| - 1]] + Backwards(notes[..|notes| - 1])
  }

  /** The order in which the tracepoints of a probe are linked: the first, and then the
      others, the latest of them first. */
  function Chained(notes: seq<Note>): seq<Note> {
    if notes == [] then [] else [notes[0]] + Backwards(notes[1..])
  }

  /** The tracepoints of a probe are the notes with its function and name. */
  ghost predicate Chains(q: Probe, notes: seq<Note>) {
    var xs := OfName(notes, (q.fun, q.prb));
    xs != [] && q.tps == Chained(xs)
  }

  lemma {:induction false} ChainedMore(notes: seq<Note>, n: Note)
    requires notes != []
    ensures Chained(notes + [n]) == [notes[0], n] + Chained(notes)[1..]
  {
    var rest := (notes + [n])[1..];
    assert rest[..|rest| - 1] == notes[1..];
  }

  lemma {:induction false} OfNameMore(notes: seq<Note>, n: Note, x: (string, string))
    ensures OfName(notes + [n], x) == OfName(notes, x) + if NameOf(n) == x then [n] else []
  {
    assert (notes + [n])[..|notes|] == notes;
  }

  /** The first of them is the first. */
  lemma {:induction false} OfNameFirst(notes: seq<Note>, x: (string, string))
    ensures OfName(notes, x) != [] <==> First(notes, x) < |notes|
    ensures OfName(notes, x) != [] ==> OfName(notes, x)[0] == notes[First(notes, x)]
  {
    hide First;
    if notes == [] {
      assert First(notes, x) == 0;
    } else {
      var m := |notes| - 1;
      assert notes == notes[..m] + [notes[m]];
      OfNameFirst(notes[..m], x);
      FirstKept(notes[..m], notes[m], x);
    }
  }

  lemma {:induction false} FirstKept(notes: seq<Note>, n: Note, x: (string, string))
    ensures First(notes + [n], x) ==
      if First(notes, x) < |notes| then First(notes, x) else if NameOf(n) == x then |notes| else |notes| + 1
  {
    var all := notes + [n];
    var f, g := First(notes, x), First(all, x);
    assert forall i :: 0 <= i < |notes| ==> all[i] == notes[i];
    assert all[|notes|] == n;
    if f < |notes| { assert NameOf(all[f]) == x; }
    if g < |notes| { assert NameOf(notes[g]) == x; }
  }

  lemma {:induction false} NamesMore(notes: seq<Note>, n: Note)
    ensures NamesOf(notes + [n]) == NamesOf(notes) + {NameOf(n)}
    ensures NameOf(n) in NamesOf(notes) <==> First(notes, NameOf(n)) < |notes|
  {
    var all := notes + [n];
    forall x | x in NamesOf(notes) + {NameOf(n)} ensures x in NamesOf(all) {
      if x in NamesOf(notes) {
        var i :| 0 <= i < |notes| && NameOf(notes[i]) == x;
        assert all[i] == notes[i];
      } else {
        assert all[|notes|] == n;
      }
    }
    if First(notes, NameOf(n)) < |notes| { assert NameOf(notes[First(notes, NameOf(n))]) in NamesOf(notes); }
  }

  lemma {:induction false} ChainKept(q: Probe, notes: seq<Note>, n: Note)
    requires Chains(q, notes)
    ensures if Matches(n, q) then q.tps != [] && Chains(Joined(q, n), notes + [n]) else Chains(q, notes + [n])
  {
    OfNameMore(notes, n, (q.fun, q.prb));
    var xs := OfName(notes, (q.fun, q.prb));
    if Matches(n, q) { ChainedMore(xs, n); } else { assert xs + [] == xs; }
  }

  lemma {:induction false} ChainOfOne(q: Probe, notes: seq<Note>, n: Note)
    requires NameOf(n) !in NamesOf(notes) && Matches(n, q) && q.tps == [n]
    ensures Chains(q, notes + [n])
  {
    hide First, NamesOf;
    NamesMore(notes, n);
    OfNameFirst(notes, NameOf(n));
    OfNameMore(notes, n, NameOf(n));
  }

  /** A note for a function and probe that are new ... */
  lemma {:induction false} NewName(probes: seq<Probe>, notes: seq<Note>, n: Note, q: Probe)
    requires OneEach(probes, notes) && NameOf(n) !in NamesOf(notes) && Matches(n, q) && q.tps == [n]
    ensures forall a :: 0 <= a < |probes| ==> !Matches(n, probes[a])
    ensures OneEach(probes + [q], notes + [n])
  {
    hide First, NamesOf, Single;
    var all, probes' := notes + [n], probes + [q];
    NamesMore(notes, n);
    FirstKept(notes, n, NameOf(n));
    forall a | 0 <= a < |probes| ensures !Matches(n, probes[a]) { HeadNamed(probes[a], notes); }
    SingleMore(probes, q);
    forall a | 0 <= a < |probes'| ensures Chains(probes'[a], all) {
      if a < |probes| { ChainKept(probes[a], notes, n); } else { ChainOfOne(q, notes, n); }
    }
    hide Chains;
    MatchedAll(probes, probes', notes, n, |probes|);
  }

  lemma {:induction false} HeadNamed(q: Probe, notes: seq<Note>)
    requires Chains(q, notes)
    ensures (q.fun, q.prb) in NamesOf(notes)
  {
    OfNameFirst(notes, (q.fun, q.prb));
    assert NameOf(notes[First(notes, (q.fun, q.prb))]) == (q.fun, q.prb);
  }

  lemma {:induction false} SingleMore(probes: seq<Probe>, q: Probe)
    requires Single(probes) && forall a :: 0 <= a < |probes| ==> !SameNames(probes[a], q)
    ensures Single(probes + [q])
  {
    var all := probes + [q];
    forall a, b | 0 <= a < b < |all| ensures !SameNames(all[a], all[b]) {
      if b < |probes| { assert !SameNames(probes[a], probes[b]); }
    }
  }

  lemma {:induction false} MatchedAll(probes: seq<Probe>, probes': seq<Probe>, notes: seq<Note>, n: Note, k: nat)
    requires |probes| <= |probes'| && forall a :: 0 <= a < |probes| ==> SameNames(probes[a], probes'[a])
    requires k < |probes'| && Matches(n, probes'[k])
    requires forall i :: 0 <= i < |notes| ==> HasProbe(probes, notes[i])
    ensures var all := notes + [n]; forall i :: 0 <= i < |all| ==> HasProbe(probes', all[i])
  {
    var all := notes + [n];
    forall i | 0 <= i < |all| ensures HasProbe(probes', all[i]) {
      if i < |notes| {
        assert HasProbe(probes, notes[i]);
        var a :| 0 <= a < |probes| && Matches(notes[i], probes[a]);
        assert Matches(all[i], probes'[a]);
      } else {
        assert Matches(all[i], probes'[k]);
      }
    }
  }

  /** ... gets a probe of its own. */
  lemma {:induction false} GetsNew(p: Provider, notes: seq<Note>, n: Note)
    requires OneEach(p.probes, notes) && n.prb in p.decls && NameOf(n) !in NamesOf(notes)
    ensures OneEach(Added(p, n).probes, notes + [n])
  {
    hide OneEach, NamesOf, Slots, Hval;
    NewName(p.probes, notes, n, Probe(n.mod, n.fun, n.prb, 1, p.decls[n.prb], [n]));
    var k := FindProbe(p, n);
    assert k.None?;
  }

  /** The only probe that a note belongs to. */
  lemma {:induction false} OldName(probes: seq<Probe>, notes: seq<Note>, n: Note) returns (k: nat)
    requires OneEach(probes, notes) && NameOf(n) in NamesOf(notes)
    ensures First(notes, NameOf(n)) < |notes|
    ensures k < |probes| && Matches(n, probes[k]) && probes[k].tps != []
    ensures probes[k].tps[0] == notes[First(notes, NameOf(n))]
    ensures forall a :: 0 <= a < |probes| && a != k ==> !Matches(n, probes[a])
  {
    hide First, NamesOf;
    NamesMore(notes, n);
    var f := First(notes, NameOf(n));
    assert HasProbe(probes, notes[f]);
    k :| 0 <= k < |probes| && Matches(notes[f], probes[k]);
    assert Chains(probes[k], notes);
    OfNameFirst(notes, NameOf(n));
    forall a | 0 <= a < |probes| && a != k ensures !Matches(n, probes[a]) { OnlyMatch(probes, n, k, a); }
  }

  /** And when it is found. */
  lemma {:induction false} FoundIfMet(p: Provider, mod: string, notes: seq<Note>, n: Note) returns (k: nat)
    requires OneEach(p.probes, notes) && NameOf(n) in NamesOf(notes) && Fitting(p, mod, notes + [n])
    ensures k < |p.probes| && Matches(n, p.probes[k]) && p.probes[k].tps != []
    ensures FindProbe(p, n) == if Met(|p.decls|, notes + [n], |notes|) then Some(k) else None
  {
    hide Hval, First, TableSize, NamesOf, FindProbe, Findable, Fitting, Met, Single, Chains, HasProbe;
    k := OldName(p.probes, notes, n);
    var f, q := First(notes, NameOf(n)), p.probes[k];
    FitsAlike(p, mod, notes, n, f);
    MetIs(|p.decls|, notes, n);
    FindableIs(Slots(p), n, q);
    OnlyOne(p, n, k);
  }

  lemma {:induction false} FitsAlike(p: Provider, mod: string, notes: seq<Note>, n: Note, f: nat)
    requires Fitting(p, mod, notes + [n]) && f < |notes| && NameOf(n) == NameOf(notes[f])
    ensures Wanted(n) == Wanted(notes[f])
  {
    hide Hval;
    assert (notes + [n])[f] == notes[f] && (notes + [n])[|notes|] == n;
    WantedSame(n, notes[f]);
  }

  lemma {:induction false} FindableIs(size: nat, n: Note, q: Probe)
    requires size >= 1 && q.tps != [] && Matches(n, q) && Wanted(n) == Wanted(q.tps[0])
    ensures Findable(size, n, q) <==> Hval(q.tps[0]) % size == Wanted(q.tps[0]) % size
  {
    hide Hval;
  }

  lemma {:induction false} OnlyOne(p: Provider, n: Note, k: nat)
    requires k < |p.probes| && forall a :: 0 <= a < |p.probes| && a != k ==> !Matches(n, p.probes[a])
    ensures FindProbe(p, n) == if Findable(Slots(p), n, p.probes[k]) then Some(k) else None
  {
    hide Hval, Slots;
    var r := FindProbe(p, n);
    if r.Some? { assert Matches(n, p.probes[r.value]); }
  }

  lemma {:induction false} MetIs(decls: nat, notes: seq<Note>, n: Note)
    requires First(notes, NameOf(n)) < |notes|
    ensures var f, size := First(notes, NameOf(n)), TableSize(decls + |NamesOf(notes)|);
      Met(decls, notes + [n], |notes|) <==> Hval(notes[f]) % size == Wanted(notes[f]) % size
  {
    hide Hval, First, TableSize, NamesOf;
    var all, f := notes + [n], First(notes, NameOf(n));
    assert all[|notes|] == n && all[..|notes|] == notes && all[f] == notes[f];
    FirstKept(notes, n, NameOf(n));
  }

  lemma {:induction false} WantedSame(n: Note, m: Note)
    requires n.prv == m.prv && n.mod == m.mod && NameOf(n) == NameOf(m)
    ensures Wanted(n) == Wanted(m)
  {
    hide Str2Hval;
  }

  /** It is found: the note joins the probe. */
  lemma {:induction false} JoinsIt(p: Provider, notes: seq<Note>, n: Note, k: nat)
    requires OneEach(p.probes, notes) && NameOf(n) in NamesOf(notes) && n.prb in p.decls
    requires k < |p.probes| && Matches(n, p.probes[k]) && p.probes[k].tps != [] && FindProbe(p, n) == Some(k)
    ensures OneEach(Added(p, n).probes, notes + [n])
  {
    hide Slots, Hval;
    assert Added(p, n).probes == p.probes[k := Joined(p.probes[k], n)];
    hide FindProbe, Added, OneEach, NamesOf;
    HeadStays(p.probes, notes, n, k);
  }

  lemma {:induction false} HeadStays(probes: seq<Probe>, notes: seq<Note>, n: Note, k: nat)
    requires OneEach(probes, notes) && NameOf(n) in NamesOf(notes)
    requires k < |probes| && Matches(n, probes[k]) && probes[k].tps != []
    ensures OneEach(probes[k := Joined(probes[k], n)], notes + [n])
  {
    hide First, NamesOf, Single;
    var all, probes' := notes + [n], probes[k := Joined(probes[k], n)];
    NamesMore(notes, n);
    assert NamesOf(all) == NamesOf(notes);
    forall a | 0 <= a < |probes| ensures SameNames(probes[a], probes'[a]) && Chains(probes'[a], all) {
      assert Chains(probes[a], notes);
      ChainKept(probes[a], notes, n);
      if a != k { OnlyMatch(probes, n, k, a); }
    }
    SingleAlike(probes, probes');
    hide Chains;
    MatchedAll(probes, probes', notes, n, k);
  }

  lemma {:induction false} OnlyMatch(probes: seq<Probe>, n: Note, k: nat, a: nat)
    requires Single(probes) && k < |probes| && a < |probes| && a != k && Matches(n, probes[k])
    ensures !Matches(n, probes[a])
  {
    assert !SameNames(probes[if a < k then a else k], probes[if a < k then k else a]);
  }

  lemma {:induction false} SingleAlike(probes: seq<Probe>, probes': seq<Probe>)
    requires |probes| == |probes'| && forall a :: 0 <= a < |probes| ==> SameNames(probes[a], probes'[a])
    requires Single(probes)
    ensures Single(probes')
  {
    forall a, b | 0 <= a < b < |probes'| ensures !SameNames(probes'[a], probes'[b]) {
      assert !SameNames(probes[a], probes[b]);
    }
  }

  /** What is there twice stays there twice. */
  lemma {:induction false} StaysDouble(p: Provider, n: Note)
    requires !Single(p.probes) && n.prb in p.decls
    ensures !Single(Added(p, n).probes)
  {
    hide Slots, Hval;
    var a, b :| 0 <= a < b < |p.probes| && SameNames(p.probes[a], p.probes[b]);
    var p' := Added(p, n);
    assert SameNames(p.probes[a], p'.probes[a]) && SameNames(p.probes[b], p'.probes[b]);
    assert SameNames(p'.probes[a], p'.probes[b]);
  }

  lemma {:induction false} MetBefore(decls: nat, notes: seq<Note>, n: Note)
    ensures AllMet(decls, notes + [n]) <==> AllMet(decls, notes) && Met(decls, notes + [n], |notes|)
  {
    hide Hval, TableSize, First, NamesOf;
    var all := notes + [n];
    forall i | 0 <= i < |notes| ensures Met(decls, all, i) == Met(decls, notes, i) {
      assert all[i] == notes[i] && all[..i] == notes[..i];
      FirstKept(notes, n, NameOf(notes[i]));
      var f := First(notes, NameOf(notes[i]));
      assert f <= i;
      assert all[f] == notes[f];
    }
    if AllMet(decls, all) {
      forall i | 0 <= i < |notes| ensures Met(decls, notes, i) { assert Met(decls, all, i); }
    }
  }

  /** The notes of a provider are grouped by function and probe exactly if all are met. */
  lemma {:induction false} GroupedOne(p: Provider, mod: string, notes: seq<Note>)
    requires p.probes == [] && Fitting(p, mod, notes)
    ensures var q := AddAll(p, notes);
      if AllMet(|p.decls|, notes) then OneEach(q.probes, notes) else !Single(q.probes)
  {
    hide Added, Met, Single, NamesOf, Chains;
    if notes == [] {
      NothingYet(p);
    } else {
      var m := |notes| - 1;
      var before, n := notes[..m], notes[m];
      assert notes == before + [n];
      GroupedOne(p, mod, before);
      MetBefore(|p.decls|, before, n);
      AddAllAlike(p, before);
      var q := AddAll(p, before);
      assert AddAll(p, notes) == Added(q, n);
      if AllMet(|p.decls|, before) {
        if NameOf(n) in NamesOf(before) {
          var k := FoundIfMet(q, mod, before, n);
          if Met(|p.decls|, notes, m) { JoinsIt(q, before, n, k); } else { BecomesDouble(q, n, k); }
        } else {
          GetsNew(q, before, n);
          NewMet(|p.decls|, before, n);
        }
      } else {
        StaysDouble(q, n);
      }
    }
  }

  lemma {:induction false} NothingYet(p: Provider)
    requires p.probes == []
    ensures OneEach(p.probes, []) && AllMet(|p.decls|, [])
  {
  }

  lemma {:induction false} NewMet(decls: nat, notes: seq<Note>, n: Note)
    requires NameOf(n) !in NamesOf(notes)
    ensures Met(decls, notes + [n], |notes|)
  {
    hide First, TableSize, Hval;
    NamesMore(notes, n);
    FirstKept(notes, n, NameOf(n));
    assert (notes + [n])[|notes|] == n;
  }

  lemma {:induction false} BecomesDouble(p: Provider, n: Note, k: nat)
    requires k < |p.probes| && Matches(n, p.probes[k]) && FindProbe(p, n) == None && n.prb in p.decls
    ensures !Single(Added(p, n).probes)
  {
    hide Slots, Hval;
    var p' := Added(p, n);
    assert SameNames(p'.probes[k], p'.probes[|p.probes|]);
  }

  // ----- all providers -----

  /** A provider's probes all are of one module. */
  predicate OfModule(probes: seq<Probe>, mod: string) {
    forall a :: 0 <= a < |probes| ==> probes[a].mod == mod
  }

  lemma {:induction false} AddAllModule(p: Provider, mod: string, notes: seq<Note>)
    requires p.probes == [] && Fitting(p, mod, notes)
    ensures OfModule(AddAll(p, notes).probes, mod)
  {
    hide Slots, Hval;
    if notes != [] {
      var m := |notes| - 1;
      AddAllModule(p, mod, notes[..m]);
      var q := AddAll(p, notes[..m]);
      assert Fitting(p, mod, notes) && notes[m].mod == mod;
    }
  }

  /** Then no file is there twice exactly if no function has a probe twice. */
  lemma {:induction false} SingleFresh(name: string, mod: string, probes: seq<Probe>, done: set<Spec>)
    requires OfModule(probes, mod) && forall x :: x in done ==> x.prv != name
    ensures Fresh(SpecsOf(name, probes), done) <==> Single(probes)
  {
    var specs := SpecsOf(name, probes);
    forall a | 0 <= a < |probes| ensures specs[a] == SpecOf(name, probes[a]) && specs[a] !in done {
    }
    if Single(probes) {
      forall a, b | 0 <= a < b < |specs| ensures specs[a] != specs[b] {
        assert !SameNames(probes[a], probes[b]);
      }
    }
    if Fresh(specs, done) {
      forall a, b | 0 <= a < b < |probes| ensures !SameNames(probes[a], probes[b]) {
        assert specs[a] != specs[b];
      }
    }
  }

  /** Providers that have probes have different names. */
  predicate NamesApart(provs: seq<Provider>) {
    forall i, j :: 0 <= i < j < |provs| && provs[i].probes != [] && provs[j].probes != [] ==>
      provs[i].name != provs[j].name
  }

  ghost predicate Untouched(provs: seq<Provider>, done: set<Spec>) {
    forall i, x :: 0 <= i < |provs| && provs[i].probes != [] && x in done ==> x.prv != provs[i].name
  }

  lemma {:induction false} AllFresh(provs: seq<Provider>, mod: string, done: set<Spec>)
    requires NamesApart(provs) && Untouched(provs, done)
    requires forall k :: 0 <= k < |provs| ==> provs[k].probec == |provs[k].probes| && OfModule(provs[k].probes, mod)
    ensures Fresh(AllSpecs(provs), done) <==> forall k :: 0 <= k < |provs| ==> Single(provs[k].probes)
    decreases |provs|
  {
    hide SpecsOf, Single, OfModule;
    if provs == [] {
      hide Fresh;
      FreshNone(done);
    } else {
      var p, rest := provs[0], provs[1..];
      var mine := if p.probec > 0 then SpecsOf(p.name, p.probes) else [];
      assert AllSpecs(provs) == mine + AllSpecs(rest);
      FreshJoin(mine, AllSpecs(rest), done);
      FirstFresh(p, mod, done);
      assert Untouched(rest, done + Members(mine)) by { RestUntouched(provs, done); }
      hide Fresh, Members;
      AllFresh(rest, mod, done + Members(mine));
      assert (forall k :: 0 <= k < |provs| ==> Single(provs[k].probes)) <==>
        Single(p.probes) && forall k :: 0 <= k < |rest| ==> Single(rest[k].probes) by { OneAndRest(provs); }
    }
  }

  lemma {:induction false} OneAndRest(provs: seq<Provider>)
    requires provs != []
    ensures (forall k :: 0 <= k < |provs| ==> Single(provs[k].probes)) <==>
      Single(provs[0].probes) && forall k :: 0 <= k < |provs[1..]| ==> Single(provs[1..][k].probes)
  {
    hide Single;
    var rest := provs[1..];
    if forall k :: 0 <= k < |provs| ==> Single(provs[k].probes) {
      forall k | 0 <= k < |rest| ensures Single(rest[k].probes) { assert rest[k] == provs[k + 1]; }
    }
    if Single(provs[0].probes) && forall k :: 0 <= k < |rest| ==> Single(rest[k].probes) {
      forall k | 0 <= k < |provs| ensures Single(provs[k].probes) {
        if k > 0 { assert provs[k] == rest[k - 1]; }
      }
    }
  }

  lemma {:induction false} FreshNone(done: set<Spec>)
    ensures Fresh([], done)
  {
  }

  lemma {:induction false} FirstFresh(p: Provider, mod: string, done: set<Spec>)
    requires p.probec == |p.probes| && OfModule(p.probes, mod)
    requires p.probes != [] ==> forall x :: x in done ==> x.prv != p.name
    ensures Fresh(if p.probec > 0 then SpecsOf(p.name, p.probes) else [], done) <==> Single(p.probes)
  {
    hide Fresh, SpecsOf, OfModule;
    if p.probes == [] { FreshNone(done); } else { SingleFresh(p.name, mod, p.probes, done); }
  }

  lemma {:induction false} RestUntouched(provs: seq<Provider>, done: set<Spec>)
    requires provs != [] && NamesApart(provs) && Untouched(provs, done) && provs[0].probec == |provs[0].probes|
    ensures var mine := if provs[0].probec > 0 then SpecsOf(provs[0].name, provs[0].probes) else [];
      Untouched(provs[1..], done + Members(mine)) && NamesApart(provs[1..])
  {
    var mine := if provs[0].probec > 0 then SpecsOf(provs[0].name, provs[0].probes) else [];
    var rest := provs[1..];
    forall i, x | 0 <= i < |rest| && rest[i].probes != [] && x in done + Members(mine) ensures x.prv != rest[i].name {
      assert rest[i] == provs[i + 1];
    }
  }

  /** The notes that go to a provider fit it. */
  lemma {:induction false} PartFits(provs: seq<Provider>, mod: string, notes: seq<Note>, k: nat)
    requires k < |provs|
    requires forall i :: 0 <= i < |notes| ==> Known(provs, notes[i]) && notes[i].mod == mod
    ensures Fitting(provs[k], mod, Part(provs, notes, k))
    ensures Part(provs, notes, k) != [] ==> FindProvider(provs, provs[k].name) == k
  {
    if notes != [] {
      var m := |notes| - 1;
      PartFits(provs, mod, notes[..m], k);
      assert Known(provs, notes[m]);
    }
  }

  lemma {:induction false} NoNotes(p: Provider)
    ensures AddAll(p, []) == p
  {
  }

  /** All notes of all providers are met. */
  ghost predicate AllMetBy(provs: seq<Provider>, notes: seq<Note>) {
    forall k :: 0 <= k < |provs| ==> AllMet(|provs[k].decls|, Part(provs, notes, k))
  }

  /** A provider after the grouping of all notes. */
  lemma {:induction false} GroupedAt(provs0: seq<Provider>, mod: string, notes: seq<Note>, provs: seq<Provider>, k: nat)
    requires forall k :: 0 <= k < |provs0| ==> provs0[k].probes == []
    requires forall i :: 0 <= i < |notes| ==> Known(provs0, notes[i]) && notes[i].mod == mod
    requires AreGrouped(provs0, notes, provs) && Good(provs) && k < |provs0|
    ensures provs[k].probec == |provs[k].probes| && OfModule(provs[k].probes, mod)
    ensures Single(provs[k].probes) <==> AllMet(|provs0[k].decls|, Part(provs0, notes, k))
    ensures Single(provs[k].probes) ==> OneEach(provs[k].probes, Part(provs0, notes, k))
    ensures provs[k].name == provs0[k].name && provs[k].decls == provs0[k].decls
    ensures provs[k].probes != [] ==> FindProvider(provs0, provs0[k].name) == k
  {
    hide Part, AddAll, Known, Single, OneEach, OfModule, AllMet, Fitting, FindProvider;
    var part := Part(provs0, notes, k);
    assert GoodProvider(provs[k]);
    PartFits(provs0, mod, notes, k);
    AddAllModule(provs0[k], mod, part);
    GroupedOne(provs0[k], mod, part);
    if AllMet(|provs0[k].decls|, part) { OneEachSingle(provs[k].probes, part); }
    AddAllAlike(provs0[k], part);
    if part == [] { NoNotes(provs0[k]); }
  }

  /** No file is there twice exactly if all notes are met. */
  lemma {:induction false} FreshIfMet(provs0: seq<Provider>, mod: string, notes: seq<Note>, provs: seq<Provider>)
    requires forall k :: 0 <= k < |provs0| ==> provs0[k].probes == []
    requires forall i :: 0 <= i < |notes| ==> Known(provs0, notes[i]) && notes[i].mod == mod
    requires AreGrouped(provs0, notes, provs) && Good(provs)
    ensures Fresh(AllSpecs(provs), {}) <==> AllMetBy(provs0, notes)
    ensures NamesApart(provs)
  {
    hide Part, AddAll, Known, Fresh, AllSpecs, Single, OfModule, AllMet, FindProvider;
    forall k | 0 <= k < |provs0|
      ensures provs[k].probec == |provs[k].probes| && OfModule(provs[k].probes, mod)
      ensures Single(provs[k].probes) <==> AllMet(|provs0[k].decls|, Part(provs0, notes, k))
      ensures provs[k].name == provs0[k].name
      ensures provs[k].probes != [] ==> FindProvider(provs0, provs0[k].name) == k
    {
      GroupedAt(provs0, mod, notes, provs, k);
    }
    AllFresh(provs, mod, {});
  }

  lemma {:induction false} OneEachSingle(probes: seq<Probe>, notes: seq<Note>)
    requires OneEach(probes, notes)
    ensures Single(probes)
  {
  }

  // ----- when notes are met -----

  /** In a table of so many buckets a probe is looked for where it is, whatever its offset. */
  lemma {:induction false} FewBuckets(n: Note, buckets: nat)
    requires buckets <= 34 && n.prv + n.mod + n.fun + n.prb != ""
    ensures Hval(n) % TableSize(buckets) == Wanted(n) % TableSize(buckets)
  {
    hide Str2Hval, TableSize;
    var name := n.prv + n.mod + n.fun + n.prb;
    HvalIs(n);
    HvalIs(n.(off := 0));
    HvalLow(name, n.off);
    HvalLow(name, 0);
    SmallTable(buckets);
    AgreeOn(Hval(n), Wanted(n), 16, TableSize(buckets));
  }

  lemma {:induction false} HvalIs(n: Note)
    ensures Hval(n) == Str2Hval(n.prv + n.mod + n.fun + n.prb, n.off)
  {
    hide Str2Hval;
    HvalJoin(n.prv, n.mod, n.off);
    HvalJoin(n.prv + n.mod, n.fun, n.off);
    HvalJoin(n.prv + n.mod + n.fun, n.prb, n.off);
  }

  /** A provider with at most 34 declared probes and probes in functions: all notes are met. */
  lemma {:induction false} FewMet(decls: nat, notes: seq<Note>)
    requires decls + |NamesOf(notes)| <= 34
    requires forall i :: 0 <= i < |notes| ==> notes[i].prv + notes[i].mod + notes[i].fun + notes[i].prb != ""
    ensures AllMet(decls, notes)
  {
    hide Hval, TableSize;
    forall i | 0 <= i < |notes| ensures Met(decls, notes, i) {
      var f := First(notes, NameOf(notes[i]));
      assert f <= i;
      NamesFewer(notes, i);
      FewBuckets(notes[f], decls + |NamesOf(notes[..i])|);
    }
  }

  lemma {:induction false} NamesFewer(notes: seq<Note>, i: nat)
    requires i <= |notes|
    ensures |NamesOf(notes[..i])| <= |NamesOf(notes)|
  {
    forall x | x in NamesOf(notes[..i]) ensures x in NamesOf(notes) {
      var j :| 0 <= j < |notes[..i]| && NameOf(notes[..i][j]) == x;
      assert notes[j] == notes[..i][j];
    }
    Fewer(NamesOf(notes[..i]), NamesOf(notes));
  }

  lemma {:induction false} Fewer<T>(a: set<T>, b: set<T>)
    requires a <= b
    ensures |a| <= |b|
  {
    assert b == a + (b - a);
  }

  /** Two tracepoints of one probe in one function. */
  const Early := Note("p", "m", "f", "q", 0x1000, false, 0, "")
  const Late := Early.(off := 0x2000)

  lemma {:induction false} EarlyHash()
    ensures Hval(Early) % 32 == 1 && Wanted(Early) % 32 == 17
  {
    hide Mix;
    Rounds("pmfq", 0x1000);
    Rounds("pmfq", 0);
    assert "p" + "m" + "f" + "q" == "pmfq";
    HvalIs(Early);
    HvalIs(Early.(off := 0));
    MixPlain(0x1000, 'p');
    MixPlain(0x1_0070, 'm');
    MixPlain(0x10_076d, 'f');
    MixOne(0x100_7736, 'q');
    MixPlain(0, 'p');
    MixPlain(0x70, 'm');
    MixPlain(0x76d, 'f');
    MixPlain(0x7736, 'q');
  }

  lemma {:induction false} Rounds(s: string, h: Word.U32)
    requires |s| == 4
    ensures Str2Hval(s, h) == Mix(Mix(Mix(Mix(h, s[0]), s[1]), s[2]), s[3])
  {
    hide Mix;
    var h1 := Mix(h, s[0]);
    var h2 := Mix(h1, s[1]);
    var h3 := Mix(h2, s[2]);
    assert Str2Hval(s[3..], h3) == Mix(h3, s[3]) by { assert s[3..][1..] == ""; }
    assert Str2Hval(s[2..], h2) == Str2Hval(s[3..], h3) by { assert s[2..][1..] == s[3..]; }
    assert Str2Hval(s[1..], h1) == Str2Hval(s[2..], h2) by { assert s[1..][1..] == s[2..]; }
  }

  /** A provider that declares 34 probes or more: they end up as two probes of the same name,
      so that the files are not written. */
  lemma {:induction false} TwoProbes(p: Provider)
    requires p.name == "p" && p.probes == [] && "q" in p.decls && |p.decls| >= 34
    ensures var q := AddAll(p, [Early, Late]);
      |q.probes| == 2 && SameNames(q.probes[0], q.probes[1]) && !AllMet(|p.decls|, [Early, Late])
  {
    hide Hval, TableSize;
    EarlyHash();
    SmallTable(|p.decls| + 1);
    var size := TableSize(|p.decls| + 1);
    if Hval(Early) % size == Wanted(Early) % size { AgreeOn(Hval(Early), Wanted(Early), size, 32); }
    var two := [Early, Late];
    assert two[..1] == [Early] && [Early][..0] == [];
    assert NamesOf([Early]) == {("f", "q")} by { assert NameOf([Early][0]) in NamesOf([Early]); }
    assert !Met(|p.decls|, two, 1);
    var q1 := AddAll(p, [Early]);
    NoNotes(p);
    assert q1 == Added(p, Early) && FindProbe(p, Early) == None;
    assert q1.probes == [Probe("m", "f", "q", 1, p.decls["q"], [Early])];
    assert Wanted(Late) == Wanted(Early);
    assert FindProbe(q1, Late) == None;
    assert AddAll(p, two) == Added(q1, Late);
  }

  // ----- several probes of the same name -----

  /** Only the last of several probes of the same name can be found. */
  ghost predicate LastFindable(p: Provider) {
    forall a, b :: 0 <= a < b < |p.probes| && SameNames(p.probes[a], p.probes[b]) ==> Hidden(p.probes[a], Slots(p))
  }

  predicate Hidden(q: Probe, size: nat)
    requires size >= 1
  {
    q.tps != [] && Hval(q.tps[0]) % size != Wanted(q.tps[0]) % size
  }

  lemma {:induction false} HiddenLater(q: Probe, m: nat, n: nat)
    requires m <= n && Hidden(q, TableSize(m))
    ensures Hidden(q, TableSize(n))
  {
    hide Hval, TableSize;
    LaterSize(m, n);
    var x := q.tps[0];
    if Hval(x) % TableSize(n) == Wanted(x) % TableSize(n) { AgreeOn(Hval(x), Wanted(x), TableSize(n), TableSize(m)); }
  }

  lemma {:induction false} HiddenExactly(name: string, n: Note, q: Probe, size: nat)
    requires size >= 1 && GoodProbe(name, q) && Matches(n, q) && n.prv == name && q.tps[0].mod == n.mod
    ensures Findable(size, n, q) <==> !Hidden(q, size)
  {
    hide Hval;
    WantedSame(n, q.tps[0]);
  }

  /** The notes at the heads are of one module. */
  predicate HeadsOf(probes: seq<Probe>, mod: string) {
    forall a :: 0 <= a < |probes| ==> probes[a].tps != [] && probes[a].tps[0].mod == mod
  }

  /** So a look-up does not depend on the order in which they are in their slot ... */
  lemma {:induction false} OthersHidden(p: Provider, mod: string, n: Note)
    requires GoodProvider(p) && HeadsOf(p.probes, mod) && LastFindable(p) && n.prv == p.name && n.mod == mod
    ensures forall a, b :: 0 <= a < b < |p.probes| && SameNames(p.probes[a], p.probes[b]) ==>
      !Findable(Slots(p), n, p.probes[a])
  {
    hide Hval, TableSize;
    forall a, b | 0 <= a < b < |p.probes| && SameNames(p.probes[a], p.probes[b])
      ensures !Findable(Slots(p), n, p.probes[a])
    {
      assert GoodProbe(p.name, p.probes[a]) && Hidden(p.probes[a], Slots(p));
      if Matches(n, p.probes[a]) { HiddenExactly(p.name, n, p.probes[a], Slots(p)); }
    }
  }

  /** ... which adding a note keeps so. */
  lemma {:induction false} LastFindableKept(p: Provider, mod: string, n: Note)
    requires GoodProvider(p) && HeadsOf(p.probes, mod) && LastFindable(p)
    requires n.prv == p.name && n.mod == mod && n.prb in p.decls
    ensures LastFindable(Added(p, n)) && HeadsOf(Added(p, n).probes, mod)
  {
    hide Hval, TableSize;
    var p', k := Added(p, n), FindProbe(p, n);
    forall a, b | 0 <= a < b < |p'.probes| && SameNames(p'.probes[a], p'.probes[b])
      ensures Hidden(p'.probes[a], Slots(p'))
    {
      if b < |p.probes| {
        assert SameNames(p.probes[a], p.probes[b]);
        assert Hidden(p.probes[a], Slots(p));
      } else {
        assert GoodProbe(p.name, p.probes[a]);
        HiddenExactly(p.name, n, p.probes[a], Slots(p));
      }
      if k.None? { HiddenLater(p.probes[a], |p.decls| + |p.probes|, |p'.decls| + |p'.probes|); }
    }
  }
}
