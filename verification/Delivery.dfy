/**
 From the notes of a program to the tracepoints that are handed to the USDT provider: which
 files there are, and what is read from them, in terms of the notes.
 */
module Delivery {
  import opened Basics
  import opened Usdt
  import opened Notes
  import opened ProbeFile

  /** The notes with these names. */
  function For(notes: seq<Note>, spec: Spec): seq<Note> {
    if notes == [] then []
    else
      var n := |notes| - 1;
      For(notes[..n], spec) + if IsFor(notes[n], spec) then [notes[n]] else []
  }

  predicate IsFor(n: Note, spec: Spec) {
    n.prv == spec.prv && n.mod == spec.mod && n.fun == spec.fun && n.prb == spec.prb
  }

  /** They all are among those of the provider. */
  lemma {:induction false} ForPart(provs: seq<Provider>, notes: seq<Note>, k: nat, spec: Spec)
    requires k < |provs| && FindProvider(provs, spec.prv) == k
    requires forall i :: 0 <= i < |notes| ==> notes[i].mod == spec.mod
    ensures For(notes, spec) == OfName(Part(provs, notes, k), (spec.fun, spec.prb))
  {
    if notes != [] {
      var n := |notes| - 1;
      ForPart(provs, notes[..n], k, spec);
      var part := Part(provs, notes[..n], k);
      if FindProvider(provs, notes[n].prv) == k {
        OfNameMore(part, notes[n], (spec.fun, spec.prb));
      } else {
        assert Part(provs, notes, k) == part;
      }
    }
  }

  /** A note with these names, if there is one. */
  lemma {:induction false} ForSome(notes: seq<Note>, spec: Spec) returns (n: Note)
    requires For(notes, spec) != []
    ensures n in notes && IsFor(n, spec)
  {
    var m := |notes| - 1;
    if IsFor(notes[m], spec) {
      n := notes[m];
    } else {
      n := ForSome(notes[..m], spec);
    }
  }

  lemma {:induction false} InPart(provs: seq<Provider>, notes: seq<Note>, n: Note)
    requires n in notes
    ensures n in Part(provs, notes, FindProvider(provs, n.prv))
  {
    hide FindProvider;
    var m := |notes| - 1;
    if notes[m] != n { InPart(provs, notes[..m], n); }
  }

  // ----- the probes of grouped providers -----

  /** Probe `j` of provider `k` has these names. */
  predicate Has(provs: seq<Provider>, k: int, j: int, spec: Spec) {
    0 <= k < |provs| && 0 <= j < |provs[k].probes| && SpecOf(provs[k].name, provs[k].probes[j]) == spec
  }

  /** No two probes have the same names. */
  ghost predicate Apart(provs: seq<Provider>) {
    NamesApart(provs) && forall k :: 0 <= k < |provs| ==> Single(provs[k].probes)
  }

  lemma {:induction false} OnlyOne(provs: seq<Provider>, k: int, j: int, k': int, j': int, spec: Spec)
    requires Apart(provs) && Has(provs, k, j, spec) && Has(provs, k', j', spec)
    ensures k == k' && j == j'
  {
    assert Single(provs[k].probes);
  }

  // ----- the files -----

  lemma {:induction false} FilesHave(base: nat, prov: Provider, probes: seq<Probe>, spec: Spec)
    requires Single(probes)
    ensures spec in FilesOf(base, prov, probes) <==>
      exists j :: 0 <= j < |probes| && SpecOf(prov.name, probes[j]) == spec
    ensures forall j :: 0 <= j < |probes| && SpecOf(prov.name, probes[j]) == spec ==>
      FilesOf(base, prov, probes)[spec] == FileOf(base, prov, probes[j])
    decreases |probes|
  {
    hide FileOf;
    if probes != [] {
      var rest := probes[1..];
      FilesHave(base, prov, rest, spec);
      forall j | 0 < j < |probes| ensures probes[j] == rest[j - 1] && !SameNames(probes[0], probes[j]) { }
      if j :| 0 <= j < |rest| && SpecOf(prov.name, rest[j]) == spec { assert probes[j + 1] == rest[j]; }
    }
  }

  /** There is a file for every probe, and no other. */
  lemma {:induction false} AllFilesHave(base: nat, provs: seq<Provider>, spec: Spec)
    requires Apart(provs) && forall k :: 0 <= k < |provs| ==> provs[k].probec == |provs[k].probes|
    ensures spec in AllFiles(base, provs) <==> exists k, j :: Has(provs, k, j, spec)
    ensures forall k, j :: Has(provs, k, j, spec) ==>
      spec in AllFiles(base, provs) && AllFiles(base, provs)[spec] == FileOf(base, provs[k], provs[k].probes[j])
    decreases |provs|
  {
    hide FileOf, FilesOf, Single;
    if provs != [] {
      var rest := provs[1..];
      assert NamesApart(rest) && Apart(rest);
      AllFilesHave(base, rest, spec);
      FilesHave(base, provs[0], provs[0].probes, spec);
      forall k, j | k > 0 ensures Has(provs, k, j, spec) <==> Has(rest, k - 1, j, spec) { }
      if k, j :| Has(rest, k, j, spec) {
        assert Has(provs, k + 1, j, spec);
        forall j' ensures !Has(provs, 0, j', spec) {
          if Has(provs, 0, j', spec) { OnlyOne(provs, 0, j', k + 1, j, spec); }
        }
      }
      if j :| 0 <= j < |provs[0].probes| && SpecOf(provs[0].name, provs[0].probes[j]) == spec {
        assert Has(provs, 0, j, spec);
      }
    }
  }

  // ----- delivery -----

  /** The arguments that are declared for these names. */
  function ArgsFor(provs: seq<Provider>, spec: Spec): Args
    requires var k := FindProvider(provs, spec.prv); k < |provs| && spec.prb in provs[k].decls
  {
    provs[FindProvider(provs, spec.prv)].decls[spec.prb]
  }

  /** The file for some names: there is one exactly if a note has these names, and what is
      read from it is exactly the notes that do, in the order in which they are linked. */
  ghost predicate Delivered(provs: seq<Provider>, base: nat, notes: seq<Note>, spec: Spec,
                            files: map<Spec, seq<Item>>) {
    && (spec in files <==> For(notes, spec) != [])
    && (spec in files ==>
          && var k := FindProvider(provs, spec.prv);
          && k < |provs| && spec.prb in provs[k].decls
          && var args := ArgsFor(provs, spec);
          if Readable(args) then ReadAs(base, spec, args, Chained(For(notes, spec)), files[spec])
          else !(Begins(files[spec]) && Announced(files[spec])))
  }

  /** The probe with some names has the notes with these names. */
  lemma {:induction false} HasNotes(provs0: seq<Provider>, mod: string, notes: seq<Note>, provs: seq<Provider>, k: nat,
                                    j: nat, spec: Spec)
    requires forall k :: 0 <= k < |provs0| ==> provs0[k].probes == []
    requires forall i :: 0 <= i < |notes| ==> Known(provs0, notes[i]) && notes[i].mod == mod
    requires AreGrouped(provs0, notes, provs) && Good(provs) && AllMetBy(provs0, notes) && Has(provs, k, j, spec)
    ensures FindProvider(provs0, spec.prv) == k
    ensures For(notes, spec) != [] && provs[k].probes[j].tps == Chained(For(notes, spec))
    ensures spec.prb in provs0[k].decls && provs[k].probes[j].args == provs0[k].decls[spec.prb]
  {
    hide Known, AllMet, Part, AddAll, FindProvider, For, Good;
    var p := provs[k].probes[j];
    GroupedAt(provs0, mod, notes, provs, k);
    ForPart(provs0, notes, k, spec);
    assert Chains(p, Part(provs0, notes, k));
    GoodAt(provs, k);
    assert Declared(provs[k], p);
  }

  /** When all notes are met, all of them are delivered, and nothing else. */
  lemma {:induction false} AllDelivered(provs0: seq<Provider>, mod: string, notes: seq<Note>, provs: seq<Provider>,
                                        base: nat, spec: Spec)
    requires forall k :: 0 <= k < |provs0| ==> provs0[k].probes == []
    requires forall i :: 0 <= i < |notes| ==> Known(provs0, notes[i]) && notes[i].mod == mod
    requires AreGrouped(provs0, notes, provs) && Good(provs) && AllMetBy(provs0, notes)
    ensures Delivered(provs0, base, notes, spec, AllFiles(base, provs))
  {
    hide Known, AllFiles, AllMet, Part, AddAll, FindProvider, For, Begins, Announced, ReadAs, Good, Chained, OneEach;
    FreshIfMet(provs0, mod, notes, provs);
    forall k | 0 <= k < |provs|
      ensures OfModule(provs[k].probes, mod) && Single(provs[k].probes) && provs[k].probec == |provs[k].probes|
    {
      GroupedAt(provs0, mod, notes, provs, k);
    }
    AllFilesHave(base, provs, spec);
    if k, j :| Has(provs, k, j, spec) {
      HasNotes(provs0, mod, notes, provs, k, j, spec);
      assert GoodProvider(provs[k]) by { GoodAt(provs, k); }
      assert GoodProbe(provs[k].name, provs[k].probes[j]);
      FileTells(base, provs[k], provs[k].probes[j]);
    } else if For(notes, spec) != [] {
      var k, j := NotesHave(provs0, mod, notes, provs, spec);
      assert false;
    }
  }

  lemma {:induction false} NotesHave(provs0: seq<Provider>, mod: string, notes: seq<Note>, provs: seq<Provider>,
                                     spec: Spec) returns (k: nat, j: nat)
    requires forall k :: 0 <= k < |provs0| ==> provs0[k].probes == []
    requires forall i :: 0 <= i < |notes| ==> Known(provs0, notes[i]) && notes[i].mod == mod
    requires AreGrouped(provs0, notes, provs) && Good(provs) && AllMetBy(provs0, notes) && For(notes, spec) != []
    ensures Has(provs, k, j, spec)
  {
    hide AllMet, Part, AddAll, For, Good, Chains;
    var n := ForSome(notes, spec);
    k := FindProvider(provs0, n.prv);
    assert Known(provs0, n);
    var part := Part(provs0, notes, k);
    InPart(provs0, notes, n);
    GroupedAt(provs0, mod, notes, provs, k);
    var i :| 0 <= i < |part| && part[i] == n;
    assert HasProbe(provs[k].probes, part[i]);
    var a :| 0 <= a < |provs[k].probes| && Matches(n, provs[k].probes[a]);
    j := a;
  }

  lemma {:induction false} GoodAt(provs: seq<Provider>, k: nat)
    requires Good(provs) && k < |provs|
    ensures GoodProvider(provs[k])
  {
  }

  /** From the notes of a module to files.  Exactly if the notes fit the providers there is a
      stream; it is always accepted, and written exactly if all notes are met: the files are
      then those of the grouped probes, whose tracepoints are exactly the notes, and so is what
      is read from them. */
  method Pipeline(provs0: seq<Provider>, mod: string, notes: seq<Note>, base: nat, count: Rec -> nat)
    returns (grouped: Outcome<seq<Provider>>, files: Option<map<Spec, seq<Item>>>)
    requires Good(provs0) && forall k :: 0 <= k < |provs0| ==> provs0[k].probes == []
    requires forall i :: 0 <= i < |notes| ==> notes[i].mod == mod
    requires forall r :: Counts(count, r)
    ensures grouped.Ok? <==> forall i :: 0 <= i < |notes| ==> Known(provs0, notes[i])
    ensures grouped.Ok? ==> Good(grouped.value) && multiset(AllTps(grouped.value)) == multiset(notes)
    ensures grouped.Ok? ==> files == if AllMetBy(provs0, notes) then Some(AllFiles(base, grouped.value)) else None
    ensures grouped.Failed? ==> files == None
    ensures files.Some? ==> forall spec :: Delivered(provs0, base, notes, spec, files.value)
  {
    hide Delivered, AllTps, AllFiles, ReadProviders, Stream, WriteAll, Fresh, AllSpecs, Known, AllMetBy, AreGrouped;
    grouped := GroupNotes(provs0, notes);
    files := None;
    if grouped.Ok? {
      var provs := grouped.value;
      NoTracepoints(provs0);
      FreshIfMet(provs0, mod, notes, provs);
      GoodPrintable(provs);
      var pipe := new Pipe();
      pipe.EmitAll(base, provs);
      ReadStream(base, provs, count, []);
      assert [] + Stream(base, provs) == Stream(base, provs) && Stream(base, provs) + [] == Stream(base, provs);
      NonEmpty(base, provs);
      var accum := Accumulate(pipe.out, count);
      assert accum.value + [] == accum.value;
      ghost var w := WriteStream(base, provs);
      files := WriteParsed(accum.value);
      if files.Some? {
        forall spec ensures Delivered(provs0, base, notes, spec, files.value) {
          AllDelivered(provs0, mod, notes, provs, base, spec);
        }
      }
    }
  }

  lemma {:induction false} NoTracepoints(provs: seq<Provider>)
    requires forall k :: 0 <= k < |provs| ==> provs[k].probes == []
    ensures AllTps(provs) == []
  {
    if provs != [] { NoTracepoints(provs[..|provs| - 1]); }
  }
}
