/**
 Linking a program with the library functions it calls (dt_link() and the functions
 it calls, libdtrace/dt_cc.c): a first depth-first walk over the relocations decides
 where every function goes, a second one in the same order copies code and relocation
 records, and a last pass over the records fills in the instructions.
 */
module Linker {
  import opened Basics

  /** An instruction, as far as linking looks at it. */
  datatype Slot = Slot(call: bool, rest: nat, imm: int)

  datatype Kind = NoReloc | Wide | Narrow

  /** A relocation record; `offset` is in bytes, eight to an instruction. */
  datatype Record = Record(name: string, kind: Kind, offset: nat, data: int)

  /** A compiled function: its code and its relocation records. */
  datatype Difo = Difo(code: seq<Slot>, relocs: seq<Record>)

  /** An external function; `ready` ones have been linked before (DT_IDFLG_CGREG). */
  datatype Func = Func(body: Option<Difo>, ready: bool)

  /** A constant: a number, or the number of the instruction it is used in. */
  datatype Constant = Number(value: nat) | Here

  /** The library's name space. */
  datatype Library = Library(funcs: map<string, Func>, consts: map<string, Constant>) {
    predicate Valid() {
      funcs.Keys !! consts.Keys
    }
  }

  /** A function's copy in the linked program. */
  datatype Entry = Entry(name: string, at: nat)

  /** What has been laid out: the functions seen, the length so far, the copies made. */
  datatype Layout = Layout(seen: set<string>, pc: nat, entries: seq<Entry>)

  // ----- the order in which functions are laid out -----

  /** The functions that the records `rels` lead to and `seen` lacks, from `pc` on. */
  function Deps(lib: Library, rels: seq<Record>, seen: set<string>, pc: nat): (r: Option<Layout>)
    ensures r.Some? ==> seen <= r.value.seen
    decreases lib.funcs.Keys - seen, |rels|
  {
    if rels == [] then Some(Layout(seen, pc, []))
    else
      var name := rels[0].name;
      if name !in lib.funcs || name in seen then Deps(lib, rels[1..], seen, pc)
      else if lib.funcs[name].body.None? then None
      else
        var inner := Visit(lib, lib.funcs[name].body.value, lib.funcs[name].ready, seen + {name}, pc);
        if inner.None? then None else
        var rest := Deps(lib, rels[1..], inner.value.seen, inner.value.pc);
        if rest.None? then None else
        Some(Layout(rest.value.seen, rest.value.pc, [Entry(name, pc)] + inner.value.entries + rest.value.entries))
  }

  /** A function at `pc`, followed by what it leads to unless it is linked already. */
  function Visit(lib: Library, d: Difo, ready: bool, seen: set<string>, pc: nat): (r: Option<Layout>)
    ensures r.Some? ==> seen <= r.value.seen
    decreases lib.funcs.Keys - seen, |d.relocs| + 1
  {
    if ready then Some(Layout(seen, pc + |d.code|, []))
    else Deps(lib, d.relocs, seen, pc + |d.code|)
  }

  function Names(entries: seq<Entry>): set<string> {
    set i | 0 <= i < |entries| :: entries[i].name
  }

  function BodyOf(lib: Library, name: string): Difo {
    if name in lib.funcs && lib.funcs[name].body.Some? then lib.funcs[name].body.value else Difo([], [])
  }

  /** Entry by entry without gaps, from `pc` up to `end`. */
  ghost predicate Tiles(lib: Library, entries: seq<Entry>, pc: nat, end: nat) {
    if entries == [] then pc == end
    else entries[0].at == pc && Tiles(lib, entries[1..], pc + |BodyOf(lib, entries[0].name).code|, end)
  }

  lemma {:induction false} TilesJoin(lib: Library, a: seq<Entry>, b: seq<Entry>, pc: nat, mid: nat, end: nat)
    requires Tiles(lib, a, pc, mid) && Tiles(lib, b, mid, end)
    ensures Tiles(lib, a + b, pc, end)
  {
    if a == [] {
      assert a + b == b;
    } else {
      TilesJoin(lib, a[1..], b, pc + |BodyOf(lib, a[0].name).code|, mid, end);
      assert (a + b)[1..] == a[1..] + b;
    }
  }

  ghost predicate Distinct(entries: seq<Entry>) {
    forall i, j :: 0 <= i < j < |entries| ==> entries[i].name != entries[j].name
  }

  /** What holds of every layout that starts from `seen` at `pc`. */
  ghost predicate Laid(lib: Library, seen: set<string>, pc: nat, l: Layout) {
    && Tiles(lib, l.entries, pc, l.pc)
    && Distinct(l.entries)
    && Names(l.entries) !! seen
    && l.seen == seen + Names(l.entries)
    && (forall i :: 0 <= i < |l.entries| ==> l.entries[i].name in lib.funcs && lib.funcs[l.entries[i].name].body.Some?)
  }

  lemma {:induction false} NamesJoin(a: seq<Entry>, b: seq<Entry>)
    ensures Names(a + b) == Names(a) + Names(b)
  {
    forall x | x in Names(a) + Names(b) ensures x in Names(a + b) {
      if x in Names(a) {
        var i :| 0 <= i < |a| && a[i].name == x;
        assert (a + b)[i].name == x;
      } else {
        var i :| 0 <= i < |b| && b[i].name == x;
        assert (a + b)[|a| + i].name == x;
      }
    }
  }

  lemma {:induction false} LaidJoin(lib: Library, seen: set<string>, pc: nat, l: Layout, m: Layout)
    requires Laid(lib, seen, pc, l) && Laid(lib, l.seen, l.pc, m)
    ensures Laid(lib, seen, pc, Layout(m.seen, m.pc, l.entries + m.entries))
  {
    hide Tiles;
    TilesJoin(lib, l.entries, m.entries, pc, l.pc, m.pc);
    NamesJoin(l.entries, m.entries);
    var es := l.entries + m.entries;
    forall i, j | 0 <= i < j < |es| ensures es[i].name != es[j].name {
      if i < |l.entries| <= j {
        assert l.entries[i].name in Names(l.entries);
        assert m.entries[j - |l.entries|].name in Names(m.entries);
      }
    }
  }

  lemma {:induction false} LaidOne(lib: Library, name: string, seen: set<string>, pc: nat, l: Layout)
    requires name in lib.funcs && lib.funcs[name].body.Some? && name !in seen
    requires Laid(lib, seen + {name}, pc + |BodyOf(lib, name).code|, l)
    ensures Laid(lib, seen, pc, Layout(l.seen, l.pc, [Entry(name, pc)] + l.entries))
  {
    var one := [Entry(name, pc)];
    assert Tiles(lib, one, pc, pc + |BodyOf(lib, name).code|) by {
      assert one[1..] == [];
    }
    assert Names(one) == {name} by { assert one[0].name == name; }
    LaidJoin(lib, seen, pc, Layout(seen + {name}, pc + |BodyOf(lib, name).code|, one), l);
  }

  /** Every function is laid out at most once, and the copies tile the program. */
  lemma {:induction false} DepsLaid(lib: Library, rels: seq<Record>, seen: set<string>, pc: nat)
    requires Deps(lib, rels, seen, pc).Some?
    ensures Laid(lib, seen, pc, Deps(lib, rels, seen, pc).value)
    decreases lib.funcs.Keys - seen, |rels|
  {
    hide Laid;
    if rels == [] {
      LaidNone(lib, seen, pc);
    } else {
      var name := rels[0].name;
      if name !in lib.funcs || name in seen {
        DepsLaid(lib, rels[1..], seen, pc);
      } else {
        var d, ready := lib.funcs[name].body.value, lib.funcs[name].ready;
        var inner := Visit(lib, d, ready, seen + {name}, pc).value;
        VisitLaid(lib, d, ready, seen + {name}, pc);
        LaidOne(lib, name, seen, pc, inner);
        DepsLaid(lib, rels[1..], inner.seen, inner.pc);
        var rest := Deps(lib, rels[1..], inner.seen, inner.pc).value;
        LaidJoin(lib, seen, pc, Layout(inner.seen, inner.pc, [Entry(name, pc)] + inner.entries), rest);
        assert [Entry(name, pc)] + inner.entries + rest.entries == Deps(lib, rels, seen, pc).value.entries;
      }
    }
  }

  lemma {:induction false} LaidNone(lib: Library, seen: set<string>, pc: nat)
    ensures Laid(lib, seen, pc, Layout(seen, pc, []))
  {
  }

  lemma {:induction false} VisitLaid(lib: Library, d: Difo, ready: bool, seen: set<string>, pc: nat)
    requires Visit(lib, d, ready, seen, pc).Some?
    ensures Laid(lib, seen, pc + |d.code|, Visit(lib, d, ready, seen, pc).value)
    decreases lib.funcs.Keys - seen, |d.relocs| + 1
  {
    if ready {
      LaidNone(lib, seen, pc + |d.code|);
    } else {
      DepsLaid(lib, d.relocs, seen, pc + |d.code|);
    }
  }

  // ----- which functions those are -----

  ghost predicate Mentions(rels: seq<Record>, name: string) {
    exists i :: 0 <= i < |rels| && rels[i].name == name
  }

  /** A chain of calls that starts in `rels`, avoids `stop`, and does not go through
      functions that are linked already. */
  ghost predicate Chain(lib: Library, rels: seq<Record>, stop: set<string>, path: seq<string>)
    decreases |path|
  {
    && |path| > 0 && Mentions(rels, path[0]) && path[0] in lib.funcs && path[0] !in stop
    && (|path| > 1 ==>
          && lib.funcs[path[0]].body.Some? && !lib.funcs[path[0]].ready
          && Chain(lib, lib.funcs[path[0]].body.value.relocs, stop, path[1..]))
  }

  ghost predicate Reachable(lib: Library, rels: seq<Record>, stop: set<string>, name: string) {
    exists path :: Chain(lib, rels, stop, path) && path[|path| - 1] == name
  }

  lemma {:induction false} ChainWider(lib: Library, rels: seq<Record>, stop: set<string>, rels': seq<Record>,
                                      stop': set<string>,
                                      path: seq<string>)
    requires Chain(lib, rels, stop, path) && stop' <= stop
    requires forall x :: Mentions(rels, x) ==> Mentions(rels', x)
    ensures Chain(lib, rels', stop', path)
    decreases |path|
  {
    if |path| > 1 {
      var next := lib.funcs[path[0]].body.value.relocs;
      ChainWider(lib, next, stop, next, stop', path[1..]);
    }
  }

  lemma {:induction false} ReachableWider(lib: Library, rels: seq<Record>, stop: set<string>, rels': seq<Record>,
                                          stop': set<string>,
                                          name: string)
    requires Reachable(lib, rels, stop, name) && stop' <= stop
    requires forall x :: Mentions(rels, x) ==> Mentions(rels', x)
    ensures Reachable(lib, rels', stop', name)
  {
    var path :| Chain(lib, rels, stop, path) && path[|path| - 1] == name;
    ChainWider(lib, rels, stop, rels', stop', path);
  }

  lemma {:induction false} ReachableThrough(lib: Library, rels: seq<Record>, stop: set<string>, via: string,
                                            name: string)
    requires Mentions(rels, via) && via in lib.funcs && via !in stop && lib.funcs[via].body.Some?
    requires !lib.funcs[via].ready
    requires Reachable(lib, lib.funcs[via].body.value.relocs, stop, name)
    ensures Reachable(lib, rels, stop, name)
  {
    var next := lib.funcs[via].body.value.relocs;
    var path :| Chain(lib, next, stop, path) && path[|path| - 1] == name;
    var longer := [via] + path;
    assert longer[1..] == path;
    assert Chain(lib, rels, stop, longer);
    assert longer[|longer| - 1] == name;
  }

  lemma {:induction false} ReachableNow(lib: Library, rels: seq<Record>, stop: set<string>, name: string)
    requires Mentions(rels, name) && name in lib.funcs && name !in stop
    ensures Reachable(lib, rels, stop, name)
  {
    assert Chain(lib, rels, stop, [name]);
  }

  lemma {:induction false} MentionsTail(rels: seq<Record>)
    requires rels != []
    ensures Mentions(rels, rels[0].name)
    ensures forall x :: Mentions(rels[1..], x) ==> Mentions(rels, x)
    ensures forall x :: Mentions(rels, x) ==> x == rels[0].name || Mentions(rels[1..], x)
  {
    forall x | Mentions(rels[1..], x) ensures Mentions(rels, x) {
      var i :| 0 <= i < |rels[1..]| && rels[1..][i].name == x;
      assert rels[i + 1].name == x;
    }
    forall x | Mentions(rels, x) ensures x == rels[0].name || Mentions(rels[1..], x) {
      var i :| 0 <= i < |rels| && rels[i].name == x;
      if i > 0 { assert rels[1..][i - 1].name == x; }
    }
  }

  /** Only functions that are called, directly or not, are laid out. */
  lemma {:induction false} DepsSound(lib: Library, rels: seq<Record>, seen: set<string>, pc: nat, name: string)
    requires Deps(lib, rels, seen, pc).Some? && name in Names(Deps(lib, rels, seen, pc).value.entries)
    ensures Reachable(lib, rels, seen, name)
    decreases lib.funcs.Keys - seen, |rels|
  {
    hide Reachable, Mentions;
    if rels != [] {
      var first := rels[0].name;
      MentionsTail(rels);
      if first !in lib.funcs || first in seen {
        DepsSound(lib, rels[1..], seen, pc, name);
        ReachableWider(lib, rels[1..], seen, rels, seen, name);
      } else {
        var d, ready := lib.funcs[first].body.value, lib.funcs[first].ready;
        var inner := Visit(lib, d, ready, seen + {first}, pc).value;
        var rest := Deps(lib, rels[1..], inner.seen, inner.pc).value;
        NamesJoin([Entry(first, pc)], inner.entries);
        NamesJoin([Entry(first, pc)] + inner.entries, rest.entries);
        if name == first {
          ReachableNow(lib, rels, seen, name);
        } else if name in Names(inner.entries) {
          DepsSound(lib, d.relocs, seen + {first}, pc + |d.code|, name);
          ReachableWider(lib, d.relocs, seen + {first}, d.relocs, seen, name);
          ReachableThrough(lib, rels, seen, first, name);
        } else {
          DepsSound(lib, rels[1..], inner.seen, inner.pc, name);
          ReachableWider(lib, rels[1..], inner.seen, rels, seen, name);
        }
      }
    }
  }

  /** Linking fails only for a function that is called and has no definition. */
  lemma {:induction false} DepsFails(lib: Library, rels: seq<Record>, seen: set<string>, pc: nat) returns (name: string)
    requires Deps(lib, rels, seen, pc).None?
    ensures Reachable(lib, rels, seen, name) && name in lib.funcs && lib.funcs[name].body.None?
    decreases lib.funcs.Keys - seen, |rels|
  {
    hide Reachable, Mentions;
    var first := rels[0].name;
    MentionsTail(rels);
    if first !in lib.funcs || first in seen {
      name := DepsFails(lib, rels[1..], seen, pc);
      ReachableWider(lib, rels[1..], seen, rels, seen, name);
    } else if lib.funcs[first].body.None? {
      name := first;
      ReachableNow(lib, rels, seen, name);
    } else {
      var d, ready := lib.funcs[first].body.value, lib.funcs[first].ready;
      var inner := Visit(lib, d, ready, seen + {first}, pc);
      if inner.None? {
        name := DepsFails(lib, d.relocs, seen + {first}, pc + |d.code|);
        ReachableWider(lib, d.relocs, seen + {first}, d.relocs, seen, name);
        ReachableThrough(lib, rels, seen, first, name);
      } else {
        name := DepsFails(lib, rels[1..], inner.value.seen, inner.value.pc);
        ReachableWider(lib, rels[1..], inner.value.seen, rels, seen, name);
      }
    }
  }

  /** Every function that `rels` mentions is in `s`. */
  ghost predicate Follows(lib: Library, rels: seq<Record>, s: set<string>) {
    forall x :: x in lib.funcs && Mentions(rels, x) ==> x in s
  }

  /** `s` is closed under calls, except for what its part `stop` calls. */
  ghost predicate ClosedFrom(lib: Library, stop: set<string>, s: set<string>) {
    forall x :: x in s && x !in stop ==>
      x in lib.funcs && lib.funcs[x].body.Some? &&
          (lib.funcs[x].ready || Follows(lib, lib.funcs[x].body.value.relocs, s))
  }

  lemma {:induction false} FollowsWider(lib: Library, stop: set<string>, s: set<string>, s': set<string>)
    requires ClosedFrom(lib, stop, s) && ClosedFrom(lib, s, s') && s <= s'
    ensures ClosedFrom(lib, stop, s')
  {
  }

  lemma {:induction false} DepsClosed(lib: Library, rels: seq<Record>, seen: set<string>, pc: nat)
    requires Deps(lib, rels, seen, pc).Some?
    ensures var s := Deps(lib, rels, seen, pc).value.seen; Follows(lib, rels, s) && ClosedFrom(lib, seen, s)
    decreases lib.funcs.Keys - seen, |rels|
  {
    hide Mentions;
    if rels == [] {
      assert forall x :: !Mentions(rels, x) by {
        forall x ensures !Mentions(rels, x) { NoMentions(x); }
      }
    } else {
      var first := rels[0].name;
      MentionsTail(rels);
      if first !in lib.funcs || first in seen {
        DepsClosed(lib, rels[1..], seen, pc);
      } else {
        var d, ready := lib.funcs[first].body.value, lib.funcs[first].ready;
        var inner := Visit(lib, d, ready, seen + {first}, pc).value;
        if !ready { DepsClosed(lib, d.relocs, seen + {first}, pc + |d.code|); }
        assert ClosedFrom(lib, seen, inner.seen);
        DepsClosed(lib, rels[1..], inner.seen, inner.pc);
        FollowsWider(lib, seen, inner.seen, Deps(lib, rels[1..], inner.seen, inner.pc).value.seen);
      }
    }
  }

  lemma {:induction false} NoMentions(x: string)
    ensures !Mentions([], x)
  {
  }

  lemma {:induction false} ChainInside(lib: Library, rels: seq<Record>, seen: set<string>, s: set<string>,
                                       path: seq<string>)
    requires Follows(lib, rels, s) && ClosedFrom(lib, seen, s) && Chain(lib, rels, seen, path)
    ensures path[|path| - 1] in s && path[|path| - 1] !in seen
    decreases |path|
  {
    hide Mentions;
    assert path[0] in s;
    if |path| > 1 {
      ChainInside(lib, lib.funcs[path[0]].body.value.relocs, seen, s, path[1..]);
    }
  }

  /** The layout succeeds exactly when every function that is called is defined, and
      then holds exactly the functions that are called. */
  lemma {:induction false} LayoutExact(lib: Library, rels: seq<Record>, seen: set<string>, pc: nat)
    ensures Deps(lib, rels, seen, pc).Some? <==>
            forall x :: Reachable(lib, rels, seen, x) ==> x in lib.funcs && lib.funcs[x].body.Some?
    ensures Deps(lib, rels, seen, pc).Some? ==>
            forall x :: Reachable(lib, rels, seen, x) <==> x in Names(Deps(lib, rels, seen, pc).value.entries)
  {
    hide Follows, ClosedFrom, Deps, Names;
    var r := Deps(lib, rels, seen, pc);
    if r.None? {
      var x := DepsFails(lib, rels, seen, pc);
    } else {
      DepsLaid(lib, rels, seen, pc);
      DepsClosed(lib, rels, seen, pc);
      forall x | Reachable(lib, rels, seen, x)
        ensures x in Names(r.value.entries) && x in lib.funcs && lib.funcs[x].body.Some?
      {
        var path :| Chain(lib, rels, seen, path) && path[|path| - 1] == x;
        ChainInside(lib, rels, seen, r.value.seen, path);
        ClosedDefined(lib, seen, r.value.seen, x);
      }
      forall x | x in Names(r.value.entries) ensures Reachable(lib, rels, seen, x) {
        DepsSound(lib, rels, seen, pc, x);
      }
    }
  }

  lemma {:induction false} ClosedDefined(lib: Library, stop: set<string>, s: set<string>, x: string)
    requires ClosedFrom(lib, stop, s) && x in s && x !in stop
    ensures x in lib.funcs && lib.funcs[x].body.Some?
  {
  }

  // ----- the linked program -----

  function Addresses(entries: seq<Entry>): map<string, int> {
    if entries == [] then map[] else map[entries[0].name := entries[0].at] + Addresses(entries[1..])
  }

  lemma {:induction false} AddressesJoin(a: seq<Entry>, b: seq<Entry>)
    ensures Addresses(a + b) == Addresses(a) + Addresses(b)
  {
    if a == [] {
      assert a + b == b;
      assert map[] + Addresses(b) == Addresses(b);
    } else {
      assert (a + b)[0] == a[0] && (a + b)[1..] == a[1..] + b;
      var m := map[a[0].name := a[0].at];
      calc {
        Addresses(a + b);
        m + Addresses(a[1..] + b);
        { AddressesJoin(a[1..], b); }
        m + (Addresses(a[1..]) + Addresses(b));
        { MergeAssoc(m, Addresses(a[1..]), Addresses(b)); }
        m + Addresses(a[1..]) + Addresses(b);
        Addresses(a) + Addresses(b);
      }
    }
  }

  lemma {:induction false} MergeAssoc(a: map<string, int>, b: map<string, int>, c: map<string, int>)
    ensures a + (b + c) == a + b + c
  {
  }

  lemma {:induction false} AddressesKeys(entries: seq<Entry>)
    ensures Addresses(entries).Keys == Names(entries)
  {
    if entries != [] {
      AddressesKeys(entries[1..]);
      assert entries == [entries[0]] + entries[1..];
      NamesJoin([entries[0]], entries[1..]);
      assert Names([entries[0]]) == {entries[0].name} by { assert [entries[0]][0].name == entries[0].name; }
    }
  }

  lemma {:induction false} AddressOf(entries: seq<Entry>, i: nat)
    requires Distinct(entries) && i < |entries|
    ensures entries[i].name in Addresses(entries) && Addresses(entries)[entries[i].name] == entries[i].at
  {
    AddressesKeys(entries[1..]);
    if i > 0 {
      AddressOf(entries[1..], i - 1);
    }
  }

  /** The code of the copies, one after the other. */
  function Codes(lib: Library, entries: seq<Entry>): seq<Slot> {
    if entries == [] then [] else BodyOf(lib, entries[0].name).code + Codes(lib, entries[1..])
  }

  predicate IsReady(lib: Library, name: string) {
    name in lib.funcs && lib.funcs[name].ready
  }

  /** A record as it is copied for a function at `at`: the functions' identifiers
      carry their addresses. */
  function Copied(lib: Library, ids: map<string, int>, r: Record, at: nat): Record {
    Record(r.name, r.kind, r.offset + 8 * at, if r.name in lib.funcs && r.name in ids then ids[r.name] else r.data)
  }

  /** And as it ends up: constants get their values; in a function that is linked
      already, constants are left alone and calls move with the code. */
  function Moved(lib: Library, ids: map<string, int>, r: Record, at: nat, ready: bool): Record {
    var c := Copied(lib, ids, r, at);
    if r.name in lib.funcs then
      if ready then c.(data := r.data + at) else c
    else if r.name in lib.consts then
      if ready then c.(kind := NoReloc)
      else c.(data := match lib.consts[r.name] case Number(v) => v case Here => c.offset / 8)
    else c
  }

  function MovedAll(lib: Library, ids: map<string, int>, rels: seq<Record>, at: nat, ready: bool): (t: seq<Record>)
    ensures |t| == |rels|
    ensures forall i :: 0 <= i < |rels| ==> t[i] == Moved(lib, ids, rels[i], at, ready)
  {
    seq(|rels|, i requires 0 <= i < |rels| => Moved(lib, ids, rels[i], at, ready))
  }

  /** The records of the copies, one copy after the other. */
  function Table(lib: Library, ids: map<string, int>, entries: seq<Entry>): seq<Record> {
    if entries == [] then []
    else MovedAll(lib, ids, BodyOf(lib, entries[0].name).relocs, entries[0].at, IsReady(lib, entries[0].name)) +
         Table(lib, ids, entries[1..])
  }

  lemma {:induction false} CodesJoin(lib: Library, a: seq<Entry>, b: seq<Entry>)
    ensures Codes(lib, a + b) == Codes(lib, a) + Codes(lib, b)
  {
    if a == [] {
      assert a + b == b;
    } else {
      CodesJoin(lib, a[1..], b);
      assert (a + b)[1..] == a[1..] + b;
    }
  }

  lemma {:induction false} TableJoin(lib: Library, ids: map<string, int>, a: seq<Entry>, b: seq<Entry>)
    ensures Table(lib, ids, a + b) == Table(lib, ids, a) + Table(lib, ids, b)
  {
    hide MovedAll;
    if a == [] {
      assert a + b == b;
    } else {
      assert (a + b)[0] == a[0] && (a + b)[1..] == a[1..] + b;
      var m := MovedAll(lib, ids, BodyOf(lib, a[0].name).relocs, a[0].at, IsReady(lib, a[0].name));
      calc {
        Table(lib, ids, a + b);
        m + Table(lib, ids, a[1..] + b);
        { TableJoin(lib, ids, a[1..], b); }
        m + (Table(lib, ids, a[1..]) + Table(lib, ids, b));
        { Assoc(m, Table(lib, ids, a[1..]), Table(lib, ids, b)); }
        m + Table(lib, ids, a[1..]) + Table(lib, ids, b);
        Table(lib, ids, a) + Table(lib, ids, b);
      }
    }
  }

  lemma {:induction false} CodesTile(lib: Library, entries: seq<Entry>, pc: nat, end: nat)
    requires Tiles(lib, entries, pc, end)
    ensures end == pc + |Codes(lib, entries)|
  {
    if entries != [] {
      CodesTile(lib, entries[1..], pc + |BodyOf(lib, entries[0].name).code|, end);
    }
  }

  /** The number of records of the copies. */
  function Count(lib: Library, entries: seq<Entry>): nat {
    if entries == [] then 0 else |BodyOf(lib, entries[0].name).relocs| + Count(lib, entries[1..])
  }

  lemma {:induction false} CountJoin(lib: Library, a: seq<Entry>, b: seq<Entry>)
    ensures Count(lib, a + b) == Count(lib, a) + Count(lib, b)
  {
    if a == [] {
      assert a + b == b;
    } else {
      CountJoin(lib, a[1..], b);
      assert (a + b)[1..] == a[1..] + b;
    }
  }

  lemma {:induction false} TableCount(lib: Library, ids: map<string, int>, entries: seq<Entry>)
    ensures |Table(lib, ids, entries)| == Count(lib, entries)
  {
    if entries != [] { TableCount(lib, ids, entries[1..]); }
  }

  /** One dependency of a walk: what it adds to what is done. */
  lemma {:induction false} StepInto(lib: Library, rels: seq<Record>, i: nat, seen: set<string>, pc: nat,
                                    done: seq<Entry>)
    requires i < |rels|
    ensures var name := rels[i].name;
      var all := Deps(lib, rels[i..], seen, pc);
      if name !in lib.funcs || name in seen then all == Deps(lib, rels[i + 1..], seen, pc)
      else if lib.funcs[name].body.None? then all.None?
      else
        var inner := Visit(lib, lib.funcs[name].body.value, lib.funcs[name].ready, seen + {name}, pc);
        if inner.None? then all.None? else
        var rest := Deps(lib, rels[i + 1..], inner.value.seen, inner.value.pc);
        && all.Some? == rest.Some?
        && (all.Some? ==>
              && all.value.seen == rest.value.seen && all.value.pc == rest.value.pc
              && done + all.value.entries == done + ([Entry(name, pc)] + inner.value.entries) + rest.value.entries)
        && name !in Names(inner.value.entries)
  {
    hide Visit;
    assert rels[i..][0] == rels[i] && rels[i..][1..] == rels[i + 1..];
    var name := rels[i].name;
    if name in lib.funcs && name !in seen && lib.funcs[name].body.Some? {
      var d, ready := lib.funcs[name].body.value, lib.funcs[name].ready;
      if Visit(lib, d, ready, seen + {name}, pc).Some? {
        VisitLaid(lib, d, ready, seen + {name}, pc);
      }
    }
  }

  /** Addresses assigned to a dependency after those of what it leads to. */
  lemma {:induction false} AssignLater(ids: map<string, int>, done: seq<Entry>, name: string, at: nat,
                                       inner: seq<Entry>)
    requires name !in Names(inner)
    ensures (ids + Addresses(done) + Addresses(inner))[name := at] ==
            ids + Addresses(done + ([Entry(name, at)] + inner))
  {
    AddressesKeys(inner);
    var one := [Entry(name, at)];
    assert one[1..] == [];
    assert Addresses(one) == map[name := at];
    hide Addresses;
    AddressesJoin(one, inner);
    AddressesJoin(done, one + inner);
    MergeLater(ids, Addresses(done), name, at, Addresses(inner));
  }

  lemma {:induction false} MergeLater(a: map<string, int>, b: map<string, int>, x: string, v: int, c: map<string, int>)
    requires x !in c
    ensures (a + b + c)[x := v] == a + (b + (map[x := v] + c))
  {
  }

  lemma {:induction false} CountLater(lib: Library, done: seq<Entry>, name: string, at: nat, inner: seq<Entry>)
    ensures Count(lib, done + ([Entry(name, at)] + inner)) ==
            Count(lib, done) + |BodyOf(lib, name).relocs| + Count(lib, inner)
  {
    var one := [Entry(name, at)];
    assert one[1..] == [];
    CountJoin(lib, one, inner);
    CountJoin(lib, done, one + inner);
  }

  const FAIL := -1

  /** The state of linking: the identifiers' reference marks and ids, and how far the
      output has come. */
  class Link {
    const lib: Library
    var ref: set<string>
    var ids: map<string, int>
    var pc: nat
    var rc: nat

    constructor (lib: Library, ids: map<string, int>)
      ensures this.lib == lib && this.ids == ids && ref == {} && pc == 0 && rc == 0
    {
      this.lib, this.ids := lib, ids;
      ref, pc, rc := {}, 0, 0;
    }

    function Marked(self: Option<string>): set<string>
      reads this
    {
      if self.Some? then ref + {self.value} else ref
    }

    predicate SelfReady(self: Option<string>) {
      self.Some? && IsReady(lib, self.value)
    }

    /** dt_link_layout: where `d` and everything it leads to will go. */
    method LayOut(d: Difo, self: Option<string>) returns (at: int)
      modifies this
      ensures var r := Visit(lib, d, SelfReady(self), old(Marked(self)), old(pc));
        && (at == FAIL <==> r.None?)
        && (r.Some? ==>
              && at == old(pc) && pc == r.value.pc && ref == r.value.seen
              && rc == old(rc) + |d.relocs| + Count(lib, r.value.entries)
              && ids == old(ids) + Addresses(r.value.entries))
      decreases lib.funcs.Keys - Marked(self)
    {
      hide Addresses, Count, Visit;
      ghost var was, start := ids, rc + |d.relocs|;
      at := pc;
      if self.Some? { ref := ref + {self.value}; }
      pc := pc + |d.code|;
      rc := rc + |d.relocs|;
      ghost var seen, pc0 := ref, pc;
      VisitUnfold(lib, d, SelfReady(self), seen, at);
      NoneAddresses(lib, ids);
      if SelfReady(self) { return; }
      ghost var done: seq<Entry> := [];
      var i := 0;
      assert d.relocs[0..] == d.relocs;
      while i < |d.relocs|
        invariant 0 <= i <= |d.relocs| && seen <= ref
        invariant ids == was + Addresses(done) && rc == start + Count(lib, done)
        invariant var all := Deps(lib, d.relocs, seen, pc0);
          var rest := Deps(lib, d.relocs[i..], ref, pc);
          && all.Some? == rest.Some?
          && (all.Some? ==> all.value == Layout(rest.value.seen, rest.value.pc, done + rest.value.entries))
      {
        hide Deps;
        var name := d.relocs[i].name;
        StepInto(lib, d.relocs, i, ref, pc, done);
        if name in lib.funcs && name !in ref {
          if lib.funcs[name].body.None? { return FAIL; }
          ghost var inner := Visit(lib, lib.funcs[name].body.value, lib.funcs[name].ready, ref + {name}, pc);
          var ipc := LayOut(lib.funcs[name].body.value, Some(name));
          if ipc == FAIL { return FAIL; }
          ids := ids[name := ipc];
          AssignLater(was, done, name, ipc, inner.value.entries);
          CountLater(lib, done, name, ipc, inner.value.entries);
          done := done + ([Entry(name, ipc)] + inner.value.entries);
        }
        i := i + 1;
      }
      assert d.relocs[i..] == [] && done + [] == done;
    }

    // The identifiers already carry the addresses that the layout gave them.
    ghost predicate Planned(d: Difo, self: Option<string>, room: nat, slots: nat)
      reads this
    {
      && lib.Valid() && lib.funcs.Keys <= ids.Keys
      && var r := Visit(lib, d, SelfReady(self), Marked(self), pc);
      && r.Some? && Agree(ids, r.value.entries)
      && r.value.pc <= room && rc + |d.relocs| + Count(lib, r.value.entries) <= slots
    }

    /** dt_link_construct: copy `d` and everything it leads to. */
    method Construct(d: Difo, self: Option<string>, buf: array<Slot>, tab: array<Record>) returns (at: nat)
      requires Planned(d, self, buf.Length, tab.Length)
      modifies this, buf, tab
      ensures ids == old(ids) && at == old(pc)
      ensures var r := Visit(lib, d, SelfReady(self), old(Marked(self)), old(pc));
        && r.Some? && pc == r.value.pc && ref == r.value.seen
        && rc == old(rc) + |d.relocs| + Count(lib, r.value.entries)
        && old(pc) <= pc <= buf.Length && rc <= tab.Length
        && buf[..old(pc)] == old(buf[..pc])
        && buf[old(pc)..pc] == d.code + Codes(lib, r.value.entries)
        && tab[..old(rc)] == old(tab[..rc])
        && tab[old(rc)..rc] == MovedAll(lib, ids, d.relocs, at, SelfReady(self)) + Table(lib, ids, r.value.entries)
      decreases lib.funcs.Keys - Marked(self), 1
    {
      hide Count, Visit, Codes, Table, Moved, Copied, MovedAll, Deps, Agree, Library.Valid;
      at := pc;
      var r0 := rc;
      if self.Some? { ref := ref + {self.value}; }
      var ready := SelfReady(self);
      ghost var seen, plan := ref, Visit(lib, d, ready, ref, pc).value;
      VisitUnfold(lib, d, ready, seen, at);
      VisitFits(lib, d, ready, seen, at);
      CopyCode(buf, pc, d.code);
      pc := pc + |d.code|;
      ghost var p1 := pc;
      CopyRecords(lib, ids, tab, rc, d.relocs, at);
      rc := rc + |d.relocs|;
      NoneAddresses(lib, ids);
      if ready {
        Settle(lib, ids, tab, r0, d.relocs, at);
        assert Codes(lib, []) == [] && Table(lib, ids, []) == [] by { NoneCopied(lib, ids); }
      } else {
        ghost var buf1 := buf[..];
        Dependencies(d.relocs, at, r0, buf, tab);
        Appended(buf1, buf[..], at, p1, pc);
      }
    }

    /** A dependency met for the first time; the record at `k` is the one that names it. */
    method Dependency(name: string, k: nat, buf: array<Slot>, tab: array<Record>)
      requires name in lib.funcs && lib.funcs[name].body.Some? && name !in ref
      requires Planned(lib.funcs[name].body.value, Some(name), buf.Length, tab.Length)
      requires name in ids && ids[name] == pc && k < rc <= tab.Length && tab[k].data == pc
      modifies this, buf, tab
      ensures ids == old(ids)
      ensures var body := BodyOf(lib, name);
        var r := Visit(lib, body, lib.funcs[name].ready, old(ref) + {name}, old(pc));
        && r.Some? && pc == r.value.pc && ref == r.value.seen
        && rc == old(rc) + |body.relocs| + Count(lib, r.value.entries)
        && old(pc) <= pc <= buf.Length && rc <= tab.Length
        && buf[..old(pc)] == old(buf[..pc])
        && buf[old(pc)..pc] == body.code + Codes(lib, r.value.entries)
        && tab[..old(rc)] == old(tab[..rc])
        && tab[old(rc)..rc] ==
           MovedAll(lib, ids, body.relocs, old(pc), IsReady(lib, name)) + Table(lib, ids, r.value.entries)
      decreases lib.funcs.Keys - ref - {name}, 2
    {
      hide Count, Visit, Codes, Table, MovedAll;
      ghost var rc0, tab0 := rc, tab[..];
      var ipc := Construct(lib.funcs[name].body.value, Some(name), buf, tab);
      assert tab[k] == tab[..rc0][k] == tab0[..rc0][k] == tab0[k];
      ids := ids[name := ipc];
      ghost var tab1 := tab[..];
      tab[k] := tab[k].(data := ids[name]);
      assert tab[..] == tab1;
    }

    /** The second pass over the records of a function at `at`, which have been copied
        to `first`: constants are filled in and dependencies follow. */
    method Dependencies(rels: seq<Record>, at: nat, first: nat, buf: array<Slot>, tab: array<Record>)
      requires lib.Valid() && lib.funcs.Keys <= ids.Keys
      requires var plan := Deps(lib, rels, ref, pc);
        && plan.Some? && Agree(ids, plan.value.entries)
        && plan.value.pc == pc + |Codes(lib, plan.value.entries)| <= buf.Length
        && first + |rels| == rc && rc + Count(lib, plan.value.entries) <= tab.Length
      requires forall j :: 0 <= j < |rels| ==> tab[first + j] == Copied(lib, ids, rels[j], at)
      modifies this, buf, tab
      ensures ids == old(ids)
      ensures var plan := Deps(lib, rels, old(ref), old(pc));
        && plan.Some? && pc == plan.value.pc && ref == plan.value.seen
        && rc == old(rc) + Count(lib, plan.value.entries)
        && old(pc) <= pc <= buf.Length && rc <= tab.Length
        && buf[..old(pc)] == old(buf[..pc])
        && buf[old(pc)..pc] == Codes(lib, plan.value.entries)
        && tab[..first] == old(tab[..first])
        && tab[first..rc] == MovedAll(lib, ids, rels, at, false) + Table(lib, ids, plan.value.entries)
      decreases lib.funcs.Keys - ref, 0
    {
      hide Count, Visit, Codes, Table, MovedAll, Progress;
      ghost var was, p1, buf0, tab0 := ids, pc, buf[..], tab[..];
      ghost var plan := Deps(lib, rels, ref, pc).value;
      ghost var done: seq<Entry> := [];
      ProgressStart(lib, ids, rels, at, first, pc, buf0, tab0);
      assert rels[0..] == rels && done + plan.entries == plan.entries;
      var i := 0;
      while i < |rels|
        invariant 0 <= i <= |rels| && old(ref) <= ref && ids == was
        invariant Progress(lib, ids, rels, at, first, i, done, p1, pc, rc, buf0, buf[..], tab0, tab[..])
        invariant var rest := Deps(lib, rels[i..], ref, pc);
          rest.Some? && plan == Layout(rest.value.seen, rest.value.pc, done + rest.value.entries)
      {
        hide Deps, Moved, Copied;
        var r := rels[i];
        ghost var buf1, tab1, pc1, rc1 := buf[..], tab[..], pc, rc;
        StepInto(lib, rels, i, ref, pc, done);
        ProgressNext(lib, ids, rels, at, first, i, done, p1, pc, rc, buf0, buf1, tab0, tab1);
        if r.name in lib.consts {
          SettleConst(lib, ids, tab, first + i, r, at, false);
          assert buf[..] == buf1;
        } else if r.name in lib.funcs && r.name !in ref {
          ghost var body, ready := BodyOf(lib, r.name), lib.funcs[r.name].ready;
          ghost var inner := Visit(lib, body, ready, ref + {r.name}, pc).value;
          VisitFits(lib, body, ready, ref + {r.name}, pc);
          DependencyPlanned(lib, ids, plan, done, r.name, inner, pc, Deps(lib, rels[i + 1..], inner.seen,
              inner.pc).value);
          Dependency(r.name, first + i, buf, tab);
          ProgressAppend(lib, ids, rels, at, first, i + 1, done, p1, pc1, rc1, buf0, buf1, tab0, tab1,
                         r.name, inner.entries, pc, rc, buf[..], tab[..]);
          done := done + ([Entry(r.name, pc1)] + inner.entries);
        }
        i := i + 1;
      }
      assert rels[i..] == [] && done + [] == done;
      ProgressEnd(lib, ids, rels, at, first, done, p1, pc, rc, buf0, buf[..], tab0, tab[..]);
    }
  }

  /** The second pass has come to record `i`, with the copies `done` made. */
  ghost predicate Progress(lib: Library, ids: map<string, int>, rels: seq<Record>, at: nat, first: nat, i: nat,
                           done: seq<Entry>,
                           p1: nat, pc: nat, rc: nat, buf0: seq<Slot>, buf: seq<Slot>, tab0: seq<Record>,
                               tab: seq<Record>)
  {
    var r1 := first + |rels|;
    && i <= |rels| && |buf0| == |buf| && |tab0| == |tab|
    && p1 <= pc <= |buf| && r1 <= rc <= |tab| && rc == r1 + Count(lib, done) && pc == p1 + |Codes(lib, done)|
    && buf[..p1] == buf0[..p1] && buf[p1..pc] == Codes(lib, done)
    && tab[..first] == tab0[..first] && tab[r1..rc] == Table(lib, ids, done)
    && (forall j :: 0 <= j < i ==> tab[first + j] == Moved(lib, ids, rels[j], at, false))
    && (forall j :: i <= j < |rels| ==> tab[first + j] == Copied(lib, ids, rels[j], at))
  }

  lemma {:induction false} ProgressStart(lib: Library, ids: map<string, int>, rels: seq<Record>, at: nat, first: nat,
                                         pc: nat, buf: seq<Slot>, tab: seq<Record>)
    requires first + |rels| <= |tab| && pc <= |buf|
    requires forall j :: 0 <= j < |rels| ==> tab[first + j] == Copied(lib, ids, rels[j], at)
    ensures Progress(lib, ids, rels, at, first, 0, [], pc, pc, first + |rels|, buf, buf, tab, tab)
  {
  }

  /** Record `i` is where the second pass is, and what it becomes takes it on. */
  lemma {:induction false} ProgressNext(lib: Library, ids: map<string, int>, rels: seq<Record>, at: nat, first: nat,
                                        i: nat,
                                        done: seq<Entry>, p1: nat, pc: nat, rc: nat, buf0: seq<Slot>, buf: seq<Slot>,
                                        tab0: seq<Record>, tab: seq<Record>)
    requires i < |rels| && Progress(lib, ids, rels, at, first, i, done, p1, pc, rc, buf0, buf, tab0, tab)
    ensures first + i < rc <= |tab| && tab[first + i] == Copied(lib, ids, rels[i], at)
    ensures pc <= |buf| && pc == p1 + |Codes(lib, done)| && rc == first + |rels| + Count(lib, done)
    ensures Progress(lib, ids, rels, at, first, i + 1, done, p1, pc, rc, buf0, buf, tab0,
                     tab[first + i := Moved(lib, ids, rels[i], at, false)])
    ensures rels[i].name !in lib.consts ==>
        Progress(lib, ids, rels, at, first, i + 1, done, p1, pc, rc, buf0, buf, tab0, tab)
    ensures rels[i].name !in lib.consts && rels[i].name in lib.funcs && rels[i].name in ids ==>
            tab[first + i].data == ids[rels[i].name]
  {
    hide Codes, Table, Count;
    var tab' := tab[first + i := Moved(lib, ids, rels[i], at, false)];
    assert tab'[..first] == tab[..first];
    assert tab'[first + |rels|..rc] == tab[first + |rels|..rc];
    if rels[i].name !in lib.consts {
      assert tab' == tab;
    }
  }

  /** A dependency has been added behind. */
  lemma {:induction false} ProgressAppend(lib: Library, ids: map<string, int>, rels: seq<Record>, at: nat, first: nat,
                                          i: nat,
                                          done: seq<Entry>, p1: nat, pc: nat, rc: nat, buf0: seq<Slot>, buf: seq<Slot>,
                                          tab0: seq<Record>, tab: seq<Record>, name: string, inner: seq<Entry>,
                                          pc': nat, rc': nat, buf': seq<Slot>, tab': seq<Record>)
    requires Progress(lib, ids, rels, at, first, i, done, p1, pc, rc, buf0, buf, tab0, tab)
    requires pc <= pc' <= |buf'| == |buf| && rc <= rc' <= |tab'| == |tab|
    requires var body := BodyOf(lib, name);
      && buf'[..pc] == buf[..pc] && buf'[pc..pc'] == body.code + Codes(lib, inner)
      && tab'[..rc] == tab[..rc]
      && tab'[rc..rc'] == MovedAll(lib, ids, body.relocs, pc, IsReady(lib, name)) + Table(lib, ids, inner)
      && rc' == rc + |body.relocs| + Count(lib, inner)
    ensures Progress(lib, ids, rels, at, first, i, done + ([Entry(name, pc)] + inner), p1, pc', rc', buf0, buf', tab0,
        tab')
  {
    hide Moved, Copied, Codes, Table, Count, MovedAll;
    CopiesLater(lib, ids, done, name, pc, inner);
    Appended(buf, buf', p1, pc, pc');
    Appended(tab, tab', first + |rels|, rc, rc');
    Appended(tab, tab', first, rc, rc');
  }

  lemma {:induction false} CopiesLater(lib: Library, ids: map<string, int>, done: seq<Entry>, name: string, pc: nat,
                                       inner: seq<Entry>)
    ensures var all := done + ([Entry(name, pc)] + inner);
      && Count(lib, all) == Count(lib, done) + |BodyOf(lib, name).relocs| + Count(lib, inner)
      && Codes(lib, all) == Codes(lib, done) + (BodyOf(lib, name).code + Codes(lib, inner))
      && Table(lib, ids, all) == Table(lib, ids, done) +
           (MovedAll(lib, ids, BodyOf(lib, name).relocs, pc, IsReady(lib, name)) + Table(lib, ids, inner))
  {
    hide MovedAll;
    var one := [Entry(name, pc)];
    assert one[1..] == [];
    assert Codes(lib, one) == BodyOf(lib, name).code;
    assert Table(lib, ids, one) == MovedAll(lib, ids, BodyOf(lib, name).relocs, pc, IsReady(lib, name));
    hide Codes, Table, Count;
    CountLater(lib, done, name, pc, inner);
    CodesJoin(lib, one, inner);
    CodesJoin(lib, done, one + inner);
    TableJoin(lib, ids, one, inner);
    TableJoin(lib, ids, done, one + inner);
  }

  lemma {:induction false} ProgressEnd(lib: Library, ids: map<string, int>, rels: seq<Record>, at: nat, first: nat,
                                       done: seq<Entry>, p1: nat, pc: nat, rc: nat, buf0: seq<Slot>, buf: seq<Slot>,
                                       tab0: seq<Record>, tab: seq<Record>)
    requires Progress(lib, ids, rels, at, first, |rels|, done, p1, pc, rc, buf0, buf, tab0, tab)
    ensures p1 <= pc <= |buf| && rc <= |tab| && rc == first + |rels| + Count(lib, done)
    ensures buf[..p1] == buf0[..p1] && buf[p1..pc] == Codes(lib, done)
    ensures tab[..first] == tab0[..first]
    ensures tab[first..rc] == MovedAll(lib, ids, rels, at, false) + Table(lib, ids, done)
  {
    hide Codes, Table, Count, Moved;
    assert tab[first..first + |rels|] == MovedAll(lib, ids, rels, at, false);
    assert tab[first..rc] == tab[first..first + |rels|] + tab[first + |rels|..rc];
  }

  /** A prefix that is kept, with more behind it. */
  lemma {:induction false} Appended<T>(was: seq<T>, now: seq<T>, i: nat, j: nat, k: nat)
    requires i <= j <= k <= |now| && j <= |was| && now[..j] == was[..j]
    ensures now[i..k] == was[i..j] + now[j..k]
    ensures now[..i] == was[..i]
    ensures forall x :: 0 <= x < j ==> now[x] == was[x]
  {
    assert now[i..j] == now[..j][i..] == was[..j][i..] == was[i..j];
    assert now[..i] == now[..j][..i] == was[..j][..i];
    forall x | 0 <= x < j ensures now[x] == was[x] {
      assert now[..j][x] == was[..j][x];
    }
  }

  /** The part of a plan that is about one dependency. */
  lemma {:induction false} DependencyPlanned(lib: Library, ids: map<string, int>, plan: Layout, done: seq<Entry>,
                                             name: string, inner: Layout, pc: nat, rest: Layout)
    requires name in lib.funcs && lib.funcs[name].body.Some?
    requires plan.entries == done + ([Entry(name, pc)] + inner.entries) + rest.entries
    requires Agree(ids, plan.entries)
    ensures Agree(ids, inner.entries) && name in ids && ids[name] == pc
    ensures Count(lib, plan.entries) ==
      Count(lib, done) + |BodyOf(lib, name).relocs| + Count(lib, inner.entries) + Count(lib, rest.entries)
    ensures |Codes(lib, plan.entries)| ==
      |Codes(lib, done)| + |BodyOf(lib, name).code| + |Codes(lib, inner.entries)| + |Codes(lib, rest.entries)|
  {
    hide Codes, Count;
    var some := [Entry(name, pc)] + inner.entries;
    CopiesLater(lib, ids, done, name, pc, inner.entries);
    CountJoin(lib, done + some, rest.entries);
    CodesJoin(lib, done + some, rest.entries);
    assert plan.entries[|done|] == Entry(name, pc);
    forall i | 0 <= i < |inner.entries| ensures inner.entries[i] == plan.entries[|done| + 1 + i] { }
  }

  lemma {:induction false} NoneCopied(lib: Library, ids: map<string, int>)
    ensures Codes(lib, []) == [] && Table(lib, ids, []) == []
  {
  }

  ghost predicate Agree(ids: map<string, int>, entries: seq<Entry>) {
    forall i :: 0 <= i < |entries| ==> entries[i].name in ids && ids[entries[i].name] == entries[i].at
  }

  lemma {:induction false} VisitFits(lib: Library, d: Difo, ready: bool, seen: set<string>, pc: nat)
    requires Visit(lib, d, ready, seen, pc).Some?
    ensures var v := Visit(lib, d, ready, seen, pc).value; v.pc == pc + |d.code| + |Codes(lib, v.entries)|
  {
    VisitLaid(lib, d, ready, seen, pc);
    var v := Visit(lib, d, ready, seen, pc).value;
    CodesTile(lib, v.entries, pc + |d.code|, v.pc);
  }

  method CopyCode(buf: array<Slot>, at: nat, code: seq<Slot>)
    requires at + |code| <= buf.Length
    modifies buf
    ensures buf[..at] == old(buf[..at]) && buf[at..at + |code|] == code
  {
    var i := 0;
    while i < |code|
      invariant 0 <= i <= |code| && buf[..at] == old(buf[..at]) && buf[at..at + i] == code[..i]
    {
      buf[at + i] := code[i];
      i := i + 1;
    }
  }

  /** The first pass over the records of a function. */
  method CopyRecords(lib: Library, ids: map<string, int>, tab: array<Record>, rc: nat, rels: seq<Record>, at: nat)
    requires rc + |rels| <= tab.Length && lib.funcs.Keys <= ids.Keys
    modifies tab
    ensures tab[..rc] == old(tab[..rc])
    ensures forall j :: 0 <= j < |rels| ==> tab[rc + j] == Copied(lib, ids, rels[j], at)
  {
    var i := 0;
    while i < |rels|
      invariant 0 <= i <= |rels| && tab[..rc] == old(tab[..rc])
      invariant forall j :: 0 <= j < i ==> tab[rc + j] == Copied(lib, ids, rels[j], at)
    {
      var r := rels[i];
      tab[rc + i] := r.(offset := r.offset + 8 * at);
      if r.name in lib.funcs {
        tab[rc + i] := tab[rc + i].(data := ids[r.name]);
      }
      i := i + 1;
    }
  }

  /** A record of a constant, once more. */
  method SettleConst(lib: Library, ghost ids: map<string, int>, tab: array<Record>, k: nat, r: Record, at: nat,
                     ready: bool)
    requires k < tab.Length && r.name in lib.consts && r.name !in lib.funcs && tab[k] == Copied(lib, ids, r, at)
    modifies tab
    ensures tab[..] == old(tab[..])[k := Moved(lib, ids, r, at, ready)]
  {
    if ready {
      tab[k] := tab[k].(kind := NoReloc);
    } else {
      match lib.consts[r.name]
      case Number(v) => tab[k] := tab[k].(data := v);
      case Here => tab[k] := tab[k].(data := tab[k].offset / 8);
    }
  }

  /** The second pass over the records of a function that is linked already. */
  method Settle(lib: Library, ghost ids: map<string, int>, tab: array<Record>, rc: nat, rels: seq<Record>, at: nat)
    requires rc + |rels| <= tab.Length && lib.Valid()
    requires forall j :: 0 <= j < |rels| ==> tab[rc + j] == Copied(lib, ids, rels[j], at)
    modifies tab
    ensures tab[..rc] == old(tab[..rc])
    ensures tab[rc..rc + |rels|] == MovedAll(lib, ids, rels, at, true)
  {
    var i := 0;
    while i < |rels|
      invariant 0 <= i <= |rels| && tab[..rc] == old(tab[..rc])
      invariant forall j :: 0 <= j < i ==> tab[rc + j] == Moved(lib, ids, rels[j], at, true)
      invariant forall j :: i <= j < |rels| ==> tab[rc + j] == Copied(lib, ids, rels[j], at)
    {
      var r := rels[i];
      if r.name in lib.consts {
        SettleConst(lib, ids, tab, rc + i, r, at, true);
      } else if r.name in lib.funcs {
        tab[rc + i] := tab[rc + i].(data := r.data + at);
      }
      i := i + 1;
    }
  }

  lemma {:induction false} VisitUnfold(lib: Library, d: Difo, ready: bool, seen: set<string>, pc: nat)
    ensures Visit(lib, d, ready, seen, pc) ==
            if ready then Some(Layout(seen, pc + |d.code|, [])) else Deps(lib, d.relocs, seen, pc + |d.code|)
  {
  }

  lemma {:induction false} NoneAddresses(lib: Library, ids: map<string, int>)
    ensures ids + Addresses([]) == ids && Count(lib, []) == 0
  {
  }

  // ----- filling in the instructions -----

  function Width(k: Kind): nat {
    if k == Wide then 2 else 1
  }

  /** The 32-bit signed immediate that holds the low half of `v`. */
  function Imm32(v: int): (r: int)
    ensures -0x8000_0000 <= r < 0x8000_0000
    ensures -0x8000_0000 <= v < 0x8000_0000 ==> r == v
  {
    (v + 0x8000_0000) % 0x1_0000_0000 - 0x8000_0000
  }

  /** What goes into the instruction of a record: a constant, or the distance of a call. */
  function ValueOf(lib: Library, r: Record): Option<int> {
    if r.name in lib.consts then Some(r.data)
    else if r.name in lib.funcs then Some(r.data - r.offset / 8 - 1)
    else None
  }

  predicate RecordFits(lib: Library, code: seq<Slot>, r: Record) {
    && r.offset % 8 == 0 && r.offset / 8 + Width(r.kind) <= |code|
    && (r.name in lib.funcs ==> r.kind == Narrow && code[r.offset / 8].call)
  }

  /** Records are in ascending order, do not overlap, and are inside the code;
      functions are named by call instructions only. */
  ghost predicate Sound(lib: Library, code: seq<Slot>, tab: seq<Record>) {
    && (forall i :: 0 <= i < |tab| ==> RecordFits(lib, code, tab[i]))
    && (forall i, j :: 0 <= i < j < |tab| ==> tab[i].offset / 8 + Width(tab[i].kind) <= tab[j].offset / 8)
  }

  function Patch(lib: Library, code: seq<Slot>, r: Record): (c: seq<Slot>)
    requires RecordFits(lib, code, r)
    ensures |c| == |code|
    ensures forall i :: 0 <= i < |c| ==> c[i].call == code[i].call && c[i].rest == code[i].rest
    ensures forall i :: 0 <= i < |c| && !(r.offset / 8 <= i < r.offset / 8 + Width(r.kind)) ==> c[i] == code[i]
  {
    var v := ValueOf(lib, r);
    var i := r.offset / 8;
    if v.None? || r.kind == NoReloc then code
    else if r.kind == Wide then
      code[i := code[i].(imm := Imm32(v.value))][i + 1 := code[i + 1].(imm := Imm32(v.value / 0x1_0000_0000))]
    else code[i := code[i].(imm := Imm32(v.value))]
  }

  lemma {:induction false} FitsAlike(lib: Library, code: seq<Slot>, code': seq<Slot>, r: Record)
    requires |code| == |code'| && forall i :: 0 <= i < |code| ==> code[i].call == code'[i].call
    ensures RecordFits(lib, code, r) == RecordFits(lib, code', r)
  {
  }

  /** The code after all records have been applied. */
  ghost function Patches(lib: Library, code: seq<Slot>, tab: seq<Record>): (c: seq<Slot>)
    requires Sound(lib, code, tab)
    ensures |c| == |code|
    ensures forall i :: 0 <= i < |c| ==> c[i].call == code[i].call && c[i].rest == code[i].rest
    decreases |tab|
  {
    if tab == [] then code
    else
      var n := |tab| - 1;
      assert Sound(lib, code, tab[..n]);
      var c := Patches(lib, code, tab[..n]);
      FitsAlike(lib, code, c, tab[n]);
      Patch(lib, c, tab[n])
  }

  /** Instructions without a record stay as they are. */
  lemma {:induction false} PatchesKeep(lib: Library, code: seq<Slot>, tab: seq<Record>, j: nat)
    requires Sound(lib, code, tab) && j < |code|
    requires forall k :: 0 <= k < |tab| ==> !(tab[k].offset / 8 <= j < tab[k].offset / 8 + Width(tab[k].kind))
    ensures Patches(lib, code, tab)[j] == code[j]
    decreases |tab|
  {
    if tab != [] {
      var n := |tab| - 1;
      assert Sound(lib, code, tab[..n]);
      PatchesKeep(lib, code, tab[..n], j);
    }
  }

  /** Every record has its effect, whatever records there are beside it. */
  lemma {:induction false} PatchesSet(lib: Library, code: seq<Slot>, tab: seq<Record>, k: nat)
    requires Sound(lib, code, tab) && k < |tab| && RecordFits(lib, code, tab[k])
    ensures var j := tab[k].offset / 8;
      && Patches(lib, code, tab)[j] == Patch(lib, code, tab[k])[j]
      && (tab[k].kind == Wide ==> Patches(lib, code, tab)[j + 1] == Patch(lib, code, tab[k])[j + 1])
    decreases |tab|
  {
    hide Patch, RecordFits;
    var n := |tab| - 1;
    assert Sound(lib, code, tab[..n]);
    var c := Patches(lib, code, tab[..n]);
    var j := tab[k].offset / 8;
    FitsAlike(lib, code, c, tab[n]);
    FitsInside(lib, code, tab[k]);
    if k < n {
      PatchesSet(lib, code, tab[..n], k);
    } else {
      PatchesKeep(lib, code, tab[..n], j);
      if tab[k].kind == Wide { PatchesKeep(lib, code, tab[..n], j + 1); }
      PatchAlike(lib, code, c, tab[k]);
    }
  }

  lemma {:induction false} FitsInside(lib: Library, code: seq<Slot>, r: Record)
    requires RecordFits(lib, code, r)
    ensures r.offset / 8 + Width(r.kind) <= |code|
  {
  }

  lemma {:induction false} PatchAlike(lib: Library, code: seq<Slot>, code': seq<Slot>, r: Record)
    requires |code| == |code'| && RecordFits(lib, code, r) && RecordFits(lib, code', r)
    requires code[r.offset / 8] == code'[r.offset / 8]
    requires r.kind == Wide ==> code[r.offset / 8 + 1] == code'[r.offset / 8 + 1]
    ensures Patch(lib, code, r)[r.offset / 8] == Patch(lib, code', r)[r.offset / 8]
    ensures r.kind == Wide ==> Patch(lib, code, r)[r.offset / 8 + 1] == Patch(lib, code', r)[r.offset / 8 + 1]
  {
  }

  /** One record of dt_link_resolve. */
  method Apply(lib: Library, buf: array<Slot>, r: Record)
    requires RecordFits(lib, buf[..], r)
    modifies buf
    ensures buf[..] == Patch(lib, old(buf[..]), r)
  {
    var ioff := r.offset / 8;
    if r.name in lib.consts || r.name in lib.funcs {
      var val := if r.name in lib.consts then r.data else r.data - ioff - 1;
      if r.kind == Wide {
        buf[ioff] := buf[ioff].(imm := Imm32(val));
        buf[ioff + 1] := buf[ioff + 1].(imm := Imm32(val / 0x1_0000_0000));
      } else if r.kind == Narrow {
        buf[ioff] := buf[ioff].(imm := Imm32(val));
      }
    }
  }

  /** dt_link_resolve. */
  method Resolve(lib: Library, buf: array<Slot>, tab: array<Record>)
    requires lib.Valid() && Sound(lib, buf[..], tab[..])
    modifies buf
    ensures buf[..] == Patches(lib, old(buf[..]), tab[..])
  {
    hide Patch, RecordFits, Sound;
    ghost var code := buf[..];
    var i := 0;
    SoundPrefix(lib, code, tab[..], 0);
    while i < tab.Length
      invariant 0 <= i <= tab.Length && Sound(lib, code, tab[..][..i])
      invariant buf[..] == Patches(lib, code, tab[..][..i])
    {
      SoundPrefix(lib, code, tab[..], i + 1);
      assert tab[..][..i + 1][..i] == tab[..][..i];
      SoundAt(lib, code, tab[..], i);
      FitsAlike(lib, code, buf[..], tab[i]);
      Apply(lib, buf, tab[i]);
      i := i + 1;
    }
    assert tab[..][..i] == tab[..];
  }

  lemma {:induction false} SoundAt(lib: Library, code: seq<Slot>, tab: seq<Record>, i: nat)
    requires Sound(lib, code, tab) && i < |tab|
    ensures RecordFits(lib, code, tab[i])
  {
  }

  lemma {:induction false} SoundPrefix(lib: Library, code: seq<Slot>, tab: seq<Record>, i: nat)
    requires Sound(lib, code, tab) && i <= |tab|
    ensures Sound(lib, code, tab[..i])
  {
  }

  // ----- the linked program is sound -----

  ghost predicate SoundLibrary(lib: Library) {
    forall x :: x in lib.funcs ==> Sound(lib, BodyOf(lib, x).code, BodyOf(lib, x).relocs)
  }

  /** Adding a function's code and records behind. */
  lemma {:induction false} SoundAppend(lib: Library, ids: map<string, int>, code: seq<Slot>, tab: seq<Record>, d: Difo,
                                       ready: bool)
    requires lib.Valid() && Sound(lib, code, tab) && Sound(lib, d.code, d.relocs)
    ensures Sound(lib, code + d.code, tab + MovedAll(lib, ids, d.relocs, |code|, ready))
  {
    hide RecordFits;
    var more := MovedAll(lib, ids, d.relocs, |code|, ready);
    var c, t := code + d.code, tab + more;
    forall i | 0 <= i < |t| ensures RecordFits(lib, c, t[i]) {
      if i < |tab| {
        FitsLonger(lib, code, d.code, tab[i]);
      } else {
        MovedFits(lib, ids, code, d, i - |tab|, ready);
      }
    }
    forall i, j | 0 <= i < j < |t|
      ensures t[i].offset / 8 + Width(t[i].kind) <= t[j].offset / 8
    {
      if i < |tab| <= j {
        assert RecordFits(lib, code, tab[i]) && RecordFits(lib, d.code, d.relocs[j - |tab|]);
        MovedBehind(lib, ids, code, tab[i], d.code, d.relocs[j - |tab|], ready);
      } else if i >= |tab| {
        MovedApart(lib, ids, d.relocs[i - |tab|], d.relocs[j - |tab|], |code|, ready);
      }
    }
  }

  lemma {:induction false} FitsLonger(lib: Library, code: seq<Slot>, more: seq<Slot>, r: Record)
    requires RecordFits(lib, code, r)
    ensures RecordFits(lib, code + more, r)
  {
  }

  lemma {:induction false} MovedBehind(lib: Library, ids: map<string, int>, code: seq<Slot>, r: Record,
                                       more: seq<Slot>, q: Record, ready: bool)
    requires lib.Valid() && RecordFits(lib, code, r) && RecordFits(lib, more, q)
    ensures r.offset / 8 + Width(r.kind) <= Moved(lib, ids, q, |code|, ready).offset / 8
  {
  }

  lemma {:induction false} MovedApart(lib: Library, ids: map<string, int>, q: Record, r: Record, base: nat, ready: bool)
    requires lib.Valid() && q.offset >= 0 && q.offset / 8 + Width(q.kind) <= r.offset / 8
    ensures Moved(lib, ids, q, base, ready).offset / 8 + Width(Moved(lib, ids, q, base, ready).kind)
         <= Moved(lib, ids, r, base, ready).offset / 8
  {
  }

  lemma {:induction false} MovedFits(lib: Library, ids: map<string, int>, code: seq<Slot>, d: Difo, i: nat, ready: bool)
    requires lib.Valid() && Sound(lib, d.code, d.relocs) && i < |d.relocs|
    ensures RecordFits(lib, code + d.code, Moved(lib, ids, d.relocs[i], |code|, ready))
  {
    assert RecordFits(lib, d.code, d.relocs[i]);
    assert (code + d.code)[|code| + d.relocs[i].offset / 8] == d.code[d.relocs[i].offset / 8];
  }

  lemma {:induction false} SoundEntries(lib: Library, ids: map<string, int>, code: seq<Slot>, tab: seq<Record>,
                                        entries: seq<Entry>, end: nat)
    requires lib.Valid() && SoundLibrary(lib) && Sound(lib, code, tab) && Tiles(lib, entries, |code|, end)
    requires forall i :: 0 <= i < |entries| ==> entries[i].name in lib.funcs
    ensures Sound(lib, code + Codes(lib, entries), tab + Table(lib, ids, entries))
    decreases |entries|
  {
    hide Sound, MovedAll;
    if entries == [] {
      assert code + [] == code && tab + [] == tab;
    } else {
      var body, ready := BodyOf(lib, entries[0].name), IsReady(lib, entries[0].name);
      var more := MovedAll(lib, ids, body.relocs, |code|, ready);
      SoundAppend(lib, ids, code, tab, body, ready);
      SoundEntries(lib, ids, code + body.code, tab + more, entries[1..], end);
      Assoc(code, body.code, Codes(lib, entries[1..]));
      Assoc(tab, more, Table(lib, ids, entries[1..]));
    }
  }

  // ----- linking as a whole -----

  function Start(self: Option<string>): set<string> {
    if self.Some? then {self.value} else {}
  }

  /** The layout of a program, which is at 0 itself. */
  function Plan(lib: Library, d: Difo, self: Option<string>): Option<Layout> {
    Visit(lib, d, self.Some? && IsReady(lib, self.value), Start(self), 0)
  }

  function Image(lib: Library, d: Difo, entries: seq<Entry>): seq<Slot> {
    d.code + Codes(lib, entries)
  }

  function Relocations(lib: Library, ids: map<string, int>, d: Difo, self: Option<string>,
                       entries: seq<Entry>): seq<Record> {
    MovedAll(lib, ids, d.relocs, 0, self.Some? && IsReady(lib, self.value)) + Table(lib, ids, entries)
  }

  lemma {:induction false} ImageSound(lib: Library, ids: map<string, int>, d: Difo, self: Option<string>)
    requires lib.Valid() && SoundLibrary(lib) && Sound(lib, d.code, d.relocs) && Plan(lib, d, self).Some?
    ensures var es := Plan(lib, d, self).value.entries;
      Sound(lib, Image(lib, d, es), Relocations(lib, ids, d, self, es))
  {
    hide Sound, MovedAll, Visit, Tiles;
    var plan := Plan(lib, d, self).value;
    var ready := self.Some? && IsReady(lib, self.value);
    VisitLaid(lib, d, ready, Start(self), 0);
    SoundNone(lib);
    SoundAppend(lib, ids, [], [], d, ready);
    assert [] + d.code == d.code;
    assert [] + MovedAll(lib, ids, d.relocs, 0, ready) == MovedAll(lib, ids, d.relocs, 0, ready);
    SoundEntries(lib, ids, d.code, MovedAll(lib, ids, d.relocs, 0, ready), plan.entries, plan.pc);
  }

  lemma {:induction false} SoundNone(lib: Library)
    ensures Sound(lib, [], [])
  {
  }

  const UNDEF := 0xffff_ffff

  /** dt_link(): the linked program, or nothing if a function has no definition.  The
      identifiers are left without addresses. */
  method LinkProgram(lib: Library, ids: map<string, int>, d: Difo, self: Option<string>)
    returns (r: Option<Difo>, ids': map<string, int>)
    requires lib.Valid() && SoundLibrary(lib) && Sound(lib, d.code, d.relocs) && ids.Keys == lib.funcs.Keys
    ensures r.Some? <==> Plan(lib, d, self).Some?
    ensures r.Some? ==>
      var es := Plan(lib, d, self).value.entries;
      var tab := Relocations(lib, ids + Addresses(es), d, self, es);
      && Sound(lib, Image(lib, d, es), tab)
      && r.value == Difo(Patches(lib, Image(lib, d, es), tab), tab)
    ensures r.Some? ==> ids' == map x | x in lib.funcs :: UNDEF
  {
    hide Sound, MovedAll, Visit, Codes, Table, SoundLibrary, Addresses, Count, Agree, Patches;
    ghost var plan := Plan(lib, d, self);
    var link := new Link(lib, ids);
    assert link.Marked(self) == Start(self);
    var at := link.LayOut(d, self);
    link.ref := {};
    if at == FAIL {
      return None, link.ids;
    }
    ghost var es := plan.value.entries;
    ghost var ids1 := ids + Addresses(es);
    assert link.ids == ids1;
    AddressesAgree(lib, ids, d, self);
    VisitFits(lib, d, self.Some? && IsReady(lib, self.value), Start(self), 0);
    var n, m := link.pc, link.rc;
    var buf := new Slot[n](_ => Slot(false, 0, 0));
    var tab := new Record[m](_ => Record("", NoReloc, 0, 0));
    link.pc, link.rc := 0, 0;
    assert link.Marked(self) == Start(self);
    at := link.Construct(d, self, buf, tab);
    TableCount(lib, ids1, es);
    assert buf[..] == buf[0..n] && tab[..] == tab[0..m];
    ghost var image, recs := Image(lib, d, es), Relocations(lib, ids1, d, self, es);
    assert buf[..] == image;
    assert tab[..] == recs;
    hide Image, Relocations;
    ImageSound(lib, ids1, d, self);
    Resolve(lib, buf, tab);
    assert buf[..] == Patches(lib, image, recs) && tab[..] == recs;
    r := Some(Difo(buf[..], tab[..]));
    ids' := map x | x in lib.funcs :: UNDEF;
  }

  /** After the layout the identifiers of the functions laid out have their addresses. */
  lemma {:induction false} AddressesAgree(lib: Library, ids: map<string, int>, d: Difo, self: Option<string>)
    requires Plan(lib, d, self).Some?
    ensures var es := Plan(lib, d, self).value.entries;
      && Agree(ids + Addresses(es), es) && ids.Keys <= (ids + Addresses(es)).Keys
      && forall x :: x in ids && x !in Names(es) ==> (ids + Addresses(es))[x] == ids[x]
  {
    hide Visit, Tiles;
    VisitLaid(lib, d, self.Some? && IsReady(lib, self.value), Start(self), 0);
    var es := Plan(lib, d, self).value.entries;
    AddressesKeys(es);
    forall i | 0 <= i < |es|
      ensures es[i].name in ids + Addresses(es) && (ids + Addresses(es))[es[i].name] == es[i].at
    {
      AddressOf(es, i);
    }
  }

  // ----- what the linked program is -----

  /** The copies in the linked program: the program itself and the functions. */
  ghost predicate IsCopy(lib: Library, d: Difo, self: Option<string>, es: seq<Entry>, body: Difo, ready: bool,
                         at: nat) {
    || (body == d && ready == (self.Some? && IsReady(lib, self.value)) && at == 0)
    || (exists i :: 0 <= i < |es| && body == BodyOf(lib, es[i].name) && ready == IsReady(lib, es[i].name) &&
           at == es[i].at)
  }

  /** A copy's records, where the table has them. */
  lemma {:induction false} TableFirst(lib: Library, ids: map<string, int>, es: seq<Entry>)
    requires es != []
    ensures Table(lib, ids, es) ==
      MovedAll(lib, ids, BodyOf(lib, es[0].name).relocs, es[0].at, IsReady(lib, es[0].name)) + Table(lib, ids, es[1..])
  {
    hide MovedAll;
  }

  lemma {:induction false} EntryRecords(lib: Library, ids: map<string, int>, es: seq<Entry>, i: nat) returns (k: nat)
    requires i < |es|
    ensures var m := MovedAll(lib, ids, BodyOf(lib, es[i].name).relocs, es[i].at, IsReady(lib, es[i].name));
      k + |m| <= |Table(lib, ids, es)| && Table(lib, ids, es)[k..k + |m|] == m
    decreases |es|
  {
    hide MovedAll, Table, BodyOf, IsReady;
    var m := MovedAll(lib, ids, BodyOf(lib, es[0].name).relocs, es[0].at, IsReady(lib, es[0].name));
    var t := Table(lib, ids, es[1..]);
    TableFirst(lib, ids, es);
    if i == 0 {
      k := 0;
      SliceHead(m, t);
    } else {
      k := EntryRecords(lib, ids, es[1..], i - 1);
      var mi := MovedAll(lib, ids, BodyOf(lib, es[i].name).relocs, es[i].at, IsReady(lib, es[i].name));
      SliceTail(m, t, k, k + |mi|);
      k := |m| + k;
    }
  }

  /** A copy's code, where its address says. */
  lemma {:induction false} EntryCode(lib: Library, es: seq<Entry>, pc: nat, end: nat, i: nat)
    requires Tiles(lib, es, pc, end) && i < |es|
    ensures var b := BodyOf(lib, es[i].name);
      && pc <= es[i].at && es[i].at - pc + |b.code| <= |Codes(lib, es)|
      && Codes(lib, es)[es[i].at - pc..es[i].at - pc + |b.code|] == b.code
    decreases |es|
  {
    var b, c := BodyOf(lib, es[0].name), Codes(lib, es[1..]);
    assert Codes(lib, es) == b.code + c;
    if i == 0 {
      SliceHead(b.code, c);
    } else {
      EntryCode(lib, es[1..], pc + |b.code|, end, i - 1);
      hide Codes, Tiles;
      var o := es[i].at - pc - |b.code|;
      SliceTail(b.code, c, o, o + |BodyOf(lib, es[i].name).code|);
    }
  }

  lemma {:induction false} SliceHead<T>(a: seq<T>, b: seq<T>)
    ensures (a + b)[0..|a|] == a
  {
  }

  lemma {:induction false} SliceTail<T>(a: seq<T>, b: seq<T>, i: nat, j: nat)
    requires i <= j <= |b|
    ensures (a + b)[|a| + i..|a| + j] == b[i..j]
  {
  }

  /** Record `i` of a copy. */
  lemma {:induction false} CopyRecord(lib: Library, ids: map<string, int>, d: Difo, self: Option<string>, body: Difo,
                                      ready: bool, at: nat, i: nat) returns (k: nat)
    requires Plan(lib, d, self).Some? && IsCopy(lib, d, self, Plan(lib, d, self).value.entries, body, ready, at)
    requires i < |body.relocs|
    ensures var es := Plan(lib, d, self).value.entries;
      && k < |Relocations(lib, ids, d, self, es)|
      && Relocations(lib, ids, d, self, es)[k] == Moved(lib, ids, body.relocs[i], at, ready)
  {
    hide Table, Visit, Moved;
    var es := Plan(lib, d, self).value.entries;
    var ready0 := self.Some? && IsReady(lib, self.value);
    if body == d && ready == ready0 && at == 0 {
      k := i;
    } else {
      var e :| 0 <= e < |es| && body == BodyOf(lib, es[e].name) && ready == IsReady(lib, es[e].name) && at == es[e].at;
      var head, t := MovedAll(lib, ids, d.relocs, 0, ready0), Table(lib, ids, es);
      var more := MovedAll(lib, ids, body.relocs, at, ready);
      assert more[i] == Moved(lib, ids, body.relocs[i], at, ready);
      hide Plan, BodyOf, IsReady, MovedAll;
      var q := EntryRecords(lib, ids, es, e);
      SliceAt(head, t, q, more, i);
      k := |d.relocs| + q + i;
    }
  }

  /** Every copy is in the linked program whole, at its address; linking changes
      immediates only. */
  lemma {:induction false} CopyKept(lib: Library, ids: map<string, int>, d: Difo, self: Option<string>, body: Difo,
                                    ready: bool, at: nat, x: nat)
    requires lib.Valid() && SoundLibrary(lib) && Sound(lib, d.code, d.relocs) && Plan(lib, d, self).Some?
    requires IsCopy(lib, d, self, Plan(lib, d, self).value.entries, body, ready, at) && x < |body.code|
    ensures var es := Plan(lib, d, self).value.entries;
      var img, tab := Image(lib, d, es), Relocations(lib, ids, d, self, es);
      && Sound(lib, img, tab) && at + x < |img| && img[at + x] == body.code[x]
      && Patches(lib, img, tab)[at + x].call == body.code[x].call
      && Patches(lib, img, tab)[at + x].rest == body.code[x].rest
  {
    hide Codes, Visit, Tiles, Table, Sound;
    var es := Plan(lib, d, self).value.entries;
    ImageSound(lib, ids, d, self);
    if !(body == d && at == 0) {
      var e :| 0 <= e < |es| && body == BodyOf(lib, es[e].name) && ready == IsReady(lib, es[e].name) && at == es[e].at;
      PlanTiles(lib, d, self);
      EntryCode(lib, es, |d.code|, Plan(lib, d, self).value.pc, e);
      SliceAt(d.code, Codes(lib, es), at - |d.code|, body.code, x);
    }
  }

  lemma {:induction false} SliceAt<T>(a: seq<T>, b: seq<T>, q: nat, c: seq<T>, i: nat)
    requires q + |c| <= |b| && b[q..q + |c|] == c && i < |c|
    ensures (a + b)[|a| + q + i] == c[i]
  {
    assert (a + b)[|a| + q + i] == b[q + i] == b[q..q + |c|][i];
  }

  lemma {:induction false} PlanTiles(lib: Library, d: Difo, self: Option<string>)
    requires Plan(lib, d, self).Some?
    ensures Tiles(lib, Plan(lib, d, self).value.entries, |d.code|, Plan(lib, d, self).value.pc)
  {
    hide Visit, Tiles;
    VisitLaid(lib, d, self.Some? && IsReady(lib, self.value), Start(self), 0);
  }

  /** What becomes of an instruction with a record: record `i` of the copy at `at`. */
  lemma {:induction false} RecordApplied(lib: Library, ids: map<string, int>, d: Difo, self: Option<string>, body: Difo,
                                         ready: bool, at: nat, i: nat)
    requires lib.Valid() && SoundLibrary(lib) && Sound(lib, d.code, d.relocs) && Plan(lib, d, self).Some?
    requires IsCopy(lib, d, self, Plan(lib, d, self).value.entries, body, ready, at) && i < |body.relocs|
    ensures var es := Plan(lib, d, self).value.entries;
      var img, tab := Image(lib, d, es), Relocations(lib, ids, d, self, es);
      var r := Moved(lib, ids, body.relocs[i], at, ready);
      var j := at + body.relocs[i].offset / 8;
      && Sound(lib, img, tab) && RecordFits(lib, img, r) && j == r.offset / 8 < |img|
      && Patches(lib, img, tab)[j] == Patch(lib, img, r)[j]
      && (r.kind == Wide ==> j + 1 < |img| && Patches(lib, img, tab)[j + 1] == Patch(lib, img, r)[j + 1])
  {
    hide Patch, Visit, Table, Codes, MovedAll, Sound;
    var es := Plan(lib, d, self).value.entries;
    var img, tab := Image(lib, d, es), Relocations(lib, ids, d, self, es);
    ImageSound(lib, ids, d, self);
    var k := CopyRecord(lib, ids, d, self, body, ready, at, i);
    SoundAt(lib, img, tab, k);
    PatchesSet(lib, img, tab, k);
  }

  /** Calls reach their function: a call that a copy makes to a function other than the
      program itself goes to the first instruction of that function's copy. */
  lemma {:induction false} CallsLand(lib: Library, ids: map<string, int>, d: Difo, self: Option<string>, body: Difo,
                                     at: nat, i: nat, e: nat)
    requires lib.Valid() && SoundLibrary(lib) && Sound(lib, d.code, d.relocs) && Plan(lib, d, self).Some?
    requires var es := Plan(lib, d, self).value.entries;
      && IsCopy(lib, d, self, es, body, false, at) && i < |body.relocs|
      && e < |es| && body.relocs[i].name == es[e].name
      && |Image(lib, d, es)| < 0x8000_0000
    ensures var es := Plan(lib, d, self).value.entries;
      var img, tab := Image(lib, d, es), Relocations(lib, ids + Addresses(es), d, self, es);
      var j := at + body.relocs[i].offset / 8;
      && Sound(lib, img, tab) && j < |img| && img[j].call
      && j + 1 + Patches(lib, img, tab)[j].imm == es[e].at
  {
    hide Visit, Table, Codes, MovedAll, Sound, Patches, Tiles;
    var es := Plan(lib, d, self).value.entries;
    var ids1 := ids + Addresses(es);
    RecordApplied(lib, ids1, d, self, body, false, at, i);
    AddressesAgree(lib, ids, d, self);
    VisitLaid(lib, d, self.Some? && IsReady(lib, self.value), Start(self), 0);
    EntryCode(lib, es, |d.code|, Plan(lib, d, self).value.pc, e);
  }

  /** And every function that a copy calls has a copy, except for the program itself. */
  lemma {:induction false} CallTarget(lib: Library, d: Difo, self: Option<string>, body: Difo, at: nat, i: nat)
    returns (e: nat)
    requires Plan(lib, d, self).Some? && !(self.Some? && IsReady(lib, self.value))
    requires IsCopy(lib, d, self, Plan(lib, d, self).value.entries, body, false, at) && i < |body.relocs|
    requires body.relocs[i].name in lib.funcs && body.relocs[i].name !in Start(self)
    ensures e < |Plan(lib, d, self).value.entries| && Plan(lib, d, self).value.entries[e].name == body.relocs[i].name
  {
    hide Tiles;
    var plan := Plan(lib, d, self).value;
    var es, name := plan.entries, body.relocs[i].name;
    VisitUnfold(lib, d, false, Start(self), 0);
    VisitLaid(lib, d, false, Start(self), 0);
    DepsClosed(lib, d.relocs, Start(self), |d.code|);
    hide Deps, Visit;
    assert Mentions(body.relocs, name);
    if !(body == d && at == 0) {
      var c :| 0 <= c < |es| && body == BodyOf(lib, es[c].name) && !IsReady(lib, es[c].name) && at == es[c].at;
      assert es[c].name in Names(es);
    }
    assert name in Names(es);
    e :| 0 <= e < |es| && es[e].name == name;
  }

  /** A copy of a function that was linked before keeps its calls: they are relative,
      and what it calls has been copied with it. */
  lemma {:induction false} ReadyCallsKeep(lib: Library, ids: map<string, int>, d: Difo, self: Option<string>,
                                          body: Difo, at: nat, i: nat)
    requires lib.Valid() && SoundLibrary(lib) && Sound(lib, d.code, d.relocs) && Plan(lib, d, self).Some?
    requires var es := Plan(lib, d, self).value.entries;
      IsCopy(lib, d, self, es, body, true, at) && i < |body.relocs| && body.relocs[i].name in lib.funcs
    ensures var es := Plan(lib, d, self).value.entries;
      var img, tab := Image(lib, d, es), Relocations(lib, ids, d, self, es);
      var j := at + body.relocs[i].offset / 8;
      && Sound(lib, img, tab) && j < |img|
      && Patches(lib, img, tab)[j].imm == Imm32(body.relocs[i].data - body.relocs[i].offset / 8 - 1)
  {
    hide Visit, Table, Codes, MovedAll, Sound, Patches, Tiles;
    RecordApplied(lib, ids, d, self, body, true, at, i);
  }

  /** Constants get their values. */
  lemma {:induction false} ConstantsSet(lib: Library, ids: map<string, int>, d: Difo, self: Option<string>, body: Difo,
                                        at: nat, i: nat)
    requires lib.Valid() && SoundLibrary(lib) && Sound(lib, d.code, d.relocs) && Plan(lib, d, self).Some?
    requires var es := Plan(lib, d, self).value.entries;
      && IsCopy(lib, d, self, es, body, false, at) && i < |body.relocs|
      && body.relocs[i].name in lib.consts && body.relocs[i].kind != NoReloc
    ensures var es := Plan(lib, d, self).value.entries;
      var img, tab := Image(lib, d, es), Relocations(lib, ids, d, self, es);
      var j := at + body.relocs[i].offset / 8;
      var c := match lib.consts[body.relocs[i].name] case Number(v) => v case Here => j;
      && Sound(lib, img, tab) && j < |img|
      && Patches(lib, img, tab)[j].imm == Imm32(c)
      && (body.relocs[i].kind == Wide ==>
            j + 1 < |img| && Patches(lib, img, tab)[j + 1].imm == Imm32(c / 0x1_0000_0000))
  {
    hide Visit, Table, Codes, MovedAll, Sound, Patches, Tiles;
    RecordApplied(lib, ids, d, self, body, false, at, i);
  }

  /** A call back to the program itself goes wherever the program's identifier pointed
      before linking: it reaches the program exactly when that was 0, which it is not
      for an identifier without an address. */
  lemma {:induction false} CallsToSelf(lib: Library, ids: map<string, int>, d: Difo, self: string, body: Difo, at: nat,
                                       i: nat)
    requires lib.Valid() && SoundLibrary(lib) && Sound(lib, d.code, d.relocs) && Plan(lib, d, Some(self)).Some?
    requires self in ids && self in lib.funcs && 0 <= ids[self] <= UNDEF
    requires var es := Plan(lib, d, Some(self)).value.entries;
      && IsCopy(lib, d, Some(self), es, body, false, at) && i < |body.relocs| && body.relocs[i].name == self
      && |Image(lib, d, es)| < 0x8000_0000
    ensures var es := Plan(lib, d, Some(self)).value.entries;
      var img, tab := Image(lib, d, es), Relocations(lib, ids + Addresses(es), d, Some(self), es);
      var j := at + body.relocs[i].offset / 8;
      && Sound(lib, img, tab) && j < |img|
      && (j + 1 + Patches(lib, img, tab)[j].imm == 0 <==> ids[self] == 0)
      && (ids[self] == UNDEF ==> j + 1 + Patches(lib, img, tab)[j].imm == -1)
  {
    hide Visit, Table, Codes, MovedAll, Sound, Patches, Tiles;
    var es := Plan(lib, d, Some(self)).value.entries;
    var ids1 := ids + Addresses(es);
    RecordApplied(lib, ids1, d, Some(self), body, false, at, i);
    AddressesAgree(lib, ids, d, Some(self));
    VisitLaid(lib, d, IsReady(lib, self), Start(Some(self)), 0);
    assert self !in Names(es);
    assert ids1[self] == ids[self];
  }
}
