/**
 Programs that are linked from functions which have been linked themselves.  Such a function
 is linked with its own identifier, calls back to it are turned into no-ops, and it is marked
 DT_IDFLG_CGREG (dt_bpf_load_progs() and dt_bpf_reloc_error_prog() in libdtrace/dt_bpf.c,
 dt_link_construct() in libdtrace/dt_cc.c; the ERROR probe's program is one).  In every
 program that comes out of any number of such links, every call instruction with a record
 goes to a copy of the code of the function it names.
 */
module Relink {
  import opened Basics
  import opened Linker

  /** What every function was compiled to, before any linking. */
  type Source = map<string, Difo>

  /** A jump to the next instruction; its immediate has no meaning. */
  const NOP := Slot(false, 0, 0)

  predicate IsNop(s: Slot) {
    !s.call && s.rest == NOP.rest
  }

  /** There is a record with this name for instruction `k`. */
  ghost predicate Named(c: Difo, k: int, name: string) {
    exists i :: 0 <= i < |c.relocs| && c.relocs[i].offset / 8 == k && c.relocs[i].name == name
  }

  /** Instruction `at` + `k` is instruction `k` of `c` but for its immediate, or a no-op in
      place of a call to one of the functions `gone`. */
  ghost predicate SlotHolds(body: Difo, at: nat, c: Difo, k: nat, gone: set<string>)
    requires k < |c.code| && at + k < |body.code|
  {
    var s := body.code[at + k];
    || (s.call == c.code[k].call && s.rest == c.code[k].rest)
    || (IsNop(s) && exists name :: name in gone && Named(c, k, name))
  }

  /** From `at` on the code is that of `c`, and the records are among those of `c`. */
  ghost predicate HoldsAt(body: Difo, at: int, c: Difo, gone: set<string>) {
    && 0 <= at && at + |c.code| <= |body.code|
    && (forall k :: 0 <= k < |c.code| ==> SlotHolds(body, at, c, k, gone))
    && (forall i :: 0 <= i < |body.relocs| && at <= body.relocs[i].offset / 8 < at + |c.code| ==>
          Named(c, body.relocs[i].offset / 8 - at, body.relocs[i].name))
  }

  /** The call that record `i` is for goes to the code of the function the record names. */
  ghost predicate Lands(lib: Library, src: Source, body: Difo, i: nat, gone: set<string>)
    requires i < |body.relocs|
  {
    var r := body.relocs[i];
    r.name in lib.funcs ==>
      && r.name in src && r.offset / 8 < |body.code| && body.code[r.offset / 8].call
      && r.offset / 8 + 1 + body.code[r.offset / 8].imm == r.data
      && HoldsAt(body, r.data, src[r.name], gone)
  }

  /** All calls land; those to `but` are not looked at. */
  ghost predicate Linked(lib: Library, src: Source, body: Difo, but: set<string>, gone: set<string>) {
    forall i :: 0 <= i < |body.relocs| && body.relocs[i].name !in but ==> Lands(lib, src, body, i, gone)
  }

  /** The functions that have been linked. */
  function Ready(lib: Library): set<string> {
    set x | x in lib.funcs && lib.funcs[x].ready
  }

  /** Every function begins with its code, and in those that are linked calls land. */
  ghost predicate Built(lib: Library, src: Source) {
    && lib.Valid() && SoundLibrary(lib)
    && forall x :: x in lib.funcs && lib.funcs[x].body.Some? ==> BuiltOne(lib, src, x, Ready(lib))
  }

  ghost predicate BuiltOne(lib: Library, src: Source, x: string, gone: set<string>)
    requires x in lib.funcs && lib.funcs[x].body.Some?
  {
    var body := lib.funcs[x].body.value;
    && x in src && HoldsAt(body, 0, src[x], gone)
    && (lib.funcs[x].ready ==> Linked(lib, src, body, {}, gone) && |body.code| < 0x8000_0000)
  }

  /** A library in which nothing has been linked is in order. */
  lemma {:induction false} NothingLinked(lib: Library)
    requires lib.Valid() && SoundLibrary(lib) && forall x :: x in lib.funcs ==> !lib.funcs[x].ready
    ensures Built(lib, map x | x in lib.funcs :: BodyOf(lib, x))
  {
    hide Sound;
    var src: Source := map x | x in lib.funcs :: BodyOf(lib, x);
    forall x | x in lib.funcs && lib.funcs[x].body.Some? ensures BuiltOne(lib, src, x, Ready(lib)) {
      HoldsItself(lib.funcs[x].body.value, Ready(lib));
    }
  }

  lemma {:induction false} HoldsItself(c: Difo, gone: set<string>)
    ensures HoldsAt(c, 0, c, gone)
  {
    forall i | 0 <= i < |c.relocs| && 0 <= c.relocs[i].offset / 8 < |c.code|
      ensures Named(c, c.relocs[i].offset / 8 - 0, c.relocs[i].name)
    {
    }
  }

  /** What dt_link() is called for: a program that is not linked yet, whose functions all
      are defined. */
  ghost predicate Linkable(lib: Library, d: Difo, self: Option<string>) {
    && Sound(lib, d.code, d.relocs) && Plan(lib, d, self).Some?
    && !(self.Some? && IsReady(lib, self.value))
    && |Image(lib, d, Plan(lib, d, self).value.entries)| < 0x8000_0000
  }

  /** What comes out of LinkProgram. */
  ghost function Result(lib: Library, ids: map<string, int>, d: Difo, self: Option<string>): Difo
    requires lib.Valid() && SoundLibrary(lib) && Sound(lib, d.code, d.relocs) && Plan(lib, d, self).Some?
  {
    var es := Plan(lib, d, self).value.entries;
    var tab := Relocations(lib, ids + Addresses(es), d, self, es);
    ImageSound(lib, ids + Addresses(es), d, self);
    Difo(Patches(lib, Image(lib, d, es), tab), tab)
  }

  // ----- where a record comes from -----

  lemma {:induction false} TableRecord(lib: Library, ids: map<string, int>, es: seq<Entry>, k: nat)
    returns (e: nat, i: nat)
    requires k < |Table(lib, ids, es)|
    ensures e < |es| && i < |BodyOf(lib, es[e].name).relocs|
    ensures Table(lib, ids, es)[k] ==
            Moved(lib, ids, BodyOf(lib, es[e].name).relocs[i], es[e].at, IsReady(lib, es[e].name))
    decreases |es|
  {
    hide Moved, BodyOf, IsReady;
    TableFirst(lib, ids, es);
    var n := |BodyOf(lib, es[0].name).relocs|;
    if k < n {
      e, i := 0, k;
    } else {
      var e1, i1 := TableRecord(lib, ids, es[1..], k - n);
      e, i := e1 + 1, i1;
    }
  }

  lemma {:induction false} RecordOf(lib: Library, ids: map<string, int>, d: Difo, self: Option<string>, k: nat)
    returns (body: Difo, ready: bool, at: nat, i: nat)
    requires Plan(lib, d, self).Some? && k < |Relocations(lib, ids, d, self, Plan(lib, d, self).value.entries)|
    ensures var es := Plan(lib, d, self).value.entries;
      && IsCopy(lib, d, self, es, body, ready, at) && i < |body.relocs|
      && Relocations(lib, ids, d, self, es)[k] == Moved(lib, ids, body.relocs[i], at, ready)
  {
    hide Moved, Table, Visit;
    var es := Plan(lib, d, self).value.entries;
    if k < |d.relocs| {
      body, ready, at, i := d, self.Some? && IsReady(lib, self.value), 0, k;
    } else {
      var e, j := TableRecord(lib, ids, es, k - |d.relocs|);
      body, ready, at, i := BodyOf(lib, es[e].name), IsReady(lib, es[e].name), es[e].at, j;
    }
  }

  // ----- calls land -----

  lemma {:induction false} TilesApart(lib: Library, es: seq<Entry>, pc: nat, end: nat, e: nat, f: nat)
    requires Tiles(lib, es, pc, end) && e <= f < |es|
    ensures pc <= es[e].at && (e < f ==> es[e].at + |BodyOf(lib, es[e].name).code| <= es[f].at)
    decreases |es|
  {
    hide BodyOf;
    var n := pc + |BodyOf(lib, es[0].name).code|;
    if e > 0 {
      TilesApart(lib, es[1..], n, end, e - 1, f - 1);
    } else if f > 0 {
      TilesApart(lib, es[1..], n, end, f - 1, f - 1);
    }
  }

  /** An instruction of the linked program is in one copy only. */
  lemma {:induction false} SameCopy(lib: Library, d: Difo, self: Option<string>, body: Difo, ready: bool, at: nat,
                                    body': Difo, ready': bool, at': nat, j: int)
    requires Plan(lib, d, self).Some?
    requires IsCopy(lib, d, self, Plan(lib, d, self).value.entries, body, ready, at)
    requires IsCopy(lib, d, self, Plan(lib, d, self).value.entries, body', ready', at')
    requires at <= j < at + |body.code| && at' <= j < at' + |body'.code|
    ensures body == body' && at == at' && ready == ready'
  {
    hide Visit, Tiles, BodyOf;
    PlanTiles(lib, d, self);
    var es, end := Plan(lib, d, self).value.entries, Plan(lib, d, self).value.pc;
    var e := WhichCopy(lib, d, self, body, ready, at);
    var f := WhichCopy(lib, d, self, body', ready', at');
    if e >= 0 { TilesApart(lib, es, |d.code|, end, e, e); }
    if f >= 0 { TilesApart(lib, es, |d.code|, end, f, f); }
    if 0 <= e < f { TilesApart(lib, es, |d.code|, end, e, f); }
    if 0 <= f < e { TilesApart(lib, es, |d.code|, end, f, e); }
  }

  lemma {:induction false} WhichCopy(lib: Library, d: Difo, self: Option<string>, body: Difo, ready: bool, at: nat)
    returns (e: int)
    requires Plan(lib, d, self).Some?
    requires IsCopy(lib, d, self, Plan(lib, d, self).value.entries, body, ready, at)
    ensures var es := Plan(lib, d, self).value.entries;
      || (e == -1 && body == d && at == 0 && ready == (self.Some? && IsReady(lib, self.value)))
      || (0 <= e < |es| && body == BodyOf(lib, es[e].name) && at == es[e].at && ready == IsReady(lib, es[e].name))
  {
    hide Visit, BodyOf;
    var es := Plan(lib, d, self).value.entries;
    if body == d && at == 0 && ready == (self.Some? && IsReady(lib, self.value)) {
      e := -1;
    } else {
      var k :| 0 <= k < |es| && body == BodyOf(lib, es[k].name) && ready == IsReady(lib, es[k].name) && at == es[k].at;
      e := k;
    }
  }

  /** A copy holds what it is a copy of. */
  lemma {:induction false} CopyHolds(lib: Library, ids: map<string, int>, d: Difo, self: Option<string>, body: Difo,
                                     ready: bool, at: nat, from: int, c: Difo, gone: set<string>)
    requires lib.Valid() && SoundLibrary(lib) && Sound(lib, d.code, d.relocs) && Plan(lib, d, self).Some?
    requires IsCopy(lib, d, self, Plan(lib, d, self).value.entries, body, ready, at) && HoldsAt(body, from, c, gone)
    requires at + |body.code| <= |Result(lib, ids, d, self).code|
    ensures HoldsAt(Result(lib, ids, d, self), at + from, c, gone)
  {
    hide Visit, Plan, IsCopy, Sound, SoundLibrary, Named, Moved;
    var r := Result(lib, ids, d, self);
    var es := Plan(lib, d, self).value.entries;
    var q := at + from;
    forall k | 0 <= k < |c.code| ensures SlotHolds(r, q, c, k, gone) {
      CopyKept(lib, ids + Addresses(es), d, self, body, ready, at, from + k);
      assert SlotHolds(body, from, c, k, gone);
    }
    forall i | 0 <= i < |r.relocs| && at + from <= r.relocs[i].offset / 8 < at + from + |c.code|
      ensures Named(c, r.relocs[i].offset / 8 - (at + from), r.relocs[i].name)
    {
      var i1 := RecordWithin(lib, ids, d, self, body, ready, at, i);
      assert Named(c, body.relocs[i1].offset / 8 - from, body.relocs[i1].name);
    }
  }

  /** A record for an instruction of a copy is one of that copy's. */
  lemma {:induction false} RecordWithin(lib: Library, ids: map<string, int>, d: Difo, self: Option<string>, body: Difo,
                                        ready: bool, at: nat, k: nat) returns (i: nat)
    requires lib.Valid() && SoundLibrary(lib) && Sound(lib, d.code, d.relocs) && Plan(lib, d, self).Some?
    requires IsCopy(lib, d, self, Plan(lib, d, self).value.entries, body, ready, at)
    requires k < |Result(lib, ids, d, self).relocs|
    requires at <= Result(lib, ids, d, self).relocs[k].offset / 8 < at + |body.code|
    ensures i < |body.relocs| && body.relocs[i].name == Result(lib, ids, d, self).relocs[k].name
    ensures body.relocs[i].offset / 8 + at == Result(lib, ids, d, self).relocs[k].offset / 8
  {
    hide Visit, Plan, IsCopy, Sound, SoundLibrary;
    var es := Plan(lib, d, self).value.entries;
    var r := Result(lib, ids, d, self).relocs[k];
    var body', ready', at', i' := RecordOf(lib, ids + Addresses(es), d, self, k);
    assert r.name == body'.relocs[i'].name && r.offset == body'.relocs[i'].offset + 8 * at';
    RecordInside(lib, d, self, body', ready', at', i');
    SameCopy(lib, d, self, body, ready, at, body', ready', at', r.offset / 8);
    i := i';
  }

  lemma {:induction false} RecordInside(lib: Library, d: Difo, self: Option<string>, body: Difo, ready: bool, at: nat,
                                        i: nat)
    requires SoundLibrary(lib) && Sound(lib, d.code, d.relocs) && Plan(lib, d, self).Some?
    requires IsCopy(lib, d, self, Plan(lib, d, self).value.entries, body, ready, at) && i < |body.relocs|
    ensures body.relocs[i].offset / 8 + Width(body.relocs[i].kind) <= |body.code|
  {
    hide Visit, Sound;
    var e := WhichCopy(lib, d, self, body, ready, at);
    if e >= 0 { EntryDefined(lib, d, self, e); }
    SoundAt(lib, body.code, body.relocs, i);
  }

  lemma {:induction false} CopyInside(lib: Library, ids: map<string, int>, d: Difo, self: Option<string>, body: Difo,
                                      ready: bool, at: nat)
    requires lib.Valid() && SoundLibrary(lib) && Sound(lib, d.code, d.relocs) && Plan(lib, d, self).Some?
    requires IsCopy(lib, d, self, Plan(lib, d, self).value.entries, body, ready, at)
    ensures at + |body.code| <= |Result(lib, ids, d, self).code|
  {
    hide Visit, Sound, SoundLibrary, Tiles, Codes;
    var es := Plan(lib, d, self).value.entries;
    if !(body == d && at == 0) {
      var e :| 0 <= e < |es| && body == BodyOf(lib, es[e].name) && ready == IsReady(lib, es[e].name) && at == es[e].at;
      PlanTiles(lib, d, self);
      EntryCode(lib, es, |d.code|, Plan(lib, d, self).value.pc, e);
    }
  }

  /** A record of a copy that was not linked before: its call goes to the copy of the
      function, which holds the function's code. */
  lemma {:induction false} NewLands(lib: Library, src: Source, ids: map<string, int>, d: Difo, self: Option<string>,
                                    k: nat, body: Difo, at: nat, i: nat)
    requires Built(lib, src) && Linkable(lib, d, self) && k < |Result(lib, ids, d, self).relocs|
    requires IsCopy(lib, d, self, Plan(lib, d, self).value.entries, body, false, at) && i < |body.relocs|
    requires var es := Plan(lib, d, self).value.entries;
      Result(lib, ids, d, self).relocs[k] == Moved(lib, ids + Addresses(es), body.relocs[i], at, false)
    requires body.relocs[i].name !in Start(self)
    ensures Lands(lib, src, Result(lib, ids, d, self), k, Ready(lib))
  {
    hide Visit, Sound, SoundLibrary, Tiles, Codes, HoldsAt, Linked, Patches, Table;
    var es, name := Plan(lib, d, self).value.entries, body.relocs[i].name;
    if name in lib.funcs {
      var e := CallTarget(lib, d, self, body, at, i);
      CallsLand(lib, ids, d, self, body, at, i, e);
      AddressesAgree(lib, ids, d, self);
      EntryDefined(lib, d, self, e);
      assert BuiltOne(lib, src, name, Ready(lib));
      var callee := BodyOf(lib, name);
      assert IsCopy(lib, d, self, es, callee, IsReady(lib, name), es[e].at);
      CopyInside(lib, ids, d, self, callee, IsReady(lib, name), es[e].at);
      CopyHolds(lib, ids, d, self, callee, IsReady(lib, name), es[e].at, 0, src[name], Ready(lib));
    }
  }

  lemma {:induction false} EntryDefined(lib: Library, d: Difo, self: Option<string>, e: nat)
    requires Plan(lib, d, self).Some? && e < |Plan(lib, d, self).value.entries|
    ensures var name := Plan(lib, d, self).value.entries[e].name; name in lib.funcs && lib.funcs[name].body.Some?
  {
    hide Visit, Tiles;
    VisitLaid(lib, d, self.Some? && IsReady(lib, self.value), Start(self), 0);
  }

  /** A record of a copy of a function that was linked before: its call goes where it went
      within the function, moved with it. */
  lemma {:induction false} ReadyLands(lib: Library, src: Source, ids: map<string, int>, d: Difo, self: Option<string>,
                                      k: nat, body: Difo, at: nat, i: nat)
    requires Built(lib, src) && Linkable(lib, d, self) && k < |Result(lib, ids, d, self).relocs|
    requires IsCopy(lib, d, self, Plan(lib, d, self).value.entries, body, true, at) && i < |body.relocs|
    requires var es := Plan(lib, d, self).value.entries;
      Result(lib, ids, d, self).relocs[k] == Moved(lib, ids + Addresses(es), body.relocs[i], at, true)
    ensures Lands(lib, src, Result(lib, ids, d, self), k, Ready(lib))
  {
    hide Visit, Sound, SoundLibrary, Tiles, Codes, HoldsAt, Patches, Table;
    var es, r := Plan(lib, d, self).value.entries, body.relocs[i];
    if r.name in lib.funcs {
      ReadyBody(lib, src, d, self, body, at);
      assert Lands(lib, src, body, i, Ready(lib));
      CopyInside(lib, ids, d, self, body, true, at);
      CopyHolds(lib, ids, d, self, body, true, at, r.data, src[r.name], Ready(lib));
      CopyKept(lib, ids + Addresses(es), d, self, body, true, at, r.offset / 8);
      ReadyCallsKeep(lib, ids + Addresses(es), d, self, body, at, i);
      assert r.data - r.offset / 8 - 1 == body.code[r.offset / 8].imm;
      InsideRange(body, r.data, src[r.name], Ready(lib));
    }
  }

  lemma {:induction false} InsideRange(body: Difo, at: int, c: Difo, gone: set<string>)
    requires HoldsAt(body, at, c, gone)
    ensures 0 <= at <= |body.code|
  {
  }

  lemma {:induction false} ReadyBody(lib: Library, src: Source, d: Difo, self: Option<string>, body: Difo, at: nat)
    requires Built(lib, src) && Linkable(lib, d, self)
    requires IsCopy(lib, d, self, Plan(lib, d, self).value.entries, body, true, at)
    ensures Linked(lib, src, body, {}, Ready(lib)) && |body.code| < 0x8000_0000
  {
    hide Visit, Sound, SoundLibrary, HoldsAt, Linked;
    var es := Plan(lib, d, self).value.entries;
    var e :| 0 <= e < |es| && body == BodyOf(lib, es[e].name) && IsReady(lib, es[e].name) && at == es[e].at;
    EntryDefined(lib, d, self, e);
    assert BuiltOne(lib, src, es[e].name, Ready(lib));
  }

  /** In the linked program every call with a record, of whatever copy, goes to the code of
      the function that the record names, unless that is the program itself. */
  lemma {:induction false} LinkLands(lib: Library, src: Source, ids: map<string, int>, d: Difo, self: Option<string>)
    requires Built(lib, src) && Linkable(lib, d, self)
    ensures Linked(lib, src, Result(lib, ids, d, self), Start(self), Ready(lib))
  {
    hide Built, Lands, Sound, SoundLibrary, Moved, IsCopy;
    assert lib.Valid() && SoundLibrary(lib) by { BuiltSound(lib, src); }
    var es := Plan(lib, d, self).value.entries;
    var r := Result(lib, ids, d, self);
    forall k | 0 <= k < |r.relocs| && r.relocs[k].name !in Start(self) ensures Lands(lib, src, r, k, Ready(lib)) {
      var body, ready, at, i := RecordOf(lib, ids + Addresses(es), d, self, k);
      MovedName(lib, ids + Addresses(es), body.relocs[i], at, ready);
      if ready {
        ReadyLands(lib, src, ids, d, self, k, body, at, i);
      } else {
        NewLands(lib, src, ids, d, self, k, body, at, i);
      }
    }
  }

  lemma {:induction false} MovedName(lib: Library, ids: map<string, int>, r: Record, at: nat, ready: bool)
    ensures Moved(lib, ids, r, at, ready).name == r.name
  {
  }

  lemma {:induction false} BuiltSound(lib: Library, src: Source)
    requires Built(lib, src)
    ensures lib.Valid() && SoundLibrary(lib)
  {
  }

  // ----- copies are exact -----

  /** Record `r` is for instruction `x`, or for the two that begin before it. */
  predicate Covers(r: Record, x: int) {
    r.offset / 8 <= x < r.offset / 8 + Width(r.kind)
  }

  /** What covers an instruction of a copy is one of that copy's records. */
  lemma {:induction false} CoverOf(lib: Library, ids: map<string, int>, d: Difo, self: Option<string>, body: Difo,
                                   ready: bool, at: nat, x: nat, k: nat) returns (i: nat)
    requires SoundLibrary(lib) && Sound(lib, d.code, d.relocs) && Plan(lib, d, self).Some?
    requires var es := Plan(lib, d, self).value.entries;
      && IsCopy(lib, d, self, es, body, ready, at) && x < |body.code|
      && k < |Relocations(lib, ids, d, self, es)| && Covers(Relocations(lib, ids, d, self, es)[k], at + x)
    ensures i < |body.relocs| && Covers(body.relocs[i], x)
    ensures Relocations(lib, ids, d, self, Plan(lib, d, self).value.entries)[k] ==
            Moved(lib, ids, body.relocs[i], at, ready)
  {
    hide Visit, Plan, IsCopy, Sound, SoundLibrary, Relocations;
    var body', ready', at', i' := RecordOf(lib, ids, d, self, k);
    RecordInside(lib, d, self, body', ready', at', i');
    MovedCovers(lib, ids, body'.relocs[i'], at', ready', at + x);
    SameCopy(lib, d, self, body, ready, at, body', ready', at', at + x);
    i := i';
  }

  lemma {:induction false} MovedCovers(lib: Library, ids: map<string, int>, r: Record, at: nat, ready: bool, j: int)
    requires Covers(Moved(lib, ids, r, at, ready), j)
    ensures Covers(r, j - at)
  {
  }

  /** An instruction of a copy for which the function has no record is copied as it is. */
  lemma {:induction false} PlainKept(lib: Library, ids: map<string, int>, d: Difo, self: Option<string>, body: Difo,
                                     ready: bool, at: nat, x: nat)
    requires lib.Valid() && SoundLibrary(lib) && Sound(lib, d.code, d.relocs) && Plan(lib, d, self).Some?
    requires IsCopy(lib, d, self, Plan(lib, d, self).value.entries, body, ready, at) && x < |body.code|
    requires forall i :: 0 <= i < |body.relocs| ==> !Covers(body.relocs[i], x)
    ensures at + x < |Result(lib, ids, d, self).code| && Result(lib, ids, d, self).code[at + x] == body.code[x]
  {
    hide Visit, Plan, IsCopy, Sound, SoundLibrary, Relocations, Moved, Patches, Image;
    var es := Plan(lib, d, self).value.entries;
    var ids1 := ids + Addresses(es);
    var tab := Relocations(lib, ids1, d, self, es);
    CopyKept(lib, ids1, d, self, body, ready, at, x);
    forall k | 0 <= k < |tab| ensures !Covers(tab[k], at + x) {
      if Covers(tab[k], at + x) {
        var i := CoverOf(lib, ids1, d, self, body, ready, at, x, k);
      }
    }
    PatchesKeep(lib, Image(lib, d, es), tab, at + x);
  }

  /** An instruction of a function that was linked before is copied as it is, unless it is a
      call whose displacement is not the one to the target in its record. */
  lemma {:induction false} ReadyKept(lib: Library, ids: map<string, int>, d: Difo, self: Option<string>, body: Difo,
                                     at: nat, x: nat)
    requires lib.Valid() && SoundLibrary(lib) && Sound(lib, d.code, d.relocs) && Plan(lib, d, self).Some?
    requires IsCopy(lib, d, self, Plan(lib, d, self).value.entries, body, true, at) && x < |body.code|
    requires forall i :: 0 <= i < |body.relocs| && body.relocs[i].name in lib.funcs && Covers(body.relocs[i], x) ==>
      body.code[x].imm == Imm32(body.relocs[i].data - x - 1)
    ensures at + x < |Result(lib, ids, d, self).code| && Result(lib, ids, d, self).code[at + x] == body.code[x]
  {
    hide Visit, Plan, IsCopy, Sound, SoundLibrary, Relocations, Moved, Patches, Image;
    var es := Plan(lib, d, self).value.entries;
    var ids1 := ids + Addresses(es);
    var img, tab := Image(lib, d, es), Relocations(lib, ids1, d, self, es);
    CopyKept(lib, ids1, d, self, body, true, at, x);
    if k :| 0 <= k < |tab| && Covers(tab[k], at + x) {
      var i := CoverOf(lib, ids1, d, self, body, true, at, x, k);
      SoundAt(lib, img, tab, k);
      PatchesSet(lib, img, tab, k);
      ReadyPatch(lib, ids1, img, body.relocs[i], at, x, body.code[x].imm);
    } else {
      PatchesKeep(lib, img, tab, at + x);
    }
  }

  /** The record of a linked function does nothing to the copy. */
  lemma {:induction false} ReadyPatch(lib: Library, ids: map<string, int>, img: seq<Slot>, r: Record, at: nat, x: nat,
                                      imm: int)
    requires lib.Valid() && RecordFits(lib, img, Moved(lib, ids, r, at, true))
    requires Covers(Moved(lib, ids, r, at, true), at + x) && at + x < |img| && img[at + x].imm == imm
    requires r.name in lib.funcs ==> imm == Imm32(r.data - x - 1)
    ensures Patch(lib, img, Moved(lib, ids, r, at, true))[at + x] == img[at + x]
    ensures var m := Moved(lib, ids, r, at, true);
      m.offset / 8 == at + x || (m.kind == Wide && m.offset / 8 + 1 == at + x)
  {
  }

  /** The copy of a function that was linked before is that function, instruction by
      instruction: constants keep their values, and calls their displacements. */
  lemma {:induction false} ReadyCopied(lib: Library, src: Source, ids: map<string, int>, d: Difo, self: Option<string>,
                                       body: Difo, at: nat)
    requires Built(lib, src) && Linkable(lib, d, self)
    requires IsCopy(lib, d, self, Plan(lib, d, self).value.entries, body, true, at)
    ensures var c := Result(lib, ids, d, self).code;
      at + |body.code| <= |c| && c[at..at + |body.code|] == body.code
  {
    hide Visit, IsCopy, Sound, HoldsAt, Result;
    BuiltSound(lib, src);
    ReadyBody(lib, src, d, self, body, at);
    CopyInside(lib, ids, d, self, body, true, at);
    var c := Result(lib, ids, d, self).code;
    forall x | 0 <= x < |body.code| ensures c[at + x] == body.code[x] {
      forall i | 0 <= i < |body.relocs| && body.relocs[i].name in lib.funcs && Covers(body.relocs[i], x)
        ensures body.code[x].imm == Imm32(body.relocs[i].data - x - 1)
      {
        assert Lands(lib, src, body, i, Ready(lib));
        ReadyRecord(lib, d, self, body, at, i);
        InsideRange(body, body.relocs[i].data, src[body.relocs[i].name], Ready(lib));
      }
      ReadyKept(lib, ids, d, self, body, at, x);
    }
  }

  lemma {:induction false} ReadyRecord(lib: Library, d: Difo, self: Option<string>, body: Difo, at: nat, i: nat)
    requires SoundLibrary(lib) && Sound(lib, d.code, d.relocs) && Plan(lib, d, self).Some?
    requires IsCopy(lib, d, self, Plan(lib, d, self).value.entries, body, true, at) && i < |body.relocs|
    ensures body.relocs[i].name in lib.funcs ==> body.relocs[i].kind == Narrow
  {
    hide Visit, Sound;
    var e := WhichCopy(lib, d, self, body, true, at);
    if e >= 0 { EntryDefined(lib, d, self, e); }
    SoundAt(lib, body.code, body.relocs, i);
  }

  // ----- calls back to the program itself -----

  /** The records that do not name `x`. */
  function Kept(tab: seq<Record>, x: string): seq<Record> {
    if tab == [] then []
    else
      var n := |tab| - 1;
      Kept(tab[..n], x) + if tab[n].name == x then [] else [tab[n]]
  }

  /** The code with no-ops for the records that name `x`. */
  function Cut(code: seq<Slot>, tab: seq<Record>, x: string): (c: seq<Slot>)
    ensures |c| == |code|
  {
    if tab == [] then code
    else
      var n := |tab| - 1;
      var c := Cut(code, tab[..n], x);
      var j := tab[n].offset / 8;
      if tab[n].name == x && j < |c| then c[j := NOP] else c
  }

  function CutCalls(d: Difo, x: string): Difo {
    Difo(Cut(d.code, d.relocs, x), Kept(d.relocs, x))
  }

  lemma {:induction false} CutAt(code: seq<Slot>, tab: seq<Record>, x: string, j: nat)
    requires j < |code|
    ensures Cut(code, tab, x)[j] == if Named(Difo(code, tab), j, x) then NOP else code[j]
    decreases |tab|
  {
    if tab != [] {
      var n := |tab| - 1;
      CutAt(code, tab[..n], x, j);
      var d, d' := Difo(code, tab), Difo(code, tab[..n]);
      if Named(d', j, x) {
        var i :| 0 <= i < |d'.relocs| && d'.relocs[i].offset / 8 == j && d'.relocs[i].name == x;
        assert d.relocs[i] == d'.relocs[i];
      }
      if Named(d, j, x) && !(tab[n].name == x && tab[n].offset / 8 == j) {
        var i :| 0 <= i < |d.relocs| && d.relocs[i].offset / 8 == j && d.relocs[i].name == x;
        assert d'.relocs[i] == d.relocs[i];
      }
      if tab[n].name == x && tab[n].offset / 8 == j { assert Named(d, j, x) by { assert d.relocs[n].name == x; } }
    }
  }

  /** The records that are kept are records that were there, in the same order ... */
  lemma {:induction false} KeptFrom(tab: seq<Record>, x: string, k: nat) returns (i: nat)
    requires k < |Kept(tab, x)|
    ensures i < |tab| && Kept(tab, x)[k] == tab[i] && tab[i].name != x
    decreases |tab|
  {
    var n := |tab| - 1;
    if k < |Kept(tab[..n], x)| {
      i := KeptFrom(tab[..n], x, k);
    } else {
      i := n;
    }
  }

  lemma {:induction false} KeptOrder(tab: seq<Record>, x: string, k: nat, k': nat) returns (i: nat, i': nat)
    requires k < k' < |Kept(tab, x)|
    ensures i < i' < |tab| && Kept(tab, x)[k] == tab[i] && Kept(tab, x)[k'] == tab[i']
    decreases |tab|
  {
    var n := |tab| - 1;
    if k' < |Kept(tab[..n], x)| {
      i, i' := KeptOrder(tab[..n], x, k, k');
    } else {
      i := KeptFrom(tab[..n], x, k);
      i' := n;
    }
  }

  /** ... and all that do not name `x`. */
  lemma {:induction false} KeptAll(tab: seq<Record>, x: string, i: nat)
    requires i < |tab| && tab[i].name != x
    ensures tab[i] in Kept(tab, x)
    decreases |tab|
  {
    var n := |tab| - 1;
    if i < n { KeptAll(tab[..n], x, i); }
  }

  /** dt_bpf_reloc_error_prog: the calls to `x` become no-ops, and their records go. */
  method DropCalls(buf: array<Slot>, tab: array<Record>, x: string) returns (len: nat)
    requires forall i :: 0 <= i < tab.Length ==> tab[i].offset / 8 < buf.Length
    modifies buf, tab
    ensures len <= tab.Length && tab[..len] == Kept(old(tab[..]), x)
    ensures buf[..] == Cut(old(buf[..]), old(tab[..]), x)
  {
    ghost var recs, code := tab[..], buf[..];
    len := 0;
    var i := 0;
    while i < tab.Length
      invariant 0 <= len <= i <= tab.Length && forall j :: i <= j < tab.Length ==> tab[j] == recs[j]
      invariant tab[..len] == Kept(recs[..i], x) && buf[..] == Cut(code, recs[..i], x)
    {
      assert recs[..i + 1][..i] == recs[..i];
      if tab[i].name == x {
        buf[tab[i].offset / 8] := NOP;
      } else {
        if len != i { tab[len] := tab[i]; }
        len := len + 1;
      }
      i := i + 1;
    }
    assert recs[..i] == recs;
  }

  lemma {:induction false} CutSound(lib: Library, d: Difo, x: string)
    requires Sound(lib, d.code, d.relocs)
    ensures Sound(lib, CutCalls(d, x).code, CutCalls(d, x).relocs)
  {
    hide Named, Cut, Kept;
    var r := CutCalls(d, x);
    forall k | 0 <= k < |r.relocs| ensures RecordFits(lib, r.code, r.relocs[k]) {
      var i := KeptFrom(d.relocs, x, k);
      assert RecordFits(lib, d.code, d.relocs[i]);
      CutOther(lib, d, x, i);
    }
    forall k, k' | 0 <= k < k' < |r.relocs|
      ensures r.relocs[k].offset / 8 + Width(r.relocs[k].kind) <= r.relocs[k'].offset / 8
    {
      var i, i' := KeptOrder(d.relocs, x, k, k');
    }
  }

  /** The instruction of a record that is kept is kept. */
  lemma {:induction false} CutOther(lib: Library, d: Difo, x: string, i: nat)
    requires Sound(lib, d.code, d.relocs) && i < |d.relocs| && d.relocs[i].name != x
    ensures d.relocs[i].offset / 8 < |d.code|
    ensures CutCalls(d, x).code[d.relocs[i].offset / 8] == d.code[d.relocs[i].offset / 8]
  {
    hide Cut;
    assert RecordFits(lib, d.code, d.relocs[i]);
    CutAt(d.code, d.relocs, x, d.relocs[i].offset / 8);
  }

  lemma {:induction false} CutHolds(d: Difo, x: string, at: int, c: Difo, gone: set<string>)
    requires HoldsAt(d, at, c, gone)
    ensures HoldsAt(CutCalls(d, x), at, c, gone + {x})
  {
    hide Cut, Kept;
    var r := CutCalls(d, x);
    forall k | 0 <= k < |c.code| ensures SlotHolds(r, at, c, k, gone + {x}) {
      CutAt(d.code, d.relocs, x, at + k);
      assert SlotHolds(d, at, c, k, gone);
      if Named(d, at + k, x) {
        var i :| 0 <= i < |d.relocs| && d.relocs[i].offset / 8 == at + k && d.relocs[i].name == x;
        assert Named(c, d.relocs[i].offset / 8 - at, d.relocs[i].name);
      }
    }
    forall k | 0 <= k < |r.relocs| && at <= r.relocs[k].offset / 8 < at + |c.code|
      ensures Named(c, r.relocs[k].offset / 8 - at, r.relocs[k].name)
    {
      var i := KeptFrom(d.relocs, x, k);
    }
  }

  /** When the calls to it are cut, all calls of a function land, and no record names it. */
  lemma {:induction false} CutLands(lib: Library, src: Source, d: Difo, x: string, gone: set<string>)
    requires Sound(lib, d.code, d.relocs) && Linked(lib, src, d, {x}, gone)
    ensures Linked(lib, src, CutCalls(d, x), {}, gone + {x})
    ensures forall k :: 0 <= k < |CutCalls(d, x).relocs| ==> CutCalls(d, x).relocs[k].name != x
  {
    hide Cut, Kept, Sound, HoldsAt;
    var r := CutCalls(d, x);
    forall k | 0 <= k < |r.relocs| ensures Lands(lib, src, r, k, gone + {x}) && r.relocs[k].name != x {
      var i := KeptFrom(d.relocs, x, k);
      assert Lands(lib, src, d, i, gone);
      CutOther(lib, d, x, i);
      if d.relocs[i].name in lib.funcs { CutHolds(d, x, d.relocs[i].data, src[d.relocs[i].name], gone); }
    }
  }

  // ----- any number of links -----

  /** Function `x` of the library is linked, the calls back to it are cut, and it is marked. */
  ghost predicate Linking(lib: Library, lib': Library, x: string, ids: map<string, int>) {
    && lib.Valid() && SoundLibrary(lib)
    && x in lib.funcs && lib.funcs[x].body.Some? && Linkable(lib, lib.funcs[x].body.value, Some(x))
    && var r := Result(lib, ids, lib.funcs[x].body.value, Some(x));
    && lib' == lib.(funcs := lib.funcs[x := Func(Some(CutCalls(r, x)), true)])
  }

  lemma {:induction false} SoundAlike(lib: Library, lib': Library, code: seq<Slot>, code': seq<Slot>, tab: seq<Record>)
    requires lib.funcs.Keys == lib'.funcs.Keys && Sound(lib, code, tab)
    requires |code| == |code'| && forall i :: 0 <= i < |code| ==> code[i].call == code'[i].call
    ensures Sound(lib', code', tab)
  {
    forall i | 0 <= i < |tab| ensures RecordFits(lib', code', tab[i]) {
      assert RecordFits(lib, code, tab[i]);
    }
  }

  lemma {:induction false} HoldsMore(body: Difo, at: int, c: Difo, gone: set<string>, more: set<string>)
    requires HoldsAt(body, at, c, gone) && gone <= more
    ensures HoldsAt(body, at, c, more)
  {
    forall k | 0 <= k < |c.code| ensures SlotHolds(body, at, c, k, more) {
      assert SlotHolds(body, at, c, k, gone);
    }
  }

  lemma {:induction false} LinkedAlike(lib: Library, lib': Library, src: Source, body: Difo, gone: set<string>,
                                       more: set<string>)
    requires lib.funcs.Keys == lib'.funcs.Keys && Linked(lib, src, body, {}, gone) && gone <= more
    ensures Linked(lib', src, body, {}, more)
  {
    hide HoldsAt;
    forall i | 0 <= i < |body.relocs| ensures Lands(lib', src, body, i, more) {
      assert Lands(lib, src, body, i, gone);
      var r := body.relocs[i];
      if r.name in lib.funcs { HoldsMore(body, r.data, src[r.name], gone, more); }
    }
  }

  lemma {:induction false} ResultSound(lib: Library, ids: map<string, int>, d: Difo, self: Option<string>)
    requires lib.Valid() && SoundLibrary(lib) && Sound(lib, d.code, d.relocs) && Plan(lib, d, self).Some?
    ensures var r := Result(lib, ids, d, self);
      Sound(lib, r.code, r.relocs) && |r.code| == |Image(lib, d, Plan(lib, d, self).value.entries)|
  {
    hide Sound, SoundLibrary, Plan, Image, Relocations;
    var es := Plan(lib, d, self).value.entries;
    var img, tab := Image(lib, d, es), Relocations(lib, ids + Addresses(es), d, self, es);
    ImageSound(lib, ids + Addresses(es), d, self);
    SoundAlike(lib, lib, img, Patches(lib, img, tab), tab);
  }

  /** Linking a function keeps the library in order. */
  lemma {:induction false} LinkStep(lib: Library, lib': Library, src: Source, x: string, ids: map<string, int>)
    requires Built(lib, src) && Linking(lib, lib', x, ids)
    ensures Built(lib', src)
  {
    hide Sound, Linked, HoldsAt, Plan, IsCopy, Result, CutCalls;
    var d := lib.funcs[x].body.value;
    var r := Result(lib, ids, d, Some(x));
    assert lib'.funcs.Keys == lib.funcs.Keys;
    assert Ready(lib') == Ready(lib) + {x};
    ResultSound(lib, ids, d, Some(x));
    CutSound(lib, r, x);
    forall y | y in lib'.funcs ensures Sound(lib', BodyOf(lib', y).code, BodyOf(lib', y).relocs) {
      SoundAlike(lib, lib', BodyOf(lib', y).code, BodyOf(lib', y).code, BodyOf(lib', y).relocs);
    }
    forall y | y in lib'.funcs && lib'.funcs[y].body.Some? ensures BuiltOne(lib', src, y, Ready(lib')) {
      assert BuiltOne(lib, src, y, Ready(lib));
      if y == x {
        NewlyBuilt(lib, lib', src, x, ids);
      } else {
        var body := lib.funcs[y].body.value;
        HoldsMore(body, 0, src[y], Ready(lib), Ready(lib'));
        if lib.funcs[y].ready { LinkedAlike(lib, lib', src, body, Ready(lib), Ready(lib')); }
      }
    }
  }

  lemma {:induction false} NewlyBuilt(lib: Library, lib': Library, src: Source, x: string, ids: map<string, int>)
    requires Built(lib, src) && Linking(lib, lib', x, ids) && Ready(lib') == Ready(lib) + {x}
    ensures BuiltOne(lib', src, x, Ready(lib'))
  {
    hide Sound, Linked, HoldsAt, Plan, IsCopy, Result, CutCalls, SoundLibrary;
    var d := lib.funcs[x].body.value;
    var r := Result(lib, ids, d, Some(x));
    assert BuiltOne(lib, src, x, Ready(lib));
    ResultSound(lib, ids, d, Some(x));
    LinkLands(lib, src, ids, d, Some(x));
    CutLands(lib, src, r, x, Ready(lib));
    LinkedAlike(lib, lib', src, CutCalls(r, x), Ready(lib'), Ready(lib'));
    RootCopy(lib, d, Some(x));
    CopyInside(lib, ids, d, Some(x), d, false, 0);
    CopyHolds(lib, ids, d, Some(x), d, false, 0, 0, src[x], Ready(lib));
    CutHolds(r, x, 0, src[x], Ready(lib));
    CutLength(r, x);
  }

  lemma {:induction false} CutLength(d: Difo, x: string)
    ensures |CutCalls(d, x).code| == |d.code|
  {
  }

  lemma {:induction false} RootCopy(lib: Library, d: Difo, self: Option<string>)
    requires Plan(lib, d, self).Some? && !(self.Some? && IsReady(lib, self.value))
    ensures IsCopy(lib, d, self, Plan(lib, d, self).value.entries, d, false, 0)
  {
    hide Plan;
  }

  /** Library after library, each with one more function linked. */
  ghost predicate Links(libs: seq<Library>) {
    forall i :: 0 <= i < |libs| - 1 ==> OneLinked(libs[i], libs[i + 1])
  }

  ghost predicate OneLinked(lib: Library, lib': Library) {
    exists x: string, ids: map<string, int> :: Linking(lib, lib', x, ids)
  }

  /** However many functions are linked one after the other, each from those before it: in
      the last library all calls of all linked functions land. */
  lemma {:induction false} LinksLand(libs: seq<Library>, src: Source)
    requires libs != [] && Built(libs[0], src) && Links(libs)
    ensures Built(libs[|libs| - 1], src)
    decreases |libs|
  {
    hide Built, Linking;
    if |libs| > 1 {
      var n := |libs| - 1;
      assert Links(libs[..n]) by {
        forall i | 0 <= i < n - 1 ensures OneLinked(libs[..n][i], libs[..n][i + 1]) {
          assert OneLinked(libs[i], libs[i + 1]);
        }
      }
      LinksLand(libs[..n], src);
      assert OneLinked(libs[n - 1], libs[n - 1 + 1]);
      var x, ids :| Linking(libs[n - 1], libs[n], x, ids);
      LinkStep(libs[n - 1], libs[n], src, x, ids);
    }
  }
}
