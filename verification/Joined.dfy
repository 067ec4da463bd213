/**
 Walking several aggregations side by side (dtrace_aggregate_walk_joined() in
 libdtrace/dt_aggregate.c): the entries of the given variables are grouped by key, one
 row per key with a column for every variable, also when a variable is given twice and
 whichever column comes first in the sort order.
 */
module Joined {
  import opened Basics
  import Word

  /** An entry of the hash table: variable, key fields, and its data. */
  datatype Entry = Entry(id: nat, key: seq<nat>, data: nat)

  // ----- comparing keys -----

  /** Key field `i` in the order of comparison: from the sort position on, and around. */
  function FieldAt(n: nat, keypos: nat, i: nat): (r: nat)
    requires i < n
    ensures r < n
  {
    var kp := if keypos >= n then 0 else keypos;
    if i + kp >= n then i + kp - n else i + kp
  }

  /** dt_aggregate_keycmp: the number of fields, then field by field. */
  function KeyCmp(keypos: nat, l: seq<nat>, r: seq<nat>): int {
    if |l| < |r| then -1 else if |l| > |r| then 1 else CmpFrom(keypos, l, r, 0)
  }

  function CmpFrom(keypos: nat, l: seq<nat>, r: seq<nat>, i: nat): int
    requires i <= |l| == |r|
    decreases |l| - i
  {
    if i == |l| then 0
    else
      var k := FieldAt(|l|, keypos, i);
      if l[k] < r[k] then -1 else if l[k] > r[k] then 1 else CmpFrom(keypos, l, r, i + 1)
  }

  /** Fields from place `i` on that compare equal are equal. */
  lemma {:induction false} CmpEqual(keypos: nat, l: seq<nat>, r: seq<nat>, i: nat, j: nat)
    requires i <= j < |l| == |r| && CmpFrom(keypos, l, r, i) == 0
    ensures l[FieldAt(|l|, keypos, j)] == r[FieldAt(|l|, keypos, j)]
    decreases |l| - i
  {
    if i < j { CmpEqual(keypos, l, r, i + 1, j); }
  }

  lemma {:induction false} CmpSame(keypos: nat, l: seq<nat>, i: nat)
    requires i <= |l|
    ensures CmpFrom(keypos, l, l, i) == 0
    decreases |l| - i
  {
    if i < |l| { CmpSame(keypos, l, i + 1); }
  }

  /** Every field takes part, so only equal keys compare equal. */
  lemma {:induction false} KeyCmpZero(keypos: nat, l: seq<nat>, r: seq<nat>)
    ensures KeyCmp(keypos, l, r) == 0 <==> l == r
  {
    if l == r {
      CmpSame(keypos, l, 0);
    } else if KeyCmp(keypos, l, r) == 0 {
      var n := |l|;
      forall k | 0 <= k < n ensures l[k] == r[k] {
        var kp := if keypos >= n then 0 else keypos;
        CmpEqual(keypos, l, r, 0, if k >= kp then k - kp else k - kp + n);
      }
    }
  }

  lemma {:induction false} CmpTransitive(keypos: nat, a: seq<nat>, b: seq<nat>, c: seq<nat>, i: nat)
    requires i <= |a| == |b| == |c|
    requires CmpFrom(keypos, a, b, i) <= 0 && CmpFrom(keypos, b, c, i) <= 0
    ensures CmpFrom(keypos, a, c, i) <= 0
    ensures CmpFrom(keypos, a, c, i) == 0 ==> CmpFrom(keypos, a, b, i) == 0 == CmpFrom(keypos, b, c, i)
    decreases |a| - i
  {
    if i < |a| {
      var k := FieldAt(|a|, keypos, i);
      if a[k] == b[k] == c[k] { CmpTransitive(keypos, a, b, c, i + 1); }
    }
  }

  lemma {:induction false} KeyCmpTransitive(keypos: nat, a: seq<nat>, b: seq<nat>, c: seq<nat>)
    requires KeyCmp(keypos, a, b) <= 0 && KeyCmp(keypos, b, c) <= 0
    ensures KeyCmp(keypos, a, c) <= 0
    ensures KeyCmp(keypos, a, c) == 0 ==> KeyCmp(keypos, a, b) == 0 == KeyCmp(keypos, b, c)
  {
    if |a| == |b| == |c| { CmpTransitive(keypos, a, b, c, 0); }
  }

  /** The field at place `i`; places are counted from the sort position on, and around. */
  function At(keypos: nat, l: seq<nat>, i: nat): nat
    requires i < |l|
  {
    l[(i + if keypos >= |l| then 0 else keypos) % |l|]
  }

  /** The fields before place `i` are the same, and the one at place `i` is less. */
  ghost predicate LessAt(keypos: nat, l: seq<nat>, r: seq<nat>, i: nat)
    requires |l| == |r| && i < |l|
  {
    At(keypos, l, i) < At(keypos, r, i) && forall j :: 0 <= j < i ==> At(keypos, l, j) == At(keypos, r, j)
  }

  lemma {:induction false} AtIs(keypos: nat, l: seq<nat>, i: nat)
    requires i < |l|
    ensures At(keypos, l, i) == l[FieldAt(|l|, keypos, i)]
  {
    var n := |l|;
    var kp := if keypos >= n then 0 else keypos;
    if i + kp >= n { Word.DivModUnique(i + kp, n, 1, i + kp - n); } else { Word.DivModUnique(i + kp, n, 0, i + kp); }
  }

  /** The first field that differs decides. */
  lemma {:induction false} CmpIs(keypos: nat, l: seq<nat>, r: seq<nat>, i: nat)
    requires i <= |l| == |r| && forall j :: 0 <= j < i ==> At(keypos, l, j) == At(keypos, r, j)
    ensures CmpFrom(keypos, l, r, i) < 0 <==> exists k :: 0 <= k < |l| && LessAt(keypos, l, r, k)
    ensures CmpFrom(keypos, r, l, i) == -CmpFrom(keypos, l, r, i)
    decreases |l| - i
  {
    hide At, FieldAt;
    if i < |l| {
      AtIs(keypos, l, i);
      AtIs(keypos, r, i);
      if At(keypos, l, i) == At(keypos, r, i) {
        CmpIs(keypos, l, r, i + 1);
      } else if At(keypos, l, i) < At(keypos, r, i) {
        assert LessAt(keypos, l, r, i);
      }
    }
  }

  /** Keys are ordered by their number of fields, and then by the first field that differs,
      from the sort position on and around; and the comparison is antisymmetric. */
  lemma {:induction false} KeyCmpIs(keypos: nat, l: seq<nat>, r: seq<nat>)
    ensures KeyCmp(keypos, l, r) < 0 <==>
      |l| < |r| || (|l| == |r| && exists k :: 0 <= k < |l| && LessAt(keypos, l, r, k))
    ensures KeyCmp(keypos, r, l) == -KeyCmp(keypos, l, r)
  {
    if |l| == |r| { CmpIs(keypos, l, r, 0); }
  }

  ghost predicate SortedByKey(keypos: nat, s: seq<Entry>) {
    forall i :: 0 < i < |s| ==> KeyCmp(keypos, s[i - 1].key, s[i].key) <= 0
  }

  lemma {:induction false} SortedFar(keypos: nat, s: seq<Entry>, i: nat, j: nat)
    requires SortedByKey(keypos, s) && i <= j < |s|
    ensures KeyCmp(keypos, s[i].key, s[j].key) <= 0
    ensures s[i].key == s[j].key ==> forall k :: i <= k <= j ==> s[k].key == s[i].key
    decreases j
  {
    hide KeyCmp;
    if i == j {
      KeyCmpZero(keypos, s[i].key, s[i].key);
    } else {
      SortedFar(keypos, s, i, j - 1);
      KeyCmpTransitive(keypos, s[i].key, s[j - 1].key, s[j].key);
      KeyCmpZero(keypos, s[i].key, s[j].key);
      KeyCmpZero(keypos, s[i].key, s[j - 1].key);
    }
  }

  // ----- positions -----

  /** The variable at position `i` of the sort order, which begins at `sp`. */
  function VarAt(vars: seq<nat>, sp: nat, i: nat): nat
    requires sp < |vars| && i < |vars|
  {
    if i + sp >= |vars| then vars[i + sp - |vars|] else vars[i + sp]
  }

  /** The first position of a variable, from `i` on. */
  function First(vars: seq<nat>, sp: nat, v: nat, i: nat): (r: nat)
    requires sp < |vars| && i <= |vars|
    ensures i <= r <= |vars|
    ensures r < |vars| ==> VarAt(vars, sp, r) == v
    ensures forall j :: i <= j < r ==> VarAt(vars, sp, j) != v
    decreases |vars| - i
  {
    if i == |vars| then i else if VarAt(vars, sp, i) == v then i else First(vars, sp, v, i + 1)
  }

  function Pos(vars: seq<nat>, sp: nat, v: nat): nat
    requires sp < |vars|
  {
    First(vars, sp, v, 0)
  }

  lemma {:induction false} PosIs(vars: seq<nat>, sp: nat, v: nat, i: nat)
    requires sp < |vars| && i < |vars| && VarAt(vars, sp, i) == v
    ensures Pos(vars, sp, v) <= i
    ensures (forall j :: 0 <= j < i ==> VarAt(vars, sp, j) != v) ==> Pos(vars, sp, v) == i
  {
  }

  /** The column of a variable among the first `i`, counted from 1, or 0. */
  function Column(vars: seq<nat>, sp: nat, v: nat, i: nat): nat
    requires sp < |vars|
  {
    if Pos(vars, sp, v) < i then Pos(vars, sp, v) + 1 else 0
  }

  /** For a variable that has been met before: the column to take it from. */
  function Repeated(vars: seq<nat>, sp: nat, i: nat): nat
    requires sp < |vars| && i < |vars|
  {
    Column(vars, sp, VarAt(vars, sp, i), i)
  }

  lemma {:induction false} ColumnNext(vars: seq<nat>, sp: nat, i: nat)
    requires sp < |vars| && i < |vars|
    ensures var v := VarAt(vars, sp, i);
      && Column(vars, sp, v, i + 1) == (if Column(vars, sp, v, i) != 0 then Column(vars, sp, v, i) else i + 1)
      && (Column(vars, sp, v, i) != 0 ==>
            Column(vars, sp, v, i) <= i && VarAt(vars, sp, Column(vars, sp, v, i) - 1) == v)
      && forall w :: w != v ==> Column(vars, sp, w, i + 1) == Column(vars, sp, w, i)
  {
    PosIs(vars, sp, VarAt(vars, sp, i), i);
  }

  /** The maps of dtrace_aggregate_walk_joined: where a variable's column is, and where
      a repeated variable's column is taken from. */
  method BuildMaps(vars: seq<nat>, sp: nat, max: nat) returns (m: array<nat>, remap: array<nat>)
    requires sp < |vars| && forall i :: 0 <= i < |vars| ==> vars[i] <= max
    ensures fresh(m) && m.Length == max + 1 && fresh(remap) && remap.Length == |vars|
    ensures forall v :: 0 <= v <= max ==> m[v] == Column(vars, sp, v, |vars|)
    ensures forall i :: 0 <= i < |vars| ==> remap[i] == Repeated(vars, sp, i)
  {
    hide Column;
    var n := |vars|;
    m := new nat[max + 1](_ => 0);
    remap := new nat[n](_ => 0);
    forall v | 0 <= v <= max ensures Column(vars, sp, v, 0) == 0 { NoColumn(vars, sp, v); }
    var i := 0;
    while i < n
      invariant 0 <= i <= n && fresh(m) && fresh(remap) && m != remap
      invariant forall v :: 0 <= v <= max ==> m[v] == Column(vars, sp, v, i)
      invariant forall j :: 0 <= j < i ==> remap[j] == Repeated(vars, sp, j)
      invariant forall j :: i <= j < n ==> remap[j] == 0
    {
      var ndx := i + sp;
      if ndx >= n { ndx := ndx - n; }
      var aggvar := vars[ndx];
      assert aggvar <= max && aggvar == VarAt(vars, sp, i);
      ColumnNext(vars, sp, i);
      if m[aggvar] != 0 {
        // following the map leads to the same variable
        assert VarAt(vars, sp, m[aggvar] - 1) == vars[ndx];
        remap[i] := m[aggvar];
      } else {
        m[aggvar] := i + 1;
      }
      i := i + 1;
    }
  }

  lemma {:induction false} NoColumn(vars: seq<nat>, sp: nat, v: nat)
    requires sp < |vars|
    ensures Column(vars, sp, v, 0) == 0
  {
  }

  // ----- bundles -----

  // ----- zero-filled data -----

  predicate HasEntry(all: seq<Entry>, v: nat) {
    exists i :: 0 <= i < |all| && all[i].id == v
  }

  /** The variable that a hole in the zero-filled data is looked up by: the sort position
      is taken off a second time, where the column itself was found by adding it. */
  function Mirror(vars: seq<nat>, sp: nat, i: nat): nat
    requires sp < |vars| && i < |vars|
  {
    if i >= sp then vars[i - sp] else vars[i - sp + |vars|]
  }

  /** The variable whose description the zeroes at position `i` have. */
  function Described(all: seq<Entry>, vars: seq<nat>, sp: nat, i: nat): nat
    requires sp < |vars| && i < |vars|
  {
    var v := VarAt(vars, sp, i);
    if Pos(vars, sp, v) == i && HasEntry(all, v) then v else Mirror(vars, sp, i)
  }

  /** The description found among the entries. */
  function Found(all: seq<Entry>, vars: seq<nat>, sp: nat, i: nat): Option<nat>
    requires sp < |vars| && i < |vars|
  {
    var v := VarAt(vars, sp, i);
    if Pos(vars, sp, v) == i && HasEntry(all, v) then Some(v) else None
  }

  /** The first pass over the entries: the zeroes of every column get the description of
      an entry of its variable. */
  method FromEntries(vars: seq<nat>, sp: nat, m: array<nat>, all: seq<Entry>) returns (z: array<Option<nat>>)
    requires sp < |vars| && forall v :: 0 <= v < m.Length ==> m[v] == Column(vars, sp, v, |vars|)
    requires forall i :: 0 <= i < |vars| ==> vars[i] < m.Length
    ensures fresh(z) && z.Length == |vars|
    ensures forall i :: 0 <= i < |vars| ==> z[i] == Found(all, vars, sp, i)
  {
    hide Pos, Found, Column, VarAt;
    z := new Option<nat>[|vars|](_ => None);
    forall i | 0 <= i < |vars| ensures Found(all[..0], vars, sp, i) == None { FoundNone(vars, sp, i); }
    var k := 0;
    while k < |all|
      invariant 0 <= k <= |all| && fresh(z)
      invariant forall i :: 0 <= i < |vars| ==> z[i] == Found(all[..k], vars, sp, i)
    {
      var id := all[k].id;
      assert all[..k + 1] == all[..k] + [all[k]];
      forall i | 0 <= i < |vars|
        ensures Found(all[..k + 1], vars, sp, i) ==
          if id < m.Length && m[id] == i + 1 then Some(id) else Found(all[..k], vars, sp, i)
        ensures Found(all[..k], vars, sp, i) in {None, Some(VarAt(vars, sp, i))}
        ensures id < m.Length && m[id] == i + 1 ==> VarAt(vars, sp, i) == id
      {
        FoundMore(all[..k], vars, sp, i, all[k]);
        ColumnIs(vars, sp, i, id);
      }
      if id < m.Length && m[id] != 0 {
        ColumnWithin(vars, sp, id);
        if z[m[id] - 1] == None { z[m[id] - 1] := Some(id); }
      }
      k := k + 1;
    }
    assert all[..k] == all;
  }

  /** The zero-filled data: from the entries, and then the filling of the holes. */
  method Describe(vars: seq<nat>, sp: nat, m: array<nat>, all: seq<Entry>) returns (z: array<Option<nat>>)
    requires sp < |vars| && forall v :: 0 <= v < m.Length ==> m[v] == Column(vars, sp, v, |vars|)
    requires forall i :: 0 <= i < |vars| ==> vars[i] < m.Length
    ensures fresh(z) && z.Length == |vars|
    ensures forall i :: 0 <= i < |vars| ==> z[i] == Some(Described(all, vars, sp, i))
  {
    hide Pos, Found, Described, VarAt, Mirror;
    var n := |vars|;
    z := FromEntries(vars, sp, m, all);
    var i := 0;
    while i < n
      invariant 0 <= i <= n && fresh(z)
      invariant forall j :: 0 <= j < i ==> z[j] == Some(Described(all, vars, sp, j))
      invariant forall j :: i <= j < n ==> z[j] == Found(all, vars, sp, j)
    {
      MirrorIs(vars, sp, i);
      FoundDescribed(all, vars, sp, i);
      if z[i] == None { z[i] := Some(vars[(i - sp + n) % n]); }
      i := i + 1;
    }
  }

  lemma {:induction false} MirrorIs(vars: seq<nat>, sp: nat, i: nat)
    requires sp < |vars| && i < |vars|
    ensures 0 <= (i - sp + |vars|) % |vars| < |vars|
    ensures Mirror(vars, sp, i) == vars[(i - sp + |vars|) % |vars|]
  {
    var n, d := |vars|, i - sp;
    if d >= 0 { Word.DivModUnique(d + n, n, 1, d); } else { Word.DivModUnique(d + n, n, 0, d + n); }
  }

  lemma {:induction false} FoundDescribed(all: seq<Entry>, vars: seq<nat>, sp: nat, i: nat)
    requires sp < |vars| && i < |vars|
    ensures Some(Described(all, vars, sp, i)) ==
      if Found(all, vars, sp, i) == None then Some(Mirror(vars, sp, i)) else Found(all, vars, sp, i)
  {
    hide Pos, VarAt, Mirror, HasEntry;
  }

  lemma {:induction false} FoundNone(vars: seq<nat>, sp: nat, i: nat)
    requires sp < |vars| && i < |vars|
    ensures Found([], vars, sp, i) == None
  {
    hide Pos, VarAt;
  }

  lemma {:induction false} ColumnIs(vars: seq<nat>, sp: nat, i: nat, v: nat)
    requires sp < |vars| && i < |vars|
    ensures Column(vars, sp, v, |vars|) == i + 1 <==> VarAt(vars, sp, i) == v && Pos(vars, sp, v) == i
    ensures VarAt(vars, sp, i) in vars
  {
  }

  lemma {:induction false} ColumnWithin(vars: seq<nat>, sp: nat, v: nat)
    requires sp < |vars|
    ensures Column(vars, sp, v, |vars|) <= |vars|
  {
  }

  lemma {:induction false} FoundMore(all: seq<Entry>, vars: seq<nat>, sp: nat, i: nat, e: Entry)
    requires sp < |vars| && i < |vars|
    ensures var v := VarAt(vars, sp, i);
      Found(all + [e], vars, sp, i) ==
      if Pos(vars, sp, v) == i && e.id == v then Some(v) else Found(all, vars, sp, i)
    ensures Found(all, vars, sp, i) in {None, Some(VarAt(vars, sp, i))}
  {
    hide Pos;
    var v, more := VarAt(vars, sp, i), all + [e];
    assert more[|all|] == e;
    if HasEntry(all, v) {
      var k :| 0 <= k < |all| && all[k].id == v;
      assert more[k].id == v;
    }
  }

  lemma {:induction false} PosOfAll(vars: seq<nat>, sp: nat, i: nat)
    requires sp < |vars| && i < |vars|
    ensures Pos(vars, sp, VarAt(vars, sp, i)) <= i && Column(vars, sp, VarAt(vars, sp, i), |vars|) != 0
    ensures VarAt(vars, sp, i) in vars
  {
    PosIs(vars, sp, VarAt(vars, sp, i), i);
  }

  /** The variable whose description the zeroes of variable `v` have. */
  function ZeroOf(all: seq<Entry>, vars: seq<nat>, sp: nat, v: nat): nat
    requires sp < |vars| && v in vars
  {
    InVars(vars, sp, v);
    Described(all, vars, sp, Pos(vars, sp, v))
  }

  /** Zeroes are shown as those of their own variable whenever that variable has an entry
      for some key, and for all variables exactly if taking the sort position off and
      adding it come to the same. */
  lemma {:induction false} OwnZeroes(all: seq<Entry>, vars: seq<nat>, sp: nat, v: nat)
    requires sp < |vars| && v in vars
    ensures HasEntry(all, v) || sp == 0 || 2 * sp == |vars| ==> ZeroOf(all, vars, sp, v) == v
    ensures ZeroOf(all, vars, sp, v) == v && Different(vars) ==> HasEntry(all, v) || sp == 0 || 2 * sp == |vars|
  {
    hide Pos;
    InVars(vars, sp, v);
    var i := Pos(vars, sp, v);
    assert VarAt(vars, sp, i) == v by { PosHolds(vars, sp, v); }
  }

  predicate Different(vars: seq<nat>) {
    forall i, j :: 0 <= i < j < |vars| ==> vars[i] != vars[j]
  }

  lemma {:induction false} PosHolds(vars: seq<nat>, sp: nat, v: nat)
    requires sp < |vars| && Pos(vars, sp, v) < |vars|
    ensures VarAt(vars, sp, Pos(vars, sp, v)) == v
  {
  }

  /** With three variables sorted by the second, of which only the first has entries,
      the zeroes of the second are shown as the third's, and those of the third as the
      first's. */
  lemma {:induction false} OthersZeroes()
    ensures var all, vars := [Entry(1, [], 5)], [1, 2, 3];
      ZeroOf(all, vars, 1, 1) == 1 && ZeroOf(all, vars, 1, 2) == 3 && ZeroOf(all, vars, 1, 3) == 1
  {
    var all, vars := [Entry(1, [], 5)], [1, 2, 3];
    assert all[0].id == 1;
    PosIs(vars, 1, 2, 0);
    PosIs(vars, 1, 3, 1);
    PosIs(vars, 1, 1, 2);
  }

  /** What a bundle holds in a column: nothing yet, zero-filled data with the description
      of a variable, or an entry. */
  datatype Cell = Null | Zero(v: nat) | Ent(e: Entry)

  /** The entry of variable `v`, if there is one. */
  function Lookup(group: seq<Entry>, v: nat): Cell {
    if group == [] then Null
    else if group[|group| - 1].id == v then Ent(group[|group| - 1])
    else Lookup(group[..|group| - 1], v)
  }

  lemma {:induction false} LookupIn(group: seq<Entry>, v: nat)
    ensures !Lookup(group, v).Zero?
    ensures Lookup(group, v).Ent? ==> Lookup(group, v).e in group && Lookup(group, v).e.id == v
    ensures Lookup(group, v).Null? <==> forall i :: 0 <= i < |group| ==> group[i].id != v
  {
    if group != [] {
      LookupIn(group[..|group| - 1], v);
      if Lookup(group[..|group| - 1], v).Null? && group[|group| - 1].id != v {
        forall i | 0 <= i < |group| ensures group[i].id != v {
          if i < |group| - 1 { assert group[..|group| - 1][i] == group[i]; }
        }
      }
    }
  }

  /** The variables of a group are different, and all asked for. */
  ghost predicate Group(vars: seq<nat>, sp: nat, group: seq<Entry>)
    requires sp < |vars|
  {
    && (forall i, j :: 0 <= i < j < |group| ==> group[i].id != group[j].id)
    && (forall i :: 0 <= i < |group| ==> Pos(vars, sp, group[i].id) < |vars|)
  }

  /** The first loop over a group: every entry into its column. */
  method Place(vars: seq<nat>, sp: nat, m: array<nat>, group: seq<Entry>, b: array<Cell>)
    requires sp < |vars| && Group(vars, sp, group) && b.Length == |vars|
    requires forall i :: 0 <= i < |group| ==>
      group[i].id < m.Length && m[group[i].id] == Column(vars, sp, group[i].id, |vars|)
    requires forall j :: 0 <= j < |vars| ==> b[j] == Null
    modifies b
    ensures forall j :: 0 <= j < |vars| ==>
      b[j] == if Pos(vars, sp, VarAt(vars, sp, j)) == j then Lookup(group, VarAt(vars, sp, j)) else Null
  {
    hide Pos;
    var i := 0;
    assert group[..0] == [];
    while i < |group|
      invariant 0 <= i <= |group|
      invariant forall j :: 0 <= j < |vars| ==>
        b[j] == if Pos(vars, sp, VarAt(vars, sp, j)) == j then Lookup(group[..i], VarAt(vars, sp, j)) else Null
    {
      var e := group[i];
      var p := m[e.id] - 1;
      assert p == Pos(vars, sp, e.id) < |vars|;
      PosHolds(vars, sp, e.id);
      // the column is still free
      LookupIn(group[..i], e.id);
      assert b[p] == Null;
      b[p] := Ent(e);
      assert group[..i + 1][..i] == group[..i];
      i := i + 1;
    }
    assert group[..i] == group;
  }

  /** The second loop: repeated variables are copied, absent ones get zeroes. */
  method Complete(ghost all: seq<Entry>, vars: seq<nat>, sp: nat, remap: array<nat>, z: array<Option<nat>>,
      ghost group: seq<Entry>, b: array<Cell>)
    requires sp < |vars| && b.Length == remap.Length == z.Length == |vars|
    requires forall i :: 0 <= i < |vars| ==> z[i] == Some(Described(all, vars, sp, i))
    requires forall i :: 0 <= i < |vars| ==> remap[i] == Repeated(vars, sp, i)
    requires forall j :: 0 <= j < |vars| ==>
      b[j] == if Pos(vars, sp, VarAt(vars, sp, j)) == j then Lookup(group, VarAt(vars, sp, j)) else Null
    modifies b
    ensures forall j :: 0 <= j < |vars| ==>
      VarAt(vars, sp, j) in vars && b[j] == Shown(all, vars, sp, group, VarAt(vars, sp, j))
  {
    hide HasEntry, Described, Pos;
    var j := 0;
    while j < |vars|
      invariant 0 <= j <= |vars|
      invariant forall k :: 0 <= k < j ==>
        VarAt(vars, sp, k) in vars && b[k] == Shown(all, vars, sp, group, VarAt(vars, sp, k))
      invariant forall k :: j <= k < |vars| ==>
        b[k] == if Pos(vars, sp, VarAt(vars, sp, k)) == k then Lookup(group, VarAt(vars, sp, k)) else Null
    {
      PosOfAll(vars, sp, j);
      LookupIn(group, VarAt(vars, sp, j));
      if b[j] == Null {
        if remap[j] != 0 {
          PosHolds(vars, sp, VarAt(vars, sp, j));
          assert remap[j] - 1 < j && b[remap[j] - 1] != Null;
          b[j] := b[remap[j] - 1];
        } else {
          b[j] := Zero(z[j].value);
        }
      }
      j := j + 1;
    }
  }

  /** What a column is to show: the variable's entry, or zeroes. */
  function Shown(all: seq<Entry>, vars: seq<nat>, sp: nat, group: seq<Entry>, v: nat): Cell
    requires sp < |vars| && v in vars
  {
    if Lookup(group, v).Null? then Zero(ZeroOf(all, vars, sp, v)) else Lookup(group, v)
  }

  // ----- the walk -----

  /** A row: its key, and a cell for every variable in the order given. */
  datatype Row = Row(key: seq<nat>, cols: seq<Cell>)

  /** A column shows the entry of its variable for the row's key, if there is one. */
  ghost predicate ColumnExact(entries: seq<Entry>, v: nat, key: seq<nat>, c: Cell) {
    match c
    case Null => false
    case Zero(_) => forall e :: e in entries ==> !(e.id == v && e.key == key)
    case Ent(e) => e in entries && e.id == v && e.key == key
  }

  ghost predicate RowExact(entries: seq<Entry>, vars: seq<nat>, r: Row) {
    && |r.cols| == |vars|
    && (forall j :: 0 <= j < |vars| ==> ColumnExact(entries, vars[j], r.key, r.cols[j]))
    && (exists e :: e in entries && e.key == r.key)
  }

  /** The zeroes of a row have the descriptions that `ZeroOf` gives. */
  ghost predicate ZeroesOf(all: seq<Entry>, vars: seq<nat>, sp: nat, r: Row)
    requires sp < |vars| == |r.cols|
  {
    forall j :: 0 <= j < |vars| && r.cols[j].Zero? ==> r.cols[j].v == ZeroOf(all, vars, sp, vars[j])
  }

  /** No two entries are for the same variable and key. */
  ghost predicate Unique(s: seq<Entry>) {
    forall i, j :: 0 <= i < j < |s| ==> !(s[i].id == s[j].id && s[i].key == s[j].key)
  }

  /** All entries from `start` to `end` have one key, and no others have it. */
  ghost predicate Run(s: seq<Entry>, start: nat, end: nat) {
    && start < end <= |s|
    && (forall k :: start <= k < end ==> s[k].key == s[start].key)
    && (forall k :: 0 <= k < |s| && s[k].key == s[start].key ==> start <= k < end)
  }

  /** Between two boundaries of a sorted sequence there is a run. */
  lemma {:induction false} RunIs(keypos: nat, s: seq<Entry>, start: nat, end: nat)
    requires SortedByKey(keypos, s) && start < end <= |s|
    requires forall k :: start < k < end ==> s[k].key == s[k - 1].key
    requires start > 0 ==> s[start].key != s[start - 1].key
    requires end < |s| ==> s[end].key != s[end - 1].key
    ensures Run(s, start, end)
  {
    SameFrom(s, start, end);
    forall k | 0 <= k < |s| && s[k].key == s[start].key ensures start <= k < end {
      if k < start { SortedFar(keypos, s, k, start); }
      if k >= end { SortedFar(keypos, s, start, k); }
    }
  }

  lemma {:induction false} SameFrom(s: seq<Entry>, start: nat, end: nat)
    requires start < end <= |s| && forall k :: start < k < end ==> s[k].key == s[k - 1].key
    ensures forall k :: start <= k < end ==> s[k].key == s[start].key
    decreases end
  {
    if start + 1 < end {
      SameFrom(s, start, end - 1);
      assert s[end - 1].key == s[end - 2].key;
    }
  }

  lemma {:induction false} RunIsGroup(vars: seq<nat>, sp: nat, s: seq<Entry>, start: nat, end: nat)
    requires sp < |vars| && Unique(s) && Run(s, start, end)
    requires forall i :: 0 <= i < |s| ==> Pos(vars, sp, s[i].id) < |vars|
    ensures Group(vars, sp, s[start..end])
  {
  }

  /** A group has no more entries than there are variables. */
  lemma {:induction false} GroupFits(vars: seq<nat>, sp: nat, group: seq<Entry>)
    requires sp < |vars| && Group(vars, sp, group)
    ensures |group| <= |vars|
  {
    hide Pos;
    UsedCount(vars, sp, group);
    AtMost(Positions(vars, sp, group), |vars|);
  }

  ghost function Positions(vars: seq<nat>, sp: nat, group: seq<Entry>): set<nat>
    requires sp < |vars|
  {
    if group == [] then {} else Positions(vars, sp, group[..|group| - 1]) + {Pos(vars, sp, group[|group| - 1].id)}
  }

  lemma {:induction false} UsedCount(vars: seq<nat>, sp: nat, group: seq<Entry>)
    requires sp < |vars| && Group(vars, sp, group)
    ensures |Positions(vars, sp, group)| == |group|
    ensures forall p :: p in Positions(vars, sp, group) ==> p < |vars|
    decreases |group|
  {
    hide Pos;
    if group != [] {
      var n := |group| - 1;
      UsedCount(vars, sp, group[..n]);
      NotUsed(vars, sp, group[..n], group[n].id);
    }
  }

  lemma {:induction false} NotUsed(vars: seq<nat>, sp: nat, group: seq<Entry>, v: nat)
    requires sp < |vars| && Pos(vars, sp, v) < |vars|
    requires forall i :: 0 <= i < |group| ==> group[i].id != v && Pos(vars, sp, group[i].id) < |vars|
    ensures Pos(vars, sp, v) !in Positions(vars, sp, group)
    decreases |group|
  {
    if group != [] {
      NotUsed(vars, sp, group[..|group| - 1], v);
      assert group[|group| - 1].id != v;
    }
  }

  lemma {:induction false} AtMost(s: set<nat>, n: nat)
    requires forall x :: x in s ==> x < n
    ensures |s| <= n
  {
    if n == 0 {
      assert s == {};
    } else {
      AtMost(s - {n - 1}, n - 1);
    }
  }

  /** What a column shows from a run is exact for the whole. */
  lemma {:induction false} ShownExact(all: seq<Entry>, vars: seq<nat>, sp: nat,
      s: seq<Entry>, start: nat, end: nat, v: nat)
    requires Run(s, start, end) && sp < |vars| && v in vars
    ensures var c := Shown(all, vars, sp, s[start..end], v);
      ColumnExact(s, v, s[start].key, c) && (c.Zero? ==> c.v == ZeroOf(all, vars, sp, v))
  {
    hide ZeroOf;
    var g := s[start..end];
    LookupIn(g, v);
    if Lookup(g, v).Null? {
      forall e | e in s ensures !(e.id == v && e.key == s[start].key) {
        var k :| 0 <= k < |s| && s[k] == e;
        if e.key == s[start].key { assert g[k - start] == e; }
      }
    } else {
      var e := Lookup(g, v).e;
      var k :| 0 <= k < |g| && g[k] == e;
      assert s[start + k] == e;
    }
  }

  /** One bundle: the row of the entries from `start` to `end`. */
  method Bundle(ghost all: seq<Entry>, vars: seq<nat>, sp: nat, m: array<nat>, remap: array<nat>,
      z: array<Option<nat>>, s: seq<Entry>, start: nat, end: nat)
    returns (r: Row)
    requires sp < |vars| && Unique(s) && Run(s, start, end) && remap.Length == z.Length == |vars|
    requires forall i :: 0 <= i < |vars| ==> z[i] == Some(Described(all, vars, sp, i))
    requires forall i :: 0 <= i < |s| ==>
      Pos(vars, sp, s[i].id) < |vars| && s[i].id < m.Length && m[s[i].id] == Column(vars, sp, s[i].id, |vars|)
    requires forall i :: 0 <= i < |vars| ==> remap[i] == Repeated(vars, sp, i)
    ensures r.key == s[start].key && RowExact(s, vars, r) && end - start <= |vars|
    ensures ZeroesOf(all, vars, sp, r)
  {
    hide Column, Repeated, Described, ZeroOf, Shown, Pos, ColumnExact;
    var n, g := |vars|, s[start..end];
    RunIsGroup(vars, sp, s, start, end);
    GroupFits(vars, sp, g);
    assert end - start <= n;
    var b := new Cell[n](_ => Null);
    Place(vars, sp, m, g, b);
    Complete(all, vars, sp, remap, z, g, b);
    var cols: seq<Cell> := [];
    var j := 0;
    while j < n
      invariant 0 <= j <= n && |cols| == j
      invariant forall k :: 0 <= k < j ==> cols[k] == Shown(all, vars, sp, g, vars[k])
    {
      var ndx := if j < sp then j - sp + n else j - sp;
      assert VarAt(vars, sp, ndx) == vars[j];
      cols := cols + [b[ndx]];
      j := j + 1;
    }
    r := Row(s[start].key, cols);
    forall k | 0 <= k < n
      ensures ColumnExact(s, vars[k], r.key, r.cols[k])
      ensures r.cols[k].Zero? ==> r.cols[k].v == ZeroOf(all, vars, sp, vars[k])
    {
      ShownExact(all, vars, sp, s, start, end, vars[k]);
    }
    assert s[start] in s;
  }

  /** The keys of the first `n` entries. */
  ghost function Keys(s: seq<Entry>, n: nat): set<seq<nat>>
    requires n <= |s|
  {
    set k | 0 <= k < n :: s[k].key
  }

  ghost function RowKeys(rows: seq<Row>): set<seq<nat>> {
    set i | 0 <= i < |rows| :: rows[i].key
  }

  /** The rows so far are those of the entries before `start`, one for each key. */
  ghost predicate Covered(s: seq<Entry>, vars: seq<nat>, start: nat, rows: seq<Row>) {
    && start <= |s| && RowKeys(rows) == Keys(s, start)
    && (forall i :: 0 <= i < |rows| ==> RowExact(s, vars, rows[i]))
    && (forall i, j :: 0 <= i < j < |rows| ==> rows[i].key != rows[j].key)
  }

  lemma {:induction false} KeysMore(s: seq<Entry>, start: nat, end: nat)
    requires Run(s, start, end)
    ensures Keys(s, end) == Keys(s, start) + {s[start].key} && s[start].key !in Keys(s, start)
  {
    assert s[start].key in Keys(s, end);
    forall x | x in Keys(s, start) ensures x in Keys(s, end) {
      var k :| 0 <= k < start && s[k].key == x;
      assert s[k].key in Keys(s, end);
    }
  }

  lemma {:induction false} RowKeysMore(rows: seq<Row>, r: Row)
    ensures RowKeys(rows + [r]) == RowKeys(rows) + {r.key}
  {
    var all := rows + [r];
    assert all[|rows|] == r;
    forall x | x in RowKeys(rows) ensures x in RowKeys(all) {
      var i :| 0 <= i < |rows| && rows[i].key == x;
      assert all[i].key == x;
    }
  }

  lemma {:induction false} CoveredMore(s: seq<Entry>, vars: seq<nat>, start: nat, end: nat, rows: seq<Row>, r: Row)
    requires Covered(s, vars, start, rows) && Run(s, start, end) && r.key == s[start].key && RowExact(s, vars, r)
    ensures Covered(s, vars, end, rows + [r])
  {
    hide RowExact;
    KeysMore(s, start, end);
    RowKeysMore(rows, r);
    forall i | 0 <= i < |rows| ensures rows[i].key != r.key {
      assert rows[i].key in RowKeys(rows);
    }
  }

  /** The loop over the sorted entries: a row at every boundary between keys. */
  method Rows(ghost all: seq<Entry>, vars: seq<nat>, sp: nat, keypos: nat, m: array<nat>, remap: array<nat>,
      z: array<Option<nat>>, s: seq<Entry>)
    returns (rows: seq<Row>)
    requires sp < |vars| && Unique(s) && SortedByKey(keypos, s) && remap.Length == z.Length == |vars|
    requires forall i :: 0 <= i < |vars| ==> z[i] == Some(Described(all, vars, sp, i))
    requires forall i :: 0 <= i < |s| ==>
      Pos(vars, sp, s[i].id) < |vars| && s[i].id < m.Length && m[s[i].id] == Column(vars, sp, s[i].id, |vars|)
    requires forall i :: 0 <= i < |vars| ==> remap[i] == Repeated(vars, sp, i)
    ensures Covered(s, vars, |s|, rows)
    ensures forall i :: 0 <= i < |rows| ==> |rows[i].cols| == |vars| && ZeroesOf(all, vars, sp, rows[i])
  {
    hide Column, Repeated, Covered, Run, KeyCmp, Described, ZeroesOf;
    rows := [];
    CoveredNone(s, vars);
    if s == [] { return; }
    var start, i := 0, 1;
    while i <= |s|
      invariant 0 <= start < i <= |s| + 1 && (i == |s| + 1 ==> start == |s|) && (start < |s| ==> start < i <= |s|)
      invariant Covered(s, vars, start, rows)
      invariant forall k :: 0 <= k < |rows| ==> |rows[k].cols| == |vars| && ZeroesOf(all, vars, sp, rows[k])
      invariant forall k :: start < k < i && k < |s| ==> s[k].key == s[k - 1].key
      invariant 0 < start < |s| ==> s[start].key != s[start - 1].key
    {
      if i < |s| { KeyCmpZero(keypos, s[i].key, s[i - 1].key); }
      if i < |s| && KeyCmp(keypos, s[i].key, s[i - 1].key) == 0 {
        i := i + 1;
        continue;
      }
      RunIs(keypos, s, start, i);
      var r := Bundle(all, vars, sp, m, remap, z, s, start, i);
      CoveredMore(s, vars, start, i, rows, r);
      rows := rows + [r];
      start := i;
      i := i + 1;
    }
  }

  lemma {:induction false} CoveredNone(s: seq<Entry>, vars: seq<nat>)
    ensures Covered(s, vars, 0, [])
  {
  }

  /** The entries of the given variables. */
  function Selected(all: seq<Entry>, vars: seq<nat>): seq<Entry> {
    if all == [] then []
    else Selected(all[..|all| - 1], vars) + if all[|all| - 1].id in vars then [all[|all| - 1]] else []
  }

  /** The result of sorting the selected entries by key, as qsort() returns it. */
  ghost predicate Sorting(keypos: nat, all: seq<Entry>, vars: seq<nat>, s: seq<Entry>) {
    SortedByKey(keypos, s) && multiset(s) == multiset(Selected(all, vars))
  }

  lemma {:induction false} SelectedIn(all: seq<Entry>, vars: seq<nat>, e: Entry)
    ensures e in Selected(all, vars) <==> e in all && e.id in vars
  {
    if all != [] { SelectedIn(all[..|all| - 1], vars, e); }
  }

  lemma {:induction false} SortedUnique(keypos: nat, all: seq<Entry>, vars: seq<nat>, s: seq<Entry>)
    requires Unique(all) && Sorting(keypos, all, vars, s)
    ensures Unique(s) && forall e :: e in s <==> e in all && e.id in vars
  {
    forall e ensures e in s <==> e in all && e.id in vars {
      SelectedIn(all, vars, e);
      assert e in s <==> e in multiset(s);
      assert e in Selected(all, vars) <==> e in multiset(Selected(all, vars));
    }
    forall i, j | 0 <= i < j < |s| ensures !(s[i].id == s[j].id && s[i].key == s[j].key) {
      if s[i].id == s[j].id && s[i].key == s[j].key {
        assert s[i] in all && s[j] in all;
        assert s[i] == s[j];
        SelectedOnce(all, vars, s[i]);
        TwiceIn(s, i, j);
      }
    }
  }

  lemma {:induction false} SelectedOnce(all: seq<Entry>, vars: seq<nat>, e: Entry)
    requires Unique(all)
    ensures multiset(Selected(all, vars))[e] <= 1
    ensures e !in all ==> multiset(Selected(all, vars))[e] == 0
  {
    SelectedIn(all, vars, e);
    if all != [] {
      var n := |all| - 1;
      SelectedOnce(all[..n], vars, e);
      assert e == all[n] ==> e !in all[..n];
      assert multiset(Selected(all[..n], vars) + [all[n]]) == multiset(Selected(all[..n], vars)) + multiset{all[n]};
    }
  }

  lemma {:induction false} TwiceIn(s: seq<Entry>, i: nat, j: nat)
    requires i < j < |s| && s[i] == s[j]
    ensures multiset(s)[s[i]] >= 2
  {
    assert s == s[..j] + [s[j]] + s[j + 1..];
    assert s[i] in s[..j];
    assert multiset(s[..j])[s[i]] >= 1;
  }

  predicate AllValid(vars: seq<int>) {
    forall i :: 0 <= i < |vars| ==> vars[i] > 0
  }

  function Ids(vars: seq<int>): (r: seq<nat>)
    ensures |r| == |vars| && forall i :: 0 <= i < |vars| ==> r[i] == if vars[i] < 0 then 0 else vars[i]
  {
    seq(|vars|, i requires 0 <= i < |vars| => if vars[i] < 0 then 0 else vars[i])
  }

  /** What a joined walk is to yield: one row for every key that any of the variables
      has an entry for, in which every column shows its variable's entry for that key. */
  ghost predicate Joins(all: seq<Entry>, vars: seq<nat>, rows: seq<Row>) {
    && (forall i :: 0 <= i < |rows| ==> |rows[i].cols| == |vars|)
    && (forall i, j :: 0 <= i < |rows| && 0 <= j < |vars| ==> ColumnExact(all, vars[j], rows[i].key, rows[i].cols[j]))
    && (forall i, j :: 0 <= i < j < |rows| ==> rows[i].key != rows[j].key)
    && (forall x :: x in RowKeys(rows) <==> exists e :: e in all && e.id in vars && e.key == x)
  }

  lemma {:induction false} CoveredJoins(keypos: nat, all: seq<Entry>, vars: seq<nat>, s: seq<Entry>, rows: seq<Row>)
    requires Unique(all) && Sorting(keypos, all, vars, s) && Covered(s, vars, |s|, rows)
    ensures Joins(all, vars, rows)
  {
    SortedUnique(keypos, all, vars, s);
    forall i, j | 0 <= i < |rows| && 0 <= j < |vars|
      ensures ColumnExact(all, vars[j], rows[i].key, rows[i].cols[j])
    {
      assert RowExact(s, vars, rows[i]);
      assert ColumnExact(s, vars[j], rows[i].key, rows[i].cols[j]);
      assert vars[j] in vars;
    }
    forall x ensures x in RowKeys(rows) <==> exists e :: e in all && e.id in vars && e.key == x {
      if x in RowKeys(rows) {
        var k :| 0 <= k < |s| && s[k].key == x;
        assert s[k] in s;
      }
      if e :| e in all && e.id in vars && e.key == x {
        assert e in s;
        var k :| 0 <= k < |s| && s[k] == e;
        assert s[k].key in Keys(s, |s|);
      }
    }
  }

  /** dtrace_aggregate_walk_joined, up to the final sorting of the rows: an error for an
      invalid variable, or the joined rows.  `s` is what qsort() makes of the entries. */
  method Walk(vars: seq<int>, sortpos: nat, keypos: nat, all: seq<Entry>, s: seq<Entry>) returns (r: Option<seq<Row>>)
    requires Unique(all) && Sorting(keypos, all, Ids(vars), s)
    ensures r.Some? <==> AllValid(vars)
    ensures r.Some? ==> Joins(all, Ids(vars), r.value)
    ensures var sp := if sortpos >= |vars| then 0 else sortpos;
      r.Some? && vars != [] ==> forall i :: 0 <= i < |r.value| ==>
        |r.value[i].cols| == |vars| && ZeroesOf(all, Ids(vars), sp, r.value[i])
  {
    hide Joins, ZeroesOf, Described, Covered, Column, Repeated;
    var n := |vars|;
    var sp := if sortpos >= n then 0 else sortpos;
    var max := 0;
    var i := 0;
    while i < n
      invariant 0 <= i <= n && max >= 0
      invariant forall j :: 0 <= j < i ==> 0 < vars[j] <= max
    {
      if vars[i] <= 0 { return None; }
      if vars[i] > max { max := vars[i]; }
      i := i + 1;
    }
    var ids := Ids(vars);
    SortedUnique(keypos, all, ids, s);
    var rows: seq<Row> := [];
    if n == 0 {
      NoneSelected(all);
      assert ids == [] && |multiset(s)| == 0;
      CoveredNone(s, ids);
    } else {
      var m, remap := BuildMaps(ids, sp, max);
      forall k | 0 <= k < |s| ensures Pos(ids, sp, s[k].id) < n && s[k].id <= max {
        assert s[k] in s;
        InVars(ids, sp, s[k].id);
      }
      var z := Describe(ids, sp, m, all);
      rows := Rows(all, ids, sp, keypos, m, remap, z, s);
    }
    CoveredJoins(keypos, all, ids, s, rows);
    r := Some(rows);
  }

  lemma {:induction false} InVars(vars: seq<nat>, sp: nat, v: nat)
    requires sp < |vars| && v in vars
    ensures Pos(vars, sp, v) < |vars|
  {
    var j :| 0 <= j < |vars| && vars[j] == v;
    var i := if j < sp then j - sp + |vars| else j - sp;
    PosIs(vars, sp, v, i);
  }

  lemma {:induction false} NoneSelected(all: seq<Entry>)
    ensures Selected(all, []) == []
  {
    if all != [] { NoneSelected(all[..|all| - 1]); }
  }

  /** Every entry of a variable is in exactly one row, in that variable's columns. */
  lemma {:induction false} EntryInOneRow(all: seq<Entry>, vars: seq<nat>, rows: seq<Row>, e: Entry, j: nat)
    returns (i: nat)
    requires Unique(all) && Joins(all, vars, rows) && e in all && j < |vars| && e.id == vars[j]
    ensures i < |rows| && rows[i].cols[j] == Ent(e)
    ensures forall k :: 0 <= k < |rows| && k != i ==> rows[k].cols[j] != Ent(e)
  {
    assert e.id in vars && e.key == e.key;
    assert e.key in RowKeys(rows);
    i :| 0 <= i < |rows| && rows[i].key == e.key;
    assert ColumnExact(all, vars[j], rows[i].key, rows[i].cols[j]);
    var c := rows[i].cols[j];
    assert c.Ent?;
    var x, y :| 0 <= x < |all| && 0 <= y < |all| && all[x] == e && all[y] == c.e;
    forall k | 0 <= k < |rows| && k != i ensures rows[k].cols[j] != Ent(e) {
      assert ColumnExact(all, vars[j], rows[k].key, rows[k].cols[j]);
    }
  }
}
