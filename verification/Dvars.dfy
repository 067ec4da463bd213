/**
 Dynamic variables: thread-local variables and associative array elements, kept in two
 BPF maps (bpf/get_dvar.c and dt_cg_store_var() in libdtrace/dt_cg.c).

 `tuples` takes a tuple to the address of its own entry, and `dvars` takes such an
 address, or the key of a thread-local variable, to the value.  Addresses are reused
 once their tuple is gone.
 */
module Dvars {
  import opened Basics
  import opened Word
  import opened BitFacts

  /** A thread, as far as dt_tlskey() tells them apart: by its id, or by the CPU for the
      idle threads, which all have id 0. */
  datatype Thread = Task(tid: nat) | Idle(cpu: nat)

  /** `tuple` begins with the variable's id and ends with a TLS key or 0. */
  datatype Var = Tls(thread: Thread, id: U32) | Assoc(tuple: seq<nat>)

  // ----- keys of thread-local variables -----

  /** The number that stands for a thread. */
  function Number(ncpus: nat, t: Thread): nat {
    match t
    case Idle(cpu) => cpu + 1
    case Task(tid) => tid + ncpus + 1
  }

  predicate ThreadOk(ncpus: nat, t: Thread) {
    match t
    case Idle(cpu) => cpu < ncpus
    case Task(tid) => 1 <= tid < 0x1_0000_0000
  }

  /** `key & 0x7fffffff`, moved to the upper half, with the id in the lower half. */
  function TlsKey(ncpus: nat, t: Thread, id: U32): nat {
    Bits(BitOr, Bits(BitAnd, Number(ncpus, t), 0x7fff_ffff, 64) * 0x1_0000_0000, id, 64)
  }

  lemma {:induction false} TlsKeyIs(ncpus: nat, t: Thread, id: U32)
    requires Number(ncpus, t) < W
    ensures TlsKey(ncpus, t, id) == Number(ncpus, t) % 0x8000_0000 * 0x1_0000_0000 + id
    ensures TlsKey(ncpus, t, id) < HALF
  {
    Pow2Of64();
    assert Pow2(32) == 2 * Pow2(31);
    hide Bits, Pow2;
    var n := Number(ncpus, t);
    MaskIsMod(n, 31, 64);
    var m := n % 0x8000_0000;
    assert m == Bits(BitAnd, n, 0x7fff_ffff, 64);
    BitsSplit(BitOr, m, 0, 0, id, 32, 64);
    OrZero(m, 32);
    OrZero(id, 32);
  }

  /** Two threads share a variable's key exactly if their numbers agree in the low 31
      bits. */
  lemma {:induction false} TlsKeysMeet(ncpus: nat, t: Thread, id: U32, t': Thread, id': U32)
    requires Number(ncpus, t) < W && Number(ncpus, t') < W
    ensures TlsKey(ncpus, t, id) == TlsKey(ncpus, t', id') <==>
            id == id' && Number(ncpus, t) % 0x8000_0000 == Number(ncpus, t') % 0x8000_0000
  {
    hide TlsKey;
    TlsKeyIs(ncpus, t, id);
    TlsKeyIs(ncpus, t', id');
  }

  /** So tasks share keys exactly if their ids differ by a multiple of 2 to the 31, idle
      threads if their CPUs do, and a task and an idle thread if the id and the CPU counted
      from behind all CPUs do. */
  lemma {:induction false} ThreadsMeet(ncpus: nat, t: Thread, t': Thread, id: U32)
    requires Number(ncpus, t) < W && Number(ncpus, t') < W
    ensures TlsKey(ncpus, t, id) == TlsKey(ncpus, t', id) <==>
      match (t, t')
      case (Task(a), Task(b)) => (a - b) % 0x8000_0000 == 0
      case (Idle(a), Idle(b)) => (a - b) % 0x8000_0000 == 0
      case (Task(a), Idle(b)) => (a - (b - ncpus)) % 0x8000_0000 == 0
      case (Idle(a), Task(b)) => (b - (a - ncpus)) % 0x8000_0000 == 0
  {
    hide TlsKey;
    TlsKeysMeet(ncpus, t, id, t', id);
    Congruent(Number(ncpus, t), Number(ncpus, t'));
    Congruent(Number(ncpus, t'), Number(ncpus, t));
  }

  lemma {:induction false} Congruent(x: nat, y: nat)
    ensures x % 0x8000_0000 == y % 0x8000_0000 <==> (x - y) % 0x8000_0000 == 0
  {
  }

  /** Thread ids are small enough for that never to happen. */
  predicate Distinguished(ncpus: nat, v: Var) {
    v.Tls? ==> ThreadOk(ncpus, v.thread) && Number(ncpus, v.thread) < 0x8000_0000
  }

  lemma {:induction false} TlsKeyDistinct(ncpus: nat, v: Var, w: Var)
    requires v.Tls? && w.Tls? && Distinguished(ncpus, v) && Distinguished(ncpus, w)
    requires TlsKey(ncpus, v.thread, v.id) == TlsKey(ncpus, w.thread, w.id)
    ensures v == w
  {
    hide TlsKey;
    TlsKeysMeet(ncpus, v.thread, v.id, w.thread, w.id);
  }

  // ----- the two maps -----

  type Values = map<nat, U64>
  type Tuples = map<seq<nat>, nat>

  /** Live tuples have different addresses in the upper half of the address space, and
      every such key of `dvars` belongs to a live tuple. */
  ghost predicate Good(dvars: Values, tuples: Tuples) {
    && (forall t :: t in tuples ==> HALF <= tuples[t] < W)
    && (forall t, u :: t in tuples && u in tuples && t != u ==> tuples[t] != tuples[u])
    && (forall k :: k in dvars && k >= HALF ==> exists t :: t in tuples && tuples[t] == k)
  }

  function KeyIn(ncpus: nat, tuples: Tuples, v: Var): Option<nat> {
    match v
    case Tls(thread, id) => Some(TlsKey(ncpus, thread, id))
    case Assoc(t) => if t in tuples then Some(tuples[t]) else None
  }

  /** The one map that the two stand for: every variable has a value, which is zero until
      it is assigned one. */
  function ValueIn(ncpus: nat, dvars: Values, tuples: Tuples, v: Var): U64 {
    var k := KeyIn(ncpus, tuples, v);
    if k.Some? && k.value in dvars then dvars[k.value] else 0
  }

  /** Keys of thread-local variables are in the lower half. */
  lemma {:induction false} TlsKeyLow(ncpus: nat, v: Var)
    requires v.Tls? && Distinguished(ncpus, v)
    ensures TlsKey(ncpus, v.thread, v.id) < HALF
  {
    TlsKeyIs(ncpus, v.thread, v.id);
  }

  /** Different variables have different keys. */
  lemma {:induction false} KeysDiffer(ncpus: nat, dvars: Values, tuples: Tuples, v: Var, w: Var)
    requires Good(dvars, tuples) && v != w && Distinguished(ncpus, v) && Distinguished(ncpus, w)
    requires KeyIn(ncpus, tuples, v).Some? && KeyIn(ncpus, tuples, w).Some?
    ensures KeyIn(ncpus, tuples, v) != KeyIn(ncpus, tuples, w)
  {
    hide TlsKey;
    if v.Tls? { TlsKeyLow(ncpus, v); }
    if w.Tls? { TlsKeyLow(ncpus, w); }
    if v.Tls? && w.Tls? && TlsKey(ncpus, v.thread, v.id) == TlsKey(ncpus, w.thread, w.id) {
      TlsKeyDistinct(ncpus, v, w);
    }
  }

  /** An address that no live tuple has. */
  predicate Free(tuples: Tuples, addr: nat) {
    HALF <= addr < W && forall t :: t in tuples ==> tuples[t] != addr
  }

  /** A new tuple has no value yet, and changes no other variable. */
  lemma {:induction false} TupleAdded(ncpus: nat, dvars: Values, tuples: Tuples, t: seq<nat>, addr: nat, w: Var)
    requires Good(dvars, tuples) && t !in tuples && Free(tuples, addr)
    ensures Good(dvars, tuples[t := addr]) && addr !in dvars
    ensures ValueIn(ncpus, dvars, tuples[t := addr], w) == ValueIn(ncpus, dvars, tuples, w)
  {
    hide TlsKey;
    var tuples' := tuples[t := addr];
    forall k | k in dvars && k >= HALF ensures exists u :: u in tuples' && tuples'[u] == k {
      var u :| u in tuples && tuples[u] == k;
      assert u in tuples' && tuples'[u] == k;
    }
  }

  /** Removing a tuple together with its value changes no other variable. */
  lemma {:induction false} TupleRemoved(ncpus: nat, dvars: Values, tuples: Tuples, t: seq<nat>, w: Var)
    requires Good(dvars, tuples) && t in tuples && Distinguished(ncpus, w)
    ensures Good(dvars - {tuples[t]}, tuples - {t})
    ensures ValueIn(ncpus, dvars - {tuples[t]}, tuples - {t}, w) ==
            if w == Assoc(t) then 0 else ValueIn(ncpus, dvars, tuples, w)
  {
    hide TlsKey;
    var dvars', tuples' := dvars - {tuples[t]}, tuples - {t};
    forall k | k in dvars' && k >= HALF ensures exists u :: u in tuples' && tuples'[u] == k {
      var u :| u in tuples && tuples[u] == k;
      assert u in tuples' && tuples'[u] == k;
    }
    if w != Assoc(t) && KeyIn(ncpus, tuples, w).Some? {
      KeysDiffer(ncpus, dvars, tuples, w, Assoc(t));
    }
  }

  /** Setting a value through a variable's key changes that variable only. */
  lemma {:induction false} ValueSet(ncpus: nat, dvars: Values, tuples: Tuples, v: Var, x: U64, w: Var)
    requires Good(dvars, tuples) && KeyIn(ncpus, tuples, v).Some? && Distinguished(ncpus, v) && Distinguished(ncpus, w)
    ensures var dvars' := dvars[KeyIn(ncpus, tuples, v).value := x];
      && Good(dvars', tuples)
      && ValueIn(ncpus, dvars', tuples, w) == if w == v then x else ValueIn(ncpus, dvars, tuples, w)
  {
    hide TlsKey;
    if v.Tls? { TlsKeyLow(ncpus, v); }
    var key := KeyIn(ncpus, tuples, v).value;
    var dvars' := dvars[key := x];
    forall k | k in dvars' && k >= HALF ensures exists u :: u in tuples && tuples[u] == k {
      if k in dvars {
        var u :| u in tuples && tuples[u] == k;
      } else {
        assert v.tuple in tuples && tuples[v.tuple] == k;
      }
    }
    if w != v && KeyIn(ncpus, tuples, w).Some? {
      KeysDiffer(ncpus, dvars, tuples, v, w);
    }
  }

  /** Removing a thread-local variable's value. */
  lemma {:induction false} ValueRemoved(ncpus: nat, dvars: Values, tuples: Tuples, v: Var, w: Var)
    requires Good(dvars, tuples) && v.Tls? && Distinguished(ncpus, v) && Distinguished(ncpus, w)
    ensures var dvars' := dvars - {TlsKey(ncpus, v.thread, v.id)};
      && Good(dvars', tuples)
      && ValueIn(ncpus, dvars', tuples, w) == if w == v then 0 else ValueIn(ncpus, dvars, tuples, w)
  {
    hide TlsKey;
    if w != v && KeyIn(ncpus, tuples, w).Some? {
      KeysDiffer(ncpus, dvars, tuples, v, w);
    }
  }

  /** Whether the kernel can create a `tuples` entry, and where; and a `dvars` entry. */
  datatype Kernel = Kernel(tupleOk: bool, addr: nat, dvarOk: bool)

  /** There is an entry with the variable's value. */
  predicate HasEntry(ncpus: nat, dvars: Values, tuples: Tuples, v: Var) {
    var key := KeyIn(ncpus, tuples, v);
    key.Some? && key.value in dvars
  }

  /** The kernel has room for a new value of the variable. */
  predicate HasRoom(tuples: Tuples, v: Var, k: Kernel) {
    k.dvarOk && (v.Assoc? ==> v.tuple in tuples || (k.tupleOk && Free(tuples, k.addr)))
  }

  /** The tuples after looking a variable up: storing zero removes the variable's, and
      storing another value makes one, if there is room for it. */
  function NextTuples(tuples: Tuples, v: Var, store: bool, nval: U64, k: Kernel): Tuples {
    if v.Tls? || !store then tuples
    else if nval == 0 then tuples - {v.tuple}
    else if v.tuple !in tuples && k.tupleOk && Free(tuples, k.addr) then tuples[v.tuple := k.addr]
    else tuples
  }

  class Store {
    const ncpus: nat
    var dvars: Values
    var tuples: Tuples
    var drops: nat

    constructor (ncpus: nat)
      ensures Valid() && this.ncpus == ncpus && tuples == map[] && forall v :: Value(v) == 0
    {
      this.ncpus := ncpus;
      dvars, tuples, drops := map[], map[], 0;
    }

    /** Between operations an entry is there exactly for a value that is not zero. */
    ghost predicate Valid()
      reads this
    {
      Good(dvars, tuples) && forall k :: k in dvars ==> dvars[k] != 0
    }

    function Value(v: Var): U64
      reads this
    {
      ValueIn(ncpus, dvars, tuples, v)
    }

    /** dt_get_dvar: the key of the entry that the returned pointer leads to. */
    method GetDvar(key: nat, store: bool, nval: U64, k: Kernel) returns (r: Option<nat>)
      modifies this
      ensures tuples == old(tuples)
      ensures r.Some? ==> r.value == key && key in dvars
      ensures dvars ==
        if store && nval == 0 then old(dvars) - {key}
        else if r.Some? && key !in old(dvars) then old(dvars)[key := 0]
        else old(dvars)
      ensures r.Some? <==> !(store && nval == 0) && (key in old(dvars) || (store && k.dvarOk))
      ensures drops == old(drops) + if store && nval != 0 && r.None? then 1 else 0
    {
      if store && nval == 0 {
        dvars := dvars - {key};
        return None;
      }
      if key in dvars { return Some(key); }
      if !store { return None; }
      if !k.dvarOk {
        drops := drops + 1;
        return None;
      }
      dvars := dvars[key := 0];
      r := Some(key);
    }

    /** What looking a variable up promises: a pointer to its value, which is new if it
        had none; or none, for a variable without value, or one that is to be deleted. */
    ghost predicate Found(v: Var, r: Option<nat>, delete: bool, dvars0: Values, tuples0: Tuples)
      reads this
    {
      && Good(dvars, tuples)
      && (r.Some? ==> KeyIn(ncpus, tuples, v) == r && r.value in dvars)
      && (delete ==> r.None?)
      && (r.None? && !delete ==> ValueIn(ncpus, dvars0, tuples0, v) == 0)
      && forall w :: Distinguished(ncpus, w) ==>
           Value(w) == if w == v && delete then 0 else ValueIn(ncpus, dvars0, tuples0, w)
    }

    /** When there is a pointer: to an entry, or to a new one if there is room; the tuples and
        the drops; and that the other entries stay as they are. */
    ghost predicate Looked(v: Var, r: Option<nat>, store: bool, nval: U64, k: Kernel, dvars0: Values, tuples0: Tuples,
                           drops0: nat)
      reads this
    {
      && (r.Some? <==>
            !(store && nval == 0) && (HasEntry(ncpus, dvars0, tuples0, v) || (store && HasRoom(tuples0, v, k))))
      && tuples == NextTuples(tuples0, v, store, nval, k)
      && drops == drops0 + (if store && nval != 0 && r.None? then 1 else 0)
      && (forall key :: key in dvars && Some(key) != r ==> key in dvars0 && dvars[key] == dvars0[key])
      && (!store ==> dvars == dvars0)
    }

    /** dt_get_tvar. */
    method GetTvar(v: Var, store: bool, nval: U64, k: Kernel) returns (r: Option<nat>)
      requires Good(dvars, tuples) && v.Tls? && Distinguished(ncpus, v)
      modifies this
      ensures Found(v, r, store && nval == 0, old(dvars), old(tuples))
      ensures Looked(v, r, store, nval, k, old(dvars), old(tuples), old(drops))
    {
      hide TlsKey, Good;
      r := GetDvar(TlsKey(ncpus, v.thread, v.id), store, nval, k);
      if store && nval == 0 {
        forall w | Distinguished(ncpus, w) ensures Value(w) == if w == v then 0 else old(Value(w)) {
          ValueRemoved(ncpus, old(dvars), tuples, v, w);
        }
        ValueRemoved(ncpus, old(dvars), tuples, v, v);
      } else if r.Some? && r.value !in old(dvars) {
        forall w | Distinguished(ncpus, w) ensures Value(w) == old(Value(w)) {
          ValueSet(ncpus, old(dvars), tuples, v, 0, w);
        }
        ValueSet(ncpus, old(dvars), tuples, v, 0, v);
      }
    }

    /** dt_get_assoc.  The kernel does not hand out an address that is in use. */
    method GetAssoc(v: Var, store: bool, nval: U64, k: Kernel) returns (r: Option<nat>)
      requires Good(dvars, tuples) && v.Assoc?
      modifies this
      ensures Found(v, r, store && nval == 0, old(dvars), old(tuples))
      ensures Looked(v, r, store, nval, k, old(dvars), old(tuples), old(drops))
    {
      hide TlsKey, Good;
      var tuple := v.tuple;
      if tuple !in tuples {
        if !store || nval == 0 { return None; }
        if !k.tupleOk || !Free(tuples, k.addr) {
          drops := drops + 1;
          return None;
        }
        ghost var tuples0 := tuples;
        tuples := tuples[tuple := k.addr];
        forall w ensures ValueIn(ncpus, dvars, tuples, w) == ValueIn(ncpus, dvars, tuples0, w) {
          TupleAdded(ncpus, dvars, tuples0, tuple, k.addr, w);
        }
        TupleAdded(ncpus, dvars, tuples0, tuple, k.addr, v);
        r := Pointed(v, k.addr, store, nval, k);
      } else {
        var val := tuples[tuple];
        if store && nval == 0 {
          ghost var dvars0, tuples0 := dvars, tuples;
          tuples := tuples - {tuple};
          r := GetDvar(val, store, nval, k);
          forall w | Distinguished(ncpus, w) ensures Value(w) == if w == v then 0 else old(Value(w)) {
            TupleRemoved(ncpus, dvars0, tuples0, tuple, w);
          }
          TupleRemoved(ncpus, dvars0, tuples0, tuple, v);
        } else {
          r := Pointed(v, val, store, nval, k);
        }
      }
    }

    /** The end of dt_get_assoc for a live tuple that stays. */
    method Pointed(v: Var, val: nat, store: bool, nval: U64, k: Kernel) returns (r: Option<nat>)
      requires Good(dvars, tuples) && v.Assoc? && KeyIn(ncpus, tuples, v) == Some(val) && !(store && nval == 0)
      modifies this
      ensures Found(v, r, false, old(dvars), tuples) && tuples == old(tuples)
      ensures Looked(v, r, store, nval, k, old(dvars), old(tuples), old(drops))
    {
      hide TlsKey, Good;
      r := GetDvar(val, store, nval, k);
      if r.Some? && r.value !in old(dvars) {
        forall w | Distinguished(ncpus, w) ensures Value(w) == old(Value(w)) {
          ValueSet(ncpus, old(dvars), tuples, v, 0, w);
        }
        ValueSet(ncpus, old(dvars), tuples, v, 0, v);
      }
    }

    /** Looking a variable up, of either kind. */
    method Get(v: Var, store: bool, nval: U64, k: Kernel) returns (r: Option<nat>)
      requires Good(dvars, tuples) && Distinguished(ncpus, v)
      modifies this
      ensures Found(v, r, store && nval == 0, old(dvars), old(tuples))
      ensures Looked(v, r, store, nval, k, old(dvars), old(tuples), old(drops))
    {
      if v.Tls? { r := GetTvar(v, store, nval, k); } else { r := GetAssoc(v, store, nval, k); }
    }

    /** A load: the value of the variable, and no change. */
    method Load(v: Var, k: Kernel) returns (x: U64)
      requires Valid() && Distinguished(ncpus, v)
      modifies this
      ensures Valid() && x == old(Value(v)) && dvars == old(dvars) && tuples == old(tuples)
    {
      var p := Get(v, false, 0, k);
      x := if p.None? then 0 else dvars[p.value];
    }

    /** A store: zero deletes the variable; otherwise its value is set, unless it had none and
        there is no room for it, which ends the clause.  No other variable changes. */
    method Assign(v: Var, x: U64, k: Kernel) returns (ok: bool)
      requires Valid() && Distinguished(ncpus, v)
      modifies this
      ensures Valid()
      ensures forall w :: Distinguished(ncpus, w) ==> Value(w) == if w == v && ok then x else old(Value(w))
      ensures ok <==> x == 0 || old(Value(v)) != 0 || HasRoom(old(tuples), v, k)
      ensures tuples == NextTuples(old(tuples), v, true, x, k)
      ensures drops == old(drops) + if ok then 0 else 1
    {
      hide TlsKey, Good;
      var p := Get(v, true, x, k);
      if x == 0 { return true; }
      if p.None? { return false; }
      ghost var dvars0 := dvars;
      dvars := dvars[p.value := x];
      forall w | Distinguished(ncpus, w) ensures Value(w) == if w == v then x else old(Value(w)) {
        ValueSet(ncpus, dvars0, tuples, v, x, w);
      }
      ValueSet(ncpus, dvars0, tuples, v, x, v);
      ok := true;
    }
  }

  // ----- whole runs -----

  datatype Op = Load(v: Var, k: Kernel) | Assign(v: Var, x: U64, k: Kernel)

  /** What an operation did: a load returned a value, a store succeeded or not. */
  datatype Event = Loaded(v: Var, x: U64) | Assigned(v: Var, x: U64, ok: bool)

  /** The last value successfully stored to a variable, or zero. */
  function Last(log: seq<Event>, v: Var): U64 {
    if log == [] then 0
    else
      var e := log[|log| - 1];
      if e.Assigned? && e.v == v && e.ok then e.x else Last(log[..|log| - 1], v)
  }

  /** The tuples that are there after some operations. */
  function TuplesAfter(ops: seq<Op>): Tuples {
    if ops == [] then map[]
    else
      var op := ops[|ops| - 1];
      var before := TuplesAfter(ops[..|ops| - 1]);
      if op.Load? then before else NextTuples(before, op.v, true, op.x, op.k)
  }

  /** A store fails exactly if its value is not zero, the variable's is, and there is no room. */
  predicate Succeeds(op: Op, held: U64, tuples: Tuples)
    requires op.Assign?
  {
    op.x == 0 || held != 0 || HasRoom(tuples, op.v, op.k)
  }

  /** The event of operation `i`: a load yields the value last stored, and a store stores its
      value unless there is no room. */
  ghost predicate EventIs(ops: seq<Op>, log: seq<Event>, i: nat)
    requires i < |ops| == |log|
  {
    var held := Last(log[..i], ops[i].v);
    log[i] == match ops[i]
              case Load(v, k) => Loaded(v, held)
              case Assign(v, x, k) => Assigned(v, x, Succeeds(ops[i], held, TuplesAfter(ops[..i])))
  }

  ghost predicate EventsAre(ops: seq<Op>, log: seq<Event>) {
    |ops| == |log| && forall i :: 0 <= i < |ops| ==> EventIs(ops, log, i)
  }

  lemma {:induction false} Logged(ops: seq<Op>, log: seq<Event>, op: Op, e: Event)
    requires EventsAre(ops, log)
    requires var held := Last(log, op.v);
      e == match op
           case Load(v, k) => Loaded(v, held)
           case Assign(v, x, k) => Assigned(v, x, Succeeds(op, held, TuplesAfter(ops)))
    ensures EventsAre(ops + [op], log + [e])
  {
    hide Last, TuplesAfter, Succeeds;
    var ops', log' := ops + [op], log + [e];
    forall i | 0 <= i < |ops'| ensures EventIs(ops', log', i) {
      if i < |ops| {
        assert EventIs(ops, log, i);
        assert log'[..i] == log[..i] && ops'[..i] == ops[..i];
      } else {
        assert log'[..i] == log && ops'[..i] == ops;
      }
    }
  }

  /** The events of a sequence of operations are determined by it. */
  lemma {:induction false} EventsUnique(ops: seq<Op>, log: seq<Event>, log': seq<Event>)
    requires EventsAre(ops, log) && EventsAre(ops, log')
    ensures log == log'
  {
    EventsSame(ops, log, log', |ops|);
    assert log == log[..|ops|] && log' == log'[..|ops|];
  }

  lemma {:induction false} EventsSame(ops: seq<Op>, log: seq<Event>, log': seq<Event>, n: nat)
    requires EventsAre(ops, log) && EventsAre(ops, log') && n <= |ops|
    ensures log[..n] == log'[..n]
  {
    if n > 0 {
      EventsSame(ops, log, log', n - 1);
      assert EventIs(ops, log, n - 1) && EventIs(ops, log', n - 1);
      assert log[..n] == log[..n - 1] + [log[n - 1]] && log'[..n] == log'[..n - 1] + [log'[n - 1]];
    }
  }

  /** Any sequence of loads and stores, whatever the kernel has room for and whichever
      addresses it reuses: it is as if there were one map with default zero. */
  method Replay(ncpus: nat, ops: seq<Op>) returns (log: seq<Event>)
    requires forall i :: 0 <= i < |ops| ==> Distinguished(ncpus, ops[i].v)
    ensures EventsAre(ops, log)
  {
    hide TlsKey, Good, HasRoom, NextTuples, HasEntry;
    var s := new Store(ncpus);
    log := [];
    var i := 0;
    while i < |ops|
      invariant 0 <= i <= |ops| && |log| == i && fresh(s) && s.Valid() && s.ncpus == ncpus
      invariant EventsAre(ops[..i], log) && s.tuples == TuplesAfter(ops[..i])
      invariant forall w :: Distinguished(ncpus, w) ==> s.Value(w) == Last(log, w)
    {
      var e: Event;
      match ops[i] {
        case Load(v, k) =>
          var x := s.Load(v, k);
          e := Loaded(v, x);
        case Assign(v, x, k) =>
          var ok := s.Assign(v, x, k);
          e := Assigned(v, x, ok);
      }
      Logged(ops[..i], log, ops[i], e);
      assert ops[..i + 1] == ops[..i] + [ops[i]];
      assert ops[..i + 1][..i] == ops[..i] && (log + [e])[..i] == log;
      log := log + [e];
      i := i + 1;
    }
    assert ops[..i] == ops;
  }
}
