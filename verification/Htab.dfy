/**
 The generic hash table (libcommon/dt_htab.c): slots of buckets, a bucket for every
 class of equal entries, doubling when it fills up, and an iterator that looks one
 entry ahead so that the entry it just returned may be deleted.

 Entries are what the pointers in the source point to; the links between them
 (libcommon/dt_htab.h) are the order of the sequences below.
 */
module Htab {
  import opened Basics
  import opened Word
  import opened BitFacts

  /** The functions a user supplies: a hash value, and whether two entries are equal. */
  datatype Ops<!E> = Ops(hval: E -> U32, same: (E, E) -> bool)

  /** Equality is an equivalence, and equal entries have equal hash values. */
  ghost predicate Lawful<E(!new)>(ops: Ops<E>) {
    && (forall a :: ops.same(a, a))
    && (forall a, b :: ops.same(a, b) ==> ops.same(b, a) && ops.hval(a) == ops.hval(b))
    && (forall a, b, c :: ops.same(a, b) && ops.same(b, c) ==> ops.same(a, c))
  }

  /** A bucket; `ref` stands for its address. */
  datatype Bucket<E> = Bucket(ref: nat, hval: U32, ents: seq<E>, nentries: nat)

  type Slot<E> = seq<Bucket<E>>

  // ----- where an entry belongs -----

  /** `hval & mask`. */
  function Masked(h: U32, mask: nat): nat {
    Bits(BitAnd, h, mask, 32)
  }

  /** The slot index is the remainder modulo the size. */
  lemma {:induction false} SlotIndex(h: U32, k: nat)
    ensures Masked(h, Pow2(k) - 1) == h % Pow2(k)
  {
    Pow2Of64();
    MaskIsMod(h, k, 32);
  }

  // ----- buckets and entries in order -----

  function FlatSlot<E>(slot: Slot<E>): seq<E> {
    if slot == [] then [] else slot[0].ents + FlatSlot(slot[1..])
  }

  /** All buckets, slot by slot. */
  function All<E>(slots: seq<Slot<E>>): Slot<E> {
    if slots == [] then [] else slots[0] + All(slots[1..])
  }

  /** All entries, bucket by bucket. */
  function Flat<E>(slots: seq<Slot<E>>): seq<E> {
    FlatSlot(All(slots))
  }

  lemma {:induction false} FlatNone<E>()
    ensures FlatSlot<E>([]) == []
  {
  }

  lemma {:induction false} FlatFirst<E>(a: Slot<E>)
    requires a != []
    ensures FlatSlot(a) == a[0].ents + FlatSlot(a[1..])
  {
  }

  lemma {:induction false} FlatSlotJoin<E>(a: Slot<E>, b: Slot<E>)
    ensures FlatSlot(a + b) == FlatSlot(a) + FlatSlot(b)
  {
    hide FlatSlot;
    if a == [] {
      assert a + b == b;
      FlatNone<E>();
    } else {
      assert (a + b)[0] == a[0] && (a + b)[1..] == a[1..] + b;
      FlatFirst(a);
      FlatFirst(a + b);
      FlatSlotJoin(a[1..], b);
      Assoc(a[0].ents, FlatSlot(a[1..]), FlatSlot(b));
    }
  }

  lemma {:induction false} FlatOne<E>(b: Bucket<E>)
    ensures FlatSlot([b]) == b.ents
  {
    assert [b][1..] == [];
  }

  lemma {:induction false} AllJoin<E>(a: seq<Slot<E>>, b: seq<Slot<E>>)
    ensures All(a + b) == All(a) + All(b)
  {
    if a == [] {
      assert a + b == b;
    } else {
      assert (a + b)[0] == a[0] && (a + b)[1..] == a[1..] + b;
      AllJoin(a[1..], b);
      Assoc(a[0], All(a[1..]), All(b));
    }
  }

  /** A table with slot `i` replaced. */
  lemma {:induction false} AllAt<E>(slots: seq<Slot<E>>, i: nat, x: Slot<E>)
    requires i < |slots|
    ensures All(slots[i := x]) == All(slots[..i]) + x + All(slots[i + 1..])
    ensures Flat(slots[i := x]) == Flat(slots[..i]) + FlatSlot(x) + Flat(slots[i + 1..])
  {
    assert slots[i := x] == slots[..i] + ([x] + slots[i + 1..]);
    AllJoin(slots[..i], [x] + slots[i + 1..]);
    AllJoin([x], slots[i + 1..]);
    assert [x][1..] == [];
    assert All([x]) == x;
    hide All;
    Assoc(All(slots[..i]), x, All(slots[i + 1..]));
    FlatSlotJoin(All(slots[..i]), x);
    FlatSlotJoin(All(slots[..i]) + x, All(slots[i + 1..]));
  }

  lemma {:induction false} AllSplit<E>(slots: seq<Slot<E>>, i: nat)
    requires i < |slots|
    ensures All(slots) == All(slots[..i]) + slots[i] + All(slots[i + 1..])
    ensures Flat(slots) == Flat(slots[..i]) + FlatSlot(slots[i]) + Flat(slots[i + 1..])
  {
    assert slots[i := slots[i]] == slots;
    AllAt(slots, i, slots[i]);
  }

  lemma {:induction false} AllIn<E>(slots: seq<Slot<E>>, b: Bucket<E>)
    ensures b in All(slots) <==> exists i :: 0 <= i < |slots| && b in slots[i]
  {
    if slots != [] {
      AllIn(slots[1..], b);
      if b in All(slots[1..]) {
        var i :| 0 <= i < |slots[1..]| && b in slots[1..][i];
        assert b in slots[i + 1];
      }
      if i :| 0 <= i < |slots| && b in slots[i] {
        if i > 0 { assert b in slots[1..][i - 1]; }
      }
    }
  }

  // ----- well-formed tables -----

  ghost predicate GoodBucket<E>(ops: Ops<E>, b: Bucket<E>, i: nat, size: nat)
    requires size > 0
  {
    && b.ents != [] && b.nentries == |b.ents|
    && (forall j :: 0 <= j < |b.ents| ==> ops.same(b.ents[0], b.ents[j]))
    && (forall j, k :: 0 <= j < k < |b.ents| ==> b.ents[j] != b.ents[k])
    && b.hval == ops.hval(b.ents[0]) && b.hval % size == i
  }

  /** A bucket belongs where it is, and no two buckets of a slot are for equal entries. */
  ghost predicate GoodSlot<E>(ops: Ops<E>, slot: Slot<E>, i: nat, size: nat)
    requires size > 0
  {
    && (forall j :: 0 <= j < |slot| ==> GoodBucket(ops, slot[j], i, size))
    && (forall j, k :: 0 <= j < k < |slot| ==> !ops.same(slot[j].ents[0], slot[k].ents[0]))
  }

  ghost predicate GoodTable<E>(ops: Ops<E>, slots: seq<Slot<E>>) {
    && |slots| > 0
    && forall i :: 0 <= i < |slots| ==> GoodSlot(ops, slots[i], i, |slots|)
  }

  /** The position of the bucket for entries equal to `e`, or the slot's length. */
  function Find<E>(ops: Ops<E>, slot: Slot<E>, e: E): (j: nat)
    ensures j <= |slot|
    ensures j < |slot| ==> slot[j].ents != [] && ops.same(slot[j].ents[0], e)
    ensures forall i :: 0 <= i < j && slot[i].ents != [] ==> !ops.same(slot[i].ents[0], e)
  {
    if slot == [] then 0
    else if slot[0].ents != [] && ops.same(slot[0].ents[0], e) then 0
    else 1 + Find(ops, slot[1..], e)
  }

  /** The entries equal to `e`, latest first. */
  function Group<E>(ops: Ops<E>, slots: seq<Slot<E>>, e: E): seq<E>
    requires |slots| > 0
  {
    var slot := slots[ops.hval(e) % |slots|];
    var j := Find(ops, slot, e);
    if j < |slot| then slot[j].ents else []
  }

  /** In a good slot the bucket is determined by being for entries equal to `e`. */
  lemma {:induction false} FindUnique<E(!new)>(ops: Ops<E>, slot: Slot<E>, i: nat, size: nat, j: nat, e: E)
    requires Lawful(ops) && size > 0 && GoodSlot(ops, slot, i, size)
    requires j < |slot| && ops.same(slot[j].ents[0], e)
    ensures Find(ops, slot, e) == j
  {
    assert GoodBucket(ops, slot[j], i, size);
    assert ops.same(e, slot[j].ents[0]);
    forall k | 0 <= k < j ensures slot[k].ents != [] && !ops.same(slot[k].ents[0], e) {
      assert GoodBucket(ops, slot[k], i, size);
    }
  }

  /** Entries equal to each other have the same group. */
  lemma {:induction false} GroupSame<E(!new)>(ops: Ops<E>, slots: seq<Slot<E>>, e: E, x: E)
    requires Lawful(ops) && GoodTable(ops, slots) && ops.same(e, x)
    ensures Group(ops, slots, e) == Group(ops, slots, x)
  {
    var i := ops.hval(e) % |slots|;
    var slot := slots[i];
    assert GoodSlot(ops, slot, i, |slots|);
    var j, k := Find(ops, slot, e), Find(ops, slot, x);
    assert ops.same(x, e);
    if j < |slot| { FindUnique(ops, slot, i, |slots|, j, x); }
    if k < |slot| { FindUnique(ops, slot, i, |slots|, k, e); }
  }

  /** A group is the contents of the one bucket for it. */
  lemma {:induction false} GroupIs<E(!new)>(ops: Ops<E>, slots: seq<Slot<E>>, b: Bucket<E>, x: E)
    requires Lawful(ops) && GoodTable(ops, slots) && b in All(slots) && b.ents != [] && ops.same(b.ents[0], x)
    ensures Group(ops, slots, x) == b.ents
  {
    AllIn(slots, b);
    var i :| 0 <= i < |slots| && b in slots[i];
    var j :| 0 <= j < |slots[i]| && slots[i][j] == b;
    assert GoodSlot(ops, slots[i], i, |slots|);
    assert GoodBucket(ops, b, i, |slots|);
    FindUnique(ops, slots[i], i, |slots|, j, x);
  }

  lemma {:induction false} GroupFrom<E(!new)>(ops: Ops<E>, slots: seq<Slot<E>>, x: E)
    requires GoodTable(ops, slots) && Group(ops, slots, x) != []
    ensures exists b :: b in All(slots) && b.ents == Group(ops, slots, x) && ops.same(b.ents[0], x)
  {
    var slot := slots[ops.hval(x) % |slots|];
    var b := slot[Find(ops, slot, x)];
    AllIn(slots, b);
    assert b in slots[ops.hval(x) % |slots|];
  }

  /** Tables with the same buckets have the same groups. */
  lemma {:induction false} SameGroups<E(!new)>(ops: Ops<E>, slots: seq<Slot<E>>, slots': seq<Slot<E>>, x: E)
    requires Lawful(ops) && GoodTable(ops, slots) && GoodTable(ops, slots')
    requires forall b :: b in All(slots) <==> b in All(slots')
    ensures Group(ops, slots, x) == Group(ops, slots', x)
  {
    hide Group;
    if Group(ops, slots, x) != [] {
      GroupFrom(ops, slots, x);
      var b :| b in All(slots) && b.ents == Group(ops, slots, x) && ops.same(b.ents[0], x);
      GroupIs(ops, slots', b, x);
    }
    if Group(ops, slots', x) != [] {
      GroupFrom(ops, slots', x);
      var b :| b in All(slots') && b.ents == Group(ops, slots', x) && ops.same(b.ents[0], x);
      GroupIs(ops, slots, b, x);
    }
  }

  // ----- changing one group -----

  /** Buckets for entries not equal to `e` are in both or in neither. */
  ghost predicate AlikeBut<E(!new)>(ops: Ops<E>, a: Slot<E>, b: Slot<E>, e: E) {
    forall x: Bucket<E> :: x.ents != [] && !ops.same(x.ents[0], e) ==> (x in a <==> x in b)
  }

  lemma {:induction false} AlikeTable<E(!new)>(ops: Ops<E>, slots: seq<Slot<E>>, i: nat, slot': Slot<E>, e: E)
    requires i < |slots| && AlikeBut(ops, slots[i], slot', e)
    ensures AlikeBut(ops, All(slots), All(slots[i := slot']), e)
  {
    assert slots[i := slots[i]] == slots;
    AllAt(slots, i, slots[i]);
    AllAt(slots, i, slot');
  }

  lemma {:induction false} OtherGroups<E(!new)>(ops: Ops<E>, slots: seq<Slot<E>>, slots': seq<Slot<E>>, e: E, x: E)
    requires Lawful(ops) && GoodTable(ops, slots) && GoodTable(ops, slots') && !ops.same(e, x)
    requires AlikeBut(ops, All(slots), All(slots'), e)
    ensures Group(ops, slots, x) == Group(ops, slots', x)
  {
    hide Group;
    assert !ops.same(x, e);
    if Group(ops, slots, x) != [] {
      GroupFrom(ops, slots, x);
      var b :| b in All(slots) && b.ents == Group(ops, slots, x) && ops.same(b.ents[0], x);
      assert !ops.same(b.ents[0], e) by { assert ops.same(x, b.ents[0]); }
      GroupIs(ops, slots', b, x);
    }
    if Group(ops, slots', x) != [] {
      GroupFrom(ops, slots', x);
      var b :| b in All(slots') && b.ents == Group(ops, slots', x) && ops.same(b.ents[0], x);
      assert !ops.same(b.ents[0], e) by { assert ops.same(x, b.ents[0]); }
      GroupIs(ops, slots, b, x);
    }
  }

  /** A slot with `e` added to the bucket for it, which is made if there is none. */
  function Added<E>(ops: Ops<E>, slot: Slot<E>, e: E, ref: nat): Slot<E> {
    var j := Find(ops, slot, e);
    if j < |slot| then slot[j := slot[j].(ents := [e] + slot[j].ents, nentries := slot[j].nentries + 1)]
    else [Bucket(ref, ops.hval(e), [e], 1)] + slot
  }

  lemma {:induction false} AddedSlot<E(!new)>(ops: Ops<E>, slot: Slot<E>, i: nat, size: nat, e: E, ref: nat)
    requires Lawful(ops) && size > 0 && GoodSlot(ops, slot, i, size) && ops.hval(e) % size == i
    requires var j := Find(ops, slot, e); j < |slot| ==> e !in slot[j].ents
    ensures GoodSlot(ops, Added(ops, slot, e, ref), i, size) && AlikeBut(ops, slot, Added(ops, slot, e, ref), e)
    ensures |FlatSlot(Added(ops, slot, e, ref))| == |FlatSlot(slot)| + 1
    ensures |Added(ops, slot, e, ref)| == |slot| + if Find(ops, slot, e) < |slot| then 0 else 1
  {
    hide Lawful, GoodSlot, AlikeBut, FlatSlot;
    if Find(ops, slot, e) < |slot| {
      AddedOld(ops, slot, i, size, Find(ops, slot, e), e);
    } else {
      AddedNew(ops, slot, i, size, e, ref);
    }
  }

  lemma {:induction false} AddedOld<E(!new)>(ops: Ops<E>, slot: Slot<E>, i: nat, size: nat, j: nat, e: E)
    requires Lawful(ops) && size > 0 && GoodSlot(ops, slot, i, size)
    requires j < |slot| && ops.same(slot[j].ents[0], e) && e !in slot[j].ents
    ensures var slot' := slot[j := slot[j].(ents := [e] + slot[j].ents, nentries := slot[j].nentries + 1)];
      && GoodSlot(ops, slot', i, size) && AlikeBut(ops, slot, slot', e)
      && |FlatSlot(slot')| == |FlatSlot(slot)| + 1
  {
    var b := slot[j].(ents := [e] + slot[j].ents, nentries := slot[j].nentries + 1);
    var slot' := slot[j := b];
    assert GoodBucket(ops, slot[j], i, size);
    BucketAdds(ops, slot[j], i, size, e);
    AddedDistinct(ops, slot, i, size, j, e);
    AlikeReplaced(ops, slot, j, b, e);
    SplitAt(slot, j);
    SplitAt(slot', j);
    hide GoodBucket, AlikeBut;
    assert forall k :: 0 <= k < |slot'| ==> GoodBucket(ops, slot'[k], i, size);
  }

  lemma {:induction false} AlikeReplaced<E(!new)>(ops: Ops<E>, slot: Slot<E>, j: nat, b: Bucket<E>, e: E)
    requires Lawful(ops) && j < |slot| && slot[j].ents != [] && ops.same(slot[j].ents[0], e) && b.ents != []
    requires ops.same(b.ents[0], e)
    ensures AlikeBut(ops, slot, slot[j := b], e)
  {
    var slot' := slot[j := b];
    forall x: Bucket<E> | x.ents != [] && !ops.same(x.ents[0], e) ensures x in slot <==> x in slot' {
      if x in slot {
        var k :| 0 <= k < |slot| && slot[k] == x;
        assert slot'[k] == x;
      }
      if x in slot' {
        var k :| 0 <= k < |slot'| && slot'[k] == x;
        assert slot[k] == x;
      }
    }
  }

  lemma {:induction false} AddedNew<E(!new)>(ops: Ops<E>, slot: Slot<E>, i: nat, size: nat, e: E, ref: nat)
    requires Lawful(ops) && size > 0 && GoodSlot(ops, slot, i, size) && ops.hval(e) % size == i
    requires Find(ops, slot, e) == |slot|
    ensures var slot' := [Bucket(ref, ops.hval(e), [e], 1)] + slot;
      && GoodSlot(ops, slot', i, size) && AlikeBut(ops, slot, slot', e)
      && |FlatSlot(slot')| == |FlatSlot(slot)| + 1
  {
    var b := Bucket(ref, ops.hval(e), [e], 1);
    var slot' := [b] + slot;
    assert ops.same(e, e);
    forall k | 0 <= k < |slot| ensures slot[k].ents != [] && !ops.same(e, slot[k].ents[0]) {
      assert GoodBucket(ops, slot[k], i, size);
      assert !ops.same(slot[k].ents[0], e);
    }
    assert slot'[1..] == slot;
    assert GoodBucket(ops, b, i, size);
    hide GoodBucket;
    assert forall k :: 0 <= k < |slot'| ==> GoodBucket(ops, slot'[k], i, size);
  }

  lemma {:induction false} BucketAdds<E(!new)>(ops: Ops<E>, b: Bucket<E>, i: nat, size: nat, e: E)
    requires Lawful(ops) && size > 0 && GoodBucket(ops, b, i, size) && ops.same(b.ents[0], e) && e !in b.ents
    ensures GoodBucket(ops, b.(ents := [e] + b.ents, nentries := b.nentries + 1), i, size)
  {
    assert ops.same(e, b.ents[0]);
    var ents := [e] + b.ents;
    forall j | 0 <= j < |ents| ensures ops.same(e, ents[j]) {
      if j > 0 { assert ops.same(b.ents[0], b.ents[j - 1]); }
    }
  }

  /** Another first entry for the same class does not upset the rest of the slot. */
  lemma {:induction false} AddedDistinct<E(!new)>(ops: Ops<E>, slot: Slot<E>, i: nat, size: nat, j: nat, e: E)
    requires Lawful(ops) && size > 0 && GoodSlot(ops, slot, i, size)
    requires j < |slot| && ops.same(slot[j].ents[0], e)
    ensures forall k :: 0 <= k < |slot| && k != j ==>
        slot[k].ents != [] && !ops.same(slot[k].ents[0], e) && !ops.same(e, slot[k].ents[0])
  {
    forall k | 0 <= k < |slot| && k != j
      ensures slot[k].ents != [] && !ops.same(slot[k].ents[0], e) && !ops.same(e, slot[k].ents[0])
    {
      assert GoodBucket(ops, slot[k], i, size) && GoodBucket(ops, slot[j], i, size);
      assert ops.same(e, slot[j].ents[0]);
      assert !ops.same(slot[k].ents[0], slot[j].ents[0]);
    }
  }

  /** A slot's entries: those before bucket `j`, its own, those after. */
  lemma {:induction false} SplitAt<E>(slot: Slot<E>, j: nat)
    requires j < |slot|
    ensures FlatSlot(slot) == FlatSlot(slot[..j]) + slot[j].ents + FlatSlot(slot[j + 1..])
  {
    assert slot == slot[..j] + ([slot[j]] + slot[j + 1..]);
    FlatSlotJoin(slot[..j], [slot[j]] + slot[j + 1..]);
    FlatSlotJoin([slot[j]], slot[j + 1..]);
    FlatOne(slot[j]);
    Assoc(FlatSlot(slot[..j]), slot[j].ents, FlatSlot(slot[j + 1..]));
  }

  /** The group of `x` with `e` added in front, if it belongs there. */
  function WithNew<E>(ops: Ops<E>, slots: seq<Slot<E>>, e: E, x: E): seq<E>
    requires |slots| > 0
  {
    if ops.same(e, x) then [e] + Group(ops, slots, x) else Group(ops, slots, x)
  }

  /** What adding `e` does to the table. */
  lemma {:induction false} AddedTable<E(!new)>(ops: Ops<E>, slots: seq<Slot<E>>, e: E, ref: nat)
    requires Lawful(ops) && GoodTable(ops, slots) && e !in Group(ops, slots, e)
    ensures var i := ops.hval(e) % |slots|;
      var slots' := slots[i := Added(ops, slots[i], e, ref)];
      && GoodTable(ops, slots')
      && |All(slots')| == |All(slots)| + (if Group(ops, slots, e) == [] then 1 else 0)
      && |Flat(slots')| == |Flat(slots)| + 1
      && forall x :: Group(ops, slots', x) == WithNew(ops, slots, e, x)
  {
    var i := ops.hval(e) % |slots|;
    var slot := slots[i];
    assert GoodSlot(ops, slot, i, |slots|);
    AddedSlot(ops, slot, i, |slots|, e, ref);
    var slot' := Added(ops, slot, e, ref);
    var slots' := slots[i := slot'];
    AllSplit(slots, i);
    AllAt(slots, i, slot');
    AlikeTable(ops, slots, i, slot', e);
    hide Flat, FlatSlot, All, AlikeBut;
    forall k | 0 <= k < |slots'| ensures GoodSlot(ops, slots'[k], k, |slots'|) {
      assert GoodSlot(ops, slots[k], k, |slots|);
    }
    AddedGroup(ops, slots, e, ref);
    forall x ensures Group(ops, slots', x) == WithNew(ops, slots, e, x) {
      if ops.same(e, x) {
        GroupSame(ops, slots, e, x);
        GroupSame(ops, slots', e, x);
      } else {
        OtherGroups(ops, slots, slots', e, x);
      }
    }
  }

  lemma {:induction false} AddedGroup<E(!new)>(ops: Ops<E>, slots: seq<Slot<E>>, e: E, ref: nat)
    requires Lawful(ops) && GoodTable(ops, slots)
    requires var i := ops.hval(e) % |slots|; GoodTable(ops, slots[i := Added(ops, slots[i], e, ref)])
    ensures var i := ops.hval(e) % |slots|;
      Group(ops, slots[i := Added(ops, slots[i], e, ref)], e) == [e] + Group(ops, slots, e)
  {
    var i := ops.hval(e) % |slots|;
    var slot, slot' := slots[i], Added(ops, slots[i], e, ref);
    var j := Find(ops, slot, e);
    assert GoodSlot(ops, slots[i := slot'][i], i, |slots|);
    assert ops.same(e, e);
    FindUnique(ops, slot', i, |slots|, if j < |slot| then j else 0, e);
  }

  // ----- deleting -----

  function Without<E(==)>(s: seq<E>, e: E): seq<E> {
    if s == [] then [] else if s[0] == e then s[1..] else [s[0]] + Without(s[1..], e)
  }

  lemma {:induction false} WithoutJoin<E>(a: seq<E>, b: seq<E>, e: E)
    ensures Without(a + b, e) == if e in a then Without(a, e) + b else a + Without(b, e)
  {
    if a == [] {
      assert a + b == b;
    } else {
      assert (a + b)[0] == a[0] && (a + b)[1..] == a[1..] + b;
      WithoutJoin(a[1..], b, e);
      assert e in a <==> a[0] == e || e in a[1..];
      if a[0] != e {
        if e in a { Assoc([a[0]], Without(a[1..], e), b); } else { Assoc([a[0]], a[1..], Without(b, e)); }
      }
    }
  }

  lemma {:induction false} WithoutIn<E>(s: seq<E>, e: E)
    requires e in s
    ensures |Without(s, e)| == |s| - 1
    ensures forall x :: x in Without(s, e) ==> x in s
    ensures forall x :: x in s && x != e ==> x in Without(s, e)
  {
    if s[0] != e { WithoutIn(s[1..], e); }
  }

  /** Without one of several different things. */
  lemma {:induction false} WithoutDistinct<E>(s: seq<E>, e: E)
    requires e in s && forall j, k :: 0 <= j < k < |s| ==> s[j] != s[k]
    ensures var t := Without(s, e);
      e !in t && forall j, k :: 0 <= j < k < |t| ==> t[j] != t[k]
  {
    if s[0] != e {
      WithoutDistinct(s[1..], e);
      WithoutIn(s[1..], e);
      assert s[0] !in s[1..];
    }
  }

  lemma {:induction false} BucketRemoves<E(!new)>(ops: Ops<E>, b: Bucket<E>, i: nat, size: nat, e: E)
    requires Lawful(ops) && size > 0 && GoodBucket(ops, b, i, size) && e in b.ents && Without(b.ents, e) != []
    ensures GoodBucket(ops, b.(ents := Without(b.ents, e), nentries := |b.ents| - 1), i, size)
    ensures ops.same(Without(b.ents, e)[0], e)
  {
    WithoutIn(b.ents, e);
    WithoutDistinct(b.ents, e);
    var t := Without(b.ents, e);
    var h := b.ents[0];
    forall x | x in b.ents ensures ops.same(h, x) && ops.same(x, h) { }
    forall j | 0 <= j < |t| ensures ops.same(t[0], t[j]) {
      assert t[j] in t && t[0] in t;
      assert ops.same(t[0], h) && ops.same(h, t[j]);
    }
    assert t[0] in t;
    assert ops.same(t[0], h) && ops.same(h, e);
  }

  /** A slot with `e` removed from bucket `j`, and the bucket if it was the last. */
  function Removed<E(==)>(slot: Slot<E>, j: nat, e: E): Slot<E>
    requires j < |slot| && slot[j].nentries > 0
  {
    var ents := Without(slot[j].ents, e);
    if ents == [] then slot[..j] + slot[j + 1..]
    else slot[j := slot[j].(ents := ents, nentries := slot[j].nentries - 1)]
  }

  lemma {:induction false} RemovedSlot<E(!new)>(ops: Ops<E>, slot: Slot<E>, i: nat, size: nat, j: nat, e: E)
    requires Lawful(ops) && size > 0 && GoodSlot(ops, slot, i, size)
    requires j < |slot| && ops.same(slot[j].ents[0], e) && e in slot[j].ents
    ensures slot[j].nentries > 0
    ensures var slot' := Removed(slot, j, e);
      && GoodSlot(ops, slot', i, size) && AlikeBut(ops, slot, slot', e)
      && |slot'| == |slot| - (if Without(slot[j].ents, e) == [] then 1 else 0)
  {
    assert GoodBucket(ops, slot[j], i, size);
    AddedDistinct(ops, slot, i, size, j, e);
    var ents := Without(slot[j].ents, e);
    var slot' := Removed(slot, j, e);
    if ents == [] {
      DroppedSlot(ops, slot, i, size, j, e);
    } else {
      BucketRemoves(ops, slot[j], i, size, e);
      var b := slot[j].(ents := ents, nentries := slot[j].nentries - 1);
      AlikeReplaced(ops, slot, j, b, e);
      ReplacedSlot(ops, slot, i, size, j, b, e);
    }
  }

  lemma {:induction false} ReplacedSlot<E(!new)>(ops: Ops<E>, slot: Slot<E>, i: nat, size: nat, j: nat, b: Bucket<E>,
                                          e: E)
    requires Lawful(ops) && size > 0 && GoodSlot(ops, slot, i, size) && GoodBucket(ops, b, i, size)
    requires j < |slot| && ops.same(slot[j].ents[0], e) && ops.same(b.ents[0], e)
    ensures GoodSlot(ops, slot[j := b], i, size)
  {
    var slot' := slot[j := b];
    assert ops.same(e, b.ents[0]);
    AddedDistinct(ops, slot, i, size, j, e);
    hide GoodBucket;
    assert forall k :: 0 <= k < |slot'| ==> GoodBucket(ops, slot'[k], i, size);
    forall k, l | 0 <= k < l < |slot'| ensures !ops.same(slot'[k].ents[0], slot'[l].ents[0]) {
      if k == j { assert !ops.same(slot[l].ents[0], e); }
      if l == j { assert !ops.same(slot[k].ents[0], e); }
    }
  }

  lemma {:induction false} DroppedSlot<E(!new)>(ops: Ops<E>, slot: Slot<E>, i: nat, size: nat, j: nat, e: E)
    requires Lawful(ops) && size > 0 && GoodSlot(ops, slot, i, size)
    requires j < |slot| && ops.same(slot[j].ents[0], e)
    ensures GoodSlot(ops, slot[..j] + slot[j + 1..], i, size) && AlikeBut(ops, slot, slot[..j] + slot[j + 1..], e)
  {
    hide GoodBucket;
    var slot' := slot[..j] + slot[j + 1..];
    forall k | 0 <= k < |slot'| ensures GoodBucket(ops, slot'[k], i, size) {
      assert slot'[k] == slot[if k < j then k else k + 1];
    }
    forall x: Bucket<E> | x.ents != [] && !ops.same(x.ents[0], e) ensures x in slot <==> x in slot' {
      if x in slot {
        var k :| 0 <= k < |slot| && slot[k] == x;
        assert slot'[if k < j then k else k - 1] == x;
      }
    }
  }

  lemma {:induction false} RemovedFlat<E(!new)>(ops: Ops<E>, slot: Slot<E>, i: nat, size: nat, j: nat, e: E)
    requires Lawful(ops) && size > 0 && GoodSlot(ops, slot, i, size)
    requires j < |slot| && ops.same(slot[j].ents[0], e) && e in slot[j].ents && slot[j].nentries > 0
    ensures FlatSlot(Removed(slot, j, e)) == Without(FlatSlot(slot), e) && e in FlatSlot(slot)
  {
    hide Lawful, GoodSlot, GoodBucket, FlatSlot, Without;
    var slot' := Removed(slot, j, e);
    var a, b, c := FlatSlot(slot[..j]), slot[j].ents, FlatSlot(slot[j + 1..]);
    SplitAt(slot, j);
    NotBefore(ops, slot, i, size, j, e, j);
    WithoutJoin(a + b, c, e);
    WithoutJoin(a, b, e);
    if Without(b, e) == [] {
      FlatSlotJoin(slot[..j], slot[j + 1..]);
      assert a + [] + c == a + c;
    } else {
      SplitAt(slot', j);
      assert slot'[..j] == slot[..j] && slot'[j + 1..] == slot[j + 1..];
    }
  }

  /** An entry is in no bucket but its own. */
  lemma {:induction false} NotBefore<E(!new)>(ops: Ops<E>, slot: Slot<E>, i: nat, size: nat, j: nat, e: E, n: nat)
    requires Lawful(ops) && size > 0 && GoodSlot(ops, slot, i, size)
    requires j < |slot| && ops.same(slot[j].ents[0], e) && n <= j
    ensures e !in FlatSlot(slot[..n])
  {
    if n > 0 {
      NotBefore(ops, slot, i, size, j, e, n - 1);
      assert slot[..n] == slot[..n - 1] + [slot[n - 1]];
      FlatSlotJoin(slot[..n - 1], [slot[n - 1]]);
      FlatOne(slot[n - 1]);
      AddedDistinct(ops, slot, i, size, j, e);
      assert GoodBucket(ops, slot[n - 1], i, size);
    }
  }

  /** Nor in another slot. */
  lemma {:induction false} NotInSlots<E(!new)>(ops: Ops<E>, slots: seq<Slot<E>>, i: nat, e: E, n: nat)
    requires Lawful(ops) && GoodTable(ops, slots) && i == ops.hval(e) % |slots| && n <= i
    ensures e !in Flat(slots[..n])
  {
    if n > 0 {
      NotInSlots(ops, slots, i, e, n - 1);
      assert slots[..n] == slots[..n - 1] + [slots[n - 1]];
      AllJoin(slots[..n - 1], [slots[n - 1]]);
      assert [slots[n - 1]][1..] == [] && All([slots[n - 1]]) == slots[n - 1];
      FlatSlotJoin(All(slots[..n - 1]), slots[n - 1]);
      assert GoodSlot(ops, slots[n - 1], n - 1, |slots|);
      NotInSlot(ops, slots[n - 1], n - 1, |slots|, e);
    }
  }

  lemma {:induction false} NotInSlot<E(!new)>(ops: Ops<E>, slot: Slot<E>, i: nat, size: nat, e: E)
    requires Lawful(ops) && size > 0 && i != ops.hval(e) % size
    requires forall j :: 0 <= j < |slot| ==> GoodBucket(ops, slot[j], i, size)
    ensures e !in FlatSlot(slot)
  {
    if slot != [] {
      NotInSlot(ops, slot[1..], i, size, e);
      assert GoodBucket(ops, slot[0], i, size);
    }
  }

  /** The group of `x` with `e` removed, if it belongs there. */
  function WithoutOld<E(==)>(ops: Ops<E>, slots: seq<Slot<E>>, e: E, x: E): seq<E>
    requires |slots| > 0
  {
    if ops.same(e, x) then Without(Group(ops, slots, x), e) else Group(ops, slots, x)
  }

  /** What removing `e` does to the table. */
  lemma {:induction false} RemovedTable<E(!new)>(ops: Ops<E>, slots: seq<Slot<E>>, e: E)
    requires Lawful(ops) && GoodTable(ops, slots) && e in Group(ops, slots, e)
    ensures var i := ops.hval(e) % |slots|;
      var j := Find(ops, slots[i], e);
      && j < |slots[i]| && slots[i][j].nentries > 0
      && var slots' := slots[i := Removed(slots[i], j, e)];
      && GoodTable(ops, slots')
      && |All(slots')| == |All(slots)| - (if Without(Group(ops, slots, e), e) == [] then 1 else 0)
      && Flat(slots') == Without(Flat(slots), e) && |Flat(slots')| == |Flat(slots)| - 1
      && forall x :: Group(ops, slots', x) == WithoutOld(ops, slots, e, x)
  {
    hide Flat, FlatSlot, All, AlikeBut, Removed, Without, GoodBucket;
    var i := ops.hval(e) % |slots|;
    var slot := slots[i];
    var j := Find(ops, slot, e);
    assert GoodSlot(ops, slot, i, |slots|);
    RemovedSlot(ops, slot, i, |slots|, j, e);
    RemovedAll(ops, slots, i, j, e);
    var slot' := Removed(slot, j, e);
    var slots' := slots[i := slot'];
    AlikeTable(ops, slots, i, slot', e);
    GoodReplaced(ops, slots, i, slot');
    RemovedGroup(ops, slots, i, j, e);
    RemovedOthers(ops, slots, slots', e);
  }

  lemma {:induction false} GoodReplaced<E(!new)>(ops: Ops<E>, slots: seq<Slot<E>>, i: nat, slot': Slot<E>)
    requires GoodTable(ops, slots) && i < |slots| && GoodSlot(ops, slot', i, |slots|)
    ensures GoodTable(ops, slots[i := slot'])
  {
    hide GoodSlot;
  }

  /** All entries but the one removed, in the same order. */
  lemma {:induction false} RemovedAll<E(!new)>(ops: Ops<E>, slots: seq<Slot<E>>, i: nat, j: nat, e: E)
    requires Lawful(ops) && GoodTable(ops, slots) && i == ops.hval(e) % |slots|
    requires j < |slots[i]| && slots[i][j].ents != [] && ops.same(slots[i][j].ents[0], e)
    requires e in slots[i][j].ents && slots[i][j].nentries > 0
    ensures var slots' := slots[i := Removed(slots[i], j, e)];
      && |All(slots')| - |Removed(slots[i], j, e)| == |All(slots)| - |slots[i]|
      && Flat(slots') == Without(Flat(slots), e) && |Flat(slots')| == |Flat(slots)| - 1
  {
    assert GoodSlot(ops, slots[i], i, |slots|);
    hide Flat, FlatSlot, All, Removed, GoodSlot, Lawful, GoodTable, Without;
    var slot, slot' := slots[i], Removed(slots[i], j, e);
    RemovedFlat(ops, slot, i, |slots|, j, e);
    AllSplit(slots, i);
    AllAt(slots, i, slot');
    NotInSlots(ops, slots, i, e, i);
    WithoutJoin(Flat(slots[..i]) + FlatSlot(slot), Flat(slots[i + 1..]), e);
    WithoutJoin(Flat(slots[..i]), FlatSlot(slot), e);
    WithoutIn(Flat(slots), e);
  }

  lemma {:induction false} RemovedOthers<E(!new)>(ops: Ops<E>, slots: seq<Slot<E>>, slots': seq<Slot<E>>, e: E)
    requires Lawful(ops) && GoodTable(ops, slots) && GoodTable(ops, slots') && AlikeBut(ops, All(slots), All(slots'), e)
    requires Group(ops, slots', e) == Without(Group(ops, slots, e), e)
    ensures forall x :: Group(ops, slots', x) == WithoutOld(ops, slots, e, x)
  {
    hide All, AlikeBut, GoodSlot, Group, Without, Lawful;
    forall x ensures Group(ops, slots', x) == WithoutOld(ops, slots, e, x) {
      if ops.same(e, x) {
        GroupSame(ops, slots, e, x);
        GroupSame(ops, slots', e, x);
      } else {
        OtherGroups(ops, slots, slots', e, x);
      }
    }
  }

  lemma {:induction false} RemovedGroup<E(!new)>(ops: Ops<E>, slots: seq<Slot<E>>, i: nat, j: nat, e: E)
    requires Lawful(ops) && GoodTable(ops, slots) && i == ops.hval(e) % |slots|
    requires j == Find(ops, slots[i], e) < |slots[i]|
    requires e in slots[i][j].ents && slots[i][j].nentries > 0
    requires GoodTable(ops, slots[i := Removed(slots[i], j, e)])
    ensures Group(ops, slots[i := Removed(slots[i], j, e)], e) == Without(Group(ops, slots, e), e)
  {
    var slot, slot' := slots[i], Removed(slots[i], j, e);
    assert GoodSlot(ops, slot, i, |slots|);
    assert GoodSlot(ops, slots[i := slot'][i], i, |slots|);
    assert GoodBucket(ops, slot[j], i, |slots|);
    if Without(slot[j].ents, e) == [] {
      AddedDistinct(ops, slot, i, |slots|, j, e);
    } else {
      BucketRemoves(ops, slot[j], i, |slots|, e);
      FindUnique(ops, slot', i, |slots|, j, e);
    }
  }

  // ----- doubling -----

  /** `slots` is a good table of exactly the buckets `done`. */
  ghost predicate Holds<E(!new)>(ops: Ops<E>, slots: seq<Slot<E>>, done: Slot<E>) {
    && GoodTable(ops, slots)
    && (forall b :: b in All(slots) <==> b in done)
    && |All(slots)| == |done| && |Flat(slots)| == |FlatSlot(done)|
  }

  lemma {:induction false} HoldsNone<E(!new)>(ops: Ops<E>, slots: seq<Slot<E>>)
    requires |slots| > 0 && forall i :: 0 <= i < |slots| ==> slots[i] == []
    ensures Holds(ops, slots, [])
  {
    AllEmpty(slots);
  }

  lemma {:induction false} AllEmpty<E>(slots: seq<Slot<E>>)
    requires forall i :: 0 <= i < |slots| ==> slots[i] == []
    ensures All(slots) == []
  {
    if slots != [] { AllEmpty(slots[1..]); }
  }

  /** Moving one more bucket over. */
  lemma {:induction false} HoldsMore<E(!new)>(ops: Ops<E>, slots: seq<Slot<E>>, done: Slot<E>, b: Bucket<E>, i: nat)
    requires Lawful(ops) && Holds(ops, slots, done) && i == b.hval % |slots| && GoodBucket(ops, b, i, |slots|)
    requires forall c :: c in done ==> c.ents != [] && !ops.same(c.ents[0], b.ents[0])
    ensures Holds(ops, slots[i := [b] + slots[i]], done + [b])
  {
    var slot := slots[i];
    var slots' := slots[i := [b] + slot];
    assert GoodSlot(ops, [b] + slot, i, |slots|) by {
      assert slots[i := slot] == slots;
      AllAt(slots, i, slot);
      assert GoodSlot(ops, slot, i, |slots|);
      PushGood(ops, slot, i, |slots|, b);
    }
    PushCounts(slots, i, b, done);
    hide FlatSlot, All, GoodBucket;
    forall k | 0 <= k < |slots'| ensures GoodSlot(ops, slots'[k], k, |slots'|) {
      assert GoodSlot(ops, slots[k], k, |slots|);
    }
  }

  lemma {:induction false} PushGood<E(!new)>(ops: Ops<E>, slot: Slot<E>, i: nat, size: nat, b: Bucket<E>)
    requires Lawful(ops) && size > 0 && GoodSlot(ops, slot, i, size) && GoodBucket(ops, b, i, size)
    requires forall k :: 0 <= k < |slot| ==> slot[k].ents != [] && !ops.same(slot[k].ents[0], b.ents[0])
    ensures GoodSlot(ops, [b] + slot, i, size)
  {
    assert b.ents != [];
    hide GoodBucket;
    forall k | 0 <= k < |slot| ensures !ops.same(b.ents[0], slot[k].ents[0]) {
      assert !ops.same(slot[k].ents[0], b.ents[0]);
    }
  }

  lemma {:induction false} PushCounts<E>(slots: seq<Slot<E>>, i: nat, b: Bucket<E>, done: Slot<E>)
    requires i < |slots|
    ensures var slots' := slots[i := [b] + slots[i]];
      && (forall c :: c in All(slots') <==> c in All(slots) || c == b)
      && |All(slots')| == |All(slots)| + 1
      && |Flat(slots')| == |Flat(slots)| + |b.ents|
      && |FlatSlot(done + [b])| == |FlatSlot(done)| + |b.ents|
  {
    var slot := slots[i];
    assert slots[i := slot] == slots;
    AllAt(slots, i, slot);
    AllAt(slots, i, [b] + slot);
    FlatSlotJoin([b], slot);
    FlatOne(b);
    FlatSlotJoin(done, [b]);
    hide FlatSlot, All;
  }

  /** No bucket before bucket `j` of slot `i` is for the same entries. */
  lemma {:induction false} NotSeenYet<E(!new)>(ops: Ops<E>, slots: seq<Slot<E>>, i: nat, j: nat, c: Bucket<E>)
    requires Lawful(ops) && GoodTable(ops, slots) && i < |slots| && j < |slots[i]|
    requires c in All(slots[..i]) + slots[i][..j]
    ensures c.ents != [] && slots[i][j].ents != [] && !ops.same(c.ents[0], slots[i][j].ents[0])
  {
    var b := slots[i][j];
    assert GoodSlot(ops, slots[i], i, |slots|);
    assert GoodBucket(ops, b, i, |slots|);
    if c in slots[i][..j] {
      var k :| 0 <= k < j && slots[i][..j][k] == c;
      assert slots[i][k] == c && GoodBucket(ops, slots[i][k], i, |slots|);
    } else {
      AllIn(slots[..i], c);
      var k :| 0 <= k < i && c in slots[..i][k];
      var l :| 0 <= l < |slots[k]| && slots[k][l] == c;
      assert GoodSlot(ops, slots[k], k, |slots|);
      assert GoodBucket(ops, c, k, |slots|);
    }
  }

  lemma {:induction false} Regood<E(!new)>(ops: Ops<E>, slots: seq<Slot<E>>, i: nat, j: nat, size: nat)
    requires GoodTable(ops, slots) && i < |slots| && j < |slots[i]| && size > 0
    ensures GoodBucket(ops, slots[i][j], slots[i][j].hval % size, size)
  {
    assert GoodSlot(ops, slots[i], i, |slots|);
    assert GoodBucket(ops, slots[i][j], i, |slots|);
  }

  // ----- the order of iteration -----

  /** What comes after `e`. */
  function AfterEnt<E(==)>(s: seq<E>, e: E): seq<E> {
    if s == [] then [] else if s[0] == e then s[1..] else AfterEnt(s[1..], e)
  }

  lemma {:induction false} AfterJoin<E>(a: seq<E>, b: seq<E>, e: E)
    ensures AfterEnt(a + b, e) == if e in a then AfterEnt(a, e) + b else AfterEnt(b, e)
  {
    if a == [] {
      assert a + b == b;
    } else {
      assert (a + b)[0] == a[0] && (a + b)[1..] == a[1..] + b;
      AfterJoin(a[1..], b, e);
      assert e in a <==> a[0] == e || e in a[1..];
    }
  }

  /** Removing something that is not after `e` does not change what is. */
  lemma {:induction false} AfterWithout<E>(s: seq<E>, e: E, r: E)
    requires e != r && r !in AfterEnt(s, e) && e in s
    ensures AfterEnt(Without(s, r), e) == AfterEnt(s, e) && e in Without(s, r)
  {
    if s[0] != e && s[0] != r { AfterWithout(s[1..], e, r); }
    if s[0] == e {
      NotThere(s[1..], r);
    }
  }

  lemma {:induction false} NotThere<E>(s: seq<E>, r: E)
    requires r !in s
    ensures Without(s, r) == s
  {
    if s != [] { NotThere(s[1..], r); }
  }

  /** What is still to come in a slot: from bucket `b` on, after `ent` if there is one. */
  function ToCome<E(==)>(slot: Slot<E>, b: nat, ent: Option<E>): seq<E>
    requires b <= |slot|
  {
    if b == |slot| then []
    else if ent.None? then FlatSlot(slot[b..])
    else AfterEnt(slot[b].ents, ent.value) + FlatSlot(slot[b + 1..])
  }

  /** And in the whole table. */
  function Pending<E(==)>(ops: Ops<E>, slots: seq<Slot<E>>, idx: nat, ent: Option<E>): seq<E>
    requires idx <= |slots|
  {
    if idx == |slots| then []
    else ToCome(slots[idx], if ent.None? then 0 else Find(ops, slots[idx], ent.value), ent) + Flat(slots[idx + 1..])
  }

  /** After an entry of the table, that is all that comes after it in order. */
  lemma {:induction false} PendingIsAfter<E(!new)>(ops: Ops<E>, slots: seq<Slot<E>>, e: E)
    requires Lawful(ops) && GoodTable(ops, slots) && e in Group(ops, slots, e)
    ensures var i := ops.hval(e) % |slots|;
      Pending(ops, slots, i, Some(e)) == AfterEnt(Flat(slots), e) && e in Flat(slots)
  {
    hide Flat, FlatSlot, All, GoodSlot, Lawful, ToCome, AfterEnt, Find;
    var i := ops.hval(e) % |slots|;
    var slot := slots[i];
    assert GoodSlot(ops, slot, i, |slots|);
    ToComeIsAfter(ops, slot, i, |slots|, Find(ops, slot, e), e);
    NotInSlots(ops, slots, i, e, i);
    hide GoodTable;
    AllSplit(slots, i);
    AfterJoin(Flat(slots[..i]) + FlatSlot(slot), Flat(slots[i + 1..]), e);
    AfterJoin(Flat(slots[..i]), FlatSlot(slot), e);
  }

  lemma {:induction false} ToComeIsAfter<E(!new)>(ops: Ops<E>, slot: Slot<E>, i: nat, size: nat, b: nat, e: E)
    requires Lawful(ops) && size > 0 && GoodSlot(ops, slot, i, size)
    requires b < |slot| && ops.same(slot[b].ents[0], e) && e in slot[b].ents
    ensures ToCome(slot, b, Some(e)) == AfterEnt(FlatSlot(slot), e) && e in FlatSlot(slot)
  {
    NotBefore(ops, slot, i, size, b, e, b);
    SplitAt(slot, b);
    var x, y, z := FlatSlot(slot[..b]), slot[b].ents, FlatSlot(slot[b + 1..]);
    hide FlatSlot, GoodSlot;
    AfterJoin(x + y, z, e);
    AfterJoin(x, y, e);
  }

  lemma {:induction false} PendingStart<E>(ops: Ops<E>, slots: seq<Slot<E>>)
    requires |slots| > 0
    ensures Pending(ops, slots, 0, None) == Flat(slots)
  {
    assert slots[0 := slots[0]] == slots && slots[..0] == [];
    AllAt(slots, 0, slots[0]);
    assert [] + FlatSlot(slots[0]) == FlatSlot(slots[0]);
    assert slots[0][0..] == slots[0];
  }

  /** Entries of a good table are in their group. */
  lemma {:induction false} EntryInGroup<E(!new)>(ops: Ops<E>, slots: seq<Slot<E>>, i: nat, b: nat, e: E)
    requires Lawful(ops) && GoodTable(ops, slots) && i < |slots| && b < |slots[i]| && e in slots[i][b].ents
    ensures e in Group(ops, slots, e) && i == ops.hval(e) % |slots| && Find(ops, slots[i], e) == b
  {
    assert GoodSlot(ops, slots[i], i, |slots|);
    assert GoodBucket(ops, slots[i][b], i, |slots|);
    FindUnique(ops, slots[i], i, |slots|, b, e);
  }

  // ----- the identity of buckets -----

  /** No two buckets have the same address, and those from `n` on are not in use. */
  ghost predicate UniqueRefs<E(!new)>(slots: seq<Slot<E>>, n: nat) {
    && (forall b :: b in All(slots) ==> b.ref < n)
    && (forall b, c :: b in All(slots) && c in All(slots) && b.ref == c.ref ==> b == c)
  }

  /** The address of the bucket for entries equal to `e`, if there is one. */
  function RefOf<E>(ops: Ops<E>, slots: seq<Slot<E>>, e: E): nat
    requires |slots| > 0
  {
    var slot := slots[ops.hval(e) % |slots|];
    var j := Find(ops, slot, e);
    if j < |slot| then slot[j].ref else 0
  }

  /** Where in a slot the bucket with an address is. */
  function ByRef<E>(slot: Slot<E>, ref: nat): (j: nat)
    ensures j <= |slot| && (j < |slot| ==> slot[j].ref == ref)
    ensures forall i :: 0 <= i < j ==> slot[i].ref != ref
  {
    if slot == [] || slot[0].ref == ref then 0 else 1 + ByRef(slot[1..], ref)
  }

  lemma {:induction false} AllGood<E(!new)>(ops: Ops<E>, slots: seq<Slot<E>>, b: Bucket<E>) returns (i: nat, j: nat)
    requires GoodTable(ops, slots) && b in All(slots)
    ensures i < |slots| && j < |slots[i]| && slots[i][j] == b && GoodBucket(ops, b, i, |slots|)
  {
    AllIn(slots, b);
    i :| 0 <= i < |slots| && b in slots[i];
    j :| 0 <= j < |slots[i]| && slots[i][j] == b;
    assert GoodSlot(ops, slots[i], i, |slots|);
  }

  /** A class has one bucket. */
  lemma {:induction false} BucketFound<E(!new)>(ops: Ops<E>, slots: seq<Slot<E>>, b: Bucket<E>, x: E)
    requires Lawful(ops) && GoodTable(ops, slots) && b in All(slots) && b.ents != [] && ops.same(b.ents[0], x)
    ensures var slot := slots[ops.hval(x) % |slots|];
      var j := Find(ops, slot, x);
      j < |slot| && slot[j] == b && RefOf(ops, slots, x) == b.ref && Group(ops, slots, x) == b.ents
  {
    var i, j := AllGood(ops, slots, b);
    assert GoodSlot(ops, slots[i], i, |slots|);
    FindUnique(ops, slots[i], i, |slots|, j, x);
  }

  /** A bucket there is for a class. */
  lemma {:induction false} BucketThere<E(!new)>(ops: Ops<E>, slots: seq<Slot<E>>, x: E) returns (b: Bucket<E>)
    requires GoodTable(ops, slots) && Group(ops, slots, x) != []
    ensures b in All(slots) && b.ents != [] && ops.same(b.ents[0], x) && b.ents == Group(ops, slots, x)
    ensures b.ref == RefOf(ops, slots, x)
  {
    var i := ops.hval(x) % |slots|;
    b := slots[i][Find(ops, slots[i], x)];
    AllIn(slots, b);
    assert b in slots[i];
  }

  /** A change of the bucket for `e` alone, which then has address `ref` if it is there. */
  lemma {:induction false} RefsKept<E(!new)>(ops: Ops<E>, slots: seq<Slot<E>>, slots': seq<Slot<E>>, e: E, ref: nat,
                                      n: nat, n': nat)
    requires Lawful(ops) && GoodTable(ops, slots) && GoodTable(ops, slots') && AlikeBut(ops, All(slots), All(slots'), e)
    requires UniqueRefs(slots, n) && n <= n' && ref < n'
    requires Group(ops, slots', e) != [] ==> RefOf(ops, slots', e) == ref
    requires forall c :: c in All(slots) && c.ents != [] && !ops.same(c.ents[0], e) ==> c.ref != ref
    ensures UniqueRefs(slots', n')
    ensures forall x :: !ops.same(e, x) && Group(ops, slots, x) != [] ==> RefOf(ops, slots', x) == RefOf(ops, slots, x)
  {
    hide All, Group, RefOf, GoodSlot;
    forall b | b in All(slots') ensures b.ref < n' { RefOfOne(ops, slots, slots', e, ref, b); }
    forall b, c | b in All(slots') && c in All(slots') && b.ref == c.ref ensures b == c {
      RefOfOne(ops, slots, slots', e, ref, b);
      RefOfOne(ops, slots, slots', e, ref, c);
      if ops.same(b.ents[0], e) {
        BucketFound(ops, slots', b, e);
        BucketFound(ops, slots', c, e);
      }
    }
    forall x | !ops.same(e, x) && Group(ops, slots, x) != [] ensures RefOf(ops, slots', x) == RefOf(ops, slots, x) {
      var b := BucketThere(ops, slots, x);
      assert !ops.same(b.ents[0], e) by { assert ops.same(x, b.ents[0]); }
      BucketFound(ops, slots', b, x);
    }
  }

  lemma {:induction false} RefOfOne<E(!new)>(ops: Ops<E>, slots: seq<Slot<E>>, slots': seq<Slot<E>>, e: E, ref: nat,
                                      b: Bucket<E>)
    requires Lawful(ops) && GoodTable(ops, slots') && AlikeBut(ops, All(slots), All(slots'), e) && b in All(slots')
    requires Group(ops, slots', e) != [] ==> RefOf(ops, slots', e) == ref
    ensures b.ents != []
    ensures if ops.same(b.ents[0], e) then b.ref == ref else b in All(slots)
  {
    hide All, Group, RefOf;
    var i, j := AllGood(ops, slots', b);
    if ops.same(b.ents[0], e) { BucketFound(ops, slots', b, e); }
  }

  /** Adding an entry: a new bucket has a new address, and all others keep theirs. */
  lemma {:induction false} RefsAdded<E(!new)>(ops: Ops<E>, slots: seq<Slot<E>>, e: E, n: nat)
    requires Lawful(ops) && GoodTable(ops, slots) && e !in Group(ops, slots, e) && UniqueRefs(slots, n)
    ensures var i := ops.hval(e) % |slots|;
      var slots' := slots[i := Added(ops, slots[i], e, n)];
      && UniqueRefs(slots', n + 1)
      && forall x :: Group(ops, slots, x) != [] ==> RefOf(ops, slots', x) == RefOf(ops, slots, x)
  {
    hide All, Flat, FlatSlot, Added;
    AddedTable(ops, slots, e, n);
    var i := ops.hval(e) % |slots|;
    var slots' := slots[i := Added(ops, slots[i], e, n)];
    assert GoodSlot(ops, slots[i], i, |slots|);
    AddedSlot(ops, slots[i], i, |slots|, e, n);
    AlikeTable(ops, slots, i, Added(ops, slots[i], e, n), e);
    AddedRef(ops, slots, e, n);
    var ref := if Group(ops, slots, e) == [] then n else RefOf(ops, slots, e);
    if Group(ops, slots, e) != [] { var b := BucketThere(ops, slots, e); }
    OthersDiffer(ops, slots, e, ref, n);
    RefsKept(ops, slots, slots', e, ref, n, n + 1);
    hide Group, RefOf, GoodTable, Lawful, UniqueRefs;
    forall x | Group(ops, slots, x) != [] ensures RefOf(ops, slots', x) == RefOf(ops, slots, x) {
      if ops.same(e, x) {
        RefSame(ops, slots, e, x);
        RefSame(ops, slots', e, x);
        GroupSame(ops, slots, e, x);
      }
    }
  }

  lemma {:induction false} RefSame<E(!new)>(ops: Ops<E>, slots: seq<Slot<E>>, e: E, x: E)
    requires Lawful(ops) && GoodTable(ops, slots) && ops.same(e, x)
    ensures RefOf(ops, slots, e) == RefOf(ops, slots, x)
  {
    var i := ops.hval(e) % |slots|;
    var slot := slots[i];
    assert GoodSlot(ops, slot, i, |slots|);
    var j, k := Find(ops, slot, e), Find(ops, slot, x);
    assert ops.same(x, e);
    if j < |slot| { FindUnique(ops, slot, i, |slots|, j, x); }
    if k < |slot| { FindUnique(ops, slot, i, |slots|, k, e); }
  }

  /** Buckets of other classes have other addresses. */
  lemma {:induction false} OthersDiffer<E(!new)>(ops: Ops<E>, slots: seq<Slot<E>>, e: E, ref: nat, n: nat)
    requires GoodTable(ops, slots) && UniqueRefs(slots, n)
    requires ref == if Group(ops, slots, e) == [] then n else RefOf(ops, slots, e)
    ensures forall c :: c in All(slots) && c.ents != [] && !ops.same(c.ents[0], e) ==> c.ref != ref
  {
    hide All, Group, RefOf;
    if Group(ops, slots, e) != [] { var b := BucketThere(ops, slots, e); }
  }

  lemma {:induction false} AddedRef<E(!new)>(ops: Ops<E>, slots: seq<Slot<E>>, e: E, n: nat)
    requires Lawful(ops) && GoodTable(ops, slots)
    requires var i := ops.hval(e) % |slots|; GoodTable(ops, slots[i := Added(ops, slots[i], e, n)])
    ensures var i := ops.hval(e) % |slots|;
      RefOf(ops, slots[i := Added(ops, slots[i], e, n)], e) ==
        if Group(ops, slots, e) == [] then n else RefOf(ops, slots, e)
  {
    var i := ops.hval(e) % |slots|;
    var slot, slot' := slots[i], Added(ops, slots[i], e, n);
    var j := Find(ops, slot, e);
    assert GoodSlot(ops, slots[i := slot'][i], i, |slots|);
    assert ops.same(e, e);
    GroupEmpty(ops, slots, e);
    if j < |slot| { assert GoodSlot(ops, slot, i, |slots|) && GoodBucket(ops, slot[j], i, |slots|); }
    FindUnique(ops, slot', i, |slots|, if j < |slot| then j else 0, e);
  }

  /** Removing an entry: every bucket that is left has the address it had. */
  lemma {:induction false} RefsRemoved<E(!new)>(ops: Ops<E>, slots: seq<Slot<E>>, e: E, n: nat)
    requires Lawful(ops) && GoodTable(ops, slots) && e in Group(ops, slots, e) && UniqueRefs(slots, n)
    ensures var i := ops.hval(e) % |slots|;
      var j := Find(ops, slots[i], e);
      && j < |slots[i]| && slots[i][j].nentries > 0
      && var slots' := slots[i := Removed(slots[i], j, e)];
      && UniqueRefs(slots', n)
      && forall x :: Group(ops, slots', x) != [] ==> RefOf(ops, slots', x) == RefOf(ops, slots, x)
  {
    hide All, Flat, FlatSlot, Removed;
    RemovedTable(ops, slots, e);
    var i := ops.hval(e) % |slots|;
    var j := Find(ops, slots[i], e);
    var slots' := slots[i := Removed(slots[i], j, e)];
    assert GoodSlot(ops, slots[i], i, |slots|);
    RemovedSlot(ops, slots[i], i, |slots|, j, e);
    AlikeTable(ops, slots, i, Removed(slots[i], j, e), e);
    RemovedRef(ops, slots, i, j, e);
    var ref := RefOf(ops, slots, e);
    var b := BucketThere(ops, slots, e);
    OthersDiffer(ops, slots, e, ref, n);
    RefsKept(ops, slots, slots', e, ref, n, n);
    hide Group, RefOf, GoodTable, Lawful, UniqueRefs;
    forall x | Group(ops, slots', x) != [] ensures RefOf(ops, slots', x) == RefOf(ops, slots, x) {
      if ops.same(e, x) {
        RefSame(ops, slots, e, x);
        RefSame(ops, slots', e, x);
        GroupSame(ops, slots', e, x);
      }
    }
  }

  lemma {:induction false} RemovedRef<E(!new)>(ops: Ops<E>, slots: seq<Slot<E>>, i: nat, j: nat, e: E)
    requires Lawful(ops) && GoodTable(ops, slots) && i == ops.hval(e) % |slots|
    requires j == Find(ops, slots[i], e) < |slots[i]|
    requires e in slots[i][j].ents && slots[i][j].nentries > 0
    requires GoodTable(ops, slots[i := Removed(slots[i], j, e)])
    ensures var slots' := slots[i := Removed(slots[i], j, e)];
      Group(ops, slots', e) != [] ==> RefOf(ops, slots', e) == RefOf(ops, slots, e)
  {
    var slot, slot' := slots[i], Removed(slots[i], j, e);
    assert GoodSlot(ops, slot, i, |slots|) && GoodSlot(ops, slots[i := slot'][i], i, |slots|);
    assert GoodBucket(ops, slot[j], i, |slots|);
    if Without(slot[j].ents, e) == [] {
      AddedDistinct(ops, slot, i, |slots|, j, e);
      NotFound(ops, slot, j, e);
    } else {
      BucketRemoves(ops, slot[j], i, |slots|, e);
      FindUnique(ops, slot', i, |slots|, j, e);
    }
  }

  lemma {:induction false} NotFound<E(!new)>(ops: Ops<E>, slot: Slot<E>, j: nat, e: E)
    requires j < |slot|
    requires forall k :: 0 <= k < |slot| && k != j ==> slot[k].ents != [] && !ops.same(slot[k].ents[0], e)
    ensures Find(ops, slot[..j] + slot[j + 1..], e) == |slot| - 1
  {
    var slot' := slot[..j] + slot[j + 1..];
    forall k | 0 <= k < |slot'| ensures slot'[k].ents != [] && !ops.same(slot'[k].ents[0], e) {
      assert slot'[k] == slot[if k < j then k else k + 1];
    }
  }

  /** The same buckets in other slots have the same addresses. */
  lemma {:induction false} RefsMoved<E(!new)>(ops: Ops<E>, slots: seq<Slot<E>>, slots': seq<Slot<E>>, n: nat)
    requires Lawful(ops) && GoodTable(ops, slots) && GoodTable(ops, slots') && UniqueRefs(slots, n)
    requires forall b :: b in All(slots) <==> b in All(slots')
    ensures UniqueRefs(slots', n)
    ensures forall x :: Group(ops, slots, x) != [] ==> RefOf(ops, slots', x) == RefOf(ops, slots, x)
  {
    hide All, Group, RefOf;
    forall x | Group(ops, slots, x) != [] ensures RefOf(ops, slots', x) == RefOf(ops, slots, x) {
      var b := BucketThere(ops, slots, x);
      BucketFound(ops, slots', b, x);
    }
  }

  /** Following the address of an entry's bucket leads to the bucket. */
  lemma {:induction false} Followed<E(!new)>(ops: Ops<E>, slots: seq<Slot<E>>, e: E, n: nat)
    requires GoodTable(ops, slots) && UniqueRefs(slots, n) && Group(ops, slots, e) != []
    ensures var slot := slots[ops.hval(e) % |slots|];
      var j := ByRef(slot, RefOf(ops, slots, e));
      j < |slot| && j == Find(ops, slot, e) && slot[j].ents == Group(ops, slots, e)
  {
    var i := ops.hval(e) % |slots|;
    var slot := slots[i];
    var j, k := ByRef(slot, RefOf(ops, slots, e)), Find(ops, slot, e);
    assert slot[k].ref == RefOf(ops, slots, e);
    AllIn(slots, slot[k]);
    if j < |slot| { AllIn(slots, slot[j]); }
    assert slot[k] in slots[i] && j <= k;
    assert slot[j] in slots[i];
    assert slot[j] == slot[k];
    assert GoodSlot(ops, slot, i, |slots|);
    assert GoodBucket(ops, slot[j], i, |slots|);
  }

  // ----- the table -----

  class Table<E(==, !new)> {
    const ops: Ops<E>
    var tab: array<Slot<E>>
    var size: nat
    var mask: nat
    var nbuckets: nat
    var nentries: nat
    ghost var bits: nat

    /** The address of the next bucket that is allocated. */
    var nextRef: nat

    /** The counters are exact, and the size is a power of two. */
    ghost predicate Valid()
      reads this, tab
    {
      && Lawful(ops) && tab.Length == size == Pow2(bits) && mask == size - 1
      && GoodTable(ops, tab[..])
      && nbuckets == |All(tab[..])| && nentries == |Flat(tab[..])|
      && UniqueRefs(tab[..], nextRef)
    }

    /** The multimap that the table stands for: the entries equal to `x`. */
    ghost function Entries(x: E): seq<E>
      requires tab.Length > 0
      reads this, tab
    {
      Group(ops, tab[..], x)
    }

    /** The bucket that an entry is in. */
    ghost function BucketOf(x: E): nat
      requires tab.Length > 0
      reads this, tab
    {
      RefOf(ops, tab[..], x)
    }

    /** dt_htab_create. */
    constructor (ops: Ops<E>)
      requires Lawful(ops)
      ensures Valid() && fresh(tab) && nentries == 0
      ensures forall x :: Entries(x) == []
    {
      this.ops := ops;
      tab := new Slot<E>[1](_ => []);
      size, mask, nbuckets, nentries, nextRef := 1, 0, 0, 0, 0;
      bits := 0;
      new;
      HoldsNone(ops, tab[..]);
    }

    /** The walk along a slot that insert, lookup and delete begin with. */
    method Locate(e: E) returns (idx: nat, j: nat)
      requires Valid()
      ensures idx == ops.hval(e) % size < tab.Length && j == Find(ops, tab[idx], e)
    {
      SlotIndex(ops.hval(e), bits);
      idx := Masked(ops.hval(e), mask);
      ghost var slot := tab[idx];
      assert GoodSlot(ops, tab[..][idx], idx, size);
      j := 0;
      while j < |tab[idx]| && !ops.same(tab[idx][j].ents[0], e)
        invariant 0 <= j <= |slot| && (forall k :: 0 <= k < |slot| ==> slot[k].ents != [])
        invariant Find(ops, slot, e) == j + Find(ops, slot[j..], e)
      {
        assert slot[j..][1..] == slot[j + 1..];
        j := j + 1;
      }
      assert j < |slot| ==> slot[j..][0] == slot[j];
    }

    /** dt_htab_lookup: the latest of the entries equal to `e`. */
    method Lookup(e: E) returns (r: Option<E>)
      requires Valid()
      ensures r == if Entries(e) == [] then None else Some(Entries(e)[0])
    {
      var idx, j := Locate(e);
      assert GoodSlot(ops, tab[..][idx], idx, size);
      if j < |tab[idx]| {
        assert GoodBucket(ops, tab[idx][j], idx, size);
        r := Some(tab[idx][j].ents[0]);
      } else {
        r := None;
      }
    }

    /** dt_htab_find: the latest of them that satisfies `want`. */
    method FindEntry(e: E, want: E -> bool) returns (r: Option<E>)
      requires Valid()
      ensures match r
        case None => forall i :: 0 <= i < |Entries(e)| ==> !want(Entries(e)[i])
        case Some(x) => exists i :: 0 <= i < |Entries(e)| && Entries(e)[i] == x && want(x) &&
                                    forall j :: 0 <= j < i ==> !want(Entries(e)[j])
    {
      var idx, j := Locate(e);
      if j == |tab[idx]| { return None; }
      var ents := tab[idx][j].ents;
      assert Entries(e) == ents;
      var i := 0;
      while i < |ents|
        invariant 0 <= i <= |ents| && forall j :: 0 <= j < i ==> !want(ents[j])
      {
        if want(ents[i]) {
          assert Entries(e)[i] == ents[i];
          return Some(ents[i]);
        }
        i := i + 1;
      }
      r := None;
    }

    /** resize: twice the slots, the same entries. */
    method Resize()
      requires Valid()
      modifies this
      ensures Valid() && fresh(tab) && size == 2 * old(size)
      ensures nbuckets == old(nbuckets) && nentries == old(nentries)
      ensures forall x :: Entries(x) == old(Entries(x))
      ensures forall x :: Entries(x) != [] ==> BucketOf(x) == old(BucketOf(x))
    {
      hide Lawful, GoodTable, Holds, All, Flat, Group, Masked, RefOf, UniqueRefs;
      ghost var slots := tab[..];
      var nsize := 2 * size;
      var nmask := nsize - 1;
      ghost var nbits := bits + 1;
      var ntab := new Slot<E>[nsize](_ => []);
      HoldsNone(ops, ntab[..]);
      AllEmpty(slots[..0]);
      var i := 0;
      while i < size
        modifies ntab
        invariant 0 <= i <= size == |slots| && tab[..] == slots && ntab.Length == nsize == Pow2(nbits)
        invariant Holds(ops, ntab[..], All(slots[..i]))
      {
        var j := 0;
        assert slots[i][..0] == [] && All(slots[..i]) + [] == All(slots[..i]);
        while j < |tab[i]|
          modifies ntab
          invariant 0 <= j <= |slots[i]| && tab[..] == slots && ntab.Length == nsize
          invariant Holds(ops, ntab[..], All(slots[..i]) + slots[i][..j])
        {
          var b := tab[i][j];
          SlotIndex(b.hval, nbits);
          var idx := Masked(b.hval, nmask);
          RehashOne(ops, slots, i, j, ntab[..]);
          ntab[idx] := [b] + ntab[idx];
          j := j + 1;
        }
        assert slots[i][..j] == slots[i];
        AllNext(slots, i);
        i := i + 1;
      }
      assert slots[..i] == slots;
      Rehashed(ops, slots, ntab[..], nextRef);
      tab := ntab;
      size, mask, bits := nsize, nmask, nbits;
    }

    /** dt_htab_insert of an entry that is not in the table: search, and as long as
        there is no bucket and the table is crowded, double it and search again. */
    method Insert(e: E)
      requires Valid() && e !in Entries(e)
      modifies this, tab
      ensures Valid() && (tab == old(tab) || fresh(tab))
      ensures nentries == old(nentries) + 1
      ensures nbuckets == old(nbuckets) + if old(Entries(e)) == [] then 1 else 0
      ensures forall x :: Entries(x) == if ops.same(e, x) then [e] + old(Entries(x)) else old(Entries(x))
      ensures forall x :: old(Entries(x)) != [] ==> BucketOf(x) == old(BucketOf(x))
    {
      hide Lawful, GoodTable, Group, Flat, All, Find, Pow2, RefOf, UniqueRefs;
      var idx, j := Locate(e);
      while j == |tab[idx]| && nbuckets / 2 > size
        invariant Valid() && (tab == old(tab) || fresh(tab))
        invariant tab == old(tab) ==> tab[..] == old(tab[..])
        invariant nbuckets == old(nbuckets) && nentries == old(nentries)
        invariant idx == ops.hval(e) % size < tab.Length && j == Find(ops, tab[idx], e)
        invariant forall x :: Entries(x) == old(Entries(x))
        invariant forall x :: Entries(x) != [] ==> BucketOf(x) == old(BucketOf(x))
        decreases nbuckets - size
      {
        Resize();
        idx, j := Locate(e);
      }
      Place(e, idx, j);
    }

    /** The end of dt_htab_insert: into bucket `j`, or into a new one. */
    method Place(e: E, idx: nat, j: nat)
      requires Valid() && e !in Entries(e)
      requires idx == ops.hval(e) % size < tab.Length && j == Find(ops, tab[idx], e)
      modifies this, tab
      ensures Valid() && tab == old(tab) && nentries == old(nentries) + 1
      ensures nbuckets == old(nbuckets) + if old(Entries(e)) == [] then 1 else 0
      ensures forall x :: Entries(x) == if ops.same(e, x) then [e] + old(Entries(x)) else old(Entries(x))
      ensures forall x :: old(Entries(x)) != [] ==> BucketOf(x) == old(BucketOf(x))
    {
      hide Lawful, GoodTable, Group, Flat, All, RefOf, UniqueRefs;
      ghost var slots := tab[..];
      AddedTable(ops, slots, e, nextRef);
      RefsAdded(ops, slots, e, nextRef);
      GroupEmpty(ops, slots, e);
      if j == |tab[idx]| {
        tab[idx] := [Bucket(nextRef, ops.hval(e), [e], 1)] + tab[idx];
        nbuckets := nbuckets + 1;
      } else {
        var b := tab[idx][j];
        tab[idx] := tab[idx][j := b.(ents := [e] + b.ents, nentries := b.nentries + 1)];
      }
      nentries := nentries + 1;
      assert tab[..] == slots[idx := Added(ops, slots[idx], e, nextRef)];
      nextRef := nextRef + 1;
    }

    /** dt_htab_delete of an entry that is in the table or has no equal there: false
        (ENOENT) in the latter case. */
    method Delete(e: E) returns (ok: bool)
      requires Valid() && (e in Entries(e) || Entries(e) == [])
      modifies this, tab
      ensures Valid() && tab == old(tab) && size == old(size)
      ensures ok <==> old(Entries(e)) != []
      ensures !ok ==> tab[..] == old(tab[..])
      ensures ok ==> Flat(tab[..]) == Without(old(Flat(tab[..])), e) && nentries == old(nentries) - 1
      ensures ok ==>
        forall x :: Entries(x) == if ops.same(e, x) then Without(old(Entries(x)), e) else old(Entries(x))
      ensures forall x :: Entries(x) != [] ==> BucketOf(x) == old(BucketOf(x))
    {
      hide Lawful, GoodTable, Flat, All, RefOf, UniqueRefs;
      var idx, j := Locate(e);
      ghost var slots := tab[..];
      GroupEmpty(ops, slots, e);
      if j == |tab[idx]| { return false; }
      RemovedTable(ops, slots, e);
      RefsRemoved(ops, slots, e, nextRef);
      hide Group;
      var b := tab[idx][j];
      var ents := Without(b.ents, e);
      if ents == [] {
        tab[idx] := tab[idx][..j] + tab[idx][j + 1..];
        nbuckets := nbuckets - 1;
      } else {
        tab[idx] := tab[idx][j := b.(ents := ents, nentries := b.nentries - 1)];
      }
      nentries := nentries - 1;
      assert tab[..] == slots[idx := Removed(slots[idx], j, e)];
      ok := true;
    }

    // ----- iteration -----

    /** The iterator is about to return the entries `rest`, in this order. */
    ghost predicate Ahead(it: Cursor<E>, rest: seq<E>)
      requires tab.Length > 0
      reads this, tab, it
    {
      if !it.started then rest == Flat(tab[..])
      else if it.exhausted then rest == []
      else OnEntry(ops, tab[..], it.idx, it.bucket, it.ent, rest)
    }

    /** One step in bucket `b`: its first entry, or the one after `ent`. */
    method StepIn(idx: nat, b: nat, ent: Option<E>) returns (next: Option<E>)
      requires Valid() && idx < size && b < |tab[idx]| && (ent.Some? ==> ent.value in tab[idx][b].ents)
      ensures ToCome(tab[idx], b, ent) ==
        if next.None? then ToCome(tab[idx], b + 1, None) else [next.value] + ToCome(tab[idx], b, next)
      ensures next.Some? ==> next.value in tab[idx][b].ents
    {
      hide Lawful, GoodTable, ToCome;
      var ents := tab[idx][b].ents;
      NonEmpty(ops, tab[..], idx, b);
      if ent.None? {
        next := Some(ents[0]);
        ToComeFirst(tab[idx], b);
      } else {
        var after := AfterEnt(ents, ent.value);
        next := if after == [] then None else Some(after[0]);
        ToComeAfter(ops, tab[..], idx, b, ent.value);
      }
    }

    /** The inner loop of dt_htab_next: from bucket `b` on along the slot. */
    method WalkSlot(it: Cursor<E>, start: nat, ghost p: seq<E>) returns (found: bool)
      requires Valid() && it.idx < size && start <= |tab[it.idx]|
      requires ToCome(tab[it.idx], start, it.ent) + Flat(tab[..][it.idx + 1..]) == p
      requires it.ent.Some? ==> start < |tab[it.idx]| && it.ent.value in tab[it.idx][start].ents
      modifies it
      ensures it.started == old(it.started) && it.exhausted == old(it.exhausted) && it.idx == old(it.idx)
      ensures if found then OnEntry(ops, tab[..], it.idx, it.bucket, it.ent, p)
              else it.ent == None && ToCome(tab[it.idx], |tab[it.idx]|, None) + Flat(tab[..][it.idx + 1..]) == p
    {
      hide Lawful, GoodTable, Flat, ToCome, OnEntry;
      var b := start;
      while b < |tab[it.idx]|
        invariant it.started == old(it.started) && it.exhausted == old(it.exhausted) && it.idx == old(it.idx)
        invariant b <= |tab[it.idx]| && ToCome(tab[it.idx], b, it.ent) + Flat(tab[..][it.idx + 1..]) == p
        invariant it.ent.Some? ==> b < |tab[it.idx]| && it.ent.value in tab[it.idx][b].ents
      {
        it.bucket := tab[it.idx][b].ref;
        it.ent := StepIn(it.idx, b, it.ent);
        if it.ent.Some? {
          StepOnto(ops, tab[..], it.idx, b, it.ent.value, p);
          return true;
        }
        b := b + 1;
      }
      found := false;
    }

    /** One iteration cycle of dt_htab_next: on to the entry after `it.ent`. */
    method Advance(it: Cursor<E>)
      requires Valid() && it.idx < size && !it.exhausted && it.started
      requires it.ent.Some? ==>
        it.idx == ops.hval(it.ent.value) % size && it.ent.value in Entries(it.ent.value) &&
            it.bucket == BucketOf(it.ent.value)
      modifies it
      ensures it.started
      ensures var p := old(Pending(ops, tab[..], it.idx, it.ent));
        if p == [] then it.exhausted else !it.exhausted && OnEntry(ops, tab[..], it.idx, it.bucket, it.ent, p)
    {
      hide Lawful, GoodTable, Flat, Pending, ToCome, OnEntry, Group, Find, Pow2, All, UniqueRefs, RefOf;
      ghost var slots := tab[..];
      ghost var p := Pending(ops, slots, it.idx, it.ent);
      while it.idx < size
        invariant it.idx <= size == |slots| && it.started && !it.exhausted && tab[..] == slots
        invariant Pending(ops, slots, it.idx, it.ent) == p
        invariant it.ent.Some? ==>
          && it.idx < size && it.idx == ops.hval(it.ent.value) % size && it.ent.value in Group(ops, slots, it.ent.value)
          && it.bucket == RefOf(ops, slots, it.ent.value)
      {
        var b := 0;
        if it.ent.Some? {
          Followed(ops, slots, it.ent.value, nextRef);
          b := ByRef(tab[it.idx], it.bucket);
        }
        PendingHere(ops, slots, it.idx, it.ent);
        var found := WalkSlot(it, b, p);
        if found {
          OnEntryMeans(ops, slots, it.idx, it.bucket, it.ent, p);
          return;
        }
        PendingNext(ops, slots, it.idx);
        it.idx := it.idx + 1;
      }
      PendingEnd(ops, slots);
      it.exhausted := true;
    }

    /** dt_htab_next: the next entry, or none when all have been returned. */
    method Next(it: Cursor<E>, ghost rest: seq<E>) returns (r: Option<E>)
      requires Valid() && Ahead(it, rest)
      modifies it
      ensures if rest == [] then r == None && !it.started else r == Some(rest[0]) && it.started && Ahead(it, rest[1..])
    {
      hide Lawful, Flat, Pending, OnEntry, GoodTable;
      if !it.started {
        it.started, it.exhausted, it.idx, it.ent := true, false, 0, None;
        PendingStart(ops, tab[..]);
        Advance(it);
      }
      if it.exhausted {
        it.started := false;
        return None;
      }
      r := it.ent;
      OnEntryMeans(ops, tab[..], it.idx, it.bucket, it.ent, rest);
      Advance(it);
    }
  }

  /** The iterator's state; `ent` is the entry it will return next, and `bucket` the address
      of the bucket that it is in. */
  class Cursor<E(==, !new)> {
    var started: bool
    var exhausted: bool
    var idx: nat
    var bucket: nat
    var ent: Option<E>

    constructor ()
      ensures !started
    {
      started, exhausted, idx, bucket, ent := false, false, 0, 0, None;
    }
  }

  /** At the first of `rest`, with the others after it in the table. */
  ghost predicate OnEntry<E(!new)>(ops: Ops<E>, slots: seq<Slot<E>>, idx: nat, bucket: nat, ent: Option<E>,
                            rest: seq<E>)
    requires |slots| > 0
  {
    && rest != [] && ent == Some(rest[0]) && idx == ops.hval(rest[0]) % |slots|
    && rest[0] in Group(ops, slots, rest[0]) && bucket == RefOf(ops, slots, rest[0])
    && AfterEnt(Flat(slots), rest[0]) == rest[1..]
  }

  lemma {:induction false} OnEntryMeans<E(!new)>(ops: Ops<E>, slots: seq<Slot<E>>, idx: nat, bucket: nat,
                                          ent: Option<E>, rest: seq<E>)
    requires Lawful(ops) && GoodTable(ops, slots) && OnEntry(ops, slots, idx, bucket, ent, rest)
    ensures rest != [] && ent == Some(rest[0]) && idx == ops.hval(rest[0]) % |slots|
    ensures rest[0] in Group(ops, slots, rest[0])
    ensures bucket == RefOf(ops, slots, rest[0])
    ensures idx < |slots| && Pending(ops, slots, idx, ent) == rest[1..]
  {
    hide Flat, Pending;
    PendingIsAfter(ops, slots, rest[0]);
  }

  lemma {:induction false} GroupEmpty<E(!new)>(ops: Ops<E>, slots: seq<Slot<E>>, e: E)
    requires GoodTable(ops, slots)
    ensures var slot := slots[ops.hval(e) % |slots|];
      && (Group(ops, slots, e) == [] <==> Find(ops, slot, e) == |slot|)
      && (Find(ops, slot, e) < |slot| ==> Group(ops, slots, e) == slot[Find(ops, slot, e)].ents)
  {
  }

  lemma {:induction false} NonEmpty<E>(ops: Ops<E>, slots: seq<Slot<E>>, i: nat, b: nat)
    requires GoodTable(ops, slots) && i < |slots| && b < |slots[i]|
    ensures slots[i][b].ents != []
  {
    assert GoodSlot(ops, slots[i], i, |slots|);
    assert GoodBucket(ops, slots[i][b], i, |slots|);
  }

  lemma {:induction false} PendingHere<E>(ops: Ops<E>, slots: seq<Slot<E>>, i: nat, ent: Option<E>)
    requires i < |slots|
    ensures Pending(ops, slots, i, ent) ==
      ToCome(slots[i], if ent.None? then 0 else Find(ops, slots[i], ent.value), ent) + Flat(slots[i + 1..])
  {
  }

  lemma {:induction false} PendingNext<E>(ops: Ops<E>, slots: seq<Slot<E>>, i: nat)
    requires i < |slots|
    ensures ToCome(slots[i], |slots[i]|, None) + Flat(slots[i + 1..]) == Pending(ops, slots, i + 1, None)
  {
    if i + 1 < |slots| {
      AllSplit(slots[i + 1..], 0);
      assert slots[i + 1..][..0] == [] && slots[i + 1..][1..] == slots[i + 2..];
      assert slots[i + 1][0..] == slots[i + 1];
    }
  }

  lemma {:induction false} PendingEnd<E>(ops: Ops<E>, slots: seq<Slot<E>>)
    ensures Pending(ops, slots, |slots|, None) == []
  {
  }

  lemma {:induction false} ToComeFirst<E>(slot: Slot<E>, b: nat)
    requires b < |slot| && slot[b].ents != []
    ensures ToCome(slot, b, None) == [slot[b].ents[0]] + ToCome(slot, b, Some(slot[b].ents[0]))
  {
    var ents := slot[b].ents;
    assert slot[b..][0] == slot[b] && slot[b..][1..] == slot[b + 1..];
    assert AfterEnt(ents, ents[0]) == ents[1..];
    assert ents == [ents[0]] + ents[1..];
    Assoc([ents[0]], ents[1..], FlatSlot(slot[b + 1..]));
  }

  lemma {:induction false} ToComeAfter<E(!new)>(ops: Ops<E>, slots: seq<Slot<E>>, i: nat, b: nat, e: E)
    requires GoodTable(ops, slots) && i < |slots| && b < |slots[i]| && e in slots[i][b].ents
    ensures var slot, next := slots[i], AfterEnt(slots[i][b].ents, e);
      if next == [] then ToCome(slot, b, Some(e)) == ToCome(slot, b + 1, None)
      else next[0] in slot[b].ents && ToCome(slot, b, Some(e)) == [next[0]] + ToCome(slot, b, Some(next[0]))
  {
    var slot := slots[i];
    var ents := slot[b].ents;
    assert GoodSlot(ops, slot, i, |slots|);
    assert GoodBucket(ops, slot[b], i, |slots|);
    var next, rest := AfterEnt(ents, e), FlatSlot(slot[b + 1..]);
    AfterNext(ents, e);
    if next == [] {
      assert [] + rest == rest;
      if b + 1 == |slot| { assert slot[b + 1..] == []; }
    } else {
      assert next == [next[0]] + next[1..];
      Assoc([next[0]], next[1..], rest);
    }
  }

  /** In a sequence without repetition, after the next one comes the rest. */
  lemma {:induction false} AfterNext<E>(s: seq<E>, e: E)
    requires e in s && forall j, k :: 0 <= j < k < |s| ==> s[j] != s[k]
    ensures var a := AfterEnt(s, e);
      a != [] ==> a[0] in s && AfterEnt(s, a[0]) == a[1..]
    ensures forall x :: x in AfterEnt(s, e) ==> x in s
  {
    if s[0] == e {
      if |s| > 1 {
        assert s[1] != s[0];
        assert AfterEnt(s, s[1]) == AfterEnt(s[1..], s[1]);
      }
    } else {
      AfterNext(s[1..], e);
      var a := AfterEnt(s[1..], e);
      if a != [] {
        assert a[0] in s[1..];
        assert a[0] != s[0];
      }
    }
  }

  lemma {:induction false} StepOnto<E(!new)>(ops: Ops<E>, slots: seq<Slot<E>>, i: nat, b: nat, e: E, p: seq<E>)
    requires Lawful(ops) && GoodTable(ops, slots) && i < |slots| && b < |slots[i]| && e in slots[i][b].ents
    requires [e] + ToCome(slots[i], b, Some(e)) + Flat(slots[i + 1..]) == p
    ensures OnEntry(ops, slots, i, slots[i][b].ref, Some(e), p)
  {
    hide Flat, ToCome;
    EntryInGroup(ops, slots, i, b, e);
    PendingIsAfter(ops, slots, e);
    PendingHere(ops, slots, i, Some(e));
    assert p[0] == e && p[1..] == ToCome(slots[i], b, Some(e)) + Flat(slots[i + 1..]);
  }

  /** One bucket of the old table goes to its slot of the new one. */
  lemma {:induction false} RehashOne<E(!new)>(ops: Ops<E>, slots: seq<Slot<E>>, i: nat, j: nat, now: seq<Slot<E>>)
    requires Lawful(ops) && GoodTable(ops, slots) && i < |slots| && j < |slots[i]| && |now| > 0
    requires Holds(ops, now, All(slots[..i]) + slots[i][..j])
    ensures var b := slots[i][j];
      var idx := b.hval % |now|;
      Holds(ops, now[idx := [b] + now[idx]], All(slots[..i]) + slots[i][..j + 1])
  {
    hide Holds, GoodTable, Lawful, All;
    var b := slots[i][j];
    Regood(ops, slots, i, j, |now|);
    forall c | c in All(slots[..i]) + slots[i][..j] ensures c.ents != [] && !ops.same(c.ents[0], b.ents[0]) {
      NotSeenYet(ops, slots, i, j, c);
    }
    HoldsMore(ops, now, All(slots[..i]) + slots[i][..j], b, b.hval % |now|);
    assert All(slots[..i]) + slots[i][..j] + [b] == All(slots[..i]) + slots[i][..j + 1];
  }

  lemma {:induction false} Rehashed<E(!new)>(ops: Ops<E>, slots: seq<Slot<E>>, now: seq<Slot<E>>, n: nat)
    requires Lawful(ops) && GoodTable(ops, slots) && Holds(ops, now, All(slots)) && UniqueRefs(slots, n)
    ensures GoodTable(ops, now) && |All(now)| == |All(slots)| && |Flat(now)| == |Flat(slots)|
    ensures forall x :: Group(ops, now, x) == Group(ops, slots, x)
    ensures UniqueRefs(now, n) && forall x :: Group(ops, slots, x) != [] ==> RefOf(ops, now, x) == RefOf(ops, slots, x)
  {
    RefsMoved(ops, slots, now, n);
    forall x ensures Group(ops, now, x) == Group(ops, slots, x) {
      SameGroups(ops, slots, now, x);
    }
  }

  lemma {:induction false} AllNext<E>(slots: seq<Slot<E>>, i: nat)
    requires i < |slots|
    ensures All(slots[..i + 1]) == All(slots[..i]) + slots[i]
  {
    assert slots[..i + 1] == slots[..i] + [slots[i]];
    AllJoin(slots[..i], [slots[i]]);
    assert [slots[i]][1..] == [];
    assert All([slots[i]]) == slots[i];
  }

  // ----- every entry once -----

  lemma {:induction false} FlatSlotIn<E>(slot: Slot<E>, e: E) returns (b: nat)
    requires e in FlatSlot(slot)
    ensures b < |slot| && e in slot[b].ents
  {
    if e in slot[0].ents {
      b := 0;
    } else {
      b := FlatSlotIn(slot[1..], e);
      b := b + 1;
    }
  }

  lemma {:induction false} FlatIn<E>(slots: seq<Slot<E>>, e: E) returns (i: nat, b: nat)
    requires e in Flat(slots)
    ensures i < |slots| && b < |slots[i]| && e in slots[i][b].ents
  {
    FlatSlotJoin(slots[0], All(slots[1..]));
    if e in FlatSlot(slots[0]) {
      i := 0;
      b := FlatSlotIn(slots[0], e);
    } else {
      i, b := FlatIn(slots[1..], e);
      i := i + 1;
    }
  }

  lemma {:induction false} OnceOnly<E(!new)>(ops: Ops<E>, slots: seq<Slot<E>>, e: E)
    requires Lawful(ops) && GoodTable(ops, slots) && e in Flat(slots)
    ensures e in Group(ops, slots, e) && e !in AfterEnt(Flat(slots), e)
  {
    hide Lawful, GoodTable, Flat, FlatSlot, Group;
    var i, b := FlatIn(slots, e);
    EntryInGroup(ops, slots, i, b, e);
    PendingIsAfter(ops, slots, e);
    var slot := slots[i];
    LastInBucket(ops, slots, i, b, e);
    if e in FlatSlot(slot[b + 1..]) {
      var c := FlatSlotIn(slot[b + 1..], e);
      EntryInGroup(ops, slots, i, b + 1 + c, e);
    }
    if e in Flat(slots[i + 1..]) {
      var k, c := FlatIn(slots[i + 1..], e);
      EntryInGroup(ops, slots, i + 1 + k, c, e);
    }
  }

  lemma {:induction false} LastInBucket<E(!new)>(ops: Ops<E>, slots: seq<Slot<E>>, i: nat, b: nat, e: E)
    requires GoodTable(ops, slots) && i < |slots| && b < |slots[i]| && e in slots[i][b].ents
    ensures e !in AfterEnt(slots[i][b].ents, e)
  {
    assert GoodSlot(ops, slots[i], i, |slots|);
    assert GoodBucket(ops, slots[i][b], i, |slots|);
    var f := FirstAt(slots[i][b].ents, e);
  }

  lemma {:induction false} FirstAt<E>(s: seq<E>, e: E) returns (f: nat)
    requires e in s
    ensures f < |s| && s[f] == e && AfterEnt(s, e) == s[f + 1..] && forall k :: 0 <= k < f ==> s[k] != e
  {
    if s[0] == e {
      f := 0;
    } else {
      f := FirstAt(s[1..], e);
      assert s[1..][f + 1..] == s[f + 2..];
      f := f + 1;
    }
  }

  ghost predicate Unique<E>(s: seq<E>) {
    forall i, j :: 0 <= i < j < |s| ==> s[i] != s[j]
  }

  lemma {:induction false} FlatUnique<E(!new)>(ops: Ops<E>, slots: seq<Slot<E>>)
    requires Lawful(ops) && GoodTable(ops, slots)
    ensures Unique(Flat(slots))
  {
    hide Flat, Lawful, GoodTable;
    var s := Flat(slots);
    forall i, j | 0 <= i < j < |s| ensures s[i] != s[j] {
      OnceOnly(ops, slots, s[i]);
      var f := FirstAt(s, s[i]);
      assert f <= i;
      assert s[f + 1..][j - f - 1] == s[j];
    }
  }

  function Kept<E>(s: seq<E>, keep: E -> bool): seq<E> {
    if s == [] then [] else Kept(s[..|s| - 1], keep) + if keep(s[|s| - 1]) then [s[|s| - 1]] else []
  }

  /** Deleting the entry just returned leaves what is ahead as it is: the bucket that the
      iterator is in is not freed, and still holds the entry that comes next. */
  lemma {:induction false} AheadKept<E(!new)>(ops: Ops<E>, slots: seq<Slot<E>>, slots': seq<Slot<E>>, idx: nat,
                                              bucket: nat, ent: Option<E>, kept: seq<E>, r: E, rest: seq<E>)
    requires Lawful(ops) && GoodTable(ops, slots) && GoodTable(ops, slots') && |slots'| == |slots|
    requires Flat(slots) == kept + ([r] + rest) && Unique(Flat(slots)) && Flat(slots') == Without(Flat(slots), r)
    requires forall x :: Group(ops, slots', x) != [] ==> RefOf(ops, slots', x) == RefOf(ops, slots, x)
    ensures Flat(slots') == kept + rest
    ensures rest != [] && OnEntry(ops, slots, idx, bucket, ent, rest) ==> OnEntry(ops, slots', idx, bucket, ent, rest)
  {
    hide Flat, Lawful, Group, RefOf, GoodSlot;
    var s := Flat(slots);
    assert s[|kept|] == r;
    assert r !in kept by {
      assert forall k :: 0 <= k < |kept| ==> kept[k] == s[k];
    }
    assert r !in rest by {
      assert forall k :: 0 <= k < |rest| ==> rest[k] == s[|kept| + 1 + k];
    }
    WithoutJoin(kept, [r] + rest, r);
    assert ([r] + rest)[1..] == rest;
    if rest != [] && OnEntry(ops, slots, idx, bucket, ent, rest) {
      AfterWithout(s, rest[0], r);
      OnceOnly(ops, slots', rest[0]);
    }
  }

  /** Deleting the entry just returned; the iterator's bucket is still there, and still the
      one that the entry it will return next is in. */
  method Discard<E(==, !new)>(h: Table<E>, it: Cursor<E>, r: E, ghost kept: seq<E>, ghost rest: seq<E>)
    requires h.Valid() && it.started && h.Ahead(it, rest) && Flat(h.tab[..]) == kept + ([r] + rest)
    modifies h, h.tab
    ensures h.Valid() && h.tab == old(h.tab) && h.Ahead(it, rest) && Flat(h.tab[..]) == kept + rest
    ensures !it.exhausted ==>
      it.ent.Some? && it.ent.value in h.Entries(it.ent.value) && it.bucket == h.BucketOf(it.ent.value)
  {
    hide Flat, GoodTable, Lawful, OnEntry, Group, RefOf, UniqueRefs;
    ghost var slots := h.tab[..];
    FlatUnique(h.ops, slots);
    assert (kept + ([r] + rest))[|kept|] == r;
    OnceOnly(h.ops, slots, r);
    if !it.exhausted { OnEntryMeans(h.ops, slots, it.idx, it.bucket, it.ent, rest); }
    var ok := h.Delete(r);
    forall x | Group(h.ops, h.tab[..], x) != [] ensures RefOf(h.ops, h.tab[..], x) == RefOf(h.ops, slots, x) {
      assert h.Entries(x) != [] && h.BucketOf(x) == old(h.BucketOf(x));
    }
    AheadKept(h.ops, slots, h.tab[..], it.idx, it.bucket, it.ent, kept, r, rest);
    if !it.exhausted { OnEntryMeans(h.ops, h.tab[..], it.idx, it.bucket, it.ent, rest); }
  }

  /** A client's loop: every entry is returned exactly once, in order, although entries
      are deleted on the way as soon as they have been returned. */
  method Sweep<E(==, !new)>(h: Table<E>, keep: E -> bool) returns (seen: seq<E>)
    requires h.Valid()
    modifies h, h.tab
    ensures h.Valid() && h.tab == old(h.tab)
    ensures seen == old(Flat(h.tab[..]))
    ensures Flat(h.tab[..]) == Kept(seen, keep)
  {
    hide Flat, GoodTable, Lawful, OnEntry, Table.Valid, Table.Ahead, Kept;
    ghost var all := Flat(h.tab[..]);
    var it := new Cursor<E>();
    ghost var rest := all;
    seen := [];
    SweepStart(h, it, keep);
    while true
      invariant h.Valid() && h.tab == old(h.tab) && h.tab.Length > 0
      invariant seen + rest == all && h.Ahead(it, rest)
      invariant Flat(h.tab[..]) == Kept(seen, keep) + rest
      decreases |rest|
    {
      var r := h.Next(it, rest);
      if r.None? { break; }
      KeptMore(seen, keep, r.value, rest);
      if !keep(r.value) {
        Discard(h, it, r.value, Kept(seen, keep), rest[1..]);
      }
      seen := seen + [r.value];
      rest := rest[1..];
    }
    assert rest == [] && seen + [] == seen && Kept(seen, keep) + [] == Kept(seen, keep);
  }

  lemma {:induction false} SweepStart<E(!new)>(h: Table<E>, it: Cursor<E>, keep: E -> bool)
    requires h.Valid() && !it.started
    ensures h.tab.Length > 0
    ensures var all := Flat(h.tab[..]);
      h.Ahead(it, all) && [] + all == all && Kept([], keep) + all == all
  {
  }

  lemma {:induction false} KeptMore<E>(seen: seq<E>, keep: E -> bool, r: E, rest: seq<E>)
    requires rest != [] && rest[0] == r
    ensures Kept(seen, keep) + rest == Kept(seen, keep) + ([r] + rest[1..])
    ensures seen + rest == seen + [r] + rest[1..]
    ensures Kept(seen + [r], keep) + rest[1..] == if keep(r) then Kept(seen, keep) + rest
        else Kept(seen, keep) + rest[1..]
  {
    var s := seen + [r];
    assert s[..|s| - 1] == seen;
    assert rest == [r] + rest[1..];
  }
}
