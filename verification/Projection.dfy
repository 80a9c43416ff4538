// What the projection of a struct on its own table keeps.
module Projection {
  import opened Varint
  import opened Descriptor
  import opened EncodeSpec
  import opened Bits
  import opened DecodeSpec
  import opened WellFormed
  import opened RoundTrip

  ghost predicate CanonicalValue(f: Field, v: Value)
    decreases f, 0
  {
    f.ltype.SUBMESSAGE? ==> v.VMsg? && Canonical(f.ltype.fields, v.m)
  }

  ghost predicate CanonicalSlot(d: seq<Field>, i: nat, slot: Slot)
    requires i < |d|
    decreases d, 0
  {
    match slot
    case Single(v) => CanonicalValue(d[i], v)
    case Opt(has, v) => if has then CanonicalValue(d[i], v) else v == DefaultValue(d[i])
    case Arr(items) => forall v :: v in items ==> CanonicalValue(d[i], v)
    case UnionNone => true
    case Union(which, v) => which == d[i].tag ==> CanonicalValue(d[i], v)
  }

  // Every absent optional member, at every depth, holds its default.
  ghost predicate Canonical(d: seq<Field>, m: Struct)
    decreases d, 1
  {
    forall i :: 0 <= i < |d| ==> d[i].member in m && CanonicalSlot(d, i, m[d[i].member])
  }

  // ------------------------------------------------------------ fixed points

  lemma {:induction false} ValueKept(f: Field, v: Value)
    requires WellFormedField(f) && SafeValue(f, v)
    ensures ProjectValue(f, v) == v <==> CanonicalValue(f, v)
    decreases f, 0
  {
    if f.ltype.SUBMESSAGE? {
      StructKept(f.ltype.fields, v.m);
    }
  }

  lemma {:induction false} ItemsKept(f: Field, items: seq<Value>)
    requires WellFormedField(f) && forall v :: v in items ==> SafeValue(f, v)
    ensures ProjectItems(f, items) == items <==> forall v :: v in items ==> CanonicalValue(f, v)
    decreases f, 1
  {
    forall k | 0 <= k < |items|
      ensures ProjectItems(f, items)[k] == items[k] <==> CanonicalValue(f, items[k])
    {
      ValueKept(f, items[k]);
    }
    if ProjectItems(f, items) == items {
      forall v | v in items
        ensures CanonicalValue(f, v)
      {
        var k :| 0 <= k < |items| && items[k] == v;
        assert ProjectItems(f, items)[k] == items[k];
      }
    }
    if forall v :: v in items ==> CanonicalValue(f, v) {
      assert forall k :: 0 <= k < |items| ==> ProjectItems(f, items)[k] == items[k];
    }
  }

  lemma {:induction false} SlotKept(d: seq<Field>, i: nat, slot: Slot)
    requires WellFormedTable(d) && i < |d| && SafeSlot(d, i, slot)
    requires slot.Union? ==> slot.which == d[i].tag
    ensures ProjectSlot(d, i, slot) == slot <==> CanonicalSlot(d, i, slot)
    decreases d, 0, 0
  {
    match slot
    case Single(v) => ValueKept(d[i], v);
    case Opt(_, v) => ValueKept(d[i], v);
    case Arr(items) => ItemsKept(d[i], items);
    case UnionNone =>
    case Union(_, v) =>
      FindTagUnique(d, i);
      ChosenSafe(d, i, slot);
      ValueKept(d[i], v);
  }

  lemma ChosenSafe(d: seq<Field>, i: nat, slot: Slot)
    requires WellFormedTable(d) && i < |d| && SafeSlot(d, i, slot)
    requires slot.Union? && slot.which == d[i].tag
    ensures SafeValue(d[i], slot.payload)
  {
    var j :| 0 <= j < |d| && d[j].tag == slot.which && d[j].member == d[i].member && SafeValue(d[j], slot.payload);
    assert i == j;
  }

  // The entry that decides what the slot of a member holds.
  lemma Decider(d: seq<Field>, m: Struct, k: string) returns (i: nat)
    requires Safe(d, m) && k in Members(d)
    ensures i < |d| && d[i].member == k
    ensures m[k].Union? ==> m[k].which == d[i].tag
  {
    i := IndexOf(d, k);
    assert SafeSlot(d, i, m[d[i].member]);
    if m[k].Union? {
      i :| 0 <= i < |d| && d[i].tag == m[k].which && d[i].member == k;
    }
  }

  lemma SafeUnion(d: seq<Field>, m: Struct, i: nat)
    requires Safe(d, m) && i < |d| && d[i].htype.ONEOF?
    ensures m[d[i].member].UnionNone? || m[d[i].member].Union?
  {
    assert SafeSlot(d, i, m[d[i].member]);
  }

  // The projection keeps a struct exactly if it is canonical.
  lemma {:induction false} StructKept(d: seq<Field>, m: Struct)
    requires WellFormedTable(d) && Safe(d, m)
    ensures Project(d, m) == m <==> Canonical(d, m)
    decreases d, 1
  {
    if Canonical(d, m) {
      forall k | k in Members(d)
        ensures Project(d, m)[k] == m[k]
      {
        var i := Decider(d, m, k);
        MemberKept(d, m, i);
      }
    }
    if Project(d, m) == m {
      forall i | 0 <= i < |d|
        ensures CanonicalSlot(d, i, m[d[i].member])
      {
        var slot := m[d[i].member];
        if slot.Union? ==> slot.which == d[i].tag {
          MemberKept(d, m, i);
        }
      }
    }
  }

  lemma {:induction false} MemberKept(d: seq<Field>, m: Struct, i: nat)
    requires WellFormedTable(d) && Safe(d, m) && i < |d|
    requires m[d[i].member].Union? ==> m[d[i].member].which == d[i].tag
    ensures d[i].member in Project(d, m)
    ensures Project(d, m)[d[i].member] == m[d[i].member] <==> CanonicalSlot(d, i, m[d[i].member])
    decreases d, 0, 1
  {
    assert SafeSlot(d, i, m[d[i].member]);
    if d[i].htype.ONEOF? {
      SafeUnion(d, m, i);
    }
    ProjectAt(d, m, i);
    SlotKept(d, i, m[d[i].member]);
  }

  // So canonical structs, and only they, come back from a round trip unchanged.
  lemma ExactRoundTrip(d: seq<Field>, m: Struct)
    requires WellFormedTable(d) && Safe(d, m) && Complete(d, m)
    ensures Encode(d, m).Some?
    ensures |Encode(d, m).value| < TWO_TO_32 ==>
        (Decode(d, Encode(d, m).value) == Ok(m, []) <==> Canonical(d, m))
  {
    MessageRoundTrip(d, m);
    StructKept(d, m);
  }

  // ------------------------------------------------------------- idempotence

  lemma {:induction false} ValueTwice(f: Field, v: Value)
    requires WellFormedField(f)
    ensures ProjectValue(f, ProjectValue(f, v)) == ProjectValue(f, v)
    decreases f, 0
  {
    if f.ltype.SUBMESSAGE? && v.VMsg? {
      ProjectTwice(f.ltype.fields, v.m);
    }
  }

  lemma {:induction false} ItemsTwice(f: Field, items: seq<Value>)
    requires WellFormedField(f)
    ensures ProjectItems(f, ProjectItems(f, items)) == ProjectItems(f, items)
    decreases f, 1
  {
    forall k | 0 <= k < |items|
      ensures ProjectItems(f, ProjectItems(f, items))[k] == ProjectItems(f, items)[k]
    {
      ValueTwice(f, items[k]);
    }
  }

  lemma {:induction false} SlotTwice(d: seq<Field>, i: nat, slot: Slot)
    requires WellFormedTable(d) && i < |d|
    ensures ProjectSlot(d, i, ProjectSlot(d, i, slot)) == ProjectSlot(d, i, slot)
    decreases d, 0
  {
    match slot
    case Single(v) => ValueTwice(d[i], v);
    case Opt(_, v) => ValueTwice(d[i], v);
    case Arr(items) => ItemsTwice(d[i], items);
    case UnionNone =>
    case Union(which, v) =>
      var j := FindTag(d, which);
      if j.Some? {
        ValueTwice(d[j.value], v);
      }
  }

  lemma {:induction false} ProjectTwice(d: seq<Field>, m: Struct)
    requires WellFormedTable(d)
    ensures Project(d, Project(d, m)) == Project(d, m)
    decreases d, 1
  {
    forall k | k in Members(d) && k in m
      ensures Project(d, Project(d, m))[k] == Project(d, m)[k]
    {
      SlotTwice(d, IndexOf(d, k), m[k]);
    }
  }
}
