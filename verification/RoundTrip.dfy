// Decoding what pb_encode wrote, with the same table or with one that knows only
// some of the fields.
module RoundTrip {
  import opened Wrappers
  import opened Bits
  import opened Varint
  import opened Descriptor
  import opened EncodeSpec
  import opened DecodeSpec
  import opened WellFormed
  import opened ValueRoundTrip
  import opened Records

  // ------------------------------------------------------------- table lookup

  // The projection of a member, seen from any of its entries.
  lemma ProjectAt(d: seq<Field>, m: Struct, i: nat)
    requires WellFormedTable(d) && i < |d| && d[i].member in m
    requires d[i].htype.ONEOF? ==> m[d[i].member].UnionNone? || m[d[i].member].Union?
    ensures d[i].member in Project(d, m)
    ensures Project(d, m)[d[i].member] == ProjectSlot(d, i, m[d[i].member])
  {
    MemberEntry(d, i);
  }

  // The entry of d that a given entry of the narrower table d' stands for.
  lemma Counterpart(d': seq<Field>, d: seq<Field>, i': nat) returns (i: nat)
    requires Narrower(d', d) && i' < |d'|
    ensures i < |d| && NarrowerField(d'[i'], d[i])
  {
    assert HasCounterpart(d'[i'], d);
    i :| 0 <= i < |d| && NarrowerField(d'[i'], d[i]);
  }

  // With unique tags, entries with the same tag correspond.
  lemma SameTag(d': seq<Field>, d: seq<Field>, i': nat, i: nat)
    requires Narrower(d', d) && WellFormedTable(d)
    requires i' < |d'| && i < |d| && d'[i'].tag == d[i].tag
    ensures NarrowerField(d'[i'], d[i])
  {
    var j := Counterpart(d', d, i');
  }

  // ------------------------------------------------- absent fields are default

  // A field that pb_check_proto3_default_value finds default looks like the
  // initial contents of its slot.
  lemma {:induction false} DefaultSlotProjection(d': seq<Field>, d: seq<Field>, i': nat, i: nat, slot: Slot)
    requires WellFormedTable(d') && WellFormedTable(d)
    requires i' < |d'| && i < |d| && NarrowerField(d'[i'], d[i])
    requires SafeSlot(d, i, slot) && IsDefault(d[i], slot)
    ensures ProjectSlot(d', i', slot) == DefaultSlot(d'[i'])
    decreases d', 0
  {
    match slot
    case Single(v) => ZeroProjection(d'[i'], d[i], v);
    case Arr(items) => assert ProjectSlot(d', i', slot).items == [];
    case _ =>
  }

  lemma {:induction false} ZeroProjection(f': Field, f: Field, v: Value)
    requires WellFormedField(f') && WellFormedField(f) && NarrowerField(f', f) && Singular(f)
    requires SafeValue(f, v) && IsZero(f, v)
    ensures ProjectValue(f', v) == DefaultValue(f')
    decreases f'
  {
    match f'.ltype
    case SUBMESSAGE(fields) => DefaultProjection(fields, f.ltype.fields, v.m);
    case FIXED_LENGTH_BYTES => assert v.data == Zeros(0);
    case _ =>
  }

  // A proto3 submessage that is not encoded looks like its defaults.
  lemma {:induction false} DefaultProjection(d': seq<Field>, d: seq<Field>, m: Struct)
    requires WellFormedTable(d') && WellFormedTable(d) && Narrower(d', d) && Safe(d, m)
    requires forall i :: 0 <= i < |d| ==> IsDefault(d[i], m[d[i].member])
    ensures Project(d', m) == Defaults(d')
    decreases d', 2
  {
    forall k | k in Members(d')
      ensures k in m && Project(d', m)[k] == Defaults(d')[k]
    {
      DefaultMember(d', d, m, IndexOf(d', k));
    }
  }

  lemma {:induction false} DefaultMember(d': seq<Field>, d: seq<Field>, m: Struct, i': nat)
    requires WellFormedTable(d') && WellFormedTable(d) && Narrower(d', d) && Safe(d, m)
    requires forall i :: 0 <= i < |d| ==> IsDefault(d[i], m[d[i].member])
    requires i' < |d'|
    ensures var k := d'[i'].member; k in m && k in Members(d') && Project(d', m)[k] == Defaults(d')[k]
    decreases d', 1
  {
    var i := Counterpart(d', d, i');
    assert SafeSlot(d, i, m[d[i].member]);
    DefaultSlotProjection(d', d, i', i, m[d[i].member]);
    ProjectAt(d', m, i');
    DefaultsAt(d', i');
  }

  // ------------------------------------------------------ one field at a time

  // The loop state after entries of the array d[i] have been received.
  ghost function Received(d: seq<Field>, st: LoopState, i: nat, items: seq<Value>): LoopState
    requires i < |d|
  {
    var st' := st.(m := st.m[d[i].member := Arr(items)]);
    if FixedCount(d[i]) then st'.(fixedField := Some(i), fixedCount := |items|) else st'
  }

  // The array d[i] has received these entries, or none yet.
  ghost predicate Receiving(d: seq<Field>, st: LoopState, i: nat, items: seq<Value>)
    requires i < |d|
  {
    && d[i].htype.REPEATED? && d[i].member in st.m && st.m[d[i].member] == Arr(items)
    && (FixedCount(d[i]) ==>
         if st.fixedField == Some(i) then st.fixedCount == |items| else items == [] && FixedComplete(d, st))
  }

  // The loop state after a field that is not an array.
  ghost function Merged(d: seq<Field>, st: LoopState, i: nat, slot: Slot): LoopState
    requires i < |d|
  {
    st.(m := st.m[d[i].member := slot], seen := if d[i].htype.REQUIRED? then st.seen + {i} else st.seen)
  }

  lemma {:induction false} ValueDecodes(f': Field, f: Field, current: Value, v: Value, rest: seq<byte>)
    requires WellFormedField(f') && WellFormedField(f) && NarrowerField(f', f)
    requires SafeValue(f, v) && CompleteValue(f, v)
    requires f'.htype.REPEATED? || current == DefaultValue(f')
    requires EncodeValue(f, v).Some? && |EncodeValue(f, v).value| < TWO_TO_32
    ensures DecodeValue(f', current, EncodeValue(f, v).value + rest) == Ok(ProjectValue(f', v), rest)
    decreases f', 0
  {
    if f'.ltype.SUBMESSAGE? {
      var body := Encode(f.ltype.fields, v.m).value;
      SkipDelimited(body, rest);
      MessageDecodes(f'.ltype.fields, f.ltype.fields, v.m);
    } else {
      ScalarRoundTrip(f, v, rest);
    }
  }

  // The slot of a field that is not an array once a value has arrived.
  function Filled(f: Field, v: Value): Slot {
    if HasFlag(f) then Opt(true, v) else if f.htype.ONEOF? then Union(f.tag, v) else Single(v)
  }

  lemma SingleStep(d: seq<Field>, st: LoopState, i: nat, wireType: nat, payload: seq<byte>, v: Value, rest: seq<byte>)
    requires i < |d| && !d[i].htype.REPEATED?
    requires d[i].member in st.m && st.m[d[i].member] == DefaultSlot(d[i])
    requires DecodeValue(d[i], DefaultValue(d[i]), payload) == Ok(v, rest)
    ensures DecodeField(d, st, i, wireType, payload) == Next(Merged(d, st, i, Filled(d[i], v)), rest)
  {
    assert DecodeSingle(d[i], st.m[d[i].member], payload) == Ok(Filled(d[i], v), rest);
  }

  // The entry of a field in the decoder's table, and the only one with its tag.
  ghost predicate KnownAs(d': seq<Field>, i': nat, f: Field)
    requires i' < |d'|
  {
    && WellFormedField(f) && WellFormedField(d'[i']) && NarrowerField(d'[i'], f)
    && FindTag(d', f.tag) == Some(i')
  }

  // A record of the field d'[i'] that is not an array.
  lemma {:induction false} SingleDecodes(d': seq<Field>, f: Field, i': nat, st: LoopState, v: Value, tail: seq<byte>)
    requires i' < |d'| && KnownAs(d', i', f)
    requires !f.htype.REPEATED? && SafeValue(f, v) && CompleteValue(f, v)
    requires d'[i'].member in st.m && st.m[d'[i'].member] == DefaultSlot(d'[i'])
    requires EncodeValue(f, v).Some? && |EncodeValue(f, v).value| < TWO_TO_32
    ensures
      DecodeLoop(d', st, TagFor(f) + EncodeValue(f, v).value + tail)
      == DecodeLoop(d', Merged(d', st, i', Filled(d'[i'], ProjectValue(d'[i'], v))), tail)
    decreases d', 0
  {
    var f' := d'[i'];
    var payload := EncodeValue(f, v).value + tail;
    ValueDecodes(f', f, DefaultValue(f'), v, tail);
    SingleStep(d', st, i', WireType(f.ltype), payload, ProjectValue(f', v), tail);
    var st' := Merged(d', st, i', Filled(f', ProjectValue(f', v)));
    KnownStep(d', st, i', WireType(f.ltype), EncodeValue(f, v).value, st', tail);
  }

  lemma PackedFieldStep(d: seq<Field>, st: LoopState, i: nat, payload: seq<byte>, body: seq<byte>,
                        items: seq<Value>, rest: seq<byte>)
    requires i < |d| && Packable(d[i].ltype)
    requires Receiving(d, st, i, []) && st.fixedField != Some(i)
    requires ReadDelimited(payload) == Ok(body, rest)
    requires DecodePacked(d[i], ArrayState([], 0), body) == Some(ArrayState(items, |items|))
    ensures DecodeField(d, st, i, WT_STRING, payload) == Next(Received(d, st, i, items), rest)
  {
    assert DecodeEntry(d[i], ArrayState([], 0), WT_STRING, payload) == Ok(ArrayState(items, |items|), rest);
  }

  // A packed array is one record.
  lemma PackedDecodes(d': seq<Field>, f: Field, i': nat, st: LoopState, items: seq<Value>, tail: seq<byte>)
    requires i' < |d'| && KnownAs(d', i', f)
    requires Packable(f.ltype) && forall v :: v in items ==> SafeScalar(f, v)
    requires Receiving(d', st, i', []) && st.fixedField != Some(i') && |items| <= f.arraySize
    requires PackedItems(f, items).Some? && |PackedItems(f, items).value| < TWO_TO_32
    ensures
      var body := Delimited(PackedItems(f, items).value);
      DecodeLoop(d', st, EncodeTag(WT_STRING, f.tag) + body + tail)
      == DecodeLoop(d', Received(d', st, i', ProjectItems(d'[i'], items)), tail)
  {
    var f' := d'[i'];
    var body := PackedItems(f, items).value;
    var payload := Delimited(body) + tail;
    SkipDelimited(body, tail);
    var bytes := PackedRoundTrip(f', f, ArrayState([], 0), items, items);
    assert [] + items == items == ProjectItems(f', items);
    PackedFieldStep(d', st, i', payload, body, items, tail);
    KnownStep(d', st, i', WT_STRING, Delimited(body), Received(d', st, i', items), tail);
  }

  lemma EntryStep(d: seq<Field>, st: LoopState, i: nat, known: seq<Value>, wireType: nat,
                  payload: seq<byte>, v: Value, rest: seq<byte>)
    requires i < |d| && !Packable(d[i].ltype)
    requires Receiving(d, st, i, known) && |known| < d[i].arraySize
    requires DecodeValue(d[i], ZeroValue(d[i]), payload) == Ok(v, rest)
    ensures DecodeField(d, st, i, wireType, payload) == Next(Received(d, st, i, known + [v]), rest)
  {
    assert DecodeEntry(d[i], ArrayState(known, |known|), wireType, payload)
        == Ok(ArrayState(known + [v], |known| + 1), rest);
  }

  // One record of an unpacked array.
  lemma {:induction false} EntryDecodes(d': seq<Field>, f: Field, i': nat, st: LoopState, known: seq<Value>,
                                        v: Value, tail: seq<byte>)
    requires i' < |d'| && KnownAs(d', i', f)
    requires !Packable(f.ltype) && SafeValue(f, v) && CompleteValue(f, v)
    requires Receiving(d', st, i', known) && |known| < f.arraySize
    requires EncodeValue(f, v).Some? && |EncodeValue(f, v).value| < TWO_TO_32
    ensures
      DecodeLoop(d', st, TagFor(f) + EncodeValue(f, v).value + tail)
      == DecodeLoop(d', Received(d', st, i', known + [ProjectValue(d'[i'], v)]), tail)
    decreases d', 0
  {
    var f' := d'[i'];
    var payload := EncodeValue(f, v).value + tail;
    ValueDecodes(f', f, ZeroValue(f'), v, tail);
    EntryStep(d', st, i', known, WireType(f.ltype), payload, ProjectValue(f', v), tail);
    var st' := Received(d', st, i', known + [ProjectValue(f', v)]);
    KnownStep(d', st, i', WireType(f.ltype), EncodeValue(f, v).value, st', tail);
  }

  lemma ReceivedAgain(d: seq<Field>, st: LoopState, i: nat, items: seq<Value>, more: seq<Value>)
    requires i < |d| && d[i].htype.REPEATED?
    ensures Receiving(d, Received(d, st, i, items), i, items)
    ensures Received(d, Received(d, st, i, items), i, more) == Received(d, st, i, more)
  {
    assert st.m[d[i].member := Arr(items)][d[i].member := Arr(more)] == st.m[d[i].member := Arr(more)];
  }

  // All records of an unpacked array.
  lemma {:induction false} ItemsDecode(d': seq<Field>, f: Field, i': nat, st: LoopState, known: seq<Value>,
                                       items: seq<Value>, tail: seq<byte>)
    requires i' < |d'| && KnownAs(d', i', f)
    requires !Packable(f.ltype) && forall v :: v in items ==> SafeValue(f, v) && CompleteValue(f, v)
    requires Receiving(d', st, i', known) && |known| + |items| <= f.arraySize
    requires items != [] || st == Received(d', st, i', known)
    requires UnpackedItems(f, items).Some? && |UnpackedItems(f, items).value| < TWO_TO_32
    ensures
      DecodeLoop(d', st, UnpackedItems(f, items).value + tail)
      == DecodeLoop(d', Received(d', st, i', known + ProjectItems(d'[i'], items)), tail)
    decreases d', 1, |items|
  {
    var f' := d'[i'];
    if items == [] {
      assert UnpackedItems(f, items).value + tail == tail;
      assert known + ProjectItems(f', items) == known;
    } else {
      var first := TagFor(f) + EncodeValue(f, items[0]).value;
      var others := UnpackedItems(f, items[1..]).value;
      assert UnpackedItems(f, items).value + tail == first + (others + tail);
      EntryDecodes(d', f, i', st, known, items[0], others + tail);
      var known' := known + [ProjectValue(f', items[0])];
      var all := known + ProjectItems(f', items);
      ReceivedAgain(d', st, i', known', known');
      ReceivedAgain(d', st, i', known', all);
      assert known' + ProjectItems(f', items[1..]) == all;
      ItemsDecode(d', f, i', Received(d', st, i', known'), known', items[1..], tail);
    }
  }

  // Whether encode_basic_field writes anything.
  ghost predicate Written(f: Field, slot: Slot) {
    match slot
    case Single(v) => f.htype.REQUIRED? || !IsZero(f, v)
    case Opt(has, _) => has
    case Arr(items) => items != []
    case UnionNone => false
    case Union(which, _) => which == f.tag
  }

  // The loop state after everything written for a known field.
  ghost function AfterField(d': seq<Field>, i': nat, f: Field, slot: Slot, st: LoopState): LoopState
    requires i' < |d'|
  {
    if !Written(f, slot) then st
    else if slot.Arr? then Received(d', st, i', ProjectItems(d'[i'], slot.items))
    else Merged(d', st, i', ProjectSlot(d', i', slot))
  }

  // All that is written for one known field, read into an untouched slot.
  lemma {:induction false} FieldDecodes(d': seq<Field>, i': nat, d: seq<Field>, i: nat, slot: Slot,
                                        st: LoopState, tail: seq<byte>)
    requires i' < |d'| && i < |d| && KnownAs(d', i', d[i])
    requires SafeSlot(d, i, slot) && CompleteSlot(d, i, slot)
    requires !slot.Union? || slot.which != d[i].tag || SafeValue(d[i], slot.payload)
    requires d'[i'].member in st.m && (Written(d[i], slot) ==> st.m[d'[i'].member] == DefaultSlot(d'[i']))
    requires FixedComplete(d', st) && st.fixedField != Some(i')
    requires EncodeField(d[i], slot).Some? && |EncodeField(d[i], slot).value| < TWO_TO_32
    ensures DecodeLoop(d', st, EncodeField(d[i], slot).value + tail)
         == DecodeLoop(d', AfterField(d', i', d[i], slot, st), tail)
    decreases d', 2
  {
    var f := d[i];
    if !Written(f, slot) {
      assert EncodeField(f, slot).value + tail == tail;
    } else {
      match slot
      case Single(v) => SingleDecodes(d', f, i', st, v, tail);
      case Opt(_, v) => SingleDecodes(d', f, i', st, v, tail);
      case Union(_, v) => SingleDecodes(d', f, i', st, v, tail);
      case Arr(items) =>
        if Packable(f.ltype) {
          PackedDecodes(d', f, i', st, items, tail);
        } else {
          ItemsDecode(d', f, i', st, [], items, tail);
          assert [] + ProjectItems(d'[i'], items) == ProjectItems(d'[i'], items);
        }
    }
  }

  // --------------------------------------------------------- whole structs

  // which_ of the union k selects the field with this tag.
  predicate Chosen(m: Struct, k: string, tag: nat) {
    k in m && m[k].Union? && m[k].which == tag
  }

  // The contents of member k have been decided by the first i fields of d.
  ghost predicate Settled(d: seq<Field>, m: Struct, k: string, i: nat)
    requires i <= |d|
  {
    exists j :: 0 <= j < i && d[j].member == k && (d[j].htype.ONEOF? ==> Chosen(m, k, d[j].tag))
  }

  // The loop state between the fields of d: settled members hold their final
  // contents and the others still their defaults, required fields are marked as
  // seen, and the last fixed count array is complete.
  ghost predicate Between(d': seq<Field>, d: seq<Field>, m: Struct, i: nat, st: LoopState)
    requires i <= |d|
  {
    && st.m.Keys == Members(d') == Project(d', m).Keys
    && (forall k :: k in Members(d') ==>
         st.m[k] == if Settled(d, m, k, i) then Project(d', m)[k] else Defaults(d')[k])
    && (forall j, j' :: 0 <= j < i && 0 <= j' < |d'| && d[j].tag == d'[j'].tag && d[j].htype.REQUIRED? ==>
         j' in st.seen)
    && FixedComplete(d', st)
    && (st.fixedField.Some? ==> exists j :: 0 <= j < i && d[j].tag == d'[st.fixedField.value].tag)
  }

  // Both tables and the struct, as every lemma below needs them.
  ghost predicate Setting(d': seq<Field>, d: seq<Field>, m: Struct) {
    WellFormedTable(d') && WellFormedTable(d) && Narrower(d', d) && Safe(d, m) && Complete(d, m)
  }

  lemma KnownMember(d': seq<Field>, d: seq<Field>, m: Struct, k: string) returns (i': nat, i: nat)
    requires Setting(d', d, m) && k in Members(d')
    ensures i' < |d'| && d'[i'].member == k && i < |d| && NarrowerField(d'[i'], d[i]) && SafeSlot(d, i, m[k])
    ensures k in Project(d', m) && Project(d', m)[k] == ProjectSlot(d', i', m[k])
    ensures Defaults(d')[k] == DefaultSlot(d'[i'])
  {
    i' := IndexOf(d', k);
    i := Counterpart(d', d, i');
    assert SafeSlot(d, i, m[d[i].member]);
    ProjectAt(d', m, i');
    DefaultsAt(d', i');
  }

  lemma BetweenAtStart(d': seq<Field>, d: seq<Field>, m: Struct)
    requires Setting(d', d, m)
    ensures Between(d', d, m, 0, Start(Defaults(d')))
  {
    forall k | k in Members(d')
      ensures k in Project(d', m)
    {
      var i', i := KnownMember(d', d, m, k);
    }
  }

  // A oneof choice that the decoder does not know leaves its union unset.
  lemma UnknownChoice(d': seq<Field>, d: seq<Field>, m: Struct, i: nat)
    requires Setting(d', d, m) && i < |d| && FindTag(d', d[i].tag).None?
    requires d[i].member in Members(d')
    ensures var k := d[i].member;
      d[i].htype.ONEOF? && (m[k].Union? && m[k].which == d[i].tag ==> Project(d', m)[k] == Defaults(d')[k])
  {
    var i', j := KnownMember(d', d, m, d[i].member);
    assert d[j].tag == d'[i'].tag != d[i].tag;
  }

  // One more field settles its own member only.
  lemma SettledNext(d: seq<Field>, m: Struct, k: string, i: nat)
    requires i < |d|
    ensures Settled(d, m, k, i + 1) <==>
      (Settled(d, m, k, i) || (d[i].member == k && (d[i].htype.ONEOF? ==> Chosen(m, k, d[i].tag))))
  {
  }

  lemma BetweenUnknown(d': seq<Field>, d: seq<Field>, m: Struct, i: nat, st: LoopState)
    requires Setting(d', d, m) && i < |d| && FindTag(d', d[i].tag).None?
    requires Between(d', d, m, i, st)
    ensures Between(d', d, m, i + 1, st)
  {
    forall k | k in Members(d')
      ensures st.m[k] == if Settled(d, m, k, i + 1) then Project(d', m)[k] else Defaults(d')[k]
    {
      SettledNext(d, m, k, i);
      if d[i].member == k {
        UnknownChoice(d', d, m, i);
      }
    }
    BetweenSeen(d', d, m, i, st, st);
  }

  // The parts of Between that are not about the members.
  lemma BetweenSeen(d': seq<Field>, d: seq<Field>, m: Struct, i: nat, st: LoopState, st': LoopState)
    requires i < |d| && Between(d', d, m, i, st)
    requires st.seen <= st'.seen
    requires forall j' :: 0 <= j' < |d'| && d[i].tag == d'[j'].tag && d[i].htype.REQUIRED? ==> j' in st'.seen
    requires st'.m.Keys == st.m.Keys && FixedComplete(d', st')
    requires st'.fixedField.Some? ==> st'.fixedField == st.fixedField || d[i].tag == d'[st'.fixedField.value].tag
    requires forall k :: k in Members(d') ==>
      st'.m[k] == if Settled(d, m, k, i + 1) then Project(d', m)[k] else Defaults(d')[k]
    ensures Between(d', d, m, i + 1, st')
  {
  }

  // A field that writes nothing and is not part of a union holds its default.
  lemma SilentField(d: seq<Field>, i: nat, slot: Slot)
    requires WellFormedTable(d) && i < |d| && SafeSlot(d, i, slot) && CompleteSlot(d, i, slot)
    requires !Written(d[i], slot) && !d[i].htype.ONEOF?
    ensures IsDefault(d[i], slot)
  {
  }

  // The slot of a known field is still untouched when the field is written.
  lemma Untouched(d': seq<Field>, d: seq<Field>, m: Struct, i: nat, i': nat, st: LoopState)
    requires Setting(d', d, m) && i < |d| && i' < |d'| && d'[i'].tag == d[i].tag
    requires Between(d', d, m, i, st)
    ensures KnownAs(d', i', d[i]) && st.fixedField != Some(i')
    ensures Written(d[i], m[d[i].member]) ==> st.m[d[i].member] == DefaultSlot(d'[i'])
  {
    SameTag(d', d, i', i);
    FindTagUnique(d', i');
    DefaultsAt(d', i');
    var k := d[i].member;
    assert SafeSlot(d, i, m[k]);
    if Settled(d, m, k, i) {
      var j :| 0 <= j < i && d[j].member == k && (d[j].htype.ONEOF? ==> Chosen(m, k, d[j].tag));
      assert d[j].tag != d[i].tag;
    }
  }

  lemma MergedProjection(d': seq<Field>, d: seq<Field>, m: Struct, i: nat, i': nat, st: LoopState)
    requires Setting(d', d, m) && i < |d| && i' < |d'| && d'[i'].tag == d[i].tag
    requires Between(d', d, m, i, st)
    ensures
      var k := d[i].member;
      var st' := AfterField(d', i', d[i], m[k], st);
      k in Members(d') &&
      st'.m[k] == if Settled(d, m, k, i + 1) then Project(d', m)[k] else Defaults(d')[k]
  {
    SameTag(d', d, i', i);
    var k := d[i].member;
    assert SafeSlot(d, i, m[k]) && CompleteSlot(d, i, m[k]);
    ProjectAt(d', m, i');
    SettledNext(d, m, k, i);
    if !Written(d[i], m[k]) && !d[i].htype.ONEOF? {
      SilentField(d, i, m[k]);
      DefaultSlotProjection(d', d, i', i, m[k]);
      DefaultsAt(d', i');
    }
  }

  // What a known field leaves alone, and what it records.
  lemma AfterFieldElsewhere(d': seq<Field>, i': nat, d: seq<Field>, i: nat, slot: Slot, st: LoopState)
    requires i' < |d'| && i < |d| && NarrowerField(d'[i'], d[i])
    requires SafeSlot(d, i, slot) && CompleteSlot(d, i, slot)
    requires FixedComplete(d', st) && d'[i'].member in st.m
    ensures
      var st' := AfterField(d', i', d[i], slot, st);
      && st'.m.Keys == st.m.Keys
      && (forall k :: k in st.m && k != d[i].member ==> st'.m[k] == st.m[k])
      && st.seen <= st'.seen && (d[i].htype.REQUIRED? ==> i' in st'.seen)
      && FixedComplete(d', st') && (st'.fixedField == st.fixedField || st'.fixedField == Some(i'))
  {
  }

  lemma BetweenKnown(d': seq<Field>, d: seq<Field>, m: Struct, i: nat, i': nat, st: LoopState)
    requires Setting(d', d, m) && i < |d| && i' < |d'| && d'[i'].tag == d[i].tag
    requires Between(d', d, m, i, st)
    ensures Between(d', d, m, i + 1, AfterField(d', i', d[i], m[d[i].member], st))
  {
    var st' := AfterField(d', i', d[i], m[d[i].member], st);
    MergedProjection(d', d, m, i, i', st);
    SameTag(d', d, i', i);
    assert SafeSlot(d, i, m[d[i].member]) && CompleteSlot(d, i, m[d[i].member]);
    AfterFieldElsewhere(d', i', d, i, m[d[i].member], st);
    forall k | k in Members(d')
      ensures st'.m[k] == if Settled(d, m, k, i + 1) then Project(d', m)[k] else Defaults(d')[k]
    {
      SettledNext(d, m, k, i);
    }
    FindTagUnique(d', i');
    forall j' | 0 <= j' < |d'| && d[i].tag == d'[j'].tag && d[i].htype.REQUIRED?
      ensures j' in st'.seen
    {
      FindTagUnique(d', j');
    }
    BetweenSeen(d', d, m, i, st, st');
  }

  lemma SlotInBounds(d: seq<Field>, m: Struct, i: nat)
    requires WellFormedTable(d) && Safe(d, m) && Complete(d, m) && i < |d|
    ensures WellFormedField(d[i])
    ensures SafeSlot(d, i, m[d[i].member]) && CompleteSlot(d, i, m[d[i].member])
    ensures Chosen(m, d[i].member, d[i].tag) ==> SafeValue(d[i], m[d[i].member].payload)
  {
  }

  // One field of the encoding.
  lemma {:induction false} FieldStep(d': seq<Field>, d: seq<Field>, m: Struct, i: nat, st: LoopState, tail: seq<byte>)
    returns (st': LoopState)
    requires Setting(d', d, m) && i < |d| && Between(d', d, m, i, st)
    requires EncodeField(d[i], m[d[i].member]).Some? && |EncodeField(d[i], m[d[i].member]).value| < TWO_TO_32
    ensures DecodeLoop(d', st, EncodeField(d[i], m[d[i].member]).value + tail) == DecodeLoop(d', st', tail)
    ensures Between(d', d, m, i + 1, st')
    decreases d', 3
  {
    var f := d[i];
    var slot := m[f.member];
    match FindTag(d', f.tag)
    case None =>
      BetweenUnknown(d', d, m, i, st);
      st' := st;
      UnknownField(d', st, f, slot, tail);
    case Some(i') =>
      BetweenKnown(d', d, m, i, i', st);
      st' := AfterField(d', i', f, slot, st);
      assert DecodeLoop(d', st, EncodeField(f, slot).value + tail) == DecodeLoop(d', st', tail) by {
        Untouched(d', d, m, i, i', st);
        SlotInBounds(d, m, i);
        FieldDecodes(d', i', d, i, slot, st, tail);
      }
  }

  // The whole encoding, from the i-th field on.
  lemma {:induction false} FieldsDecode(d': seq<Field>, d: seq<Field>, m: Struct, i: nat, st: LoopState)
    returns (end: LoopState)
    requires Setting(d', d, m) && i <= |d| && Between(d', d, m, i, st)
    requires EncodeFrom(d, m, i).Some? && |EncodeFrom(d, m, i).value| < TWO_TO_32
    ensures DecodeLoop(d', st, EncodeFrom(d, m, i).value) == Done(end)
    ensures Between(d', d, m, |d|, end)
    decreases d', 4, |d| - i
  {
    if i == |d| {
      end := st;
    } else {
      var st' := FieldStep(d', d, m, i, st, EncodeFrom(d, m, i + 1).value);
      end := FieldsDecode(d', d, m, i + 1, st');
    }
  }

  // At the end every member holds its projection.
  lemma AllSettled(d': seq<Field>, d: seq<Field>, m: Struct, st: LoopState)
    requires Setting(d', d, m) && Between(d', d, m, |d|, st)
    ensures st.m == Project(d', m)
  {
    forall k | k in Members(d')
      ensures st.m[k] == Project(d', m)[k]
    {
      var i', i := KnownMember(d', d, m, k);
    }
  }

  lemma AllRequiredSeen(d': seq<Field>, d: seq<Field>, m: Struct, st: LoopState)
    requires Setting(d', d, m) && Between(d', d, m, |d|, st)
    ensures RequiredSeen(d', st.seen)
  {
    forall i' | 0 <= i' < |d'| && d'[i'].htype.REQUIRED?
      ensures i' in st.seen
    {
      var i := Counterpart(d', d, i');
    }
  }

  // Forward compatibility: decoding with a table that knows only some of the
  // fields, at any depth, gives exactly what those fields were.
  lemma {:induction false} MessageDecodes(d': seq<Field>, d: seq<Field>, m: Struct)
    requires WellFormedTable(d') && WellFormedTable(d) && Narrower(d', d)
    requires Safe(d, m) && Complete(d, m)
    requires Encode(d, m).Some? && |Encode(d, m).value| < TWO_TO_32
    ensures Decode(d', Encode(d, m).value) == Ok(Project(d', m), [])
    decreases d', 5
  {
    BetweenAtStart(d', d, m);
    var end := FieldsDecode(d', d, m, 0, Start(Defaults(d')));
    AllSettled(d', d, m, end);
    AllRequiredSeen(d', d, m, end);
  }

  // The round trip: pb_decode of what pb_encode wrote restores every present
  // value, presence flag, count and which_ selector, and gives absent fields
  // their defaults.
  lemma MessageRoundTrip(d: seq<Field>, m: Struct)
    requires WellFormedTable(d) && Safe(d, m) && Complete(d, m)
    ensures Encode(d, m).Some?
    ensures |Encode(d, m).value| < TWO_TO_32 ==> Decode(d, Encode(d, m).value) == Ok(Project(d, m), [])
  {
    MessageEncodes(d, m, 0);
    NarrowerReflexive(d);
    if |Encode(d, m).value| < TWO_TO_32 {
      MessageDecodes(d, d, m);
    }
  }
}
