// pb_common.c: the cyclic field iterator, and the struct layout it recovers from
// the relative offsets in the table.
module FieldIter {
  import opened Descriptor
  import opened DecodeSpec

  // sizeof(void*) on a 64-bit platform
  const ADDRESS_SIZE: nat := 8

  // The entry continues the union of the entry before it.
  predicate SameUnion(prev: Field, f: Field) {
    prev.htype.ONEOF? && f.htype.ONEOF? && f.dataOffset == PB_SIZE_MAX
  }

  // pb_membersize: the bytes a member takes in the struct.
  function MemberSize(f: Field): nat {
    if f.atype.STATIC? && f.htype.REPEATED? then f.dataSize * f.arraySize
    else if f.atype.HEAP? then ADDRESS_SIZE
    else f.dataSize
  }

  // The first entry of the union that entry j belongs to, or j itself.
  function UnionStart(d: seq<Field>, j: nat): (i: nat)
    requires j < |d|
    ensures i <= j
  {
    if j > 0 && SameUnion(d[j - 1], d[j]) then UnionStart(d, j - 1) else j
  }

  // Entry i, at or before j, is of the same union.
  predicate InUnion(d: seq<Field>, i: nat, j: nat)
    requires j < |d|
  {
    UnionStart(d, j) <= i <= j
  }

  // The table holds what PB_DATAOFFSET_FIRST, _OTHER and _UNION compute for
  // members at the given struct offsets, of which the one behind a union starts
  // behind every entry of the union.
  ghost predicate LaidOut(d: seq<Field>, offsets: seq<nat>) {
    && |offsets| == |d|
    && (d != [] ==> d[0].dataOffset == offsets[0])
    && (forall i :: 0 < i < |d| ==>
         if SameUnion(d[i - 1], d[i])
         then offsets[i] == offsets[i - 1] && d[i].sizeOffset == d[i - 1].sizeOffset
         else d[i].dataOffset == offsets[i] - offsets[i - 1] - MemberSize(d[i - 1]))
    && (forall i, j :: 0 <= i < j < |d| && InUnion(d, i, j - 1) && !SameUnion(d[j - 1], d[j]) ==>
         offsets[i] + MemberSize(d[i]) <= offsets[j])
  }

  // The struct offset the iterator arrives at, by adding up the relative offsets
  // and the sizes of the members passed.
  ghost function Offset(d: seq<Field>, i: nat): nat
    requires i < |d|
  {
    if i == 0 then d[0].dataOffset
    else if SameUnion(d[i - 1], d[i]) then Offset(d, i - 1)
    else Offset(d, i - 1) + MemberSize(d[i - 1]) + d[i].dataOffset
  }

  // The distance to the count, has_ or which_ member: the entries of a union keep
  // that of the first.
  ghost function SizeOffset(d: seq<Field>, i: nat): int
    requires i < |d|
  {
    if i > 0 && SameUnion(d[i - 1], d[i]) then SizeOffset(d, i - 1) else d[i].sizeOffset
  }

  // The iterator inverts the layout macros: the offsets it arrives at are those
  // of the members in the struct.
  lemma {:induction false} OffsetsRecovered(d: seq<Field>, offsets: seq<nat>, i: nat)
    requires LaidOut(d, offsets) && i < |d|
    ensures Offset(d, i) == offsets[i] && SizeOffset(d, i) == d[i].sizeOffset
  {
    if i > 0 {
      OffsetsRecovered(d, offsets, i - 1);
    }
  }

  // Where pSize points: into the struct, or at the decoder's counter for fixed
  // count arrays.
  datatype SizePointer = At(address: int) | Counter

  class Iter {
    const start: seq<Field>
    const destStruct: int
    var pos: nat
    var requiredFieldIndex: nat
    var pData: int
    var pSize: SizePointer

    // The cursor is at an entry of the table, or at the terminator of an empty
    // one, and points at the member of that entry.  Only for a fixed count array
    // may pSize have been set to the decoder's counter.
    ghost predicate Valid()
      reads this
    {
      && (if start == [] then pos == 0 else pos < |start|)
      && requiredFieldIndex == RequiredBefore(start, pos)
      && (if start == [] then pSize != Counter else
            && pData == destStruct + Offset(start, pos)
            && (if pSize == Counter then FixedCount(start[pos]) else pSize == At(pData + SizeOffset(start, pos))))
    }

    // pb_field_iter_begin
    constructor (fields: seq<Field>, dest: int)
      ensures Valid() && start == fields && destStruct == dest
      ensures pos == 0 && pSize != Counter
    {
      start, destStruct := fields, dest;
      pos, requiredFieldIndex := 0, 0;
      pData := dest + (if fields == [] then 0 else fields[0].dataOffset);
      pSize := At(dest + if fields == [] then 0 else fields[0].dataOffset + fields[0].sizeOffset);
    }

    // The tag at the cursor; the terminator's is 0.
    function Tag(): nat
      requires start == [] || pos < |start|
      reads this
    {
      if start == [] then 0 else start[pos].tag
    }

    // pb_field_iter_begin again, when the cursor wraps around
    method Rewind()
      requires Valid() && start != []
      modifies this
      ensures Valid() && pos == 0 && pSize != Counter
    {
      pos, requiredFieldIndex := 0, 0;
      pData := destStruct + start[0].dataOffset;
      pSize := At(pData + start[0].sizeOffset);
    }

    // pb_field_iter_next
    method Next() returns (more: bool)
      requires Valid()
      modifies this
      ensures Valid()
      ensures start == [] ==> !more && unchanged(this)
      ensures start != [] ==> pSize != Counter
      ensures start != [] ==> pos == if more then old(pos) + 1 else 0
      ensures more <==> old(pos) + 1 < |start|
    {
      if start == [] {
        return false;
      }
      var prev := start[pos];
      if pos + 1 == |start| {
        Rewind();
        return false;
      }
      pos := pos + 1;
      var size := prev.dataSize;
      if prev.htype.ONEOF? && start[pos].htype.ONEOF? && start[pos].dataOffset == PB_SIZE_MAX {
        return true;
      } else if prev.atype.STATIC? && prev.htype.REPEATED? {
        size := size * prev.arraySize;
      } else if prev.atype.HEAP? {
        size := ADDRESS_SIZE;
      }
      if prev.htype.REQUIRED? {
        requiredFieldIndex := requiredFieldIndex + 1;
      }
      pData := pData + size + start[pos].dataOffset;
      pSize := At(pData + start[pos].sizeOffset);
      more := true;
    }

    // pb_field_iter_find.  From any cursor, within one cycle through the table, it
    // stops at the entry with the tag if there is one, and comes back to where it
    // was if there is none.  Valid() says that it then points at that entry's
    // member and has counted the required fields before it.
    method Find(tag: nat) returns (found: bool)
      requires Valid()
      modifies this
      ensures Valid()
      ensures start != [] ==> (found <==> exists i :: 0 <= i < |start| && start[i].tag == tag)
      ensures start == [] ==> (found <==> tag == 0)
      ensures found ==> Tag() == tag
      ensures !found ==> pos == old(pos)
      ensures pSize == Counter ==> old(pSize) == Counter && (start != [] ==> found && pos == old(pos))
    {
      var begin := pos;
      ghost var wrapped := false;
      while true
        invariant Valid() && (start == [] || begin < |start|)
        invariant start == [] ==> unchanged(this)
        invariant if wrapped then pos < begin else pos >= begin
        invariant forall i :: (if wrapped then begin <= i < |start| || 0 <= i < pos else begin <= i < pos)
                    ==> start[i].tag != tag
        invariant pSize == Counter ==> old(pSize) == Counter && pos == old(pos) && !wrapped
        decreases if wrapped then begin - pos else |start| - pos + begin + 1
      {
        if Tag() == tag {
          return true;
        }
        var more := Next();
        if !more {
          wrapped := true;
        }
        if pos == begin {
          return false;
        }
      }
    }
  }

  // Members at different struct offsets are different, so the pointers tell the
  // entries apart, up to those of one union.
  lemma {:induction false} OffsetsIncrease(d: seq<Field>, offsets: seq<nat>, i: nat, j: nat)
    requires LaidOut(d, offsets) && i <= j < |d|
    requires forall k :: 0 <= k < |d| ==> MemberSize(d[k]) > 0
    ensures offsets[i] <= offsets[j]
    ensures offsets[i] == offsets[j] <==> InUnion(d, i, j)
    decreases j
  {
    if i < j {
      OffsetsIncrease(d, offsets, i, j - 1);
    }
  }

  lemma NextOffset(d: seq<Field>, offsets: seq<nat>, j: nat)
    requires LaidOut(d, offsets) && 0 < j < |d|
    ensures offsets[j - 1] <= offsets[j]
  {
  }

  lemma BehindUnion(d: seq<Field>, offsets: seq<nat>, i: nat, j: nat)
    requires LaidOut(d, offsets) && i < j < |d| && InUnion(d, i, j - 1) && !InUnion(d, i, j)
    ensures offsets[i] + MemberSize(d[i]) <= offsets[j]
  {
  }

  lemma {:induction false} LaterOffset(d: seq<Field>, offsets: seq<nat>, i: nat, j: nat)
    requires LaidOut(d, offsets) && i <= j < |d|
    ensures offsets[i] <= offsets[j]
    decreases j
  {
    if i < j {
      LaterOffset(d, offsets, i, j - 1);
      NextOffset(d, offsets, j);
    }
  }

  // The first entry behind the union of entry i.
  lemma {:induction false} FirstOutside(d: seq<Field>, i: nat, j: nat) returns (k: nat)
    requires i < j < |d| && !InUnion(d, i, j)
    ensures i < k <= j && InUnion(d, i, k - 1) && !InUnion(d, i, k)
    decreases j
  {
    if InUnion(d, i, j - 1) {
      k := j;
    } else {
      k := FirstOutside(d, i, j - 1);
    }
  }

  // Each entry's member ends before the next one that is not in its union begins.
  lemma MembersDisjoint(d: seq<Field>, offsets: seq<nat>, i: nat, j: nat)
    requires LaidOut(d, offsets) && i < j < |d| && !InUnion(d, i, j)
    ensures offsets[i] + MemberSize(d[i]) <= offsets[j]
  {
    var k := FirstOutside(d, i, j);
    BehindUnion(d, offsets, i, k);
    LaterOffset(d, offsets, k, j);
  }

  lemma {:induction false} ItemBound(size: nat, m: nat, n: nat)
    requires m <= n
    ensures size * m <= size * n
    decreases n - m
  {
    if m < n {
      ItemBound(size, m + 1, n);
      assert size * (m + 1) == size * m + size;
    }
  }
}
