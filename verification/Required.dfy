// The rank of a required field among the required fields of its table.
module Required {
  import opened Descriptor
  import opened DecodeSpec

  lemma {:induction false} RequiredBeforeGrows(d: seq<Field>, i: nat, j: nat)
    requires i <= j <= |d|
    ensures RequiredBefore(d, i) <= RequiredBefore(d, j)
    ensures i < j && d[i].htype.REQUIRED? ==> RequiredBefore(d, i) < RequiredBefore(d, j)
    decreases j
  {
    if i < j {
      RequiredBeforeGrows(d, i, j - 1);
    }
  }

  // Every rank below the number of required fields belongs to one of them.
  lemma {:induction false} FieldOfRank(d: seq<Field>, n: nat, r: nat) returns (i: nat)
    requires n <= |d| && r < RequiredBefore(d, n)
    ensures i < n && d[i].htype.REQUIRED? && RequiredBefore(d, i) == r
  {
    if d[n - 1].htype.REQUIRED? && RequiredBefore(d, n - 1) == r {
      i := n - 1;
    } else {
      i := FieldOfRank(d, n - 1, r);
    }
  }

  // The ranks of the required fields seen, as far as the bitmap has room.
  ghost function Ranks(d: seq<Field>, seen: set<nat>): set<nat> {
    set i | i in seen && i < |d| && d[i].htype.REQUIRED? && RequiredBefore(d, i) < MAX_REQUIRED_FIELDS
      :: RequiredBefore(d, i)
  }

  function Min(a: nat, b: nat): nat {
    if a < b then a else b
  }

  // All tracked ranks are marked exactly if all tracked required fields were seen.
  lemma RanksComplete(d: seq<Field>, seen: set<nat>)
    ensures
      var tracked := Min(RequiredBefore(d, |d|), MAX_REQUIRED_FIELDS);
      && (forall r :: r in Ranks(d, seen) ==> r < tracked)
      && ((forall r :: 0 <= r < tracked ==> r in Ranks(d, seen)) <==> RequiredSeen(d, seen))
  {
    var tracked := Min(RequiredBefore(d, |d|), MAX_REQUIRED_FIELDS);
    forall i | 0 <= i < |d| && d[i].htype.REQUIRED?
      ensures RequiredBefore(d, i) < RequiredBefore(d, |d|)
    {
      RequiredBeforeGrows(d, i, |d|);
    }
    if RequiredSeen(d, seen) {
      forall r | 0 <= r < tracked
        ensures r in Ranks(d, seen)
      {
        var i := FieldOfRank(d, |d|, r);
      }
    }
    if forall r :: 0 <= r < tracked ==> r in Ranks(d, seen) {
      forall i | 0 <= i < |d| && d[i].htype.REQUIRED? && RequiredBefore(d, i) < MAX_REQUIRED_FIELDS
        ensures i in seen
      {
        SameRank(d, seen, i);
      }
    }
  }

  lemma SameRank(d: seq<Field>, seen: set<nat>, i: nat)
    requires i < |d| && d[i].htype.REQUIRED? && RequiredBefore(d, i) in Ranks(d, seen)
    ensures i in seen
  {
    var j :| j in seen && j < |d| && d[j].htype.REQUIRED? && RequiredBefore(d, j) == RequiredBefore(d, i);
    if j < i {
      RequiredBeforeGrows(d, j, i);
    } else if i < j {
      RequiredBeforeGrows(d, i, j);
    }
  }
}
