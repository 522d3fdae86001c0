/**
  Membership of a room: joining appends the caller to `members`, leaving keeps
  every member except the caller, in their original order.
 */
module Membership {
  import opened Aggregate

  /** `members.filter(m => m !== u)`: drops every occurrence of `u`. */
  function Without(members: seq<UserId>, u: UserId): (r: seq<UserId>)
    ensures |r| <= |members|
    ensures forall v :: v in r <==> v in members && v != u
  {
    if members == [] then []
    else (if members[0] == u then [] else [members[0]]) + Without(members[1..], u)
  }

  /** Filtering distributes over concatenation. */
  lemma {:induction false} WithoutAppend(a: seq<UserId>, b: seq<UserId>, u: UserId)
    ensures Without(a + b, u) == Without(a, u) + Without(b, u)
  {
    if a == [] {
      assert a + b == b;
    } else {
      assert (a + b)[1..] == a[1..] + b;
      WithoutAppend(a[1..], b, u);
    }
  }

  /** Removing someone who is not there changes nothing. */
  lemma {:induction false} WithoutAbsent(members: seq<UserId>, u: UserId)
    requires u !in members
    ensures Without(members, u) == members
  {
    if members != [] {
      assert members[1..] + [] == members[1..];
      WithoutAbsent(members[1..], u);
      assert [members[0]] + members[1..] == members;
    }
  }

  /** Leaving takes out exactly the caller: whoever stood before and after them
      keeps their relative order. */
  lemma LeaveKeepsOrder(before: seq<UserId>, u: UserId, after: seq<UserId>)
    requires u !in before && u !in after
    ensures Without(before + [u] + after, u) == before + after
  {
    var withU := before + [u];
    assert Without([u], u) == [] by {
      assert [u][1..] == [];
    }
    calc {
      Without(withU + after, u);
      { WithoutAppend(withU, after, u); }
      Without(withU, u) + Without(after, u);
      { WithoutAppend(before, [u], u); }
      Without(before, u) + [] + Without(after, u);
      { WithoutAbsent(before, u); WithoutAbsent(after, u); }
      before + [] + after;
    }
    assert before + [] + after == before + after;
  }

  /** Join followed by leave of the same user restores the member list exactly. */
  lemma JoinThenLeave(members: seq<UserId>, u: UserId)
    requires u !in members
    ensures Without(members + [u], u) == members
  {
    LeaveKeepsOrder(members, u, []);
    assert members + [u] + [] == members + [u];
    assert members + [] == members;
  }

  /** Filtering never introduces a duplicate. */
  lemma {:induction false} WithoutDistinct(members: seq<UserId>, u: UserId)
    requires Distinct(members)
    ensures Distinct(Without(members, u))
  {
    if members != [] {
      var tail := members[1..];
      assert Distinct(tail) by {
        forall i, j | 0 <= i < j < |tail| ensures tail[i] != tail[j] {
          assert tail[i] == members[i + 1] && tail[j] == members[j + 1];
        }
      }
      WithoutDistinct(tail, u);
      assert members[0] !in tail by {
        forall i | 0 <= i < |tail| ensures tail[i] != members[0] {
          assert tail[i] == members[i + 1];
        }
      }
      var head := if members[0] == u then [] else [members[0]];
      var rest := Without(tail, u);
      assert Without(members, u) == head + rest;
      forall i, j | 0 <= i < j < |head + rest| ensures (head + rest)[i] != (head + rest)[j] {
        if i < |head| {
          assert (head + rest)[j] in rest;
        }
      }
    }
  }

  /** Leaving keeps the room well formed whenever the one leaving is not the
      owner. */
  lemma LeavePreservesWellFormed(r: Room, u: UserId)
    requires WellFormed(r) && u != r.owner
    ensures WellFormed(r.(members := Without(r.members, u)))
  {
    WithoutDistinct(r.members, u);
  }

  /** Joining keeps the room well formed whenever the one joining is not yet a
      member. */
  lemma JoinPreservesWellFormed(r: Room, u: UserId)
    requires WellFormed(r) && u !in r.members
    ensures WellFormed(r.(members := r.members + [u]))
    ensures IsMember(r.(members := r.members + [u]), u)
  {
    var ms := r.members + [u];
    forall i, j | 0 <= i < j < |ms| ensures ms[i] != ms[j] {
      if j == |ms| - 1 {
        assert ms[i] == r.members[i];
      }
    }
  }
}
