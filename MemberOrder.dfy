/** The MemberId order: the least id of a set and the ids of a set listed in order. */
module MemberOrder {
  import opened ClusterTypes

  lemma {:induction false} LeastExists(s: set<MemberId>)
    requires s != {}
    ensures exists m :: m in s && forall k :: k in s ==> m <= k
  {
    assert exists y :: y in s by {
      if forall y :: y !in s {
        assert false;
      }
    }
    var x :| x in s;
    var rest := s - {x};
    if rest == {} {
      forall k | k in s ensures x <= k { assert k == x || k in rest; }
    } else {
      LeastExists(rest);
      var m :| m in rest && forall k :: k in rest ==> m <= k;
      var least := if x < m then x else m;
      forall k | k in s ensures least <= k { assert k == x || k in rest; }
      assert least in s;
    }
  }

  /** The least id of a non-empty set. */
  function Least(s: set<MemberId>): (m: MemberId)
    requires s != {}
    ensures m in s
    ensures forall k :: k in s ==> m <= k
  {
    LeastExists(s);
    var m :| m in s && forall k :: k in s ==> m <= k; m
  }

  /** Only one element of a set is below all the others, so the least id is determined
      by the set alone. */
  lemma LeastIsUnique(s: set<MemberId>, m: MemberId)
    requires m in s && forall k :: k in s ==> m <= k
    ensures Least(s) == m
  {
  }

  /** The ids of s, each once, in strictly ascending order. */
  function SortedIds(s: set<MemberId>): (r: seq<MemberId>)
    ensures |r| == |s|
    ensures forall x :: x in s <==> x in r
    ensures forall i, j :: 0 <= i < j < |r| ==> r[i] < r[j]
    decreases |s|
  {
    if s == {} then []
    else
      var m := Least(s);
      [m] + SortedIds(s - {m})
  }
}
