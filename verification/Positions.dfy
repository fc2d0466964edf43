/** Lists of positions: the members of a set of indices in increasing order. */
module Positions {
  ghost predicate Enumerates(at: seq<nat>, chosen: set<nat>) {
    && (forall i, j :: 0 <= i < j < |at| ==> at[i] < at[j])
    && (forall i :: 0 <= i < |at| ==> at[i] in chosen)
    && (forall k :: k in chosen ==> k in at)
  }

  lemma OneMore(at: seq<nat>, chosen: set<nat>, n: nat)
    requires Enumerates(at, chosen) && forall k :: k in chosen ==> k < n
    ensures Enumerates(at + [n], chosen + {n})
  {
    var more := at + [n];
    forall k | k in chosen + {n} ensures k in more {
      if k == n {
        assert more[|at|] == n;
      } else {
        var i :| 0 <= i < |at| && at[i] == k;
        assert more[i] == k;
      }
    }
  }
}
