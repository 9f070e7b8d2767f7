/** Do the replicas of a key before and after a membership change have a node in common? */
module Quorum {
  import opened Types
  import opened Ring
  import opened Sets

  lemma {:induction false} HighestOf(score: Score, key: string, some: set<NodeInfo>) returns (best: NodeInfo)
    requires some != {}
    ensures best in some && forall y :: y in some ==> score(y, key) <= score(best, key)
  {
    var x :| x in some;
    best := x;
    if some != {x} {
      var other := HighestOf(score, key, some - {x});
      if score(other, key) > score(x, key) {
        best := other;
      }
    }
  }

  ghost predicate Overlap(score: Score, key: string, before: set<NodeInfo>, after: set<NodeInfo>, r: int) {
    exists x :: InTop(score, key, before, r, x) && InTop(score, key, after, r, x)
  }

  /** The replica sets meet exactly when some old replica stays with fewer than `r` joiners above it. */
  lemma OverlapWhen(score: Score, key: string, before: set<NodeInfo>, after: set<NodeInfo>, r: int)
    ensures Overlap(score, key, before, after, r)
       <==> exists x :: InTop(score, key, before, r, x) && x in after
                        && |Above(score, key, after - before, x)| < r
  {
    forall x | x in after
      ensures |Above(score, key, after - before, x)| <= |Above(score, key, after, x)|
    {
      SubsetCount(Above(score, key, after - before, x), Above(score, key, after, x));
    }
    if x :| InTop(score, key, before, r, x) && x in after && |Above(score, key, after - before, x)| < r {
      var staying := set y | y in before && y in after && InTop(score, key, before, r, y);
      assert x in staying;
      var best := HighestOf(score, key, staying);
      forall y | y in Above(score, key, after, best) ensures y in Above(score, key, after - before, x) {
        if y in before {
          SubsetCount(Above(score, key, before, y), Above(score, key, before, best));
          assert false;
        }
      }
      SubsetCount(Above(score, key, after, best), Above(score, key, after - before, x));
      assert InTop(score, key, after, r, best);
    }
  }

  /** Fewer departures than the old replicas and fewer joins than the replication factor always leave
      a replica in common. */
  lemma FewChangesOverlap(score: Score, key: string, before: set<NodeInfo>, after: set<NodeInfo>, r: nat)
    requires Distinct(score, key, before)
    requires |before - after| < r && |before - after| < |before| && |after - before| < r
    ensures Overlap(score, key, before, after, r)
  {
    var order := Listing(before);
    TopNodesIsTop(score, key, before, order, r);
    var top := TopNodes(score, key, order, r);
    var replicas := Members(top);
    DistinctCount(top);
    if replicas <= before - after {
      SubsetCount(replicas, before - after);
    }
    var x :| x in replicas && x !in before - after;
    SubsetCount(Above(score, key, after - before, x), after - before);
    OverlapWhen(score, key, before, after, r);
  }
}
