/** The last-write-wins read merge (dlstorage/consistency/lww.py). */
module Consistency {
  import opened Types
  import opened LwwStore

  const NOTHING := Version(Nil, -1, false)

  function Better(best: Version, reply: Option<Version>): Version {
    if reply.Some? && reply.value.ts > best.ts then reply.value else best
  }

  function Best(replies: seq<Option<Version>>): Version {
    if replies == [] then NOTHING
    else Better(Best(replies[..|replies| - 1]), replies[|replies| - 1])
  }

  function Merge(replies: seq<Option<Version>>): Value {
    var best := Best(replies);
    if best.ts < 0 || best.tombstone then Nil else best.value
  }

  /** The merge loop shared by both resolvers. */
  method MergeReplies(replies: seq<Option<Version>>) returns (value: Value)
    ensures value == Merge(replies)
  {
    var bestValue, bestTs, bestTombstone := Nil, -1, false;
    for i := 0 to |replies|
      invariant Version(bestValue, bestTs, bestTombstone) == Best(replies[..i])
    {
      assert replies[..i + 1][..i] == replies[..i];
      if replies[i].Some? {
        var Version(v, ts, tombstone) := replies[i].value;
        if ts > bestTs {
          bestTs, bestValue, bestTombstone := ts, v, tombstone;
        }
      }
    }
    assert replies[..|replies|] == replies;
    value := if bestTs < 0 || bestTombstone then Nil else bestValue;
  }

  /** Reply `i` has the highest timestamp, and is the first reply to have it. */
  predicate Wins(replies: seq<Option<Version>>, i: nat) {
    && i < |replies| && replies[i].Some? && replies[i].value.ts >= 0
    && (forall j :: 0 <= j < |replies| && replies[j].Some? ==> replies[j].value.ts <= replies[i].value.ts)
    && (forall j :: 0 <= j < i && replies[j].Some? ==> replies[j].value.ts < replies[i].value.ts)
  }

  lemma {:induction false} BestIsHighest(replies: seq<Option<Version>>)
    ensures Best(replies).ts >= -1
    ensures forall j :: 0 <= j < |replies| && replies[j].Some? ==> replies[j].value.ts <= Best(replies).ts
  {
    if replies != [] {
      BestIsHighest(replies[..|replies| - 1]);
    }
  }

  lemma {:induction false} BestWins(replies: seq<Option<Version>>)
    ensures Best(replies) == NOTHING || exists i: nat :: Wins(replies, i) && Best(replies) == replies[i].value
  {
    BestIsHighest(replies);
    if replies != [] {
      var n := |replies| - 1;
      var front := replies[..n];
      BestWins(front);
      BestIsHighest(front);
      if Best(replies) != Best(front) {
        assert Wins(replies, n);
      } else if Best(front) != NOTHING {
        var i: nat :| Wins(front, i) && Best(front) == front[i].value;
        assert replies[i] == front[i];
        assert Wins(replies, i);
      }
    }
  }

  /** The merge returns what the first newest reply says, a tombstone or no reply meaning nothing. */
  lemma MergePicksNewest(replies: seq<Option<Version>>, i: nat)
    ensures Wins(replies, i) ==> Merge(replies) == Plain(replies[i])
    ensures (forall j :: 0 <= j < |replies| && replies[j].Some? ==> replies[j].value.ts < 0) ==> Merge(replies) == Nil
  {
    BestIsHighest(replies);
    BestWins(replies);
    if Wins(replies, i) {
      var j: nat :| Wins(replies, j) && Best(replies) == replies[j].value;
      assert i == j;
    }
  }

  /** Merging the one reply of the own store is reading the own store, unless a live value was stored
      under a negative timestamp, which the merge drops. */
  lemma MergeOfOne(reply: Option<Version>)
    ensures Merge([reply]) == Plain(reply)
       <==> !(reply.Some? && reply.value.ts < 0 && !reply.value.tombstone && reply.value.value != Nil)
  {
    assert [reply][..0] == [];
    assert Best([reply]) == Better(Best([]), reply);
  }

  /** A value stored under a negative timestamp is read from the own store and not through the merge. */
  lemma NegativeTimestamp()
    ensures var d := Put(map[], "k", Entry(Live(Obj(1)), None, -1));
            Plain(Versioned(d, "k", 0.0)) == Obj(1) && Merge([Versioned(d, "k", 0.0)]) == Nil
  {
    var d := Put(map[], "k", Entry(Live(Obj(1)), None, -1));
    MergeOfOne(Versioned(d, "k", 0.0));
    MergePicksNewest([Versioned(d, "k", 0.0)], 0);
  }
}
