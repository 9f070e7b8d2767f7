/** Replicated writes and merged reads over an unreliable network.

    Every node has a store. A write is issued to a set of target nodes; each of its copies may be
    delivered late, twice, after younger writes, or never. A read asks a list of replicas, each at its
    own moment, some of which stay silent, and merges the replies. */
module Cluster {
  import opened Types
  import opened LwwStore
  import opened Replay
  import opened Dispatcher
  import opened Consistency
  import opened Ring
  import opened Quorum

  /** One copy of a write on its way to one node. */
  datatype Parcel = Parcel(to: NodeInfo, write: Write)

  /** `issued`, `sent`, `delivered` and `acks` are history: the writes made, their copies, the copies
      that reached a store at least once, and the copies whose handle answered True. */
  datatype State = State(stores: map<NodeInfo, Data>, issued: set<Write>,
                         sent: set<Parcel>, delivered: set<Parcel>, acks: set<Parcel>)

  datatype Step =
    | Issue(write: Write, targets: set<NodeInfo>)
    | Deliver(parcel: Parcel, now: real, wall: int)
    | Acknowledge(parcel: Parcel)

  const START := State(map[], {}, {}, {}, {})

  function StoreOf(s: State, n: NodeInfo): Data { if n in s.stores then s.stores[n] else map[] }

  function DeliveredTo(s: State, n: NodeInfo): set<Write> {
    set p | p in s.delivered && p.to == n :: p.write
  }

  /** The request that carries a write to a remote replica. */
  function RequestOf(w: Write): Message {
    match w.entry.body
    case Live(v) => SetRequest(w.key, v, None, w.entry.ts)
    case Tombstone => DeleteRequest(w.key, w.entry.ts)
  }

  /** Writes carry no TTL, a positive timestamp, and no timestamp used before on the key. */
  ghost predicate Enabled(s: State, step: Step) {
    match step
    case Issue(w, _) =>
      && w.entry.expiresAt.None? && w.entry.ts > 0
      && forall o :: o in s.issued && o.key == w.key ==> o.entry.ts != w.entry.ts
    case Deliver(p, _, _) => p in s.sent
    case Acknowledge(p) => p in s.delivered
  }

  function Apply(s: State, step: Step): State {
    match step
    case Issue(w, targets) =>
      s.(issued := s.issued + {w}, sent := s.sent + set t | t in targets :: Parcel(t, w))
    case Deliver(p, now, wall) =>
      s.(stores := s.stores[p.to := Served(StoreOf(s, p.to), RequestOf(p.write), now, wall).1],
         delivered := s.delivered + {p})
    case Acknowledge(p) => s.(acks := s.acks + {p})
  }

  ghost predicate IsRun(run: seq<State>, steps: seq<Step>) {
    && |run| == |steps| + 1 && run[0] == START
    && forall i :: 0 <= i < |steps| ==> Enabled(run[i], steps[i]) && run[i + 1] == Apply(run[i], steps[i])
  }

  // ---------------------------------------------------------------- the invariant

  ghost predicate Inv(s: State) {
    && Consistent(s.issued)
    && (forall w :: w in s.issued ==> w.entry.expiresAt.None? && w.entry.ts > 0)
    && (forall p :: p in s.sent ==> p.write in s.issued)
    && s.delivered <= s.sent && s.acks <= s.delivered
    && (forall n: NodeInfo :: Reflects(StoreOf(s, n), DeliveredTo(s, n)))
  }

  lemma DeliveryIsPut(d: Data, w: Write, now: real, wall: int)
    requires w.entry.expiresAt.None?
    ensures Served(d, RequestOf(w), now, wall).1 == Put(d, w.key, w.entry)
  {
  }

  /** A delivery keeps every store the summary of what was delivered to it. */
  lemma DeliveryReflects(s: State, p: Parcel, now: real, wall: int, n: NodeInfo)
    requires p.write.entry.expiresAt.None? && Reflects(StoreOf(s, n), DeliveredTo(s, n))
    ensures var s' := Apply(s, Deliver(p, now, wall)); Reflects(StoreOf(s', n), DeliveredTo(s', n))
  {
    var s' := Apply(s, Deliver(p, now, wall));
    DeliveryIsPut(StoreOf(s, p.to), p.write, now, wall);
    if n == p.to {
      PutReflects(StoreOf(s, n), DeliveredTo(s, n), p.write);
      assert DeliveredTo(s', n) == DeliveredTo(s, n) + {p.write};
    } else {
      assert DeliveredTo(s', n) == DeliveredTo(s, n);
    }
  }

  lemma StepKeepsInv(s: State, step: Step)
    requires Inv(s) && Enabled(s, step)
    ensures Inv(Apply(s, step))
  {
    var s' := Apply(s, step);
    forall n: NodeInfo ensures Reflects(StoreOf(s', n), DeliveredTo(s', n)) {
      assert Reflects(StoreOf(s, n), DeliveredTo(s, n));
      if step.Deliver? {
        DeliveryReflects(s, step.parcel, step.now, step.wall, n);
      } else {
        assert DeliveredTo(s', n) == DeliveredTo(s, n);
      }
    }
  }

  /** In every reachable state each store is the summary of the writes delivered to its node. */
  lemma {:induction false} InvHolds(run: seq<State>, steps: seq<Step>, i: nat)
    requires IsRun(run, steps) && i < |run|
    ensures Inv(run[i])
  {
    if i > 0 {
      InvHolds(run, steps, i - 1);
      StepKeepsInv(run[i - 1], steps[i - 1]);
    }
  }

  lemma {:induction false} HistoryGrows(run: seq<State>, steps: seq<Step>, i: nat, j: nat)
    requires IsRun(run, steps) && i <= j < |run|
    ensures run[i].issued <= run[j].issued && run[i].delivered <= run[j].delivered && run[i].acks <= run[j].acks
    decreases j - i
  {
    if i < j {
      HistoryGrows(run, steps, i, j - 1);
    }
  }

  // ---------------------------------------------------------------- reads

  /** One replica asked by a read: which node, when, whether its reply arrives, its clock. */
  datatype Probe = Probe(node: NodeInfo, time: nat, answers: bool, now: real)

  ghost predicate Probes(run: seq<State>, probes: seq<Probe>) {
    forall i :: 0 <= i < |probes| ==> probes[i].time < |run|
  }

  predicate Heard(self: NodeInfo, p: Probe) { p.node == self || p.answers }

  /** What the reader's handle for a replica returns: its own store directly, the others over the wire. */
  ghost function ReplyTo(run: seq<State>, self: NodeInfo, p: Probe, key: string): Option<Version>
    requires p.time < |run|
  {
    var d := StoreOf(run[p.time], p.node);
    if p.node == self then Versioned(d, key, p.now)
    else if p.answers then RemoteRead(d, key, p.now)
    else None
  }

  ghost function Replies(run: seq<State>, self: NodeInfo, probes: seq<Probe>, key: string): seq<Option<Version>>
    requires Probes(run, probes)
  {
    seq(|probes|, i requires 0 <= i < |probes| => ReplyTo(run, self, probes[i], key))
  }

  /** A node's `get`: merge the replies of the replicas. (On an empty ring it reads its own store, which
      is a read with the one probe of itself: see `Consistency.MergeOfOne`.) */
  ghost function Read(run: seq<State>, self: NodeInfo, probes: seq<Probe>, key: string): Value
    requires Probes(run, probes)
  {
    Merge(Replies(run, self, probes, key))
  }

  /** A write delivered, by the time it was asked, to a replica whose reply is heard. */
  ghost predicate Saw(run: seq<State>, self: NodeInfo, probes: seq<Probe>, w: Write)
    requires Probes(run, probes)
  {
    exists i :: 0 <= i < |probes| && Heard(self, probes[i]) && w in DeliveredTo(run[probes[i].time], probes[i].node)
  }

  function ValueOf(w: Write): Value { if w.entry.body.Live? then w.entry.body.value else Nil }

  /** A heard reply is the version of the newest write delivered there; silence means none. */
  lemma ReplyIsNewest(run: seq<State>, steps: seq<Step>, self: NodeInfo, p: Probe, key: string)
    requires IsRun(run, steps) && p.time < |run|
    ensures var d := StoreOf(run[p.time], p.node);
            ReplyTo(run, self, p, key)
            == if Heard(self, p) && key in d
               then Some(Version(ValueOf(Write(key, d[key])), d[key].ts, d[key].body.Tombstone?))
               else None
    ensures var d := StoreOf(run[p.time], p.node); key in d ==> d[key].ts > 0
  {
    InvHolds(run, steps, p.time);
    var d := StoreOf(run[p.time], p.node);
    assert Reflects(d, DeliveredTo(run[p.time], p.node));
    if key in d {
      assert Write(key, d[key]) in run[p.time].issued;
    }
    RemoteReadRefinesLocal(d, key, p.now);
  }

  /** The version is that of a write on the key which the read saw. */
  ghost predicate Told(run: seq<State>, self: NodeInfo, probes: seq<Probe>, key: string, v: Version, o: Write)
    requires Probes(run, probes)
  {
    && Saw(run, self, probes, o) && o.key == key && o.entry.ts > 0
    && v == Version(ValueOf(o), o.entry.ts, o.entry.body.Tombstone?)
  }

  /** Every reply tells of a write the read saw. */
  lemma RepliesTell(run: seq<State>, steps: seq<Step>, self: NodeInfo, probes: seq<Probe>, key: string)
    requires IsRun(run, steps) && Probes(run, probes)
    ensures forall i :: 0 <= i < |probes| && Replies(run, self, probes, key)[i].Some? ==>
              exists o :: Told(run, self, probes, key, Replies(run, self, probes, key)[i].value, o)
  {
    var replies := Replies(run, self, probes, key);
    forall i | 0 <= i < |probes| && replies[i].Some?
      ensures exists o :: Told(run, self, probes, key, replies[i].value, o)
    {
      ReplyIsNewest(run, steps, self, probes[i], key);
      InvHolds(run, steps, probes[i].time);
      var d := StoreOf(run[probes[i].time], probes[i].node);
      assert Reflects(d, DeliveredTo(run[probes[i].time], probes[i].node));
      assert Saw(run, self, probes, Write(key, d[key]));
      assert Told(run, self, probes, key, replies[i].value, Write(key, d[key]));
    }
  }

  /** Newest delivered write wins: a read returns exactly the value of the highest-timestamped write on
      the key delivered to any replica it heard, or nothing if that write is a delete or there is none. */
  lemma ReadReturnsNewest(run: seq<State>, steps: seq<Step>, self: NodeInfo, probes: seq<Probe>, key: string)
    requires IsRun(run, steps) && Probes(run, probes)
    ensures (forall w :: Saw(run, self, probes, w) ==> w.key != key) ==> Read(run, self, probes, key) == Nil
    ensures forall w: Write :: NewestSeen(run, self, probes, key, w) ==> Read(run, self, probes, key) == ValueOf(w)
    ensures forall w: Write :: w.key == key && Saw(run, self, probes, w) ==>
              exists o :: NewestSeen(run, self, probes, key, o)
  {
    RepliesTell(run, steps, self, probes, key);
    BestIsHighest(Replies(run, self, probes, key));
    BestWins(Replies(run, self, probes, key));
    forall w: Write | w.key == key && Saw(run, self, probes, w)
      ensures exists o :: NewestSeen(run, self, probes, key, o)
      ensures NewestSeen(run, self, probes, key, w) ==> Read(run, self, probes, key) == ValueOf(w)
    {
      NewestIsReturned(run, steps, self, probes, key, w);
      var o :| NewestSeen(run, self, probes, key, o) && Read(run, self, probes, key) == ValueOf(o);
      SeenIsConsistent(run, steps, self, probes, o, w);
    }
  }

  /** Some reply is at least as new as any write the read saw. */
  lemma HeardWriteIsAnswered(run: seq<State>, steps: seq<Step>, self: NodeInfo, probes: seq<Probe>, key: string, w: Write)
    requires IsRun(run, steps) && Probes(run, probes)
    requires w.key == key && Saw(run, self, probes, w)
    ensures exists i :: 0 <= i < |probes| && Replies(run, self, probes, key)[i].Some?
                        && Replies(run, self, probes, key)[i].value.ts >= w.entry.ts > 0
  {
    var i :| 0 <= i < |probes| && Heard(self, probes[i]) && w in DeliveredTo(run[probes[i].time], probes[i].node);
    InvHolds(run, steps, probes[i].time);
    assert Reflects(StoreOf(run[probes[i].time], probes[i].node), DeliveredTo(run[probes[i].time], probes[i].node));
    ReplyIsNewest(run, steps, self, probes[i], key);
    assert Replies(run, self, probes, key)[i] == ReplyTo(run, self, probes[i], key);
    assert w in run[probes[i].time].issued;
  }

  /** So is the reply the merge picks. */
  lemma HeardWriteIsTopped(run: seq<State>, steps: seq<Step>, self: NodeInfo, probes: seq<Probe>, key: string, w: Write)
    requires IsRun(run, steps) && Probes(run, probes)
    requires w.key == key && Saw(run, self, probes, w)
    ensures Best(Replies(run, self, probes, key)).ts >= w.entry.ts > 0
  {
    HeardWriteIsAnswered(run, steps, self, probes, key, w);
    BestIsHighest(Replies(run, self, probes, key));
  }

  /** The newest write on the key that the read saw. */
  ghost predicate NewestSeen(run: seq<State>, self: NodeInfo, probes: seq<Probe>, key: string, w: Write)
    requires Probes(run, probes)
  {
    && w.key == key && Saw(run, self, probes, w)
    && forall o :: Saw(run, self, probes, o) && o.key == key ==> o.entry.ts <= w.entry.ts
  }

  /** What the merge picks is told of by a write the read saw. */
  lemma BestTells(run: seq<State>, steps: seq<Step>, self: NodeInfo, probes: seq<Probe>, key: string) returns (o: Write)
    requires IsRun(run, steps) && Probes(run, probes) && Best(Replies(run, self, probes, key)) != NOTHING
    ensures Told(run, self, probes, key, Best(Replies(run, self, probes, key)), o)
  {
    var replies := Replies(run, self, probes, key);
    RepliesTell(run, steps, self, probes, key);
    BestWins(replies);
    var j: nat :| Wins(replies, j) && Best(replies) == replies[j].value;
    o :| Told(run, self, probes, key, replies[j].value, o);
  }

  /** The writes a read saw have a newest one, and it is what the merge returns. */
  lemma NewestIsReturned(run: seq<State>, steps: seq<Step>, self: NodeInfo, probes: seq<Probe>, key: string, w: Write)
    requires IsRun(run, steps) && Probes(run, probes) && w.key == key && Saw(run, self, probes, w)
    ensures exists o :: NewestSeen(run, self, probes, key, o) && Read(run, self, probes, key) == ValueOf(o)
  {
    HeardWriteIsTopped(run, steps, self, probes, key, w);
    var o := BestTells(run, steps, self, probes, key);
    forall x | Saw(run, self, probes, x) && x.key == key ensures x.entry.ts <= o.entry.ts {
      HeardWriteIsTopped(run, steps, self, probes, key, x);
    }
  }

  lemma SeenIsConsistent(run: seq<State>, steps: seq<Step>, self: NodeInfo, probes: seq<Probe>, a: Write, b: Write)
    requires IsRun(run, steps) && Probes(run, probes)
    requires Saw(run, self, probes, a) && Saw(run, self, probes, b)
    ensures a.key == b.key && a.entry.ts == b.entry.ts ==> a == b
  {
    var last := |run| - 1;
    InvHolds(run, steps, last);
    SeenIsIssued(run, steps, self, probes, a);
    SeenIsIssued(run, steps, self, probes, b);
  }

  lemma SeenIsIssued(run: seq<State>, steps: seq<Step>, self: NodeInfo, probes: seq<Probe>, w: Write)
    requires IsRun(run, steps) && Probes(run, probes) && Saw(run, self, probes, w)
    ensures w in run[|run| - 1].issued
  {
    var i :| 0 <= i < |probes| && Heard(self, probes[i]) && w in DeliveredTo(run[probes[i].time], probes[i].node);
    InvHolds(run, steps, probes[i].time);
    HistoryGrows(run, steps, probes[i].time, |run| - 1);
  }

  // ---------------------------------------------------------------- acknowledged writes

  /** `set` returned True: some target's handle answered True. */
  ghost predicate Acknowledged(s: State, w: Write, targets: set<NodeInfo>) {
    exists t :: t in targets && Parcel(t, w) in s.acks
  }

  /** An acknowledged write endures: from then on, in every later state, some one of its targets holds an
      entry for the key at least as new, even where the answer hid a rejection. */
  lemma AcknowledgedWriteEndures(run: seq<State>, steps: seq<Step>, i: nat, w: Write, targets: set<NodeInfo>)
    requires IsRun(run, steps) && i < |run| && Acknowledged(run[i], w, targets)
    ensures exists t :: t in targets && forall j :: i <= j < |run| ==>
              w.key in StoreOf(run[j], t) && StoreOf(run[j], t)[w.key].ts >= w.entry.ts
  {
    var t :| t in targets && Parcel(t, w) in run[i].acks;
    forall j | i <= j < |run| ensures w.key in StoreOf(run[j], t) && StoreOf(run[j], t)[w.key].ts >= w.entry.ts {
      HistoryGrows(run, steps, i, j);
      InvHolds(run, steps, i);
      InvHolds(run, steps, j);
      assert Parcel(t, w) in run[j].delivered;
      assert w in DeliveredTo(run[j], t) && Reflects(StoreOf(run[j], t), DeliveredTo(run[j], t));
    }
  }

  /** Reads never go back behind an acknowledged write whose acknowledging replica they hear: they
      return the value of a write at least as new. */
  lemma AcknowledgedWriteIsSeen(run: seq<State>, steps: seq<Step>, self: NodeInfo, probes: seq<Probe>,
                                w: Write, t: NodeInfo, since: nat, i: nat)
    requires IsRun(run, steps) && Probes(run, probes) && since < |run| && Parcel(t, w) in run[since].acks
    requires i < |probes| && probes[i].node == t && probes[i].time >= since && Heard(self, probes[i])
    ensures exists o :: NewestSeen(run, self, probes, w.key, o) && o.entry.ts >= w.entry.ts
                        && Read(run, self, probes, w.key) == ValueOf(o)
  {
    InvHolds(run, steps, since);
    HistoryGrows(run, steps, since, probes[i].time);
    assert Parcel(t, w) in run[probes[i].time].delivered;
    assert w in DeliveredTo(run[probes[i].time], t);
    assert Saw(run, self, probes, w);
    NewestIsReturned(run, steps, self, probes, w.key, w);
  }

  // ---------------------------------------------------------------- membership change

  /** A write outlives a change of membership. It was delivered to all top-`r` nodes of the ring
      `before`; the reader's ring is `after`. If fewer nodes left than there were replicas, fewer than
      `r` joined, the nodes that stayed answer, and no newer write on the key exists, then the read
      still returns it, whatever the other replicas hold or whether they answer. */
  lemma WriteOutlivesMembershipChange(
    run: seq<State>, steps: seq<Step>, self: NodeInfo, probes: seq<Probe>, w: Write, since: nat,
    score: Score, before: set<NodeInfo>, after: set<NodeInfo>,
    oldOrder: seq<NodeInfo>, newOrder: seq<NodeInfo>, r: nat)
    requires IsRun(run, steps) && Probes(run, probes) && since < |run|
    requires Enumerates(oldOrder, before) && Enumerates(newOrder, after)
    requires Distinct(score, w.key, before) && Distinct(score, w.key, after)
    requires forall x :: x in TopNodes(score, w.key, oldOrder, r) ==> w in DeliveredTo(run[since], x)
    requires |before - after| < r && |before - after| < |before| && |after - before| < r
    requires |probes| == |TopNodes(score, w.key, newOrder, r)|
    requires forall i :: 0 <= i < |probes| ==> probes[i].node == TopNodes(score, w.key, newOrder, r)[i]
    requires forall i :: 0 <= i < |probes| ==> probes[i].time >= since
    requires forall i :: 0 <= i < |probes| && probes[i].node in before ==> probes[i].answers
    requires forall o :: o in run[|run| - 1].issued && o.key == w.key ==> o.entry.ts <= w.entry.ts
    ensures Read(run, self, probes, w.key) == ValueOf(w)
  {
    FewChangesOverlap(score, w.key, before, after, r);
    var x :| InTop(score, w.key, before, r, x) && InTop(score, w.key, after, r, x);
    TopNodesIsTop(score, w.key, before, oldOrder, r);
    TopNodesIsTop(score, w.key, after, newOrder, r);
    var top := TopNodes(score, w.key, newOrder, r);
    assert x in top;
    var i :| 0 <= i < |top| && top[i] == x;
    HistoryGrows(run, steps, since, probes[i].time);
    assert w in DeliveredTo(run[probes[i].time], x);
    assert Saw(run, self, probes, w);
    forall o | Saw(run, self, probes, o) && o.key == w.key ensures o.entry.ts <= w.entry.ts {
      SeenIsIssued(run, steps, self, probes, o);
    }
    assert NewestSeen(run, self, probes, w.key, w);
    ReadReturnsNewest(run, steps, self, probes, w.key);
  }
}
