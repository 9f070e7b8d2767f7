/** The node objects of StorageNode in the system of Cluster: what a call on a node does to the stores is a
    stretch of a run, so what Cluster proves of every run holds for the objects.

    Like the runs of Cluster, this is about writes without TTL. */
module NodeInCluster {
  import opened Types
  import opened LwwStore
  import opened Replay
  import opened Consistency
  import opened Ring
  import SN = StorageNode
  import opened Cluster

  // ---------------------------------------------------------------- a fan-out as steps

  /** What became of the copy for one target: the clock at which its store took it, if it was reached, and
      whether its handle answered True. */
  datatype Fate = Fate(node: NodeInfo, clock: Option<real>, confirmed: bool)

  /** Only a reached replica confirms. */
  predicate Sensible(f: Fate) { f.confirmed ==> f.clock.Some? }

  function Reached(fates: seq<Fate>): set<NodeInfo> { set f | f in fates && f.clock.Some? :: f.node }

  function Confirming(fates: seq<Fate>): set<NodeInfo> { set f | f in fates && f.confirmed :: f.node }

  function Copies(nodes: set<NodeInfo>, w: Write): set<Parcel> { set n | n in nodes :: Parcel(n, w) }

  /** The steps for one target: delivered if reached, then acknowledged if the handle confirms. */
  function StepsOf(f: Fate, w: Write): seq<Step> {
    if f.clock.None? then []
    else
      [Deliver(Parcel(f.node, w), f.clock.value, 0)] + if f.confirmed then [Acknowledge(Parcel(f.node, w))] else []
  }

  function StepsOfAll(fates: seq<Fate>, w: Write): seq<Step> {
    if fates == [] then []
    else StepsOfAll(fates[..|fates| - 1], w) + StepsOf(fates[|fates| - 1], w)
  }

  /** The run, now at `s`, goes on with these steps and comes to `t`. */
  ghost predicate Leads(run: seq<State>, steps: seq<Step>, s: State, run': seq<State>, more: seq<Step>, t: State) {
    && IsRun(run, steps) && s == run[|run| - 1]
    && run <= run' && IsRun(run', steps + more) && t == run'[|run'| - 1]
  }

  lemma OneMore(run: seq<State>, steps: seq<Step>, s: State, step: Step)
    requires IsRun(run, steps) && s == run[|run| - 1] && Enabled(s, step)
    ensures Leads(run, steps, s, run + [Apply(s, step)], [step], Apply(s, step))
  {
  }

  lemma NoMore(run: seq<State>, steps: seq<Step>, s: State)
    requires IsRun(run, steps) && s == run[|run| - 1]
    ensures Leads(run, steps, s, run, [], s)
  {
    assert steps + [] == steps;
  }

  lemma LeadsFurther(run: seq<State>, steps: seq<Step>, s: State, mid: seq<State>, some: seq<Step>, m: State,
                     run': seq<State>, more: seq<Step>, t: State)
    requires Leads(run, steps, s, mid, some, m) && Leads(mid, steps + some, m, run', more, t)
    ensures Leads(run, steps, s, run', some + more, t)
  {
    assert steps + some + more == steps + (some + more);
  }

  /** From `s` to `t` the write reached these nodes, was confirmed by those, and nothing else happened. */
  ghost predicate Spread(s: State, t: State, w: Write, reached: set<NodeInfo>, confirmed: set<NodeInfo>) {
    && t.issued == s.issued && t.sent == s.sent
    && t.delivered == s.delivered + Copies(reached, w)
    && t.acks == s.acks + Copies(confirmed, w)
    && forall n: NodeInfo ::
         StoreOf(t, n) == if n in reached then Put(StoreOf(s, n), w.key, w.entry) else StoreOf(s, n)
  }

  lemma SpreadFurther(s: State, m: State, t: State, w: Write,
                      r: set<NodeInfo>, c: set<NodeInfo>, r': set<NodeInfo>, c': set<NodeInfo>)
    requires Spread(s, m, w, r, c) && Spread(m, t, w, r', c')
    ensures Spread(s, t, w, r + r', c + c')
  {
    assert Copies(r + r', w) == Copies(r, w) + Copies(r', w);
    assert Copies(c + c', w) == Copies(c, w) + Copies(c', w);
  }

  /** The copy is on its way, and its fate is one that can be. */
  predicate CanMeet(s: State, w: Write, f: Fate) {
    w.entry.expiresAt.None? && Sensible(f) && Parcel(f.node, w) in s.sent
  }

  /** One target's steps can be taken, and spread the write to it as its fate says. */
  lemma OneTarget(run: seq<State>, steps: seq<Step>, s: State, w: Write, f: Fate) returns (run': seq<State>, t: State)
    requires IsRun(run, steps) && s == run[|run| - 1] && CanMeet(s, w, f)
    ensures Leads(run, steps, s, run', StepsOf(f, w), t)
    ensures Spread(s, t, w, Reached([f]), Confirming([f]))
  {
    assert Reached([f]) == if f.clock.Some? then {f.node} else {};
    assert Confirming([f]) == if f.confirmed then {f.node} else {};
    if f.clock.None? {
      NoMore(run, steps, s);
      return run, s;
    }
    var deliver := Deliver(Parcel(f.node, w), f.clock.value, 0);
    DeliveryIsPut(StoreOf(s, f.node), w, f.clock.value, 0);
    OneMore(run, steps, s, deliver);
    t := Apply(s, deliver);
    run' := run + [t];
    assert Spread(s, t, w, {f.node}, {});
    if f.confirmed {
      var acknowledge := Acknowledge(Parcel(f.node, w));
      OneMore(run', steps + [deliver], t, acknowledge);
      LeadsFurther(run, steps, s, run', [deliver], t, run' + [Apply(t, acknowledge)], [acknowledge], Apply(t, acknowledge));
      t := Apply(t, acknowledge);
      run' := run' + [t];
    }
  }

  lemma FatesSplit(fates: seq<Fate>)
    requires fates != []
    ensures var n := |fates| - 1;
            && Reached(fates) == Reached(fates[..n]) + Reached([fates[n]])
            && Confirming(fates) == Confirming(fates[..n]) + Confirming([fates[n]])
  {
    var n := |fates| - 1;
    assert fates == fates[..n] + [fates[n]];
  }

  lemma {:induction false} AllTargets(run: seq<State>, steps: seq<Step>, s: State, w: Write, fates: seq<Fate>)
    returns (run': seq<State>, t: State)
    requires IsRun(run, steps) && s == run[|run| - 1] && forall f :: f in fates ==> CanMeet(s, w, f)
    ensures Leads(run, steps, s, run', StepsOfAll(fates, w), t)
    ensures Spread(s, t, w, Reached(fates), Confirming(fates))
    decreases |fates|
  {
    if fates == [] {
      NoMore(run, steps, s);
      return run, s;
    }
    var n := |fates| - 1;
    var front, f := fates[..n], fates[n];
    var mid, m := AllTargets(run, steps, s, w, front);
    assert CanMeet(s, w, f);
    run', t := OneTarget(mid, steps + StepsOfAll(front, w), m, w, f);
    LeadsFurther(run, steps, s, mid, StepsOfAll(front, w), m, run', StepsOf(f, w), t);
    FatesSplit(fates);
    SpreadFurther(s, m, t, w, Reached(front), Confirming(front), Reached([f]), Confirming([f]));
  }

  // ---------------------------------------------------------------- a call on a node as a stretch of a run

  /** The stores are those of the cluster's state. */
  ghost predicate Mirrors(stores: map<NodeInfo, LocalLWWStore>, s: State)
    reads stores.Values
  {
    forall n :: n in stores ==> stores[n].data == StoreOf(s, n)
  }

  /** The node reaches these stores; several nodes can share the map. */
  ghost predicate Serves(node: SN.StorageNode, stores: map<NodeInfo, LocalLWWStore>)
    reads node.ring
  {
    && node.Valid()
    && forall n :: (node.Known(n) <==> n in stores) && (n in stores ==> node.StoreOf(n) == stores[n])
  }

  /** The run has come to a state that the stores are in. */
  ghost predicate Stands(run: seq<State>, steps: seq<Step>, s: State, stores: map<NodeInfo, LocalLWWStore>)
    reads stores.Values
  {
    IsRun(run, steps) && s == run[|run| - 1] && Mirrors(stores, s)
  }

  function FateOf(n: NodeInfo, h: SN.Handle, d: Data, w: Write): Fate {
    Fate(n, if h.Reached() then Some(h.Clock()) else None, SN.Confirms(h, d, w.key, w.entry.body, w.entry.ts))
  }

  /** The replicas whose handles are called: all, unless one raises; then those before it. */
  function Called(node: SN.StorageNode, top: seq<NodeInfo>, now: real, network: SN.Network): (called: seq<NodeInfo>)
    requires forall i :: 0 <= i < |top| ==> node.Known(top[i])
    ensures called <= top
  {
    top[..SN.Asked(node.HandlesOf(top, now, network))]
  }

  /** The fates of the copies for the replicas `top`; with no replica the node writes to itself. */
  function FatesOf(node: SN.StorageNode, s: State, top: seq<NodeInfo>, w: Write, now: real, network: SN.Network)
    : seq<Fate>
    requires forall i :: 0 <= i < |top| ==> node.Known(top[i])
  {
    if top == [] then [Fate(node.info, Some(now), true)]
    else
      var called := Called(node, top, now, network);
      seq(|called|, i requires 0 <= i < |called| =>
        FateOf(called[i], node.HandleOf(called[i], now, network), StoreOf(s, called[i]), w))
  }

  function TargetsOf(node: SN.StorageNode, top: seq<NodeInfo>): set<NodeInfo> {
    if top == [] then {node.info} else Members(top)
  }

  lemma FatesFit(node: SN.StorageNode, s: State, top: seq<NodeInfo>, w: Write, now: real, network: SN.Network)
    requires forall i :: 0 <= i < |top| ==> node.Known(top[i])
    ensures forall f :: f in FatesOf(node, s, top, w, now, network) ==> Sensible(f) && f.node in TargetsOf(node, top)
  {
  }

  /** After an issue nothing of the new write is acknowledged but what is then confirmed. */
  lemma AcknowledgedIfConfirmed(run: seq<State>, steps: seq<Step>, s: State, t: State, w: Write,
                                targets: set<NodeInfo>, fates: seq<Fate>)
    requires IsRun(run, steps) && s == run[|run| - 1] && Enabled(s, Issue(w, targets))
    requires Spread(Apply(s, Issue(w, targets)), t, w, Reached(fates), Confirming(fates))
    requires forall f :: f in fates ==> f.node in targets
    ensures Acknowledged(t, w, targets) <==> exists f :: f in fates && f.confirmed
  {
    InvHolds(run, steps, |run| - 1);
    if f :| f in fates && f.confirmed {
      assert f.node in Confirming(fates) && Parcel(f.node, w) in Copies(Confirming(fates), w);
    }
    if n :| n in targets && Parcel(n, w) in t.acks {
      assert Parcel(n, w) !in s.acks;
      assert n in Confirming(fates);
    }
  }

  /** An issue and its fan-out. */
  lemma IssueAndSpread(run: seq<State>, steps: seq<Step>, s: State, w: Write, targets: set<NodeInfo>, fates: seq<Fate>)
    returns (run': seq<State>, t: State)
    requires IsRun(run, steps) && s == run[|run| - 1] && Enabled(s, Issue(w, targets))
    requires forall f :: f in fates ==> Sensible(f) && f.node in targets
    ensures Leads(run, steps, s, run', [Issue(w, targets)] + StepsOfAll(fates, w), t)
    ensures Spread(Apply(s, Issue(w, targets)), t, w, Reached(fates), Confirming(fates))
    ensures Acknowledged(t, w, targets) <==> exists f :: f in fates && f.confirmed
  {
    var issued := Apply(s, Issue(w, targets));
    OneMore(run, steps, s, Issue(w, targets));
    run', t := AllTargets(run + [issued], steps + [Issue(w, targets)], issued, w, fates);
    LeadsFurther(run, steps, s, run + [issued], [Issue(w, targets)], issued, run', StepsOfAll(fates, w), t);
    AcknowledgedIfConfirmed(run, steps, s, t, w, targets, fates);
  }

  /** What the fan-out leaves in the store of one node. */
  function LeftIn(node: SN.StorageNode, d: Data, top: seq<NodeInfo>, w: Write, now: real, network: SN.Network,
                  n: NodeInfo): Data
    requires node.Known(n) && forall i :: 0 <= i < |top| ==> node.Known(top[i])
  {
    if top == [] then (if n == node.info then Put(d, w.key, w.entry) else d)
    else if n in Called(node, top, now, network) then
      SN.Written(node.HandleOf(n, now, network), d, w.key, w.entry.body, None, w.entry.ts)
    else d
  }

  lemma ReachedOfFates(node: SN.StorageNode, s: State, top: seq<NodeInfo>, w: Write, now: real,
                       network: SN.Network, n: NodeInfo)
    requires node.Known(n) && forall i :: 0 <= i < |top| ==> node.Known(top[i])
    ensures n in Reached(FatesOf(node, s, top, w, now, network))
       <==> if top == [] then n == node.info
            else n in Called(node, top, now, network) && node.HandleOf(n, now, network).Reached()
  {
    var fates := FatesOf(node, s, top, w, now, network);
    var called := Called(node, top, now, network);
    if top != [] {
      if n in called {
        var i :| 0 <= i < |called| && called[i] == n;
        assert fates[i].node == n && fates[i] in fates;
      }
      assert forall f :: f in fates ==> f.node in called;
    } else {
      assert fates[0] in fates;
    }
  }

  lemma SpreadLeaves(node: SN.StorageNode, s: State, t: State, top: seq<NodeInfo>, w: Write, now: real,
                     network: SN.Network, n: NodeInfo)
    requires node.Known(n) && forall i :: 0 <= i < |top| ==> node.Known(top[i])
    requires w.entry.expiresAt.None?
    requires var fates := FatesOf(node, s, top, w, now, network);
             Spread(Apply(s, Issue(w, TargetsOf(node, top))), t, w, Reached(fates), Confirming(fates))
    ensures StoreOf(t, n) == LeftIn(node, StoreOf(s, n), top, w, now, network, n)
  {
    ReachedOfFates(node, s, top, w, now, network, n);
  }

  /** The stores are all the node can reach. */
  lemma StoresCover(node: SN.StorageNode, stores: map<NodeInfo, LocalLWWStore>)
    requires Serves(node, stores)
    ensures node.AllStores() == stores.Values
  {
    forall x | x in node.AllStores() ensures x in stores.Values {
      if x == node.store {
        assert node.Known(node.info) && stores[node.info] == x;
      } else {
        var n :| n in node.peers && node.peers[n] == x;
        assert node.Known(n) && stores[n] == x;
      }
    }
    forall x | x in stores.Values ensures x in node.AllStores() {
      var n :| n in stores && stores[n] == x;
      assert node.Known(n) && node.StoreOf(n) == x;
    }
  }

  predicate SomeConfirms(node: SN.StorageNode, s: State, top: seq<NodeInfo>, w: Write, now: real,
                         network: SN.Network)
    requires forall i :: 0 <= i < |top| ==> node.Known(top[i])
  {
    var called := Called(node, top, now, network);
    exists i :: 0 <= i < |called|
                && SN.Confirms(node.HandleOf(called[i], now, network), StoreOf(s, called[i]),
                               w.key, w.entry.body, w.entry.ts)
  }

  lemma ConfirmedFate(node: SN.StorageNode, s: State, top: seq<NodeInfo>, w: Write, now: real, network: SN.Network)
    requires forall i :: 0 <= i < |top| ==> node.Known(top[i])
    ensures (exists f :: f in FatesOf(node, s, top, w, now, network) && f.confirmed)
       <==> top == [] || SomeConfirms(node, s, top, w, now, network)
  {
    var fates := FatesOf(node, s, top, w, now, network);
    var called := Called(node, top, now, network);
    if top == [] {
      assert fates[0] in fates;
    } else if i :| 0 <= i < |called|
                   && SN.Confirms(node.HandleOf(called[i], now, network), StoreOf(s, called[i]),
                                  w.key, w.entry.body, w.entry.ts) {
      assert fates[i] in fates && fates[i].confirmed;
    }
  }

  /** The steps of a fan-out can be taken, leave each store as the handles do, and acknowledge the write
      exactly if some handle confirms. */
  lemma FanOutIsRun(node: SN.StorageNode, run: seq<State>, steps: seq<Step>, s: State, top: seq<NodeInfo>, w: Write,
                    now: real, network: SN.Network)
    returns (run': seq<State>, t: State)
    requires IsRun(run, steps) && s == run[|run| - 1] && Enabled(s, Issue(w, TargetsOf(node, top)))
    requires forall i :: 0 <= i < |top| ==> node.Known(top[i])
    ensures Leads(run, steps, s, run', [Issue(w, TargetsOf(node, top))]
                                       + StepsOfAll(FatesOf(node, s, top, w, now, network), w), t)
    ensures Acknowledged(t, w, TargetsOf(node, top))
       <==> top == [] || SomeConfirms(node, s, top, w, now, network)
    ensures forall n :: node.Known(n) ==> StoreOf(t, n) == LeftIn(node, StoreOf(s, n), top, w, now, network, n)
  {
    var fates := FatesOf(node, s, top, w, now, network);
    FatesFit(node, s, top, w, now, network);
    run', t := IssueAndSpread(run, steps, s, w, TargetsOf(node, top), fates);
    ConfirmedFate(node, s, top, w, now, network);
    forall n | node.Known(n) ensures StoreOf(t, n) == LeftIn(node, StoreOf(s, n), top, w, now, network, n) {
      SpreadLeaves(node, s, t, top, w, now, network, n);
    }
  }

  /** What a `set` or `delete` returns, from the state before it. */
  predicate Answer(node: SN.StorageNode, s: State, top: seq<NodeInfo>, w: Write, now: real, network: SN.Network,
                   ok: SN.Result<bool>)
    requires forall i :: 0 <= i < |top| ==> node.Known(top[i])
  {
    && (ok.Raised? <==> Called(node, top, now, network) != top)
    && (ok.Done? ==> (ok.value <==> top == [] || SomeConfirms(node, s, top, w, now, network)))
  }

  lemma AnswerIs(node: SN.StorageNode, s: State, top: seq<NodeInfo>, w: Write, now: real, network: SN.Network,
                 ok: SN.Result<bool>)
    requires forall i :: 0 <= i < |top| ==> node.Known(top[i])
    requires ok.Raised? <==> SN.Asked(node.HandlesOf(top, now, network)) < |top|
    requires top == [] ==> ok == SN.Done(true)
    requires top != [] && ok.Done? ==>
               (ok.value <==>
                exists i :: 0 <= i < |top|
                            && SN.Confirms(node.HandleOf(top[i], now, network), StoreOf(s, top[i]),
                                           w.key, w.entry.body, w.entry.ts))
    ensures Answer(node, s, top, w, now, network, ok)
  {
  }

  /** A node's `set` or `delete` is a stretch of a run: the write is issued to the replicas of its ring (on
      an empty ring to itself), delivered to each that is reached, acknowledged by each that confirms. If
      it returns, it returns True exactly if the write is then acknowledged; it raises exactly if a handle
      does, and the steps are then those of the replicas before that one, which may have taken and
      acknowledged the write. The stores are those of the new state. */
  method WriteAsRun(node: SN.StorageNode, stores: map<NodeInfo, LocalLWWStore>, key: string, body: Body, ts: int, now: real,
                    network: SN.Network, ghost run: seq<State>, ghost steps: seq<Step>, ghost s: State)
    returns (ok: SN.Result<bool>, ghost top: seq<NodeInfo>, ghost run': seq<State>, ghost t: State)
    requires Serves(node, stores) && Stands(run, steps, s, stores) && Distinct(node.ring.score, key, node.ring.nodes)
    requires ts > 0 && forall o :: o in s.issued && o.key == key ==> o.entry.ts != ts
    modifies stores.Values
    ensures node.Targets(key, top) && forall i :: 0 <= i < |top| ==> node.Known(top[i])
    ensures var w := Write(key, Entry(body, None, ts));
            && Leads(run, steps, s, run', [Issue(w, TargetsOf(node, top))]
                                          + StepsOfAll(FatesOf(node, s, top, w, now, network), w), t)
            && (ok.Done? ==> (ok.value <==> Acknowledged(t, w, TargetsOf(node, top))))
            && (ok.Raised? <==> Called(node, top, now, network) != top)
            && (Acknowledged(t, w, TargetsOf(node, top)) <==> top == [] || SomeConfirms(node, s, top, w, now, network))
    ensures Mirrors(stores, t)
  {
    ghost var w := Write(key, Entry(body, None, ts));
    StoresCover(node, stores);
    ok, top := node.Write(key, body, None, ts, now, network);
    AnswerIs(node, s, top, w, now, network, ok);
    forall n | n in stores ensures stores[n].data == LeftIn(node, StoreOf(s, n), top, w, now, network, n) {
      var called := Called(node, top, now, network);
      if n in called {
        var i :| 0 <= i < |called| && called[i] == n;
        assert node.StoreOf(top[i]) == stores[n];
      } else {
        assert node.StoreOf(n) == stores[n];
      }
    }
    run', t := FanOutIsRun(node, run, steps, s, top, w, now, network);
  }

  // ---------------------------------------------------------------- a read

  function ProbeOf(n: NodeInfo, h: SN.Handle, time: nat): Probe {
    Probe(n, time, h.Confirmed(), if h.Reached() then h.Clock() else 0.0)
  }

  /** The probes of a `get` made now; with no replica the node asks itself. */
  function ProbesOf(node: SN.StorageNode, top: seq<NodeInfo>, time: nat, now: real, network: SN.Network): seq<Probe>
    requires forall i :: 0 <= i < |top| ==> node.Known(top[i])
  {
    if top == [] then [Probe(node.info, time, true, now)]
    else seq(|top|, i requires 0 <= i < |top| => ProbeOf(top[i], node.HandleOf(top[i], now, network), time))
  }

  /** Without TTL there is nothing to drop, and what is read from the own store is what the merge makes of it. */
  lemma NothingLapses(run: seq<State>, steps: seq<Step>, s: State, n: NodeInfo, key: string, now: real)
    requires IsRun(run, steps) && s == run[|run| - 1]
    ensures Touch(StoreOf(s, n), key, now) == StoreOf(s, n)
    ensures Plain(Versioned(StoreOf(s, n), key, now)) == Merge([Versioned(StoreOf(s, n), key, now)])
  {
    var d := StoreOf(s, n);
    InvHolds(run, steps, |run| - 1);
    assert Reflects(d, DeliveredTo(s, n));
    if key in d {
      assert Write(key, d[key]) in s.issued;
    }
    MergeOfOne(Versioned(d, key, now));
  }

  /** What the handles read now is what the probes read. */
  lemma ReadingsAreReplies(node: SN.StorageNode, run: seq<State>, steps: seq<Step>, s: State, top: seq<NodeInfo>,
                           key: string, now: real, network: SN.Network, replies: seq<Option<Version>>)
    requires IsRun(run, steps) && s == run[|run| - 1]
    requires |replies| == |top| && forall i :: 0 <= i < |top| ==> node.Known(top[i])
    requires forall i :: 0 <= i < |top| ==>
               replies[i] == SN.Reading(node.HandleOf(top[i], now, network), StoreOf(s, top[i]), key)
    ensures var probes := ProbesOf(node, top, |run| - 1, now, network);
            && Probes(run, probes)
            && Read(run, node.info, probes, key)
               == if top == [] then Plain(Versioned(StoreOf(s, node.info), key, now)) else Merge(replies)
  {
    var probes := ProbesOf(node, top, |run| - 1, now, network);
    if top == [] {
      NothingLapses(run, steps, s, node.info, key, now);
      assert Replies(run, node.info, probes, key) == [Versioned(StoreOf(s, node.info), key, now)];
    } else {
      assert Replies(run, node.info, probes, key) == replies;
    }
  }

  lemma LookingChangesNothing(node: SN.StorageNode, run: seq<State>, steps: seq<Step>, s: State, n: NodeInfo,
                              key: string, now: real, network: SN.Network)
    requires IsRun(run, steps) && s == run[|run| - 1] && node.Known(n)
    ensures SN.Looked(node.HandleOf(n, now, network), StoreOf(s, n), key) == StoreOf(s, n)
    ensures Touch(StoreOf(s, n), key, now) == StoreOf(s, n)
  {
    var h := node.HandleOf(n, now, network);
    NothingLapses(run, steps, s, n, key, now);
    if h.Reached() {
      NothingLapses(run, steps, s, n, key, h.Clock());
    }
  }

  /** A node's `get` is a read of the cluster, all replicas asked now: it leaves the stores as they are, and
      returns the value of the newest write delivered to a replica it heard. */
  method GetAsRead(node: SN.StorageNode, stores: map<NodeInfo, LocalLWWStore>, key: string, now: real,
                   network: SN.Network, ghost run: seq<State>, ghost steps: seq<Step>, ghost s: State)
    returns (value: Value, ghost top: seq<NodeInfo>, ghost probes: seq<Probe>)
    requires Serves(node, stores) && Stands(run, steps, s, stores) && Distinct(node.ring.score, key, node.ring.nodes)
    requires forall n :: SN.Monotonic(network(n))
    modifies stores.Values
    ensures node.Targets(key, top) && forall i :: 0 <= i < |top| ==> node.Known(top[i])
    ensures probes == ProbesOf(node, top, |run| - 1, now, network)
    ensures Probes(run, probes) && value == Read(run, node.info, probes, key)
    ensures forall w: Write :: NewestSeen(run, node.info, probes, key, w) ==> value == ValueOf(w)
    ensures Mirrors(stores, s)
  {
    StoresCover(node, stores);
    ghost var replies;
    value, top, replies := node.Get(key, now, network);
    probes := ProbesOf(node, top, |run| - 1, now, network);
    forall n | n in stores ensures stores[n].data == StoreOf(s, n) {
      LookingChangesNothing(node, run, steps, s, n, key, now, network);
    }
    ReadingsAreReplies(node, run, steps, s, top, key, now, network, replies);
    ReadReturnsNewest(run, steps, node.info, probes, key);
  }
}
