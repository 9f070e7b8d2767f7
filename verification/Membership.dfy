/** The gossip protocol as a system of nodes: joins through a seed, peer-list pulls, announcements,
    evictions and departures, interleaved at will and delivered late or repeatedly. */
module Membership {
  import opened Types
  import opened Ring
  import opened Gossip
  import opened Sets

  /** A reply to a peer-list request, possibly long in flight. */
  datatype Reply = Reply(to: NodeInfo, from: NodeInfo, members: set<NodeInfo>)

  /** `views` holds the running nodes; `announces` and `leaves` are (receiver, subject) pairs; `heard`
      (announcements processed), `started` and `seeds` are history. */
  datatype Net = Net(views: map<NodeInfo, View>, pulls: set<(NodeInfo, NodeInfo)>, replies: set<Reply>,
                     announces: set<(NodeInfo, NodeInfo)>, leaves: set<(NodeInfo, NodeInfo)>,
                     heard: set<(NodeInfo, NodeInfo)>, started: set<NodeInfo>, seeds: set<NodeInfo>)

  const QUIET := Net(map[], {}, {}, {}, {}, {}, {}, {})

  datatype Step =
    | Start(node: NodeInfo, seed: NodeInfo)
    | AnnounceJoin(node: NodeInfo)
    | HearJoin(to: NodeInfo, who: NodeInfo)
    | Pull(node: NodeInfo, peer: NodeInfo)
    | Serve(node: NodeInfo, peer: NodeInfo)
    | Learn(reply: Reply, part: set<NodeInfo>)   // the nodes read; all, unless one of them cannot be read
    | Evict(node: NodeInfo, peer: NodeInfo)
    | AnnounceLeave(node: NodeInfo)
    | HearLeave(to: NodeInfo, who: NodeInfo)
    | Stop(node: NodeInfo)

  predicate Enabled(net: Net, step: Step) {
    match step
    case Start(n, _) => n !in net.views
    case AnnounceJoin(n) => n in net.views
    case HearJoin(to, who) => (to, who) in net.announces && to in net.views
    case Pull(n, p) => n in net.views && p in Candidates(net.views[n], n)
    case Serve(n, p) => (n, p) in net.pulls && p in net.views
    case Learn(reply, part) => reply in net.replies && reply.to in net.views && part <= reply.members
    case Evict(n, p) => (n, p) in net.pulls && n in net.views
    case AnnounceLeave(n) => n in net.views
    case HearLeave(to, who) => (to, who) in net.leaves && to in net.views
    case Stop(n) => n in net.views
  }

  /** The messages of a broadcast: one to every other member of the sender's ring. */
  function Broadcast(v: View, self: NodeInfo): set<(NodeInfo, NodeInfo)> {
    set p | p in v.ring && p != self :: (p, self)
  }

  function Apply(net: Net, step: Step): Net
    requires Enabled(net, step)
  {
    match step
    case Start(n, seed) =>
      net.(views := net.views[n := View({seed, n}, {}, seed)], started := net.started + {n}, seeds := net.seeds + {seed})
    case AnnounceJoin(n) => net.(announces := net.announces + Broadcast(net.views[n], n))
    case HearJoin(to, who) =>
      net.(views := net.views[to := Met(net.views[to], who)], heard := net.heard + {(to, who)})
    case Pull(n, p) => net.(pulls := net.pulls + {(n, p)})
    case Serve(n, p) => net.(replies := net.replies + {Reply(n, p, net.views[p].ring - {p})})
    case Learn(r, part) => net.(views := net.views[r.to := Learned(net.views[r.to], r.to, part)])
    case Evict(n, p) => net.(views := net.views[n := Dropped(net.views[n], p)])
    case AnnounceLeave(n) => net.(leaves := net.leaves + Broadcast(net.views[n], n))
    case HearLeave(to, who) => net.(views := net.views[to := Dropped(net.views[to], who)])
    case Stop(n) => net.(views := net.views - {n})
  }

  ghost predicate IsRun(run: seq<Net>, steps: seq<Step>) {
    && |run| == |steps| + 1
    && forall i :: 0 <= i < |steps| ==> Enabled(run[i], steps[i]) && run[i + 1] == Apply(run[i], steps[i])
  }

  // ---------------------------------------------------------------- what every run keeps

  /** The ring and the discovery agree: the node is in its own ring, recorded peers are ring members
      other than itself, and every other member is one it will gossip with. */
  predicate InStep(v: View, self: NodeInfo) {
    && self in v.ring && self !in v.peers && v.peers <= v.ring
    && v.ring <= Candidates(v, self) + {self}
  }

  /** Addresses somebody vouched for: given as a seed, or of a node that started and announces itself. */
  function Origins(net: Net): set<NodeInfo> { net.started + net.seeds }

  ghost predicate Inv(net: Net) {
    && (forall n :: n in net.views ==> InStep(net.views[n], n))
    && (forall n :: n in net.views ==> net.views[n].ring <= Origins(net) && net.views[n].seed in net.seeds)
    && (forall r :: r in net.replies ==> r.members <= Origins(net))
    && (forall m :: m in net.announces ==> m.1 in net.started)
    && (forall m :: m in net.pulls ==> m.1 != m.0)
    && (forall m :: m in net.leaves ==> m.1 != m.0)
    && net.views.Keys <= net.started
  }

  lemma StepKeepsInv(net: Net, step: Step)
    requires Inv(net) && Enabled(net, step)
    ensures Inv(Apply(net, step))
  {
  }

  lemma {:induction false} InvHolds(run: seq<Net>, steps: seq<Step>, i: nat)
    requires IsRun(run, steps) && Inv(run[0]) && i < |run|
    ensures Inv(run[i])
  {
    if i > 0 {
      InvHolds(run, steps, i - 1);
      StepKeepsInv(run[i - 1], steps[i - 1]);
    }
  }

  /** Ring and discovery stay in step in every run, evictions and departures included. */
  lemma RingAndDiscoveryInStep(run: seq<Net>, steps: seq<Step>, i: nat, n: NodeInfo)
    requires IsRun(run, steps) && run[0] == QUIET && i < |run| && n in run[i].views
    ensures InStep(run[i].views[n], n)
  {
    InvHolds(run, steps, i);
  }

  /** No invented members: in every run each address in a ring, in a recorded peer set or in a peer list
      in flight was given to some node as its seed, or belongs to a node that started. */
  lemma NoInventedMembers(run: seq<Net>, steps: seq<Step>, i: nat)
    requires IsRun(run, steps) && run[0] == QUIET && i < |run|
    ensures forall n :: n in run[i].views ==> run[i].views[n].ring + run[i].views[n].peers <= Origins(run[i])
    ensures forall r :: r in run[i].replies ==> r.members <= Origins(run[i])
  {
    InvHolds(run, steps, i);
  }

  // ---------------------------------------------------------------- runs without departures

  /** No eviction is carried out, no leave is processed, no node stops. */
  predicate Calm(step: Step) { !step.Evict? && !step.HearLeave? && !step.Stop? }

  predicate PullStep(step: Step) { step.Pull? || step.Serve? || step.Learn? }

  /** Then what is in flight is only ever a stale part of what its sender knows now. */
  ghost predicate StaleReplies(net: Net) {
    forall r :: r in net.replies ==>
      && r.to in net.views && r.from in net.views
      && r.from in net.views[r.to].ring && r.members <= net.views[r.from].ring
  }

  /** Seeds, pulled peers and heard peers are in the ring of the node concerned. */
  ghost predicate Remembered(net: Net) {
    && (forall n :: n in net.views ==> net.views[n].seed in net.views[n].ring)
    && (forall m :: m in net.pulls ==> m.0 in net.views && m.1 in net.views[m.0].ring)
    && (forall m :: m in net.heard ==> m.0 in net.views && m.1 in net.views[m.0].ring)
  }

  ghost predicate CalmInv(net: Net) {
    Inv(net) && net.started == net.views.Keys && Remembered(net) && StaleReplies(net)
  }

  lemma RingsGrow(net: Net, step: Step)
    requires Enabled(net, step) && Calm(step)
    ensures forall n :: n in net.views ==>
              && n in Apply(net, step).views
              && net.views[n].ring <= Apply(net, step).views[n].ring
              && net.views[n].seed == Apply(net, step).views[n].seed
  {
  }

  lemma StepKeepsStaleReplies(net: Net, step: Step)
    requires CalmInv(net) && Enabled(net, step) && Calm(step)
    ensures StaleReplies(Apply(net, step))
  {
  }

  lemma StepKeepsRemembered(net: Net, step: Step)
    requires CalmInv(net) && Enabled(net, step) && Calm(step)
    ensures Remembered(Apply(net, step))
  {
  }

  lemma StepKeepsCalm(net: Net, step: Step)
    requires CalmInv(net) && Enabled(net, step) && Calm(step)
    ensures CalmInv(Apply(net, step))
  {
    StepKeepsInv(net, step);
    StepKeepsStaleReplies(net, step);
    StepKeepsRemembered(net, step);
  }

  lemma {:induction false} CalmHolds(run: seq<Net>, steps: seq<Step>, i: nat)
    requires IsRun(run, steps) && CalmInv(run[0]) && i < |run|
    requires forall k :: 0 <= k < i ==> Calm(steps[k])
    ensures CalmInv(run[i])
  {
    if i > 0 {
      CalmHolds(run, steps, i - 1);
      StepKeepsCalm(run[i - 1], steps[i - 1]);
    }
  }

  // ---------------------------------------------------------------- who can be reached

  ghost predicate Knows(net: Net, a: NodeInfo, b: NodeInfo) { a in net.views && b in net.views[a].ring }

  /** A chain of acquaintances. */
  ghost predicate Chain(net: Net, p: seq<NodeInfo>) {
    p != [] && forall i :: 0 <= i < |p| - 1 ==> Knows(net, p[i], p[i + 1])
  }

  /** The reflexive transitive closure of Knows. */
  ghost predicate Reach(net: Net, a: NodeInfo, b: NodeInfo) {
    exists p :: Chain(net, p) && p[0] == a && p[|p| - 1] == b
  }

  ghost predicate Closed(net: Net, some: set<NodeInfo>) {
    forall a, b :: a in some && Knows(net, a, b) ==> b in some
  }

  function Everyone(net: Net): set<NodeInfo> {
    net.views.Keys + set n, x | n in net.views && x in net.views[n].ring :: x
  }

  lemma {:induction false} ChainStaysIn(net: Net, p: seq<NodeInfo>, some: set<NodeInfo>)
    requires Chain(net, p) && Closed(net, some) && p[0] in some
    ensures p[|p| - 1] in some
  {
    if |p| > 1 {
      assert Knows(net, p[0], p[1]);
      ChainStaysIn(net, p[1..], some);
    }
  }

  lemma ReachExtends(net: Net, a: NodeInfo, b: NodeInfo, c: NodeInfo)
    requires Reach(net, a, b) && Knows(net, b, c)
    ensures Reach(net, a, c)
  {
    var p :| Chain(net, p) && p[0] == a && p[|p| - 1] == b;
    assert Chain(net, p + [c]);
  }

  lemma ReachItself(net: Net, a: NodeInfo)
    ensures Reach(net, a, a)
  {
    assert Chain(net, [a]);
  }

  /** The reachable set is the least closed set. */
  lemma ReachIsLeastClosed(net: Net, a: NodeInfo, b: NodeInfo)
    ensures Reach(net, a, b) <==> forall some: set<NodeInfo> :: a in some && Closed(net, some) ==> b in some
  {
    if Reach(net, a, b) {
      var p :| Chain(net, p) && p[0] == a && p[|p| - 1] == b;
      forall some: set<NodeInfo> | a in some && Closed(net, some) ensures b in some {
        ChainStaysIn(net, p, some);
      }
    } else {
      var reached := set x | x in Everyone(net) + {a} && Reach(net, a, x);
      ReachItself(net, a);
      forall x, y | x in reached && Knows(net, x, y) ensures y in reached {
        ReachExtends(net, a, x, y);
      }
      assert Closed(net, reached);
    }
  }

  lemma SameClosedSameReach(net: Net, net': Net)
    requires forall some: set<NodeInfo> :: Closed(net, some) <==> Closed(net', some)
    ensures forall a, b :: Reach(net, a, b) <==> Reach(net', a, b)
  {
    forall a, b ensures Reach(net, a, b) <==> Reach(net', a, b) {
      ReachIsLeastClosed(net, a, b);
      ReachIsLeastClosed(net', a, b);
    }
  }

  /** A pull adds only acquaintances of acquaintances: who can be reached does not change. */
  lemma PullStepKeepsReach(net: Net, step: Step)
    requires CalmInv(net) && Enabled(net, step) && PullStep(step)
    ensures forall a, b :: Reach(net, a, b) <==> Reach(Apply(net, step), a, b)
  {
    var net' := Apply(net, step);
    forall some: set<NodeInfo> ensures Closed(net, some) <==> Closed(net', some) {
      forall a, b | Knows(net, a, b) ensures Knows(net', a, b) {}
      if Closed(net, some) {
        forall a, b | a in some && Knows(net', a, b) ensures b in some {
          if !Knows(net, a, b) {
            var r := step.reply;
            assert Knows(net, a, r.from) && Knows(net, r.from, b);
          }
        }
      }
    }
    SameClosedSameReach(net, net');
  }

  /** Pulls keep the transitive closure of "knows" unchanged, whatever their order and however stale
      the lists they deliver. */
  lemma {:induction false} PullsKeepReach(run: seq<Net>, steps: seq<Step>, i: nat)
    requires IsRun(run, steps) && CalmInv(run[0]) && i < |run|
    requires forall k :: 0 <= k < i ==> PullStep(steps[k])
    ensures CalmInv(run[i])
    ensures forall a, b :: Reach(run[0], a, b) <==> Reach(run[i], a, b)
  {
    CalmHolds(run, steps, i);
    if i > 0 {
      PullsKeepReach(run, steps, i - 1);
      PullStepKeepsReach(run[i - 1], steps[i - 1]);
    }
  }

  // ---------------------------------------------------------------- progress and fixpoint

  /** The pairs still to be learnt: reachable, not yet in the ring. */
  ghost function Missing(net: Net): set<(NodeInfo, NodeInfo)> {
    set n, x | n in net.views && x in Everyone(net) && Reach(net, n, x) && x !in net.views[n].ring :: (n, x)
  }

  lemma PullKeepsEveryone(net: Net, step: Step)
    requires CalmInv(net) && Enabled(net, step) && PullStep(step)
    ensures Everyone(Apply(net, step)) <= Everyone(net)
  {
  }

  lemma MissingNeverGrows(net: Net, step: Step)
    requires CalmInv(net) && Enabled(net, step) && PullStep(step)
    ensures Missing(Apply(net, step)) <= Missing(net)
  {
    PullStepKeepsReach(net, step);
    PullKeepsEveryone(net, step);
    RingsGrow(net, step);
  }

  /** Every productive pull strictly shrinks the set of missing pairs. */
  lemma ProductivePullShrinksMissing(net: Net, step: Step)
    requires CalmInv(net) && Enabled(net, step) && PullStep(step)
    ensures Apply(net, step).views != net.views ==> |Missing(Apply(net, step))| < |Missing(net)|
    ensures |Missing(Apply(net, step))| <= |Missing(net)|
  {
    var before, after := Missing(net), Missing(Apply(net, step));
    MissingNeverGrows(net, step);
    SubsetCount(after, before);
    if Apply(net, step).views != net.views {
      var x := ChangeMeansNews(net, step);
      LearntPairWasMissing(net, step.reply, x);
      NoLongerMissing(net, step, x);
      SubsetCount(after, before - {(step.reply.to, x)});
    }
  }

  lemma NothingNew(v: View, self: NodeInfo, members: set<NodeInfo>)
    requires members - {self} - v.ring == {}
    ensures Learned(v, self, members) == v
  {
  }

  lemma ChangeMeansNews(net: Net, step: Step) returns (x: NodeInfo)
    requires Enabled(net, step) && PullStep(step) && Apply(net, step).views != net.views
    ensures step.Learn? && x in step.part && x != step.reply.to && x !in net.views[step.reply.to].ring
  {
    var r := step.reply;
    var news := step.part - {r.to} - net.views[r.to].ring;
    if news == {} {
      NothingNew(net.views[r.to], r.to, step.part);
      assert false;
    }
    x :| x in news;
  }

  lemma NoLongerMissing(net: Net, step: Step, x: NodeInfo)
    requires Enabled(net, step) && step.Learn? && x in step.part && x != step.reply.to
    ensures (step.reply.to, x) !in Missing(Apply(net, step))
  {
  }

  lemma LearntPairWasMissing(net: Net, r: Reply, x: NodeInfo)
    requires CalmInv(net) && r in net.replies && x in r.members && x !in net.views[r.to].ring
    ensures (r.to, x) in Missing(net)
  {
    assert Knows(net, r.to, r.from) && Knows(net, r.from, x);
    ReachItself(net, r.to);
    ReachExtends(net, r.to, r.to, r.from);
    ReachExtends(net, r.to, r.from, x);
    assert x in Everyone(net);
  }

  /** No pull from a running candidate would add anything. */
  ghost predicate Quiescent(net: Net) {
    forall n, p :: n in net.views && p in net.views && p in Candidates(net.views[n], n) ==>
      Learned(net.views[n], n, net.views[p].ring - {p}) == net.views[n]
  }

  /** As long as pulls are not quiescent, some running node can make a productive one. */
  lemma UnrestCanLearn(net: Net) returns (n: NodeInfo, p: NodeInfo)
    requires !Quiescent(net)
    ensures Enabled(net, Pull(n, p)) && Enabled(Apply(net, Pull(n, p)), Serve(n, p))
    ensures var served := Apply(Apply(net, Pull(n, p)), Serve(n, p));
            exists r :: r in served.replies && Enabled(served, Learn(r, r.members))
                        && Apply(served, Learn(r, r.members)).views != net.views
  {
    n, p :| n in net.views && p in net.views && p in Candidates(net.views[n], n)
            && Learned(net.views[n], n, net.views[p].ring - {p}) != net.views[n];
    var served := Apply(Apply(net, Pull(n, p)), Serve(n, p));
    var r := Reply(n, p, net.views[p].ring - {p});
    assert r in served.replies && Enabled(served, Learn(r, r.members));
    assert Apply(served, Learn(r, r.members)).views[n] != net.views[n];
  }

  /** A run of pulls only, from the given state. */
  ghost predicate PullRun(net: Net, run: seq<Net>, steps: seq<Step>) {
    IsRun(run, steps) && run[0] == net && forall k :: 0 <= k < |steps| ==> PullStep(steps[k])
  }

  lemma RunsJoin(run: seq<Net>, steps: seq<Step>, more: seq<Net>, after: seq<Step>)
    requires IsRun(run, steps) && IsRun(more, after) && run[|run| - 1] == more[0]
    ensures IsRun(run + more[1..], steps + after)
  {
  }

  /** How many of the steps changed some view. */
  ghost function Productive(run: seq<Net>): nat {
    if |run| < 2 then 0
    else
      var n := |run| - 1;
      Productive(run[..n]) + (if run[n].views != run[n - 1].views then 1 else 0)
  }

  /** A run of pulls, however long, changes views at most as often as there were missing pairs. */
  lemma {:induction false} ProductiveBounded(net: Net, run: seq<Net>, steps: seq<Step>)
    requires CalmInv(net) && PullRun(net, run, steps)
    ensures CalmInv(run[|run| - 1])
    ensures Productive(run) + |Missing(run[|run| - 1])| <= |Missing(net)|
    decreases |steps|
  {
    if steps != [] {
      var n := |steps| - 1;
      ProductiveBounded(net, run[..n + 1], steps[..n]);
      StepKeepsCalm(run[n], steps[n]);
      ProductivePullShrinksMissing(run[n], steps[n]);
    }
  }

  /** At quiescence no list that can still arrive, however stale, brings news. */
  lemma StaleListIsKnown(net: Net, r: Reply, part: set<NodeInfo>)
    requires CalmInv(net) && Quiescent(net) && r in net.replies && part <= r.members
    ensures Learned(net.views[r.to], r.to, part) == net.views[r.to]
  {
    var v := net.views[r.to];
    assert InStep(v, r.to);
    if r.from != r.to {
      assert r.from in Candidates(v, r.to);
      assert v == Learned(v, r.to, net.views[r.from].ring - {r.from});
      assert net.views[r.from].ring - {r.from} <= v.ring + {r.to};
    }
    NothingNew(v, r.to, part);
  }

  lemma QuiescentStays(net: Net, step: Step)
    requires CalmInv(net) && Quiescent(net) && Enabled(net, step) && PullStep(step)
    ensures Apply(net, step).views == net.views && Quiescent(Apply(net, step)) && CalmInv(Apply(net, step))
  {
    if step.Learn? {
      StaleListIsKnown(net, step.reply, step.part);
    }
    assert Apply(net, step).views == net.views;
    StepKeepsCalm(net, step);
  }

  lemma PullRunExtends(net: Net, run: seq<Net>, steps: seq<Step>, step: Step, now: Net)
    requires PullRun(net, run, steps) && Enabled(run[|run| - 1], step) && PullStep(step)
    requires now == Apply(run[|run| - 1], step)
    ensures PullRun(net, run + [now], steps + [step])
  {
  }

  lemma PullGoesOn(net: Net, step: Step)
    requires CalmInv(net) && Enabled(net, step) && PullStep(step)
    ensures CalmInv(Apply(net, step)) && |Missing(Apply(net, step))| <= |Missing(net)|
    ensures Apply(net, step).views != net.views ==> |Missing(Apply(net, step))| < |Missing(net)|
  {
    StepKeepsCalm(net, step);
    ProductivePullShrinksMissing(net, step);
  }

  /** A pull asked for, served and read. */
  lemma ProductivePull(net: Net) returns (a: Step, b: Step, c: Step)
    requires CalmInv(net) && !Quiescent(net)
    ensures PullStep(a) && PullStep(b) && PullStep(c)
    ensures Enabled(net, a) && Enabled(Apply(net, a), b) && Enabled(Apply(Apply(net, a), b), c)
    ensures var now := Apply(Apply(Apply(net, a), b), c);
            now.views != net.views && CalmInv(now) && |Missing(now)| < |Missing(net)|
  {
    var n, p := UnrestCanLearn(net);
    var pulled := Apply(net, Pull(n, p));
    var served := Apply(pulled, Serve(n, p));
    var r :| r in served.replies && Enabled(served, Learn(r, r.members))
             && Apply(served, Learn(r, r.members)).views != net.views;
    a, b, c := Pull(n, p), Serve(n, p), Learn(r, r.members);
    PullGoesOn(net, a);
    PullGoesOn(pulled, b);
    PullGoesOn(served, c);
  }

  lemma RunOfThree(net: Net, a: Step, b: Step, c: Step) returns (run: seq<Net>, steps: seq<Step>)
    requires PullStep(a) && PullStep(b) && PullStep(c)
    requires Enabled(net, a) && Enabled(Apply(net, a), b) && Enabled(Apply(Apply(net, a), b), c)
    ensures PullRun(net, run, steps) && run[|run| - 1] == Apply(Apply(Apply(net, a), b), c)
  {
    var x := Apply(net, a);
    var y := Apply(x, b);
    run, steps := [net], [];
    PullRunExtends(net, run, steps, a, x);
    run, steps := run + [x], steps + [a];
    PullRunExtends(net, run, steps, b, y);
    run, steps := run + [y], steps + [b];
    PullRunExtends(net, run, steps, c, Apply(y, c));
    run, steps := run + [Apply(y, c)], steps + [c];
  }

  /** One productive pull, as a run. */
  lemma UnrestRun(net: Net) returns (run: seq<Net>, steps: seq<Step>, now: Net)
    requires CalmInv(net) && !Quiescent(net)
    ensures PullRun(net, run, steps) && now == run[|run| - 1] && now.views != net.views
    ensures CalmInv(now) && |Missing(now)| < |Missing(net)|
  {
    var a, b, c := ProductivePull(net);
    now := Apply(Apply(Apply(net, a), b), c);
    run, steps := RunOfThree(net, a, b, c);
  }

  /** Wherever gossip stands, some run of pulls brings it to rest. */
  lemma {:induction false} RestIsReachable(net: Net) returns (run: seq<Net>, steps: seq<Step>)
    requires CalmInv(net)
    ensures PullRun(net, run, steps) && Quiescent(run[|run| - 1])
    decreases |Missing(net)|
  {
    if Quiescent(net) {
      return [net], [];
    }
    var now;
    run, steps, now := UnrestRun(net);
    var more, after := RestIsReachable(now);
    RunsJoin(run, steps, more, after);
    run, steps := run + more[1..], steps + after;
  }

  lemma PullRunPrefix(net: Net, run: seq<Net>, steps: seq<Step>)
    requires PullRun(net, run, steps) && steps != []
    ensures var n := |steps| - 1;
            && PullRun(net, run[..n + 1], steps[..n]) && run[..n + 1][n] == run[n]
            && PullStep(steps[n]) && Enabled(run[n], steps[n]) && run[n + 1] == Apply(run[n], steps[n])
  {
  }

  lemma {:induction false} RestLasts(net: Net, run: seq<Net>, steps: seq<Step>)
    requires CalmInv(net) && Quiescent(net) && PullRun(net, run, steps)
    ensures CalmInv(run[|run| - 1]) && Quiescent(run[|run| - 1]) && run[|run| - 1].views == net.views
    decreases |steps|
  {
    if steps != [] {
      var n := |steps| - 1;
      PullRunPrefix(net, run, steps);
      RestLasts(net, run[..n + 1], steps[..n]);
      QuiescentStays(run[n], steps[n]);
    }
  }

  /** Gossip is at rest, no run of pulls changing any view ever again, exactly at quiescence. */
  lemma RestIsQuiescence(net: Net)
    requires CalmInv(net)
    ensures Quiescent(net)
       <==> (forall run: seq<Net>, steps: seq<Step> ::
               PullRun(net, run, steps) ==> run[|run| - 1].views == net.views)
  {
    if Quiescent(net) {
      forall run: seq<Net>, steps: seq<Step> | PullRun(net, run, steps) ensures run[|run| - 1].views == net.views {
        RestLasts(net, run, steps);
      }
    } else {
      var run, steps, now := UnrestRun(net);
      assert PullRun(net, run, steps);
    }
  }

  /** Once pulls are quiescent every ring is the set of nodes reachable from its owner at the start. */
  lemma FixpointIsReach(run: seq<Net>, steps: seq<Step>, i: nat, n: NodeInfo, x: NodeInfo)
    requires IsRun(run, steps) && CalmInv(run[0]) && i < |run|
    requires forall k :: 0 <= k < i ==> PullStep(steps[k])
    requires Quiescent(run[i]) && n in run[i].views
    ensures x in run[i].views[n].ring <==> Reach(run[0], n, x)
  {
    PullsKeepReach(run, steps, i);
    var net := run[i];
    var ring := net.views[n].ring;
    forall a, b | a in ring && Knows(net, a, b) ensures b in ring {
      if a != n {
        assert Learned(net.views[n], n, net.views[a].ring - {a}) == net.views[n];
      }
    }
    assert Closed(net, ring);
    ReachIsLeastClosed(net, n, x);
    if x in ring {
      ReachItself(net, n);
      ReachExtends(net, n, n, x);
    }
  }

  lemma {:induction false} RingsAgree(net: Net, seed: NodeInfo, a: NodeInfo)
    requires CalmInv(net) && Quiescent(net) && seed in net.views && a in net.views && net.seeds == {seed}
    requires forall x :: x in net.views && x != seed ==> (seed, x) in net.heard
    ensures net.views[a].ring == net.started
  {
    assert InStep(net.views[a], a) && net.views[a].ring <= Origins(net) && net.views[a].seed == seed;
    var known := net.views[seed].ring;
    assert InStep(net.views[seed], seed);
    forall x | x in net.started ensures x in known {
      if x != seed {
        assert (seed, x) in net.heard;
      }
    }
    if a != seed {
      assert seed in Candidates(net.views[a], a);
      assert Learned(net.views[a], a, known - {seed}) == net.views[a];
      assert known <= net.views[a].ring + {a, seed};
    }
  }

  /** Routing agreement: after any number of nodes joined through one seed, which heard their
      announcements, with no departures, once pulls are quiescent all rings hold the same nodes, those
      that started, and every two nodes list the same replicas for every key. */
  lemma RoutingAgreement(run: seq<Net>, steps: seq<Step>, i: nat, seed: NodeInfo, a: NodeInfo, b: NodeInfo,
                         score: Score, key: string, aOrder: seq<NodeInfo>, bOrder: seq<NodeInfo>, n: int)
    requires IsRun(run, steps) && run[0] == QUIET && i < |run|
    requires forall k :: 0 <= k < i ==> Calm(steps[k])
    requires seed in run[i].views && run[i].seeds == {seed}
    requires forall x :: x in run[i].views && x != seed ==> (seed, x) in run[i].heard
    requires Quiescent(run[i]) && a in run[i].views && b in run[i].views
    requires Distinct(score, key, run[i].started)
    requires Enumerates(aOrder, run[i].views[a].ring) && Enumerates(bOrder, run[i].views[b].ring)
    ensures run[i].views[a].ring == run[i].started
    ensures TopNodes(score, key, aOrder, n) == TopNodes(score, key, bOrder, n)
    ensures Primary(score, key, aOrder) == Primary(score, key, bOrder)
  {
    CalmHolds(run, steps, i);
    RingsAgree(run[i], seed, a);
    RingsAgree(run[i], seed, b);
    OrderIsIrrelevant(score, key, run[i].started, aOrder, bOrder, n);
  }

  /** An eviction, or a leave heard, moves only the keys the departed node served: for every key the node
      now asks the replicas it asked before without the departed one, in the same order, and the next
      in line. */
  lemma DepartureRemapsMinimally(net: Net, step: Step, n: NodeInfo, peer: NodeInfo,
                                 score: Score, key: string, order: seq<NodeInfo>, remaining: seq<NodeInfo>, r: nat)
    requires Enabled(net, step) && (step == Evict(n, peer) || step == HearLeave(n, peer))
    requires Enumerates(order, net.views[n].ring) && Enumerates(remaining, Apply(net, step).views[n].ring)
    requires Distinct(score, key, net.views[n].ring)
    ensures TopNodes(score, key, remaining, r) == Cut(Without(TopNodes(score, key, order, r + 1), peer), r)
    ensures peer !in TopNodes(score, key, remaining, r)
    ensures peer in Candidates(Apply(net, step).views[n], n) ==> peer == net.views[n].seed
  {
    RemovalRemapsMinimally(score, key, net.views[n].ring, peer, order, remaining, r);
    TopNodesIsTop(score, key, net.views[n].ring - {peer}, remaining, r);
  }
}
