/** Announcements arrive, and any number of nodes can join through one seed and come to agree: what routing
    agreement assumes of a run is what runs can do. */
module Joining {
  import opened Types
  import opened Ring
  import opened Gossip
  import opened Membership

  // ---------------------------------------------------------------- announcements

  /** A join announcement goes to exactly the members of the sender's ring other than itself, and each of
      them that runs can hear it. */
  lemma JoinIsHeard(net: Net, n: NodeInfo, p: NodeInfo)
    requires n in net.views
    ensures var net' := Apply(net, AnnounceJoin(n));
            && ((p, n) in net'.announces <==> (p, n) in net.announces || (p in net.views[n].ring && p != n))
            && (p in net.views && p in net.views[n].ring && p != n ==> Enabled(net', HearJoin(p, n)))
            && net'.views == net.views
  {
  }

  /** A leave announcement likewise. */
  lemma LeaveIsHeard(net: Net, n: NodeInfo, p: NodeInfo)
    requires n in net.views
    ensures var net' := Apply(net, AnnounceLeave(n));
            && ((p, n) in net'.leaves <==> (p, n) in net.leaves || (p in net.views[n].ring && p != n))
            && (p in net.views && p in net.views[n].ring && p != n ==> Enabled(net', HearLeave(p, n)))
            && net'.views == net.views
  {
  }

  // ---------------------------------------------------------------- joining through one seed

  ghost predicate CalmRun(run: seq<Net>, steps: seq<Step>, net: Net) {
    && IsRun(run, steps) && run[0] == QUIET && net == run[|run| - 1]
    && forall k :: 0 <= k < |steps| ==> Calm(steps[k])
  }

  lemma CalmRunExtends(run: seq<Net>, steps: seq<Step>, net: Net, step: Step)
    requires CalmRun(run, steps, net) && Enabled(net, step) && Calm(step)
    ensures CalmRun(run + [Apply(net, step)], steps + [step], Apply(net, step))
  {
  }

  /** Exactly these nodes run, all were given this seed, and it heard the others. */
  ghost predicate Joined(net: Net, seed: NodeInfo, nodes: set<NodeInfo>) {
    && net.views.Keys == nodes && net.started == nodes && net.seeds == {seed}
    && forall x :: x in nodes && x != seed ==> (seed, x) in net.heard
  }

  lemma OneJoins(net: Net, seed: NodeInfo, nodes: set<NodeInfo>, n: NodeInfo)
    requires Joined(net, seed, nodes) && seed in nodes && n !in nodes
    ensures Enabled(net, Start(n, seed))
    ensures var a := Apply(net, Start(n, seed));
            Enabled(a, AnnounceJoin(n)) && Enabled(Apply(a, AnnounceJoin(n)), HearJoin(seed, n))
    ensures Joined(Apply(Apply(Apply(net, Start(n, seed)), AnnounceJoin(n)), HearJoin(seed, n)), seed, nodes + {n})
  {
    JoinIsHeard(Apply(net, Start(n, seed)), n, seed);
  }

  lemma {:induction false} AllJoin(seed: NodeInfo, nodes: set<NodeInfo>) returns (run: seq<Net>, steps: seq<Step>, net: Net)
    requires seed in nodes
    ensures CalmRun(run, steps, net) && Joined(net, seed, nodes)
    decreases nodes
  {
    if nodes == {seed} {
      CalmRunExtends([QUIET], [], QUIET, Start(seed, seed));
      net := Apply(QUIET, Start(seed, seed));
      run, steps := [QUIET] + [net], [] + [Start(seed, seed)];
    } else {
      var n :| n in nodes && n != seed;
      var others := nodes - {n};
      assert others + {n} == nodes;
      run, steps, net := AllJoin(seed, others);
      OneJoins(net, seed, others, n);
      run, steps, net := ThreeMore(run, steps, net, Start(n, seed), AnnounceJoin(n), HearJoin(seed, n));
    }
  }

  lemma ThreeMore(run: seq<Net>, steps: seq<Step>, net: Net, a: Step, b: Step, c: Step)
    returns (run': seq<Net>, steps': seq<Step>, net': Net)
    requires CalmRun(run, steps, net) && Calm(a) && Calm(b) && Calm(c)
    requires Enabled(net, a) && Enabled(Apply(net, a), b) && Enabled(Apply(Apply(net, a), b), c)
    ensures net' == Apply(Apply(Apply(net, a), b), c) && CalmRun(run', steps', net')
  {
    var x := Apply(net, a);
    var y := Apply(x, b);
    net' := Apply(y, c);
    CalmRunExtends(run, steps, net, a);
    CalmRunExtends(run + [x], steps + [a], x, b);
    CalmRunExtends(run + [x] + [y], steps + [a] + [b], y, c);
    run', steps' := run + [x] + [y] + [net'], steps + [a] + [b] + [c];
  }

  // ---------------------------------------------------------------- and coming to rest

  lemma PullKeepsJoined(net: Net, step: Step, seed: NodeInfo, nodes: set<NodeInfo>)
    requires Joined(net, seed, nodes) && Enabled(net, step) && PullStep(step)
    ensures Joined(Apply(net, step), seed, nodes)
  {
  }

  lemma {:induction false} PullsKeepJoined(net: Net, run: seq<Net>, steps: seq<Step>, seed: NodeInfo, nodes: set<NodeInfo>)
    requires Joined(net, seed, nodes) && PullRun(net, run, steps)
    ensures Joined(run[|run| - 1], seed, nodes)
    decreases |steps|
  {
    if steps != [] {
      var n := |steps| - 1;
      PullRunPrefix(net, run, steps);
      PullsKeepJoined(net, run[..n + 1], steps[..n], seed, nodes);
      PullKeepsJoined(run[n], steps[n], seed, nodes);
    }
  }

  lemma CalmRunsJoin(run: seq<Net>, steps: seq<Step>, net: Net, more: seq<Net>, after: seq<Step>)
    requires CalmRun(run, steps, net) && PullRun(net, more, after)
    ensures CalmRun(run + more[1..], steps + after, more[|more| - 1])
  {
    RunsJoin(run, steps, more, after);
  }

  lemma CalmRunIsCalm(run: seq<Net>, steps: seq<Step>, net: Net)
    requires CalmRun(run, steps, net)
    ensures CalmInv(net)
  {
    CalmHolds(run, steps, |run| - 1);
  }

  /** Agreement is reached: for every seed and every finite set of nodes with it, in some run without
      departures all of them start with that seed, it hears the others, gossip comes to rest, and then
      every node's ring is the whole set. */
  lemma AgreementIsReached(seed: NodeInfo, nodes: set<NodeInfo>) returns (run: seq<Net>, steps: seq<Step>, net: Net)
    requires seed in nodes
    ensures CalmRun(run, steps, net) && Joined(net, seed, nodes) && Quiescent(net)
    ensures forall n :: n in nodes ==> net.views[n].ring == nodes
  {
    run, steps, net := AllJoin(seed, nodes);
    CalmRunIsCalm(run, steps, net);
    var more, after := RestIsReachable(net);
    PullsKeepJoined(net, more, after, seed, nodes);
    CalmRunsJoin(run, steps, net, more, after);
    run, steps, net := run + more[1..], steps + after, more[|more| - 1];
    CalmRunIsCalm(run, steps, net);
    forall n | n in nodes ensures net.views[n].ring == nodes {
      RingsAgree(net, seed, n);
    }
  }
}
