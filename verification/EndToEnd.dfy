/** Gossip, routing and replication together. */
module EndToEnd {
  import opened Types
  import opened Replay
  import opened Ring
  import Cluster
  import Membership

  /** Any node reads what any node wrote. Nodes joined through one seed, which heard them; none left;
      gossip has come to rest. A write was delivered to every replica that node `a` computes for its key
      from its own ring, and no newer write was made. Then node `b`, asking the replicas it computes
      from its own ring, gets that value, as long as any one of them is heard. */
  lemma AnyNodeReadsWhatAnyNodeWrote(
    net: seq<Membership.Net>, gossip: seq<Membership.Step>, i: nat, seed: NodeInfo, a: NodeInfo, b: NodeInfo,
    run: seq<Cluster.State>, steps: seq<Cluster.Step>, probes: seq<Cluster.Probe>, w: Write, since: nat, heard: nat,
    score: Score, aOrder: seq<NodeInfo>, bOrder: seq<NodeInfo>, r: nat)
    requires Membership.IsRun(net, gossip) && net[0] == Membership.QUIET && i < |net|
    requires forall k :: 0 <= k < i ==> Membership.Calm(gossip[k])
    requires seed in net[i].views && net[i].seeds == {seed}
    requires forall x :: x in net[i].views && x != seed ==> (seed, x) in net[i].heard
    requires Membership.Quiescent(net[i]) && a in net[i].views && b in net[i].views
    requires Distinct(score, w.key, net[i].started)
    requires Enumerates(aOrder, net[i].views[a].ring) && Enumerates(bOrder, net[i].views[b].ring)
    requires Cluster.IsRun(run, steps) && Cluster.Probes(run, probes) && since < |run|
    requires forall x :: x in TopNodes(score, w.key, aOrder, r) ==> w in Cluster.DeliveredTo(run[since], x)
    requires |probes| == |TopNodes(score, w.key, bOrder, r)|
    requires forall k :: 0 <= k < |probes| ==> probes[k].node == TopNodes(score, w.key, bOrder, r)[k]
    requires heard < |probes| && Cluster.Heard(b, probes[heard]) && probes[heard].time >= since
    requires forall o :: o in run[|run| - 1].issued && o.key == w.key ==> o.entry.ts <= w.entry.ts
    ensures Cluster.Read(run, b, probes, w.key) == Cluster.ValueOf(w)
  {
    Membership.RoutingAgreement(net, gossip, i, seed, a, b, score, w.key, aOrder, bOrder, r);
    var x := probes[heard].node;
    assert x in TopNodes(score, w.key, aOrder, r);
    Cluster.HistoryGrows(run, steps, since, probes[heard].time);
    assert w in Cluster.DeliveredTo(run[probes[heard].time], x);
    assert Cluster.Saw(run, b, probes, w);
    forall o | Cluster.Saw(run, b, probes, o) && o.key == w.key ensures o.entry.ts <= w.entry.ts {
      Cluster.SeenIsIssued(run, steps, b, probes, o);
    }
    assert Cluster.NewestSeen(run, b, probes, w.key, w);
    Cluster.ReadReturnsNewest(run, steps, b, probes, w.key);
  }
}
