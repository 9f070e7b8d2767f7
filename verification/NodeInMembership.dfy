/** The gossip objects of Gossip in the system of Membership: what a call on a node does to its ring and its
    discovery is a step of that system, so what Membership proves of every run holds for the objects. */
module NodeInMembership {
  import opened Types
  import opened Ring
  import opened Gossip
  import M = Membership

  /** The system's state has the node as it is. */
  ghost predicate Mirrors(node: AsyncGossip, net: M.Net)
    reads node.ring, node.discovery
  {
    node.info in net.views && net.views[node.info] == node.Sees()
  }

  /** These steps lead from the one state to the other. */
  ghost predicate Leads(net: M.Net, steps: seq<M.Step>, net': M.Net)
    decreases |steps|
  {
    if steps == [] then net == net'
    else M.Enabled(net, steps[0]) && Leads(M.Apply(net, steps[0]), steps[1..], net')
  }

  lemma {:induction false} LeadsIsRun(run: seq<M.Net>, steps: seq<M.Step>, more: seq<M.Step>, net': M.Net)
    returns (run': seq<M.Net>)
    requires M.IsRun(run, steps) && Leads(run[|run| - 1], more, net')
    ensures run <= run' && M.IsRun(run', steps + more) && run'[|run'| - 1] == net'
    decreases |more|
  {
    if more == [] {
      run' := run;
      assert steps + more == steps;
    } else {
      var next := M.Apply(run[|run| - 1], more[0]);
      RunExtends(run, steps, more[0], next);
      run' := LeadsIsRun(run + [next], steps + [more[0]], more[1..], net');
      assert steps + [more[0]] + more[1..] == steps + more;
    }
  }

  lemma RunExtends(run: seq<M.Net>, steps: seq<M.Step>, step: M.Step, next: M.Net)
    requires M.IsRun(run, steps) && M.Enabled(run[|run| - 1], step) && next == M.Apply(run[|run| - 1], step)
    ensures M.IsRun(run + [next], steps + [step])
  {
  }

  lemma OneStep(net: M.Net, step: M.Step)
    requires M.Enabled(net, step)
    ensures Leads(net, [step], M.Apply(net, step))
  {
    assert [step][1..] == [];
    assert Leads(M.Apply(net, step), [], M.Apply(net, step));
  }

  lemma TwoSteps(net: M.Net, a: M.Step, b: M.Step)
    requires M.Enabled(net, a) && M.Enabled(M.Apply(net, a), b)
    ensures Leads(net, [a, b], M.Apply(M.Apply(net, a), b))
  {
    OneStep(M.Apply(net, a), b);
    assert [a, b][1..] == [b];
  }

  /** The other nodes are as they were. */
  ghost predicate OthersStay(net: M.Net, net': M.Net, self: NodeInfo) {
    net'.views - {self} == net.views - {self}
  }

  // ---------------------------------------------------------------- starting and announcing

  /** A node that starts, its ring and discovery new, takes the step Start. */
  method StartAsStep(node: AsyncGossip, ghost net: M.Net) returns (ghost net': M.Net)
    requires node.ring.nodes == {} && node.discovery.peers == {} && node.info !in net.views
    modifies node.ring
    ensures M.Enabled(net, M.Start(node.info, node.discovery.seed))
    ensures net' == M.Apply(net, M.Start(node.info, node.discovery.seed))
    ensures Mirrors(node, net') && OthersStay(net, net', node.info)
  {
    node.Bootstrap();
    net' := M.Apply(net, M.Start(node.info, node.discovery.seed));
  }

  function Recipients(sent: seq<(NodeInfo, Message)>): set<NodeInfo> { set s | s in sent :: s.0 }

  lemma RecipientsOfOrder(order: seq<NodeInfo>, members: set<NodeInfo>, msg: Message)
    requires Enumerates(order, members)
    ensures Recipients(Addressed(order, msg)) == members
    ensures forall s :: s in Addressed(order, msg) ==> s.1 == msg
  {
    var sent := Addressed(order, msg);
    forall x | x in members ensures x in Recipients(sent) {
      var i :| 0 <= i < |order| && order[i] == x;
      assert sent[i] in sent && sent[i].0 == x;
    }
  }

  /** What a node sends to announce itself is what the step AnnounceJoin puts in flight. */
  method AnnounceJoinAsStep(node: AsyncGossip, ghost net: M.Net)
    returns (ghost net': M.Net, ghost sent: seq<(NodeInfo, Message)>)
    requires Mirrors(node, net)
    modifies node.pool`sent
    ensures M.Enabled(net, M.AnnounceJoin(node.info)) && net' == M.Apply(net, M.AnnounceJoin(node.info))
    ensures node.pool.sent == old(node.pool.sent) + sent
    ensures forall s :: s in sent ==> s.1 == Message(PeerAnnounce, EMPTY.(peer := Some(node.info)))
    ensures net'.announces == net.announces + set p | p in Recipients(sent) :: (p, node.info)
    ensures Mirrors(node, net') && OthersStay(net, net', node.info)
  {
    node.AnnounceJoin();
    ghost var msg := Message(PeerAnnounce, EMPTY.(peer := Some(node.info)));
    ghost var order :| Enumerates(order, node.ring.nodes - {node.info})
                       && node.pool.sent == old(node.pool.sent) + Addressed(order, msg);
    sent := Addressed(order, msg);
    net' := M.Apply(net, M.AnnounceJoin(node.info));
    RecipientsOfOrder(order, node.ring.nodes - {node.info}, msg);
  }

  /** Likewise when it leaves. */
  method AnnounceLeaveAsStep(node: AsyncGossip, ghost net: M.Net)
    returns (ghost net': M.Net, ghost sent: seq<(NodeInfo, Message)>)
    requires Mirrors(node, net)
    modifies node.pool`sent
    ensures M.Enabled(net, M.AnnounceLeave(node.info)) && net' == M.Apply(net, M.AnnounceLeave(node.info))
    ensures node.pool.sent == old(node.pool.sent) + sent
    ensures forall s :: s in sent ==> s.1 == Message(PeerLeave, EMPTY.(peer := Some(node.info)))
    ensures net'.leaves == net.leaves + set p | p in Recipients(sent) :: (p, node.info)
    ensures Mirrors(node, net') && OthersStay(net, net', node.info)
  {
    node.AnnounceLeave();
    ghost var msg := Message(PeerLeave, EMPTY.(peer := Some(node.info)));
    ghost var order :| Enumerates(order, node.ring.nodes - {node.info})
                       && node.pool.sent == old(node.pool.sent) + Addressed(order, msg);
    sent := Addressed(order, msg);
    net' := M.Apply(net, M.AnnounceLeave(node.info));
    RecipientsOfOrder(order, node.ring.nodes - {node.info}, msg);
  }

  // ---------------------------------------------------------------- serving

  /** The step that serving a message is: hearing an announcement, or answering a request for the peer list. */
  datatype Served = Join(who: NodeInfo) | Leave(who: NodeInfo) | List(asker: NodeInfo)

  function StepOf(self: NodeInfo, what: Served): M.Step {
    match what
    case Join(who) => M.HearJoin(self, who)
    case Leave(who) => M.HearLeave(self, who)
    case List(asker) => M.Serve(asker, self)
  }

  /** The message as it arrives. */
  predicate Carries(msg: Message, what: Served) {
    match what
    case Join(who) => msg == Message(PeerAnnounce, EMPTY.(peer := Some(who)))
    case Leave(who) => msg == Message(PeerLeave, EMPTY.(peer := Some(who)))
    case List(_) => msg.kind == PeerList && msg.payload.peer.None?
  }

  /** Serving an announcement in flight, or a pull, is that step; the list sent back is the reply then in
      flight. */
  method HandleAsStep(node: AsyncGossip, msg: Message, ghost what: Served, ghost net: M.Net)
    returns (reply: Option<Message>, ghost net': M.Net)
    requires Mirrors(node, net) && Carries(msg, what) && M.Enabled(net, StepOf(node.info, what))
    modifies node.ring, node.discovery, node.pool`told
    ensures net' == M.Apply(net, StepOf(node.info, what))
    ensures Mirrors(node, net') && OthersStay(net, net', node.info)
    ensures what.List? ==>
              reply.Some? && M.Reply(what.asker, node.info, Members(Legible(Listed(reply.value)))) in net'.replies
  {
    reply := node.HandleMessage(msg);
    net' := M.Apply(net, StepOf(node.info, what));
  }

  // ---------------------------------------------------------------- pulling

  /** The steps of a pull's end: learn what was read of the list, if one came; evict, if it failed. */
  function StepsOf(self: NodeInfo, peer: NodeInfo, resp: Response, r: M.Reply): seq<M.Step> {
    (if resp.Came? && resp.msg.kind == PeerList then [M.Learn(r, Members(Legible(Listed(resp.msg))))] else [])
    + if Evicts(resp) then [M.Evict(self, peer)] else []
  }

  /** An exchange with a peer that was asked: nothing or an exception, some other message, or a list whose
      readable part is taken from the reply `r` in flight. It takes the steps above. */
  method GossipAsSteps(node: AsyncGossip, peer: NodeInfo, resp: Response, ghost r: M.Reply, ghost net: M.Net)
    returns (ghost net': M.Net)
    requires Mirrors(node, net) && (node.info, peer) in net.pulls
    requires resp.Came? && resp.msg.kind == PeerList ==>
               r in net.replies && r.to == node.info && Members(Legible(Listed(resp.msg))) <= r.members
    modifies node.ring, node.discovery, node.pool`told
    ensures Leads(net, StepsOf(node.info, peer, resp, r), net')
    ensures Mirrors(node, net') && OthersStay(net, net', node.info)
  {
    node.GossipWith(peer, resp);
    ghost var part := if resp.Came? then Members(Legible(Listed(resp.msg))) else {};
    ghost var learn, evict := M.Learn(r, part), M.Evict(node.info, peer);
    if resp.Came? && resp.msg.kind == PeerList {
      OneStep(net, learn);
      net' := M.Apply(net, learn);
      if Evicts(resp) {
        TwoSteps(net, learn, evict);
        net' := M.Apply(net', evict);
      }
    } else if Evicts(resp) {
      OneStep(net, evict);
      net' := M.Apply(net, evict);
    } else {
      net' := net;
    }
  }
}
