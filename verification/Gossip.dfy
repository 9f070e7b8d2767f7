/** One node's side of the gossip protocol (dlstorage/peer_comm/gossip.py, dlstorage/discovery/gossip.py). */
module Gossip {
  import opened Types
  import opened Ring

  /** What a node knows: its ring, the peers its discovery recorded, and the seed it was given. */
  datatype View = View(ring: set<NodeInfo>, peers: set<NodeInfo>, seed: NodeInfo)

  /** The nodes it gossips with. */
  function Candidates(v: View, self: NodeInfo): set<NodeInfo> { v.peers + {v.seed} - {self} }

  /** After a peer list arrived. */
  function Learned(v: View, self: NodeInfo, members: set<NodeInfo>): View {
    var news := members - {self} - v.ring;
    v.(ring := v.ring + news, peers := v.peers + news)
  }

  /** After a join announcement arrived. */
  function Met(v: View, peer: NodeInfo): View {
    if peer in v.ring then v else v.(ring := v.ring + {peer}, peers := v.peers + {peer})
  }

  /** After an eviction or a leave announcement. */
  function Dropped(v: View, peer: NodeInfo): View {
    v.(ring := v.ring - {peer}, peers := v.peers - {peer})
  }

  function Handled(v: View, msg: Message): View {
    if msg.payload.peer.None? then v
    else
      match msg.kind
      case PeerAnnounce => Met(v, msg.payload.peer.value)
      case PeerLeave => Dropped(v, msg.payload.peer.value)
      case _ => v
  }

  /** What comes back from a peer asked for its list: nothing, an exception, or a message. */
  datatype Response = NoReply | Raised | Came(msg: Message)

  /** The nodes listed before the first that cannot be read. */
  function Legible(raws: seq<Option<NodeInfo>>): seq<NodeInfo> {
    if raws == [] || raws[0].None? then []
    else [raws[0].value] + Legible(raws[1..])
  }

  /** The list of a reply; a missing list is an empty one. */
  function Listed(msg: Message): seq<Option<NodeInfo>> {
    if msg.kind == PeerList && msg.payload.peers.Some? then msg.payload.peers.value else []
  }

  /** The exchange ends in an eviction. */
  predicate Evicts(resp: Response) { resp.Came? ==> None in Listed(resp.msg) }

  /** The view after a gossip exchange. Nodes read before a failure stay, the peer goes. */
  function Gossiped(v: View, self: NodeInfo, peer: NodeInfo, resp: Response): View {
    var learned := if resp.Came? then Learned(v, self, Members(Legible(Listed(resp.msg)))) else v;
    if Evicts(resp) then Dropped(learned, peer) else learned
  }

  /** Where reading the list stops: at the first entry that cannot be read, or at the end. */
  function Readable(raws: seq<Option<NodeInfo>>): (k: nat)
    ensures k <= |raws| && forall i :: 0 <= i < k ==> raws[i].Some?
    ensures k < |raws| ==> raws[k].None?
  {
    if raws == [] || raws[0].None? then 0 else 1 + Readable(raws[1..])
  }

  lemma {:induction false} LegibleHolds(raws: seq<Option<NodeInfo>>, x: NodeInfo)
    ensures x in Legible(raws) <==> Some(x) in raws[..Readable(raws)]
    ensures None in raws <==> Readable(raws) < |raws|
  {
    if raws != [] && raws[0].Some? {
      LegibleHolds(raws[1..], x);
      assert raws[..Readable(raws)] == [raws[0]] + raws[1..][..Readable(raws[1..])];
    }
  }

  /** What a gossip exchange does to the view, node by node. The ring gains exactly the listed strangers read
      before a failure, the discovery those of them that were not in the ring; on no reply, an exception
      or an entry that cannot be read the peer ends up in neither. */
  ghost predicate NodeByNode(v: View, v': View, self: NodeInfo, peer: NodeInfo, resp: Response) {
    var raws := if resp.Came? && resp.msg.kind == PeerList && resp.msg.payload.peers.Some?
                then resp.msg.payload.peers.value else [];
    var fails := !resp.Came? || None in raws;
    && v'.seed == v.seed
    && forall x ::
         var read := Some(x) in raws[..Readable(raws)] && x != self;
         && (x in v'.ring <==> !(fails && x == peer) && (x in v.ring || read))
         && (x in v'.peers <==> !(fails && x == peer) && (x in v.peers || (read && x !in v.ring)))
  }

  lemma GossipedNodeByNode(v: View, self: NodeInfo, peer: NodeInfo, resp: Response)
    ensures NodeByNode(v, Gossiped(v, self, peer, resp), self, peer, resp)
  {
    if resp.Came? {
      forall x {
        LegibleHolds(Listed(resp.msg), x);
      }
    }
  }

  lemma {:induction false} LegiblePrefix(raws: seq<Option<NodeInfo>>, i: nat)
    requires i < |raws| && forall j :: 0 <= j < i ==> raws[j].Some?
    ensures |Legible(raws[..i])| == i
    ensures raws[i].Some? ==> Legible(raws[..i + 1]) == Legible(raws[..i]) + [raws[i].value]
    ensures raws[i].None? ==> Legible(raws) == Legible(raws[..i])
  {
    if i > 0 {
      LegiblePrefix(raws[1..], i - 1);
      assert raws[1..][..i - 1] == raws[..i][1..] && raws[1..][..i] == raws[..i + 1][1..];
    }
  }

  lemma LegibleOneMore(raws: seq<Option<NodeInfo>>, x: NodeInfo)
    requires None !in raws
    ensures Legible(raws + [Some(x)]) == Legible(raws) + [x]
  {
    var more := raws + [Some(x)];
    LegiblePrefix(more, |raws|);
    assert more[..|raws|] == raws && more[..|raws| + 1] == more;
  }

  lemma MembersOfOneMore(order: seq<NodeInfo>, x: NodeInfo)
    ensures Members(order + [x]) == Members(order) + {x}
  {
  }

  lemma MembersOfPrefix(order: seq<NodeInfo>, i: nat)
    requires i < |order|
    ensures Members(order[..i + 1]) == Members(order[..i]) + {order[i]}
  {
  }

  /** Learning one node more. */
  lemma LearnedOneMore(v: View, self: NodeInfo, members: set<NodeInfo>, x: NodeInfo)
    ensures var before, after := Learned(v, self, members), Learned(v, self, members + {x});
            after == if x != self && x !in v.ring
                     then before.(ring := before.ring + {x}, peers := before.peers + {x}) else before
  {
    assert members + {x} - {self} - v.ring
        == (members - {self} - v.ring) + if x != self && x !in v.ring then {x} else {};
  }

  lemma EnumerateOneMore(order: seq<NodeInfo>, members: set<NodeInfo>, x: NodeInfo)
    requires Enumerates(order, members) && x !in members
    ensures Enumerates(order + [x], members + {x})
  {
  }

  /** The same message to each node. */
  function Addressed(order: seq<NodeInfo>, msg: Message): seq<(NodeInfo, Message)> {
    seq(|order|, i requires 0 <= i < |order| => (order[i], msg))
  }

  class GossipDiscovery {
    const seed: NodeInfo
    var peers: set<NodeInfo>

    constructor (seed: NodeInfo)
      ensures this.seed == seed && peers == {}
    {
      this.seed := seed;
      peers := {};
    }

    /** `list(self._peers) + [self.seed]`: the recorded peers in some order, and the seed last, even if it is
        recorded too. */
    method GetPeers() returns (all: seq<NodeInfo>)
      ensures |all| == |peers| + 1 && all[|peers|] == seed
      ensures Enumerates(all[..|peers|], peers)
    {
      var order := [];
      var todo := peers;
      while todo != {}
        invariant todo <= peers
        invariant Enumerates(order, peers - todo)
      {
        var x :| x in todo;
        todo := todo - {x};
        order := order + [x];
      }
      EnumerationLength(order, peers);
      all := order + [seed];
    }

    method AddPeer(peer: NodeInfo) returns (isNew: bool)
      modifies this
      ensures peers == old(peers) + {peer}
      ensures isNew <==> peer !in old(peers)
    {
      if peer !in peers {
        peers := peers + {peer};
        return true;
      }
      return false;
    }

    method RemovePeer(peer: NodeInfo)
      modifies this
      ensures peers == old(peers) - {peer}
    {
      peers := peers - {peer};
    }
  }

  /** The connection pool as gossip uses it: it records which messages it was given for which peers, and which
      peers it was told to close, in order. What closing does to the sockets is `ClosePeer` in module
      Mux. */
  class PeerConnections {
    var told: seq<NodeInfo>
    var sent: seq<(NodeInfo, Message)>

    constructor ()
      ensures told == [] && sent == []
    {
      told, sent := [], [];
    }

    method Execute(peer: NodeInfo, msg: Message)
      modifies this`sent
      ensures sent == old(sent) + [(peer, msg)]
    {
      sent := sent + [(peer, msg)];
    }

    method ClosePeer(peer: NodeInfo)
      modifies this`told
      ensures told == old(told) + [peer]
    {
      told := told + [peer];
    }
  }

  class AsyncGossip {
    const info: NodeInfo
    const ring: RendezvousRing
    const discovery: GossipDiscovery
    const pool: PeerConnections

    constructor (info: NodeInfo, ring: RendezvousRing, discovery: GossipDiscovery, pool: PeerConnections)
      ensures this.info == info && this.ring == ring && this.discovery == discovery && this.pool == pool
    {
      this.info := info;
      this.ring := ring;
      this.discovery := discovery;
      this.pool := pool;
    }

    ghost function Sees(): View
      reads ring, discovery
    {
      View(ring.nodes, discovery.peers, discovery.seed)
    }

    /** The node's start: bootstrap from the discovery, then join the own ring. */
    method Bootstrap()
      modifies ring
      ensures Sees() == old(Sees()).(ring := old(ring.nodes) + discovery.peers + {discovery.seed, info})
    {
      var all := discovery.GetPeers();
      for i := 0 to |all|
        invariant ring.nodes == old(ring.nodes) + Members(all[..i])
      {
        MembersOfPrefix(all, i);
        ring.Add(all[i]);
      }
      assert all[..|all|] == all == all[..|discovery.peers|] + [discovery.seed];
      MembersOfOneMore(all[..|discovery.peers|], discovery.seed);
      assert Members(all[..|discovery.peers|]) == discovery.peers;
      ring.Add(info);
    }

    /** The nodes a round of gossip picks from. */
    method Partners() returns (peers: seq<NodeInfo>)
      ensures Members(peers) == discovery.peers + {discovery.seed} - {info}
      ensures Members(peers) == Candidates(Sees(), info)
    {
      var all := discovery.GetPeers();
      peers := [];
      for i := 0 to |all|
        invariant Members(peers) == Members(all[..i]) - {info}
      {
        MembersOfPrefix(all, i);
        if all[i] != info {
          MembersOfOneMore(peers, all[i]);
          peers := peers + [all[i]];
        }
      }
      assert all[..|all|] == all == all[..|discovery.peers|] + [discovery.seed];
      MembersOfOneMore(all[..|discovery.peers|], discovery.seed);
      assert Members(all[..|discovery.peers|]) == discovery.peers;
    }

    /** One copy of the message to every other member of the ring, the seed included. */
    method Broadcast(msg: Message)
      modifies pool`sent
      ensures exists order :: Enumerates(order, ring.nodes - {info})
                              && pool.sent == old(pool.sent) + Addressed(order, msg)
    {
      var order := ring.Nodes();
      ghost var peers := [];
      for i := 0 to |order|
        invariant Enumerates(peers, Members(order[..i]) - {info})
        invariant pool.sent == old(pool.sent) + Addressed(peers, msg)
      {
        MembersOfPrefix(order, i);
        if order[i] != info {
          EnumerateOneMore(peers, Members(order[..i]) - {info}, order[i]);
          pool.Execute(order[i], msg);
          peers := peers + [order[i]];
        }
      }
      assert order[..|order|] == order && Members(order) == ring.nodes;
    }

    method AnnounceJoin()
      modifies pool`sent
      ensures exists order :: Enumerates(order, ring.nodes - {info})
                              && pool.sent
                                 == old(pool.sent) + Addressed(order, Message(PeerAnnounce, EMPTY.(peer := Some(info))))
    {
      Broadcast(Message(PeerAnnounce, EMPTY.(peer := Some(info))));
    }

    method AnnounceLeave()
      modifies pool`sent
      ensures exists order :: Enumerates(order, ring.nodes - {info})
                              && pool.sent
                                 == old(pool.sent) + Addressed(order, Message(PeerLeave, EMPTY.(peer := Some(info))))
    {
      Broadcast(Message(PeerLeave, EMPTY.(peer := Some(info))));
    }

    /** Going through a peer list, up to the first entry that cannot be read. */
    method LearnFrom(raws: seq<Option<NodeInfo>>) returns (legible: bool)
      modifies ring, discovery
      ensures legible <==> None !in raws
      ensures Sees() == Learned(old(Sees()), info, Members(Legible(raws)))
    {
      var known := ring.nodes;
      for i := 0 to |raws|
        invariant forall j :: 0 <= j < i ==> raws[j].Some?
        invariant Sees() == Learned(old(Sees()), info, Members(Legible(raws[..i])))
      {
        LegiblePrefix(raws, i);
        if raws[i].None? {
          return false;
        }
        var newPeer := raws[i].value;
        MembersOfOneMore(Legible(raws[..i]), newPeer);
        LearnedOneMore(old(Sees()), info, Members(Legible(raws[..i])), newPeer);
        if newPeer != info && newPeer !in known {
          ring.Add(newPeer);
          var _ := discovery.AddPeer(newPeer);
        }
      }
      assert raws[..|raws|] == raws;
      return true;
    }

    /** A gossip exchange, from the point where the peer-list request has come back. */
    method GossipWith(peer: NodeInfo, resp: Response)
      modifies ring, discovery, pool`told
      ensures Sees() == Gossiped(old(Sees()), info, peer, resp)
      ensures NodeByNode(old(Sees()), Sees(), info, peer, resp)
      ensures pool.told == if Evicts(resp) then old(pool.told) + [peer] else old(pool.told)
    {
      GossipedNodeByNode(Sees(), info, peer, resp);
      if !resp.Came? {
        Evict(peer);
      } else if resp.msg.kind == PeerList {
        var legible := LearnFrom(if resp.msg.payload.peers.Some? then resp.msg.payload.peers.value else []);
        if !legible {
          Evict(peer);
        }
      }
    }

    method Evict(peer: NodeInfo)
      modifies ring, discovery, pool`told
      ensures Sees() == Dropped(old(Sees()), peer) && pool.told == old(pool.told) + [peer]
    {
      ring.Remove(peer);
      discovery.RemovePeer(peer);
      pool.ClosePeer(peer);
    }

    /** A gossip message served. No reply stands for a KeyError, which ends the connection. */
    method HandleMessage(msg: Message) returns (reply: Option<Message>)
      modifies ring, discovery, pool`told
      ensures Sees() == Handled(old(Sees()), msg)
      ensures msg.kind == PeerAnnounce && msg.payload.peer.Some? ==>
                var peer := msg.payload.peer.value;
                && ring.nodes == old(ring.nodes) + {peer}
                && discovery.peers == old(discovery.peers) + if peer in old(ring.nodes) then {} else {peer}
      ensures msg.kind == PeerLeave && msg.payload.peer.Some? ==>
                var peer := msg.payload.peer.value;
                ring.nodes == old(ring.nodes) - {peer} && discovery.peers == old(discovery.peers) - {peer}
      ensures (msg.kind != PeerAnnounce && msg.kind != PeerLeave) || msg.payload.peer.None? ==>
                ring.nodes == old(ring.nodes) && discovery.peers == old(discovery.peers)
      ensures pool.told == if msg.kind == PeerLeave && msg.payload.peer.Some? then old(pool.told) + [msg.payload.peer.value]
                           else old(pool.told)
      ensures msg.kind == PeerList ==>
                reply.Some? && reply.value.kind == PeerList && reply.value.payload.peers.Some?
                && Members(Legible(reply.value.payload.peers.value)) == ring.nodes - {info}
                && None !in reply.value.payload.peers.value
      ensures msg.kind == Ping ==> reply.Some? && reply.value.payload.node == Some(info)
      ensures reply.Some? && msg.kind != PeerList ==>
                reply.value.kind == (match msg.kind
                                     case Ping => Pong
                                     case PeerAnnounce => Ok
                                     case PeerLeave => Ok
                                     case _ => Error)
      ensures reply.Some? && reply.value.kind == Error ==> reply.value == Unserved(msg.kind)
      ensures reply == None <==> (msg.kind == PeerAnnounce || msg.kind == PeerLeave) && msg.payload.peer.None?
    {
      match msg.kind {
        case Ping =>
          return Some(Message(Pong, EMPTY.(node := Some(info))));
        case PeerList =>
          var order := ring.Nodes();
          var peers := [];
          for i := 0 to |order|
            invariant Sees() == old(Sees()) && pool.told == old(pool.told)
            invariant None !in peers
            invariant Members(Legible(peers)) == Members(order[..i]) - {info}
          {
            MembersOfPrefix(order, i);
            if order[i] != info {
              LegibleOneMore(peers, order[i]);
              MembersOfOneMore(Legible(peers), order[i]);
              peers := peers + [Some(order[i])];
            }
          }
          assert order[..|order|] == order;
          return Some(Message(PeerList, EMPTY.(peers := Some(peers))));
        case PeerAnnounce =>
          if msg.payload.peer.None? { return None; }
          var peer := msg.payload.peer.value;
          if peer !in ring.nodes {
            ring.Add(peer);
            var _ := discovery.AddPeer(peer);
          }
          return Some(Message(Ok, EMPTY));
        case PeerLeave =>
          if msg.payload.peer.None? { return None; }
          var peer := msg.payload.peer.value;
          ring.Remove(peer);
          discovery.RemovePeer(peer);
          pool.ClosePeer(peer);
          return Some(Message(Ok, EMPTY));
        case _ =>
          return Some(Unserved(msg.kind));
      }
    }
  }
}
