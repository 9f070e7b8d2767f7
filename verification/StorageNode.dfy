/** The synchronous storage node (dlstorage/node/sync.py): one handle per replica, writes fanned out one
    replica after the other, reads merged. */
module StorageNode {
  import opened Types
  import opened LwwStore
  import opened Dispatcher
  import opened Consistency
  import opened Ring

  /** One try of an exchange: no connection; a failure on the way, before or after the peer served the
      request at its clock reading; or a reply, served at that reading. */
  datatype Attempt = Refused | Broke(served: Option<real>) | Replied(clock: real)

  /** What the connection pool meets during one exchange: whether an idle connection is at hand, and how
      the try and the retry turn out. The multiplexed pool never retries, as if it had none at hand; and
      there a request that cannot be encoded, once a connection is had, raises. */
  datatype Exchange = Exchange(reused: bool, first: Attempt, second: Attempt) | Unencodable

  /** What a call comes to: a value, or an exception. */
  datatype Result<+T> = Done(value: T) | Raised

  /** What every exchange of one call meets. */
  type Network = NodeInfo -> Exchange

  function ServedAt(a: Attempt): Option<real> {
    match a
    case Refused => None
    case Broke(served) => served
    case Replied(clock) => Some(clock)
  }

  predicate Retries(x: Exchange) { x.Exchange? && x.reused && !x.first.Replied? }

  /** The clock readings at which the peer served the request. */
  function Servings(x: Exchange): seq<real> {
    if x.Unencodable? then []
    else
      (if ServedAt(x.first).Some? then [ServedAt(x.first).value] else [])
      + if Retries(x) && ServedAt(x.second).Some? then [ServedAt(x.second).value] else []
  }

  predicate Answers(x: Exchange) { x.Exchange? && (x.first.Replied? || (Retries(x) && x.second.Replied?)) }

  /** The peer's clock does not run backwards. */
  predicate Monotonic(x: Exchange) { |Servings(x)| == 2 ==> Servings(x)[0] <= Servings(x)[1] }

  /** A replica as its handle reaches it: the store on the far side, and what happens on the way to it. */
  datatype Handle =
    | LocalHandle(store: LocalLWWStore, now: real)
    | RemoteHandle(store: LocalLWWStore, exchange: Exchange)
  {
    predicate Reached() { LocalHandle? || Servings(exchange) != [] }

    predicate Confirmed() { LocalHandle? || Answers(exchange) }

    /** The store's clock when it was last asked. */
    function Clock(): real
      requires Reached()
    {
      if LocalHandle? then now else Servings(exchange)[|Servings(exchange)| - 1]
    }

    predicate Raises() { RemoteHandle? && exchange.Unencodable? }

    predicate Timely() { RemoteHandle? ==> Monotonic(exchange) }
  }

  function Stores(handles: seq<Handle>): set<LocalLWWStore> { set h | h in handles :: h.store }

  /** Each node keeps its own store. */
  ghost predicate Separate(handles: seq<Handle>) {
    forall i, j :: 0 <= i < j < |handles| ==> handles[i].store != handles[j].store
  }

  predicate Holds(d: Data, key: string, ts: int) { key in d && d[key].ts >= ts }

  // ---------------------------------------------------------------- one exchange

  /** The reply that comes back from one try, and the store it leaves. */
  function Tried(d: Data, msg: Message, a: Attempt): (Option<Message>, Data) {
    if ServedAt(a).None? then (None, d)
    else
      var (reply, d') := Served(d, msg, ServedAt(a).value, 0);
      (if a.Replied? then reply else None, d')
  }

  /** The reply of the exchange, a retry included; a request that ends the connection gets no reply. */
  function Executed(d: Data, msg: Message, x: Exchange): (Option<Message>, Data)
    requires x.Exchange?
  {
    var (reply, d') := Tried(d, msg, x.first);
    if reply.Some? || !x.reused then (reply, d') else Tried(d', msg, x.second)
  }

  /** The exchange case by case: the reply to a served try comes back as it is; a try that fails leaves what it
      served, without a reply, unless it was on an idle connection: then the exchange goes on as one with
      none at hand. */
  lemma ExchangeByCases(d: Data, msg: Message, reused: bool, clock: real, second: Attempt)
    ensures Served(d, msg, clock, 0).0.Some? ==>
              Executed(d, msg, Exchange(reused, Replied(clock), second)) == Served(d, msg, clock, 0)
    ensures Executed(d, msg, Exchange(false, Broke(Some(clock)), second)) == (None, Served(d, msg, clock, 0).1)
    ensures Executed(d, msg, Exchange(false, Broke(None), second)) == (None, d)
    ensures Executed(d, msg, Exchange(false, Refused, second)) == (None, d)
    ensures Executed(d, msg, Exchange(true, Broke(Some(clock)), second))
         == Executed(Served(d, msg, clock, 0).1, msg, Exchange(false, second, Refused))
    ensures Executed(d, msg, Exchange(true, Broke(None), second)) == Executed(d, msg, Exchange(false, second, Refused))
  {
  }

  method Try(store: LocalLWWStore, msg: Message, a: Attempt) returns (reply: Option<Message>)
    modifies store
    ensures (reply, store.data) == Tried(old(store.data), msg, a)
  {
    match a {
      case Refused => reply := None;
      case Broke(served) =>
        reply := None;
        if served.Some? {
          var _ := Dispatch(msg, store, served.value, 0);
        }
      case Replied(clock) => reply := Dispatch(msg, store, clock, 0);
    }
  }

  method Execute(h: Handle, msg: Message) returns (reply: Result<Option<Message>>)
    requires h.RemoteHandle?
    modifies h.store
    ensures reply.Raised? <==> h.Raises()
    ensures h.Raises() ==> h.store.data == old(h.store.data)
    ensures !h.Raises() ==> (reply.value, h.store.data) == Executed(old(h.store.data), msg, h.exchange)
  {
    if h.exchange.Unencodable? {
      return Raised;
    }
    var first := Try(h.store, msg, h.exchange.first);
    if first.Some? || !h.exchange.reused {
      return Done(first);
    }
    var second := Try(h.store, msg, h.exchange.second);
    return Done(second);
  }

  /** A read served twice reads what the later one finds. */
  lemma ResentGet(d: Data, key: string, x: Exchange)
    requires x.Exchange? && Monotonic(x)
    ensures var (reply, d') := Executed(d, GetRequest(key), x);
            && (Answers(x) ==> DecodeVersion(reply) == RemoteRead(d, key, Servings(x)[|Servings(x)| - 1]))
            && (!Answers(x) ==> DecodeVersion(reply) == None)
            && d' == if Servings(x) == [] then d else Touch(d, key, Servings(x)[|Servings(x)| - 1])
  {
    if |Servings(x)| == 2 && key in d {
      assert Lapsed(d[key], Servings(x)[0]) ==> Lapsed(d[key], Servings(x)[1]);
    }
  }

  /** A value served twice is stored as if served once, by the later clock, and is confirmed whenever the
      reply comes back. */
  lemma ResentSet(d: Data, key: string, value: Value, ttl: Option<real>, ts: int, x: Exchange)
    requires x.Exchange?
    ensures var (reply, d') := Executed(d, SetRequest(key, value, ttl, ts), x);
            && (DecodeOk(reply) <==> Answers(x))
            && d' == if Servings(x) == [] then d
                     else Put(d, key, Entry(Live(value), Deadline(Servings(x)[|Servings(x)| - 1], ttl), ts))
  {
  }

  /** A delete served twice deletes as if served once, but then is confirmed only if it was stale: the
      second serving finds the tombstone left by the first. */
  lemma ResentDelete(d: Data, key: string, ts: int, x: Exchange)
    requires x.Exchange?
    ensures var (reply, d') := Executed(d, DeleteRequest(key, ts), x);
            && (DecodeOk(reply) <==> Answers(x) && IsLive(d, key) && (|Servings(x)| == 1 || d[key].ts > ts))
            && d' == if Servings(x) == [] then d else Put(d, key, Entry(Tombstone, None, ts))
  {
  }

  /** A live value, and a delete whose first reply is lost on a reused connection: the value is gone and
      the caller is told that nothing was deleted. */
  lemma DeleteDenied()
    ensures var d := Put(map[], "k", Entry(Live(Obj(1)), None, 1));
            var (reply, d') := Executed(d, DeleteRequest("k", 2), Exchange(true, Broke(Some(0.0)), Replied(1.0)));
            d' == map["k" := Entry(Tombstone, None, 2)] && reply.Some? && !DecodeOk(reply)
  {
    var d := Put(map[], "k", Entry(Live(Obj(1)), None, 1));
    ResentDelete(d, "k", 2, Exchange(true, Broke(Some(0.0)), Replied(1.0)));
  }

  // ---------------------------------------------------------------- writes

  function NewEntry(body: Body, ttl: Option<real>, ts: int, now: real): Entry {
    Entry(body, if body.Live? then Deadline(now, ttl) else None, ts)
  }

  function Written(h: Handle, d: Data, key: string, body: Body, ttl: Option<real>, ts: int): Data {
    if h.Reached() then Put(d, key, NewEntry(body, ttl, ts, h.Clock())) else d
  }

  /** What a handle's `set` or `delete` returns, from the store before the call. */
  predicate Confirms(h: Handle, d: Data, key: string, body: Body, ts: int) {
    match body
    case Live(_) => if h.LocalHandle? then Accepts(d, key, ts) else Answers(h.exchange)
    case Tombstone =>
      && h.Confirmed() && IsLive(d, key)
      && (h.LocalHandle? || |Servings(h.exchange)| == 1 || d[key].ts > ts)
  }

  /** What a write through a handle, local or remote, does to the store: if the store was reached, and held
      nothing newer, a value is read there up to and including its TTL after the clock reading at which
      the store took it, a delete for ever, and other keys stay. Else the store is as it was. */
  ghost predicate Lands(h: Handle, d: Data, d': Data, key: string, body: Body, ttl: Option<real>, ts: int) {
    && d' == Written(h, d, key, body, ttl, ts)
    && if h.Reached() && !(key in d && d[key].ts > ts) then
         && d' - {key} == d - {key}
         && (match body
             case Live(value) => LivesFrom(d', key, value, ts, h.Clock(), ttl)
             case Tombstone => forall t: real :: Versioned(d', key, t) == Some(Version(Nil, ts, true)))
       else d' == d
  }

  lemma WrittenLands(h: Handle, d: Data, key: string, body: Body, ttl: Option<real>, ts: int)
    ensures Lands(h, d, Written(h, d, key, body, ttl, ts), key, body, ttl, ts)
  {
    if body.Live? && h.Reached() && !(key in d && d[key].ts > ts) {
      forall t: real {
        ValueLives(d, key, body.value, ttl, ts, h.Clock(), t);
      }
    }
  }

  /** What a local handle does is what the store does. */
  lemma LocalHandleIsStore(store: LocalLWWStore, now: real, d: Data, key: string, value: Value, ttl: Option<real>, ts: int)
    ensures var h := LocalHandle(store, now);
            && h.Reached() && h.Confirmed() && h.Clock() == now
            && (Confirms(h, d, key, Live(value), ts) <==> !(key in d && d[key].ts > ts))
            && (Confirms(h, d, key, Tombstone, ts) <==> key in d && d[key].body.Live?)
            && (key in d && d[key].ts > ts ==> Written(h, d, key, Tombstone, None, ts) == d)
            && (!(key in d && d[key].ts > ts) ==> Written(h, d, key, Tombstone, None, ts) == d[key := Entry(Tombstone, None, ts)])
            && Reading(h, d, key) == Versioned(d, key, now) && Looked(h, d, key) == Touch(d, key, now)
  {
  }

  /** What a remote handle does is what the exchange of its request does. */
  lemma RemoteHandleIsExchange(store: LocalLWWStore, x: Exchange, d: Data, key: string, value: Value,
                               ttl: Option<real>, ts: int)
    requires x.Exchange?
    ensures var h := RemoteHandle(store, x);
            && Executed(d, SetRequest(key, value, ttl, ts), x).1 == Written(h, d, key, Live(value), ttl, ts)
            && DecodeOk(Executed(d, SetRequest(key, value, ttl, ts), x).0) == Confirms(h, d, key, Live(value), ts)
            && Executed(d, DeleteRequest(key, ts), x).1 == Written(h, d, key, Tombstone, None, ts)
            && DecodeOk(Executed(d, DeleteRequest(key, ts), x).0) == Confirms(h, d, key, Tombstone, ts)
            && (Monotonic(x) ==>
                  && Executed(d, GetRequest(key), x).1 == Looked(h, d, key)
                  && DecodeVersion(Executed(d, GetRequest(key), x).0) == Reading(h, d, key))
  {
    ResentSet(d, key, value, ttl, ts, x);
    ResentDelete(d, key, ts, x);
    if Monotonic(x) {
      ResentGet(d, key, x);
    }
  }

  method HandleSet(h: Handle, key: string, value: Value, ttl: Option<real>, ts: int) returns (ok: Result<bool>)
    modifies h.store
    ensures Lands(h, old(h.store.data), h.store.data, key, Live(value), ttl, ts)
    ensures ok == if h.Raises() then Raised else Done(Confirms(h, old(h.store.data), key, Live(value), ts))
    ensures h.LocalHandle? ==> ok == Done(!(key in old(h.store.data) && old(h.store.data)[key].ts > ts))
  {
    WrittenLands(h, h.store.data, key, Live(value), ttl, ts);
    match h
    case LocalHandle(store, now) =>
      var stored := store.Set(key, value, ttl, Some(ts), now, 0);
      ok := Done(stored);
    case RemoteHandle(store, exchange) =>
      var reply := Execute(h, SetRequest(key, value, ttl, ts));
      if reply.Raised? {
        return Raised;
      }
      ResentSet(old(store.data), key, value, ttl, ts, exchange);
      ok := Done(DecodeOk(reply.value));
  }

  method HandleDelete(h: Handle, key: string, ts: int) returns (ok: Result<bool>)
    modifies h.store
    ensures Lands(h, old(h.store.data), h.store.data, key, Tombstone, None, ts)
    ensures ok == if h.Raises() then Raised else Done(Confirms(h, old(h.store.data), key, Tombstone, ts))
    ensures h.LocalHandle? ==> ok == Done(key in old(h.store.data) && old(h.store.data)[key].body.Live?)
  {
    WrittenLands(h, h.store.data, key, Tombstone, None, ts);
    match h
    case LocalHandle(store, _) =>
      var lived := store.Delete(key, Some(ts), 0);
      ok := Done(lived);
    case RemoteHandle(store, exchange) =>
      var reply := Execute(h, DeleteRequest(key, ts));
      if reply.Raised? {
        return Raised;
      }
      ResentDelete(old(store.data), key, ts, exchange);
      ok := Done(DecodeOk(reply.value));
  }

  method HandleWrite(h: Handle, key: string, body: Body, ttl: Option<real>, ts: int) returns (ok: Result<bool>)
    requires body.Tombstone? ==> ttl == None
    modifies h.store
    ensures Lands(h, old(h.store.data), h.store.data, key, body, ttl, ts)
    ensures ok == if h.Raises() then Raised else Done(Confirms(h, old(h.store.data), key, body, ts))
  {
    match body {
      case Live(value) => ok := HandleSet(h, key, value, ttl, ts);
      case Tombstone => ok := HandleDelete(h, key, ts);
    }
  }

  /** How many handles are called before one raises. */
  function Asked(handles: seq<Handle>): (k: nat)
    ensures k <= |handles| && forall i :: 0 <= i < k ==> !handles[i].Raises()
    ensures k < |handles| ==> handles[k].Raises()
  {
    if handles == [] || handles[0].Raises() then 0 else 1 + Asked(handles[1..])
  }

  lemma {:induction false} AskedIs(handles: seq<Handle>, k: nat)
    requires k <= |handles| && forall i :: 0 <= i < k ==> !handles[i].Raises()
    requires k < |handles| ==> handles[k].Raises()
    ensures Asked(handles) == k
  {
    if k > 0 {
      AskedIs(handles[1..], k - 1);
    }
  }

  /** What one handle's write does to its store, and answers. */
  ghost predicate Takes(h: Handle, d: Data, d': Data, ok: bool, key: string, body: Body, ttl: Option<real>, ts: int) {
    Lands(h, d, d', key, body, ttl, ts) && (ok <==> Confirms(h, d, key, body, ts))
  }

  lemma ConfirmedHolds(h: Handle, d: Data, d': Data, key: string, body: Body, ttl: Option<real>, ts: int)
    requires Takes(h, d, d', true, key, body, ttl, ts)
    ensures Holds(d', key, ts)
  {
  }

  /** One write to every replica in turn, until one raises. */
  method AskInTurn(handles: seq<Handle>, key: string, body: Body, ttl: Option<real>, ts: int)
    returns (answers: seq<bool>)
    requires Separate(handles) && (body.Tombstone? ==> ttl == None)
    modifies Stores(handles)
    ensures |answers| == Asked(handles)
    ensures forall i :: 0 <= i < |answers| ==>
              Takes(handles[i], old(handles[i].store.data), handles[i].store.data, answers[i], key, body, ttl, ts)
    ensures forall i :: |answers| <= i < |handles| ==> handles[i].store.data == old(handles[i].store.data)
  {
    answers := [];
    for i := 0 to |handles|
      invariant |answers| == i
      invariant forall j :: 0 <= j < i ==> !handles[j].Raises()
      invariant forall j :: 0 <= j < i ==>
                  Takes(handles[j], old(handles[j].store.data), handles[j].store.data, answers[j], key, body, ttl, ts)
      invariant forall j :: i <= j < |handles| ==> handles[j].store.data == old(handles[j].store.data)
    {
      assert handles[i].store in Stores(handles);
      var ok := HandleWrite(handles[i], key, body, ttl, ts);
      if ok.Raised? {
        AskedIs(handles, i);
        return;
      }
      answers := answers + [ok.value];
    }
    AskedIs(handles, |handles|);
  }

  /** If a handle raises, the others are not asked, and the exception is the caller's, but those asked before
      have taken the write. */
  method FanOut(handles: seq<Handle>, key: string, body: Body, ttl: Option<real>, ts: int)
    returns (results: Result<seq<bool>>)
    requires Separate(handles) && (body.Tombstone? ==> ttl == None)
    modifies Stores(handles)
    ensures results.Raised? <==> Asked(handles) < |handles|
    ensures forall i :: 0 <= i < Asked(handles) ==>
              Lands(handles[i], old(handles[i].store.data), handles[i].store.data, key, body, ttl, ts)
    ensures forall i :: Asked(handles) <= i < |handles| ==> handles[i].store.data == old(handles[i].store.data)
    ensures results.Done? ==>
              && |results.value| == |handles|
              && forall i :: 0 <= i < |handles| ==>
                   (results.value[i] <==> Confirms(handles[i], old(handles[i].store.data), key, body, ts))
    ensures results.Done? && true in results.value ==>
              exists i :: 0 <= i < |handles| && Holds(handles[i].store.data, key, ts)
  {
    var answers := AskInTurn(handles, key, body, ttl, ts);
    if |answers| < |handles| {
      return Raised;
    }
    if true in answers {
      var i :| 0 <= i < |answers| && answers[i];
      ConfirmedHolds(handles[i], old(handles[i].store.data), handles[i].store.data, key, body, ttl, ts);
    }
    return Done(answers);
  }

  // ---------------------------------------------------------------- reads

  function Reading(h: Handle, d: Data, key: string): Option<Version> {
    if h.LocalHandle? then Versioned(d, key, h.now)
    else if Answers(h.exchange) then RemoteRead(d, key, h.Clock())
    else None
  }

  function Looked(h: Handle, d: Data, key: string): Data {
    if h.Reached() then Touch(d, key, h.Clock()) else d
  }

  method HandleGetVersioned(h: Handle, key: string) returns (version: Result<Option<Version>>)
    requires h.Timely()
    modifies h.store
    ensures h.store.data == Looked(h, old(h.store.data), key)
    ensures version == if h.Raises() then Raised else Done(Reading(h, old(h.store.data), key))
  {
    match h
    case LocalHandle(store, now) =>
      var found := store.GetVersioned(key, now);
      version := Done(found);
    case RemoteHandle(store, exchange) =>
      var reply := Execute(h, GetRequest(key));
      if reply.Raised? {
        return Raised;
      }
      ResentGet(old(store.data), key, exchange);
      version := Done(DecodeVersion(reply.value));
  }

  /** `LWW.read_resolve`: a replica that does not answer, or raises, counts as having nothing. */
  method ReadResolve(handles: seq<Handle>, key: string) returns (value: Value, replies: seq<Option<Version>>)
    requires Separate(handles) && forall h :: h in handles ==> h.Timely()
    modifies Stores(handles)
    ensures |replies| == |handles| && value == Merge(replies)
    ensures forall i :: 0 <= i < |handles| ==>
              && replies[i] == Reading(handles[i], old(handles[i].store.data), key)
              && handles[i].store.data == Looked(handles[i], old(handles[i].store.data), key)
  {
    replies := [];
    for i := 0 to |handles|
      invariant |replies| == i
      invariant forall j :: 0 <= j < i ==>
                  && replies[j] == Reading(handles[j], old(handles[j].store.data), key)
                  && handles[j].store.data == Looked(handles[j], old(handles[j].store.data), key)
      invariant forall j :: i <= j < |handles| ==> handles[j].store.data == old(handles[j].store.data)
    {
      assert handles[i].store in Stores(handles);
      var reply := HandleGetVersioned(handles[i], key);
      replies := replies + [if reply.Raised? then None else reply.value];
    }
    value := MergeReplies(replies);
  }

  // ---------------------------------------------------------------- the node

  class StorageNode {
    const info: NodeInfo
    const store: LocalLWWStore
    const ring: RendezvousRing
    const replication: nat
    /** The stores of the other nodes, reachable or not. */
    const peers: map<NodeInfo, LocalLWWStore>

    constructor (info: NodeInfo, ring: RendezvousRing, replication: nat, peers: map<NodeInfo, LocalLWWStore>)
      ensures this.info == info && this.ring == ring && this.replication == replication && this.peers == peers
      ensures fresh(store) && store.data == map[]
    {
      this.info := info;
      this.ring := ring;
      this.replication := replication;
      this.peers := peers;
      this.store := new LocalLWWStore();
    }

    /** Every other ring member is some node, and no two nodes share a store. */
    ghost predicate Valid()
      reads ring
    {
      && ring.nodes <= peers.Keys + {info} && info !in peers
      && store !in peers.Values
      && forall a, b :: a in peers && b in peers && peers[a] == peers[b] ==> a == b
    }

    /** Nodes that have a store: this one and its peers. */
    predicate Known(n: NodeInfo) { n in peers || n == info }

    function StoreOf(n: NodeInfo): LocalLWWStore
      requires Known(n)
    {
      if n == info then store else peers[n]
    }

    /** The handle for a replica; the own store is asked when the own clock reads `now`. */
    function HandleOf(n: NodeInfo, now: real, network: Network): Handle
      requires Known(n)
    {
      if n == info then LocalHandle(store, now) else RemoteHandle(peers[n], network(n))
    }

    function HandlesOf(nodes: seq<NodeInfo>, now: real, network: Network): seq<Handle>
      requires forall i :: 0 <= i < |nodes| ==> Known(nodes[i])
    {
      seq(|nodes|, i requires 0 <= i < |nodes| => HandleOf(nodes[i], now, network))
    }

    ghost function AllStores(): set<LocalLWWStore> { {store} + peers.Values }

    /** `nodes` is the ring's answer for the key: the top replicas, each once. */
    ghost predicate Targets(key: string, nodes: seq<NodeInfo>)
      reads ring
    {
      && (exists order :: Enumerates(order, ring.nodes) && nodes == TopNodes(ring.score, key, order, replication))
      && (forall n :: n in nodes <==> InTop(ring.score, key, ring.nodes, replication, n))
      && (forall i, j :: 0 <= i < j < |nodes| ==> nodes[i] != nodes[j])
    }

    method Route(key: string) returns (nodes: seq<NodeInfo>)
      requires Valid() && Distinct(ring.score, key, ring.nodes)
      ensures Targets(key, nodes) && forall i :: 0 <= i < |nodes| ==> Known(nodes[i])
      ensures forall i, j :: 0 <= i < j < |nodes| ==> nodes[i] != nodes[j]
    {
      nodes := ring.GetNodes(key, replication);
      var order :| Enumerates(order, ring.nodes) && nodes == TopNodes(ring.score, key, order, replication);
      TopNodesIsTop(ring.score, key, ring.nodes, order, replication);
      assert forall i :: 0 <= i < |nodes| ==> nodes[i] in nodes;
    }

    method MakeHandles(nodes: seq<NodeInfo>, now: real, network: Network) returns (handles: seq<Handle>)
      requires Valid() && forall i :: 0 <= i < |nodes| ==> Known(nodes[i])
      requires forall i, j :: 0 <= i < j < |nodes| ==> nodes[i] != nodes[j]
      ensures handles == HandlesOf(nodes, now, network)
      ensures forall i :: 0 <= i < |nodes| ==> handles[i] == HandleOf(nodes[i], now, network)
      ensures forall i :: 0 <= i < |nodes| ==> handles[i].store == StoreOf(nodes[i])
      ensures Separate(handles) && Stores(handles) <= AllStores()
    {
      handles := seq(|nodes|, i requires 0 <= i < |nodes| && Known(nodes[i]) => HandleOf(nodes[i], now, network));
    }

    /** The store of a node not asked is behind no handle, or behind a later one. */
    lemma UnaskedStore(nodes: seq<NodeInfo>, handles: seq<Handle>, asked: nat, n: NodeInfo)
      requires Valid() && Known(n) && asked <= |nodes| == |handles| && n !in nodes[..asked]
      requires forall i :: 0 <= i < |nodes| ==> Known(nodes[i]) && handles[i].store == StoreOf(nodes[i])
      ensures StoreOf(n) !in Stores(handles) || exists i :: asked <= i < |handles| && handles[i].store == StoreOf(n)
    {
      if i :| 0 <= i < |handles| && handles[i].store == StoreOf(n) {
        assert nodes[i] == n;
        assert forall j :: 0 <= j < asked ==> nodes[..asked][j] == nodes[j];
      }
    }

    /** A write to the given replicas: of those asked before an exception, exactly those the network reaches
        take it. */
    method WriteTo(nodes: seq<NodeInfo>, key: string, body: Body, ttl: Option<real>, ts: int, now: real, network: Network)
      returns (ok: Result<bool>)
      requires Valid() && forall i :: 0 <= i < |nodes| ==> Known(nodes[i])
      requires forall i, j :: 0 <= i < j < |nodes| ==> nodes[i] != nodes[j]
      requires body.Tombstone? ==> ttl == None
      modifies AllStores()
      ensures ok.Raised? <==> Asked(HandlesOf(nodes, now, network)) < |nodes|
      ensures forall i :: 0 <= i < Asked(HandlesOf(nodes, now, network)) ==>
                Lands(HandleOf(nodes[i], now, network), old(StoreOf(nodes[i]).data), StoreOf(nodes[i]).data, key, body, ttl, ts)
      ensures forall n :: Known(n) && n !in nodes[..Asked(HandlesOf(nodes, now, network))] ==>
                StoreOf(n).data == old(StoreOf(n).data)
      ensures ok.Done? ==>
                (ok.value <==>
                 exists i :: 0 <= i < |nodes|
                             && Confirms(HandleOf(nodes[i], now, network), old(StoreOf(nodes[i]).data), key, body, ts))
      ensures ok == Done(true) ==> exists i :: 0 <= i < |nodes| && Holds(StoreOf(nodes[i]).data, key, ts)
    {
      var handles := MakeHandles(nodes, now, network);
      var results := FanOut(handles, key, body, ttl, ts);
      ghost var asked := Asked(handles);
      forall n | Known(n) && n !in nodes[..asked] ensures StoreOf(n).data == old(StoreOf(n).data) {
        UnaskedStore(nodes, handles, asked, n);
      }
      if results.Raised? {
        return Raised;
      }
      assert forall i :: 0 <= i < |nodes| ==>
               results.value[i] == Confirms(HandleOf(nodes[i], now, network), old(StoreOf(nodes[i]).data), key, body, ts);
      if true in results.value {
        ghost var j :| 0 <= j < |handles| && Holds(handles[j].store.data, key, ts);
        assert Holds(StoreOf(nodes[j]).data, key, ts);
      }
      ok := Done(true in results.value);
    }

    /** A write on an empty ring goes to the own store. */
    method WriteOwn(key: string, body: Body, ttl: Option<real>, ts: int, now: real)
      requires body.Tombstone? ==> ttl == None
      modifies store
      ensures Lands(LocalHandle(store, now), old(store.data), store.data, key, body, ttl, ts)
    {
      WrittenLands(LocalHandle(store, now), store.data, key, body, ttl, ts);
      match body {
        case Live(value) => var _ := store.Set(key, value, ttl, Some(ts), now, 0);
        case Tombstone => var _ := store.Delete(key, Some(ts), 0);
      }
    }

    /** `set` and `delete`, which differ in the body they write (a delete carries no TTL). On an empty
        ring the write goes to the node's own store and always succeeds. If the call returns True, some
        replica holds a version at least as new, even where an answer hid a rejection. It raises exactly
        when a replica's handle does; the replicas before that one were asked, those after it were not. */
    method Write(key: string, body: Body, ttl: Option<real>, ts: int, now: real, network: Network)
      returns (ok: Result<bool>, ghost top: seq<NodeInfo>)
      requires Valid() && Distinct(ring.score, key, ring.nodes) && (body.Tombstone? ==> ttl == None)
      modifies AllStores()
      ensures Targets(key, top) && forall i :: 0 <= i < |top| ==> Known(top[i])
      ensures top == [] ==>
                ok == Done(true) && Lands(LocalHandle(store, now), old(store.data), store.data, key, body, ttl, ts)
      ensures ok.Raised? <==> Asked(HandlesOf(top, now, network)) < |top|
      ensures forall i :: 0 <= i < Asked(HandlesOf(top, now, network)) ==>
                Lands(HandleOf(top[i], now, network), old(StoreOf(top[i]).data), StoreOf(top[i]).data, key, body, ttl, ts)
      ensures forall n :: Known(n) && n !in top[..Asked(HandlesOf(top, now, network))] && (top == [] ==> n != info) ==>
                StoreOf(n).data == old(StoreOf(n).data)
      ensures top != [] && ok.Done? ==>
                (ok.value <==>
                 exists i :: 0 <= i < |top|
                             && Confirms(HandleOf(top[i], now, network), old(StoreOf(top[i]).data), key, body, ts))
      ensures ok == Done(true) ==>
                if top == [] then Holds(store.data, key, ts)
                else exists i :: 0 <= i < |top| && Holds(StoreOf(top[i]).data, key, ts)
    {
      var nodes := Route(key);
      top := nodes;
      if nodes == [] {
        WriteOwn(key, body, ttl, ts, now);
        return Done(true), top;
      }
      ok := WriteTo(nodes, key, body, ttl, ts, now, network);
    }

    method Get(key: string, now: real, network: Network)
      returns (value: Value, ghost top: seq<NodeInfo>, ghost replies: seq<Option<Version>>)
      requires Valid() && Distinct(ring.score, key, ring.nodes) && forall n :: Monotonic(network(n))
      modifies AllStores()
      ensures Targets(key, top) && forall i :: 0 <= i < |top| ==> Known(top[i])
      ensures top == [] ==> value == Plain(Versioned(old(store.data), key, now))
      ensures top == [] ==> store.data == Touch(old(store.data), key, now)
      ensures forall n :: Known(n) && n !in top && (top == [] ==> n != info) ==> StoreOf(n).data == old(StoreOf(n).data)
      ensures |replies| == |top| && (top != [] ==> value == Merge(replies))
      ensures forall i :: 0 <= i < |top| ==>
                && replies[i] == Reading(HandleOf(top[i], now, network), old(StoreOf(top[i]).data), key)
                && StoreOf(top[i]).data == Looked(HandleOf(top[i], now, network), old(StoreOf(top[i]).data), key)
    {
      var nodes := Route(key);
      top, replies := nodes, [];
      if nodes == [] {
        value := store.Get(key, now);
        return value, top, replies;
      }
      var handles := MakeHandles(nodes, now, network);
      value, replies := ReadResolve(handles, key);
      forall n | Known(n) && n !in nodes ensures StoreOf(n).data == old(StoreOf(n).data) {
        assert StoreOf(n) !in Stores(handles);
      }
    }
  }
}
