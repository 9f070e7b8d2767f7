/** Serving a request against a store, and reading the reply on the other side
    (dlstorage/node/dispatcher.py and the remote handles of dlstorage/node). */
module Dispatcher {
  import opened Types
  import opened LwwStore

  // ---------------------------------------------------------------- the server side

  /** The reply to a request and the store it leaves. No reply stands for a KeyError, which ends the
      connection. */
  function Served(d: Data, msg: Message, now: real, wall: int): (Option<Message>, Data) {
    var p := msg.payload;
    match msg.kind
    case Get =>
      if p.key.None? then (None, d)
      else (Some(GetReply(p.key.value, Versioned(d, p.key.value, now))), Touch(d, p.key.value, now))
    case Set =>
      if p.key.None? || p.value.None? then (None, d)
      else
        (Some(Message(Ok, EMPTY.(key := p.key))),
         Put(d, p.key.value, Entry(Live(p.value.value), Deadline(now, p.ttl), Stamp(p.ts, wall))))
    case Delete =>
      if p.key.None? then (None, d)
      else
        (Some(Message(if IsLive(d, p.key.value) then Ok else NotFound, EMPTY.(key := p.key))),
         Put(d, p.key.value, Entry(Tombstone, None, Stamp(p.ts, wall))))
    case _ => (Some(Unserved(msg.kind)), d)
  }

  function GetReply(key: string, version: Option<Version>): Message {
    match version
    case None => Message(NotFound, EMPTY.(key := Some(key), ts := Some(0)))
    case Some(Version(_, ts, true)) =>
      Message(NotFound, EMPTY.(key := Some(key), ts := Some(ts), tombstone := Some(true)))
    case Some(Version(value, ts, false)) =>
      Message(Ok, EMPTY.(key := Some(key), value := Some(value), ts := Some(ts)))
  }

  method Dispatch(msg: Message, store: LocalLWWStore, now: real, wall: int) returns (reply: Option<Message>)
    modifies store
    ensures (reply, store.data) == Served(old(store.data), msg, now, wall)
  {
    var p := msg.payload;
    match msg.kind {
      case Get =>
        if p.key.None? { return None; }
        var key := p.key.value;
        var entry := store.GetVersioned(key, now);
        if entry.None? {
          return Some(Message(NotFound, EMPTY.(key := Some(key), ts := Some(0))));
        }
        if entry.value.tombstone {
          return Some(Message(NotFound,
                              EMPTY.(key := Some(key), ts := Some(entry.value.ts), tombstone := Some(true))));
        }
        return Some(Message(Ok, EMPTY.(key := Some(key), value := Some(entry.value.value), ts := Some(entry.value.ts))));
      case Set =>
        if p.key.None? || p.value.None? { return None; }
        var _ := store.Set(p.key.value, p.value.value, p.ttl, p.ts, now, wall);
        return Some(Message(Ok, EMPTY.(key := p.key)));
      case Delete =>
        if p.key.None? { return None; }
        var deleted := store.Delete(p.key.value, p.ts, wall);
        if deleted {
          return Some(Message(Ok, EMPTY.(key := p.key)));
        }
        return Some(Message(NotFound, EMPTY.(key := p.key)));
      case _ =>
        return Some(Unserved(msg.kind));
    }
  }

  // ---------------------------------------------------------------- the client side

  function GetRequest(key: string): Message { Message(Get, EMPTY.(key := Some(key))) }

  function SetRequest(key: string, value: Value, ttl: Option<real>, ts: int): Message {
    Message(Set, EMPTY.(key := Some(key), value := Some(value), ttl := ttl, ts := Some(ts)))
  }

  function DeleteRequest(key: string, ts: int): Message {
    Message(Delete, EMPTY.(key := Some(key), ts := Some(ts)))
  }

  /** How a remote handle turns the reply to a GET into a version; `None` is a missing reply. */
  function DecodeVersion(reply: Option<Message>): Option<Version> {
    if reply.None? then None
    else
      var p := reply.value.payload;
      var ts := if p.ts.Some? then p.ts.value else 0;
      match reply.value.kind
      case Ok => Some(Version(if p.value.Some? then p.value.value else Nil, ts, false))
      case NotFound => if ts > 0 then Some(Version(Nil, ts, p.tombstone == Some(true))) else None
      case _ => None
  }

  function DecodeOk(reply: Option<Message>): bool { reply.Some? && reply.value.kind == Ok }

  // ---------------------------------------------------------------- the two sides together

  function RemoteRead(d: Data, key: string, now: real): Option<Version> {
    DecodeVersion(Served(d, GetRequest(key), now, 0).0)
  }

  /** A remote read is the local read, for live, tombstoned, expired and absent keys alike. The one
      exception is a tombstone whose timestamp is not positive, which the wire reads as absent. */
  lemma RemoteReadRefinesLocal(d: Data, key: string, now: real)
    ensures RemoteRead(d, key, now) == Versioned(d, key, now)
       <==> !(key in d && d[key].body.Tombstone? && d[key].ts <= 0)
    ensures Served(d, GetRequest(key), now, 0).1 == Touch(d, key, now)
  {
    var v := Versioned(d, key, now);
    var reply := GetReply(key, v);
    assert DecodeVersion(Some(reply)) == if v.None? || (v.value.tombstone && v.value.ts <= 0) then None else v;
  }

  /** A remote write changes the store as a local one does, but reports success even when the store
      rejected the value; a remote delete reports what a local one does. */
  lemma RemoteWriteRefinesLocal(d: Data, key: string, value: Value, ttl: Option<real>, ts: int, now: real, wall: int)
    ensures var (reply, d') := Served(d, SetRequest(key, value, ttl, ts), now, wall);
            && d' == Put(d, key, Entry(Live(value), Deadline(now, ttl), ts))
            && DecodeOk(reply)
            && (DecodeOk(reply) == Accepts(d, key, ts) <==> !(key in d && d[key].ts > ts))
    ensures var (reply, d') := Served(d, DeleteRequest(key, ts), now, wall);
            && d' == Put(d, key, Entry(Tombstone, None, ts))
            && DecodeOk(reply) == IsLive(d, key)
  {
  }

  /** What a request leaves out: without a timestamp the server's wall clock stamps the write; without a key,
      or a value to set, there is no reply and no change; other kinds are refused. */
  lemma RequestsByField(d: Data, msg: Message, now: real, wall: int)
    ensures var p, (reply, d') := msg.payload, Served(d, msg, now, wall);
            match msg.kind
            case Get =>
              if p.key.None? then reply == None && d' == d
              else
                && d' == Touch(d, p.key.value, now)
                && reply.Some? && reply.value.payload.key == p.key
                && (match Versioned(d, p.key.value, now)
                    case None => reply.value == Message(NotFound, EMPTY.(key := p.key, ts := Some(0)))
                    case Some(v) =>
                      && reply.value.payload.ts == Some(v.ts)
                      && (v.tombstone <==> reply.value.kind == NotFound)
                      && (v.tombstone <==> reply.value.payload.tombstone == Some(true))
                      && (!v.tombstone <==> reply.value.kind == Ok)
                      && (!v.tombstone ==> reply.value.payload.value == Some(v.value)))
            case Set =>
              if p.key.None? || p.value.None? then reply == None && d' == d
              else
                var ts := if p.ts.Some? then p.ts.value else wall;
                && reply == Some(Message(Ok, EMPTY.(key := p.key)))
                && (if p.key.value in d && d[p.key.value].ts > ts then d' == d
                    else LivesFrom(d', p.key.value, p.value.value, ts, now, p.ttl))
            case Delete =>
              if p.key.None? then reply == None && d' == d
              else
                var ts := if p.ts.Some? then p.ts.value else wall;
                if p.key.value in d && d[p.key.value].ts > ts then d' == d
                else forall t: real :: Versioned(d', p.key.value, t) == Some(Version(Nil, ts, true))
            case _ => reply.Some? && reply.value.kind == Error && d' == d
  {
    var p := msg.payload;
    if msg.kind == Set && p.key.Some? && p.value.Some? {
      var ts := if p.ts.Some? then p.ts.value else wall;
      if !(p.key.value in d && d[p.key.value].ts > ts) {
        forall t: real {
          ValueLives(d, p.key.value, p.value.value, p.ttl, ts, now, t);
        }
      }
    }
  }

  /** A tombstone written without a positive timestamp: its node reads it as deleted, others as absent. */
  lemma TombstoneLost()
    ensures var d := Served(map[], DeleteRequest("k", 0), 0.0, 0).1;
            Versioned(d, "k", 0.0) == Some(Version(Nil, 0, true)) && RemoteRead(d, "k", 0.0) == None
  {
    RemoteReadRefinesLocal(Served(map[], DeleteRequest("k", 0), 0.0, 0).1, "k", 0.0);
  }

  /** A value sent after a newer one is rejected by the store and answered with OK. */
  lemma RejectionConfirmed()
    ensures var d := Served(map[], SetRequest("k", Obj(1), None, 2), 0.0, 0).1;
            var (reply, d') := Served(d, SetRequest("k", Obj(2), None, 1), 0.0, 0);
            DecodeOk(reply) && d' == d && RemoteRead(d', "k", 0.0) == Some(Version(Obj(1), 2, false))
  {
    RemoteReadRefinesLocal(Served(map[], SetRequest("k", Obj(1), None, 2), 0.0, 0).1, "k", 0.0);
  }
}
