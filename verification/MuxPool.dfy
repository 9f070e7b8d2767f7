/** The pool object (dlstorage/connection_pool/mux.py). Each method is one atomic stretch of the code and
    takes the machine of module Mux through exactly one step.

    The object remembers its history as a run of the machine, so what Mux proves of every run holds for
    every object and every sequence of calls, whichever threads make them. */
module MuxPool {
  import opened Types
  import opened Wire
  import opened Mux

  lemma RunGrows(run: seq<State>, steps: seq<Step>, step: Step)
    requires IsRun(run, steps) && Enabled(run[|run| - 1], step)
    ensures IsRun(run + [Apply(run[|run| - 1], step)], steps + [step])
  {
  }

  class MuxConnectionPool {
    const max: nat
    /** The pool's own fields. */
    var idle: map<string, seq<Sock>>
    var regQueue: seq<(Sock, InFlight)>
    var registered: map<Sock, InFlight>
    var wake: nat
    var loop: Loop
    /** The in-flight result cells, the calls, and the sockets themselves. */
    var slots: map<Caller, Option<seq<byte>>>
    var callers: map<Caller, Phase>
    var conns: map<Sock, Conn>
    var closing: set<Sock>
    var closed: set<Sock>
    /** Everything that happened since the pool was created. */
    ghost var run: seq<State>
    ghost var steps: seq<Step>

    ghost function Now(): State
      reads this
    {
      State(max, conns, callers, idle, regQueue, registered, closing, closed, slots, wake, loop)
    }

    ghost predicate Valid()
      reads this
    {
      IsRun(run, steps) && run[|run| - 1] == Now()
    }

    /** Exactly this step was taken. */
    twostate predicate Took(step: Step)
      reads this
    {
      && Enabled(old(Now()), step) && Now() == Apply(old(Now()), step)
      && run == old(run) + [Now()] && steps == old(steps) + [step]
    }

    lemma Enables(step: Step)
      requires Valid() && Ready(Now(), step)
      ensures Enabled(Now(), step)
    {
      InvHolds(run, steps, |run| - 1);
      ReadyIsEnabled(Now(), step);
    }

    ghost method Record(step: Step)
      requires IsRun(run, steps) && Enabled(run[|run| - 1], step) && Now() == Apply(run[|run| - 1], step)
      modifies this`run, this`steps
      ensures Valid() && run == old(run) + [Now()] && steps == old(steps) + [step]
    {
      RunGrows(run, steps, step);
      run, steps := run + [Now()], steps + [step];
    }

    constructor (max: nat)
      ensures Valid() && Now() == Opening(max) && steps == []
    {
      this.max := max;
      idle, regQueue, registered, wake, loop := map[], [], map[], 0, Polling;
      slots, callers, conns, closing, closed := map[], map[], map[], {}, {};
      run, steps := [Opening(max)], [];
    }

    /** `_acquire` under the lock: the oldest idle socket of the peer (deque `pop`), or none. */
    method Acquire(c: Caller, address: string)
      requires Valid() && Ready(Now(), Call(c, address))
      modifies this
      ensures Valid() && Took(Call(c, address))
    {
      Enables(Call(c, address));
      var pool := if address in idle then idle[address] else [];
      if pool != [] {
        var s := pool[|pool| - 1];
        idle := idle[address := pool[..|pool| - 1]];
        callers := callers[c := Holding(address, s)];
      } else {
        callers := callers[c := Connecting(address)];
      }
      Record(Call(c, address));
    }

    /** `execute` after the connect succeeded. */
    method Connected(c: Caller, sock: Sock)
      requires Valid() && Ready(Now(), Connect(c, sock))
      modifies this
      ensures Valid() && Took(Connect(c, sock))
    {
      Enables(Connect(c, sock));
      var address := callers[c].addr;
      conns := conns[sock := Conn(address, [], [], [])];
      callers := callers[c := Holding(address, sock)];
      Record(Connect(c, sock));
    }

    /** `execute` after it failed: the socket, if there is one by then, is closed. */
    method NotConnected(c: Caller, created: Option<Sock>)
      requires Valid() && Ready(Now(), ConnectFails(c, created))
      modifies this
      ensures Valid() && Took(ConnectFails(c, created))
    {
      Enables(ConnectFails(c, created));
      var address := callers[c].addr;
      if created.Some? {
        conns := conns[created.value := Conn(address, [], [], [])];
        closed := closed + {created.value};
      }
      callers := callers[c := Returned(address, None)];
      Record(ConnectFails(c, created));
    }

    /** `execute` sending the request: on failure the socket is closed and the call returns None. */
    method SendRequest(c: Caller, ok: bool)
      requires Valid() && Ready(Now(), Send(c))
      modifies this
      ensures Valid() && Took(if ok then Send(c) else SendFails(c))
    {
      ghost var step := if ok then Send(c) else SendFails(c);
      Enables(Send(c));
      Enables(SendFails(c));
      var Holding(address, sock) := callers[c];
      if ok {
        var conn := conns[sock];
        conns := conns[sock := conn.(asked := conn.asked + [c])];
        callers := callers[c := Sent(address, sock)];
      } else {
        closed := closed + {sock};
        callers := callers[c := Returned(address, None)];
      }
      Record(step);
    }

    /** `execute` when the message cannot be encoded: the exception leaves the socket where it is. */
    method EncodeRaises(c: Caller)
      requires Valid() && Ready(Now(), EncodeFails(c))
      modifies this
      ensures Valid() && Took(EncodeFails(c))
    {
      Enables(EncodeFails(c));
      var Holding(address, sock) := callers[c];
      callers := callers[c := Raised(address, sock)];
      Record(EncodeFails(c));
    }

    /** `execute` handing the socket to the selector. */
    method HandOff(c: Caller)
      requires Valid() && Ready(Now(), Enqueue(c))
      modifies this
      ensures Valid() && Took(Enqueue(c))
    {
      Enables(Enqueue(c));
      var Sent(address, sock) := callers[c];
      var inflight := InFlight(c, address, FRESH);
      slots := slots[c := None];
      regQueue := regQueue + [(sock, inflight)];
      callers := callers[c := Waking(address)];
      Record(Enqueue(c));
    }

    method Wakeup(c: Caller)
      requires Valid() && Ready(Now(), Wake(c))
      modifies this
      ensures Valid() && Took(Wake(c))
    {
      Enables(Wake(c));
      wake := wake + 1;
      callers := callers[c := Waiting(callers[c].addr)];
      Record(Wake(c));
    }

    /** `execute` past the wait, woken or timed out. What it returns, if anything, is what the peer it
        addressed sent in answer to this very call, which went out once. */
    method TakeResult(c: Caller) returns (result: Option<seq<byte>>)
      requires Valid() && Ready(Now(), Finish(c))
      modifies this
      ensures Valid() && Took(Finish(c)) && result == old(slots)[c]
      ensures result.Some? ==>
                exists x, i :: AnsweredOn(Now(), x, i, c, callers[c].addr, result.value)
                               && forall y, j :: AskedAt(Now(), y, j, c) ==> y == x && j == i
    {
      Enables(Finish(c));
      result := slots[c];
      callers := callers[c := Returned(callers[c].addr, result)];
      Record(Finish(c));
      if result.Some? {
        CallerGetsOwnReply(run, steps, |run| - 1, c);
      }
    }

    /** `_io_loop` on a wake-up event: read up to 4096 bytes. */
    method ReadWakeups()
      requires Valid() && Ready(Now(), DrainWake)
      modifies this
      ensures Valid() && Took(DrainWake) && wake == if old(wake) <= 4096 then 0 else old(wake) - 4096
    {
      Enables(DrainWake);
      var read := if wake < 4096 then wake else 4096;
      wake := wake - read;
      loop := Draining;
      Record(DrainWake);
    }

    /** `_io_loop` emptying the queue: one `get_nowait`. The socket is never one already registered. */
    method RegisterNext()
      requires Valid() && loop.Draining?
      modifies this
      ensures Valid() && Took(if old(regQueue) == [] then DrainDone else Register)
      ensures old(regQueue) != [] ==> old(regQueue[0]).0 !in old(registered)
    {
      ghost var step := if regQueue == [] then DrainDone else Register;
      Enables(step);
      SocketOwnership(run, steps, |run| - 1);
      if regQueue == [] {
        loop := Polling;
      } else {
        var (sock, inflight) := regQueue[0];
        regQueue := regQueue[1..];
        registered := registered[sock := inflight];
      }
      Record(step);
    }

    /** `_handle_read` when `recv` returned `size` bytes. */
    method HandleRead(sock: Sock, size: nat)
      requires Valid() && Ready(Now(), Read(sock, size))
      modifies this
      ensures Valid() && Took(Read(sock, size))
    {
      Enables(Read(sock, size));
      var inflight, conn := registered[sock], conns[sock];
      var chunk := conn.inbound[..size];
      conns := conns[sock := conn.(inbound := conn.inbound[size..])];
      var reader := inflight.reader;
      var buf := reader.buf + chunk;
      if |buf| < reader.expected {
        registered := registered[sock := inflight.(reader := reader.(buf := buf))];
      } else if !reader.hdrDone {
        var expected := FromBytes(buf[..HEADER_SIZE]);
        registered := registered[sock := inflight.(reader := Reader([], expected, true))];
      } else {
        registered := registered - {sock};
        loop := Returning(sock, inflight, buf);
      }
      Record(Read(sock, size));
    }

    /** `_fail`: the call is left with no result. */
    method Fail(sock: Sock)
      requires Valid() && Ready(Now(), ReadFails(sock))
      modifies this
      ensures Valid() && Took(ReadFails(sock))
    {
      Enables(ReadFails(sock));
      registered := registered - {sock};
      closed := closed + {sock};
      Record(ReadFails(sock));
    }

    /** `_return`: keep the socket if the pool of its peer has room (deque `appendleft`). */
    method Return()
      requires Valid() && Ready(Now(), GiveBack)
      modifies this
      ensures Valid() && Took(GiveBack)
    {
      Enables(GiveBack);
      var Returning(sock, inflight, body) := loop;
      var address := inflight.addr;
      if address !in idle {
        idle := idle[address := []];
      }
      var pool := idle[address];
      if |pool| < max {
        idle := idle[address := [sock] + pool];
      } else {
        closed := closed + {sock};
      }
      loop := Delivering(inflight, body);
      if |pool| < max {
        assert idle == old(idle)[address := [sock] + pool];
      } else {
        assert idle == old(idle)[address := pool];
      }
      Record(GiveBack);
    }

    /** `_handle_read` at its end: the result is in the cell before the event is set. */
    method PutResult()
      requires Valid() && Ready(Now(), Deliver)
      modifies this
      ensures Valid() && Took(Deliver)
    {
      Enables(Deliver);
      var Delivering(inflight, body) := loop;
      slots := slots[inflight.caller := Some(body)];
      loop := Polling;
      Record(Deliver);
    }

    /** `close_peer` under the lock, for a known or unknown peer. */
    method TakePeer(address: string)
      requires Valid()
      modifies this
      ensures Valid() && Took(ClosePeer(address))
    {
      Enables(ClosePeer(address));
      var socks := if address in idle then idle[address] else [];
      idle := idle - {address};
      closing := closing + set x | x in socks;
      Record(ClosePeer(address));
    }

    /** `close_peer` past the lock: the sockets taken out are closed one by one. */
    method CloseTaken(sock: Sock)
      requires Valid() && Ready(Now(), CloseOne(sock))
      modifies this
      ensures Valid() && Took(CloseOne(sock))
    {
      Enables(CloseOne(sock));
      closing := closing - {sock};
      closed := closed + {sock};
      Record(CloseOne(sock));
    }

    /** The peer at the other end answers the oldest request it has not answered. */
    method PeerAnswers(sock: Sock, body: seq<byte>)
      requires Valid() && Ready(Now(), PeerReplies(sock, body))
      modifies this
      ensures Valid() && Took(PeerReplies(sock, body))
    {
      Enables(PeerReplies(sock, body));
      var conn := conns[sock];
      conns := conns[sock := conn.(replies := conn.replies + [body], inbound := conn.inbound + Frame(body))];
      Record(PeerReplies(sock, body));
    }
  }
}
