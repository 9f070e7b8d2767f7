/** The multiplexed connection pool as a machine (dlstorage/connection_pool/mux.py): callers, the
    registration queue, the selector thread and the idle sockets, interleaved at will with the peers. */
module Mux {
  import opened Types
  import opened Wire

  type Sock = nat
  type Caller = nat

  /** A connection. `asked` lists the callers whose requests were sent on it, `replies` the bodies the
      peer sent back, in order; `inbound` holds the bytes sent back and not yet received. */
  datatype Conn = Conn(addr: string, asked: seq<Caller>, replies: seq<seq<byte>>, inbound: seq<byte>)

  datatype InFlight = InFlight(caller: Caller, addr: string, reader: Reader)

  /** Where a call to `execute` stands. */
  datatype Phase =
    | Connecting(addr: string)                               // found no idle socket
    | Holding(addr: string, sock: Sock)                      // acquired, nothing sent yet
    | Raised(addr: string, sock: Sock)                       // ended in an exception: request not encodable
    | Sent(addr: string, sock: Sock)                         // request sent
    | Waking(addr: string)                                   // queued for registration
    | Waiting(addr: string)                                  // selector woken
    | Returned(addr: string, result: Option<seq<byte>>)

  /** Where the selector thread stands. */
  datatype Loop =
    | Polling
    | Draining                                               // wake-up bytes read, queue being emptied
    | Returning(sock: Sock, flight: InFlight, body: seq<byte>)  // body complete, socket unregistered
    | Delivering(flight: InFlight, body: seq<byte>)          // socket given back

  /** `conns` holds every socket ever opened, `slots` the result cells of the in-flight records, `wake`
      the unread wake-up bytes. */
  datatype State = State(
    max: nat, conns: map<Sock, Conn>, callers: map<Caller, Phase>, idle: map<string, seq<Sock>>,
    queue: seq<(Sock, InFlight)>, registered: map<Sock, InFlight>, closing: set<Sock>, closed: set<Sock>,
    slots: map<Caller, Option<seq<byte>>>, wake: nat, loop: Loop)

  function Opening(max: nat): State {
    State(max, map[], map[], map[], [], map[], {}, {}, map[], 0, Polling)
  }

  datatype Step =
    | Call(c: Caller, addr: string)      // a new execute looks for an idle socket
    | Connect(c: Caller, sock: Sock)
    | ConnectFails(c: Caller, created: Option<Sock>)   // with the socket it had created, if any
    | EncodeFails(c: Caller)             // the message cannot be pickled, or is too long for the header
    | Send(c: Caller)
    | SendFails(c: Caller)
    | Enqueue(c: Caller)
    | Wake(c: Caller)
    | Finish(c: Caller)                  // reply delivered, or timeout
    | DrainWake
    | Register
    | DrainDone
    | Read(sock: Sock, size: nat)
    | ReadFails(sock: Sock)              // error, end of stream, or undecodable body
    | GiveBack
    | Deliver
    | ClosePeer(addr: string)
    | CloseOne(sock: Sock)
    | PeerReplies(sock: Sock, body: seq<byte>)

  function IdleAt(s: State, addr: string): seq<Sock> { if addr in s.idle then s.idle[addr] else [] }

  predicate Enabled(s: State, step: Step) {
    match step
    case Call(c, _) => c !in s.callers
    case Connect(c, sock) => c in s.callers && s.callers[c].Connecting? && sock !in s.conns
    case ConnectFails(c, created) =>
      c in s.callers && s.callers[c].Connecting? && (created.Some? ==> created.value !in s.conns)
    case Send(c) => c in s.callers && s.callers[c].Holding? && s.callers[c].sock in s.conns
    case EncodeFails(c) => c in s.callers && s.callers[c].Holding?
    case SendFails(c) => c in s.callers && s.callers[c].Holding?
    case Enqueue(c) => c in s.callers && s.callers[c].Sent?
    case Wake(c) => c in s.callers && s.callers[c].Waking?
    case Finish(c) => c in s.callers && s.callers[c].Waiting? && c in s.slots
    case DrainWake => s.loop.Polling? && s.wake > 0
    case Register => s.loop.Draining? && s.queue != []
    case DrainDone => s.loop.Draining? && s.queue == []
    case Read(sock, size) =>
      && s.loop.Polling? && sock in s.registered && sock in s.conns
      && Sound(s.registered[sock].reader)
      && 0 < size <= |s.conns[sock].inbound| && size <= Need(s.registered[sock].reader)
    case ReadFails(sock) => s.loop.Polling? && sock in s.registered
    case GiveBack => s.loop.Returning?
    case Deliver => s.loop.Delivering?
    case ClosePeer(_) => true
    case CloseOne(sock) => sock in s.closing
    case PeerReplies(sock, body) =>
      sock in s.conns && |s.conns[sock].replies| < |s.conns[sock].asked| && 0 < |body| < LIMIT
  }

  /** What it takes for a step to happen: the caller, the selector thread or the peer is at that point, the
      operating system hands out new sockets, and `recv` returns no more than was asked for or is there.
      What the code takes for granted besides is always there: see `ReadyIsEnabled`. */
  predicate Ready(s: State, step: Step) {
    match step
    case Send(c) => c in s.callers && s.callers[c].Holding?
    case Finish(c) => c in s.callers && s.callers[c].Waiting?
    case Read(sock, size) =>
      && s.loop.Polling? && sock in s.registered
      && 0 < size <= |Inbound(s, sock)| && size <= Need(s.registered[sock].reader)
    case _ => Enabled(s, step)
  }

  function Inbound(s: State, sock: Sock): seq<byte> { if sock in s.conns then s.conns[sock].inbound else [] }

  function Apply(s: State, step: Step): State
    requires Enabled(s, step)
  {
    match step
    case Call(c, addr) =>
      var pool := IdleAt(s, addr);
      if pool == [] then s.(callers := s.callers[c := Connecting(addr)])
      else s.(callers := s.callers[c := Holding(addr, pool[|pool| - 1])], idle := s.idle[addr := pool[..|pool| - 1]])
    case Connect(c, sock) =>
      s.(callers := s.callers[c := Holding(s.callers[c].addr, sock)],
         conns := s.conns[sock := Conn(s.callers[c].addr, [], [], [])])
    case ConnectFails(c, created) =>
      var s' := s.(callers := s.callers[c := Returned(s.callers[c].addr, None)]);
      if created.None? then s'
      else s'.(conns := s.conns[created.value := Conn(s.callers[c].addr, [], [], [])], closed := s.closed + {created.value})
    case EncodeFails(c) => s.(callers := s.callers[c := Raised(s.callers[c].addr, s.callers[c].sock)])
    case Send(c) =>
      var conn := s.conns[s.callers[c].sock];
      s.(callers := s.callers[c := Sent(s.callers[c].addr, s.callers[c].sock)],
         conns := s.conns[s.callers[c].sock := conn.(asked := conn.asked + [c])])
    case SendFails(c) =>
      s.(callers := s.callers[c := Returned(s.callers[c].addr, None)], closed := s.closed + {s.callers[c].sock})
    case Enqueue(c) =>
      s.(callers := s.callers[c := Waking(s.callers[c].addr)],
         queue := s.queue + [(s.callers[c].sock, InFlight(c, s.callers[c].addr, FRESH))],
         slots := s.slots[c := None])
    case Wake(c) => s.(callers := s.callers[c := Waiting(s.callers[c].addr)], wake := s.wake + 1)
    case Finish(c) => s.(callers := s.callers[c := Returned(s.callers[c].addr, s.slots[c])])
    case DrainWake => s.(wake := if s.wake <= 4096 then 0 else s.wake - 4096, loop := Draining)
    case Register =>
      s.(queue := s.queue[1..], registered := s.registered[s.queue[0].0 := s.queue[0].1])
    case DrainDone => s.(loop := Polling)
    case Read(sock, size) =>
      var conn, flight := s.conns[sock], s.registered[sock];
      var s' := s.(conns := s.conns[sock := conn.(inbound := conn.inbound[size..])]);
      (match Feed(flight.reader, conn.inbound[..size])
       case More(reader) => s'.(registered := s.registered[sock := flight.(reader := reader)])
       case Complete(body) => s'.(registered := s.registered - {sock}, loop := Returning(sock, flight, body)))
    case ReadFails(sock) => s.(registered := s.registered - {sock}, closed := s.closed + {sock})
    case GiveBack =>
      var addr := s.loop.flight.addr;
      var pool := IdleAt(s, addr);
      var s' := s.(loop := Delivering(s.loop.flight, s.loop.body));
      if |pool| < s.max then s'.(idle := s.idle[addr := [s.loop.sock] + pool])
      else s'.(idle := s.idle[addr := pool], closed := s.closed + {s.loop.sock})
    case Deliver => s.(slots := s.slots[s.loop.flight.caller := Some(s.loop.body)], loop := Polling)
    case ClosePeer(addr) =>
      s.(idle := s.idle - {addr}, closing := s.closing + set x | x in IdleAt(s, addr))
    case CloseOne(sock) => s.(closing := s.closing - {sock}, closed := s.closed + {sock})
    case PeerReplies(sock, body) =>
      var conn := s.conns[sock];
      s.(conns := s.conns[sock := conn.(replies := conn.replies + [body], inbound := conn.inbound + Frame(body))])
  }

  ghost predicate IsRun(run: seq<State>, steps: seq<Step>) {
    && |run| == |steps| + 1 && run[0] == Opening(run[0].max)
    && forall i :: 0 <= i < |steps| ==> Enabled(run[i], steps[i]) && run[i + 1] == Apply(run[i], steps[i])
  }

  // ---------------------------------------------------------------- where sockets are

  datatype Place =
    | ByCaller(c: Caller) | InQueue(i: nat) | InSelector | WithLoop
    | InPool(addr: string, i: nat) | BeingClosed | Shut
    | Dropped(c: Caller)                 // neither closed nor given back

  predicate Holds(p: Phase, sock: Sock) { (p.Holding? || p.Sent?) && p.sock == sock }

  predicate At(s: State, sock: Sock, p: Place) {
    match p
    case ByCaller(c) => c in s.callers && Holds(s.callers[c], sock)
    case InQueue(i) => i < |s.queue| && s.queue[i].0 == sock
    case InSelector => sock in s.registered
    case WithLoop => s.loop.Returning? && s.loop.sock == sock
    case InPool(addr, i) => addr in s.idle && i < |s.idle[addr]| && s.idle[addr][i] == sock
    case BeingClosed => sock in s.closing
    case Shut => sock in s.closed
    case Dropped(c) => c in s.callers && s.callers[c].Raised? && s.callers[c].sock == sock
  }

  /** Every opened socket is in exactly one place, and no other socket is anywhere. */
  ghost predicate Owned(s: State) {
    && (forall x, p, q :: At(s, x, p) && At(s, x, q) ==> p == q)
    && (forall x, p :: At(s, x, p) ==> x in s.conns)
    && (forall x :: x in s.conns ==> exists p :: At(s, x, p))
  }

  /** Where a socket found at `p` after a step was before it. */
  ghost function Back(s: State, step: Step, sock: Sock, p: Place): Place
    requires Enabled(s, step)
  {
    match step
    case Call(c, addr) => if p == ByCaller(c) && IdleAt(s, addr) != [] then InPool(addr, |IdleAt(s, addr)| - 1) else p
    case EncodeFails(c) => if p == Dropped(c) then ByCaller(c) else p
    case SendFails(c) => if p == Shut && sock !in s.closed then ByCaller(c) else p
    case Enqueue(c) => if p == InQueue(|s.queue|) then ByCaller(c) else p
    case Register =>
      if p.InQueue? then InQueue(p.i + 1)
      else if p == InSelector && sock !in s.registered then InQueue(0)
      else p
    case Read(_, _) => if p == WithLoop then InSelector else p
    case ReadFails(_) => if p == Shut && sock !in s.closed then InSelector else p
    case GiveBack =>
      if p.InPool? && p.addr == s.loop.flight.addr && |IdleAt(s, p.addr)| < s.max then
        if p.i == 0 then WithLoop else InPool(p.addr, p.i - 1)
      else if p == Shut && sock !in s.closed then WithLoop
      else p
    case ClosePeer(addr) =>
      if p == BeingClosed && sock !in s.closing && sock in IdleAt(s, addr) then
        var i :| 0 <= i < |IdleAt(s, addr)| && IdleAt(s, addr)[i] == sock;
        InPool(addr, i)
      else p
    case CloseOne(_) => if p == Shut && sock !in s.closed then BeingClosed else p
    case _ => p
  }

  predicate CallerStep(step: Step) {
    step.Call? || step.Connect? || step.ConnectFails? || step.EncodeFails? || step.Send? || step.SendFails? || step.Enqueue?
    || step.Wake? || step.Finish?
  }

  /** A caller connecting has a new socket, found nowhere before; it keeps it, or shuts it on failure. */
  predicate Opens(step: Step, sock: Sock) {
    (step.Connect? && sock == step.sock) || (step.ConnectFails? && step.created == Some(sock))
  }

  function FirstPlace(step: Step): Place {
    if step.Connect? then ByCaller(step.c) else Shut
  }

  /** The steps that leave every socket where it is. */
  predicate MovesNothing(step: Step) {
    step.Send? || step.Wake? || step.Finish?
    || step.DrainWake? || step.DrainDone? || step.Deliver? || step.PeerReplies?
  }

  lemma NothingMoved(s: State, step: Step, sock: Sock, p: Place)
    requires Enabled(s, step) && MovesNothing(step)
    ensures At(Apply(s, step), sock, p) <==> At(s, sock, p)
  {
    match step
    case Send(_) =>
    case Wake(_) =>
    case Finish(_) =>
    case DrainWake =>
    case DrainDone =>
    case Deliver =>
    case PeerReplies(_, _) =>
    case _ =>
  }

  /** The steps in which a caller opens, shuts or hands over a socket. */
  predicate Moves(step: Step) {
    step.Connect? || step.ConnectFails? || step.EncodeFails? || step.SendFails? || step.Enqueue?
  }

  lemma CallBack(s: State, step: Step, sock: Sock, p: Place)
    requires Owned(s) && Enabled(s, step) && At(Apply(s, step), sock, p) && step.Call?
    ensures At(s, sock, Back(s, step, sock, p))
  {
  }

  lemma OpeningBack(s: State, step: Step, sock: Sock, p: Place)
    requires Owned(s) && Enabled(s, step) && At(Apply(s, step), sock, p) && (step.Connect? || step.ConnectFails?)
    ensures if Opens(step, sock) then p == FirstPlace(step) else At(s, sock, p)
  {
    if Opens(step, sock) {
      assert !At(s, sock, p);
    }
  }

  lemma CallerBack(s: State, step: Step, sock: Sock, p: Place)
    requires Owned(s) && Enabled(s, step) && At(Apply(s, step), sock, p)
    requires step.EncodeFails? || step.SendFails? || step.Enqueue?
    ensures At(s, sock, Back(s, step, sock, p))
  {
  }

  lemma GiveBackBack(s: State, step: Step, sock: Sock, p: Place)
    requires Owned(s) && Enabled(s, step) && At(Apply(s, step), sock, p) && step.GiveBack?
    ensures At(s, sock, Back(s, step, sock, p))
  {
    var addr := s.loop.flight.addr;
    if p.InPool? && p.addr == addr && |IdleAt(s, addr)| < s.max {
      assert Apply(s, step).idle[addr] == [s.loop.sock] + IdleAt(s, addr);
    }
  }

  lemma ReadBack(s: State, step: Step, sock: Sock, p: Place)
    requires Owned(s) && Enabled(s, step) && At(Apply(s, step), sock, p) && step.Read?
    ensures At(s, sock, Back(s, step, sock, p))
  {
  }

  lemma RegisterBack(s: State, step: Step, sock: Sock, p: Place)
    requires Owned(s) && Enabled(s, step) && At(Apply(s, step), sock, p) && step.Register?
    ensures At(s, sock, Back(s, step, sock, p))
  {
  }

  lemma ClosingBack(s: State, step: Step, sock: Sock, p: Place)
    requires Owned(s) && Enabled(s, step) && At(Apply(s, step), sock, p)
    requires step.ClosePeer? || step.CloseOne? || step.ReadFails?
    ensures At(s, sock, Back(s, step, sock, p))
  {
  }

  lemma BackIsThere(s: State, step: Step, sock: Sock, p: Place)
    requires Owned(s) && Enabled(s, step) && At(Apply(s, step), sock, p)
    ensures if Opens(step, sock) then p == FirstPlace(step) else At(s, sock, Back(s, step, sock, p))
  {
    if MovesNothing(step) {
      NothingMoved(s, step, sock, p);
    } else if step.Call? {
      CallBack(s, step, sock, p);
    } else if step.Connect? || step.ConnectFails? {
      OpeningBack(s, step, sock, p);
    } else if Moves(step) {
      CallerBack(s, step, sock, p);
    } else if step.GiveBack? {
      GiveBackBack(s, step, sock, p);
    } else if step.Read? {
      ReadBack(s, step, sock, p);
    } else if step.Register? {
      RegisterBack(s, step, sock, p);
    } else {
      ClosingBack(s, step, sock, p);
    }
  }

  /** Two places after a step come from two places before it. */
  lemma CallerBackSplits(s: State, step: Step, sock: Sock, p: Place, q: Place)
    requires Owned(s) && Enabled(s, step) && At(Apply(s, step), sock, p) && At(Apply(s, step), sock, q)
    requires (step.Call? || Moves(step)) && Back(s, step, sock, p) == Back(s, step, sock, q)
    ensures p == q
  {
  }

  lemma GiveBackSplits(s: State, step: Step, sock: Sock, p: Place, q: Place)
    requires Owned(s) && Enabled(s, step) && At(Apply(s, step), sock, p) && At(Apply(s, step), sock, q)
    requires step.GiveBack? && Back(s, step, sock, p) == Back(s, step, sock, q)
    ensures p == q
  {
  }

  lemma OtherBackSplits(s: State, step: Step, sock: Sock, p: Place, q: Place)
    requires Owned(s) && Enabled(s, step) && At(Apply(s, step), sock, p) && At(Apply(s, step), sock, q)
    requires step.Read? || step.Register? || step.ClosePeer? || step.CloseOne? || step.ReadFails?
    requires Back(s, step, sock, p) == Back(s, step, sock, q)
    ensures p == q
  {
  }

  lemma StepKeepsUnique(s: State, step: Step, sock: Sock, p: Place, q: Place)
    requires Owned(s) && Enabled(s, step) && At(Apply(s, step), sock, p) && At(Apply(s, step), sock, q)
    ensures p == q
  {
    BackIsThere(s, step, sock, p);
    BackIsThere(s, step, sock, q);
    if !Opens(step, sock) {
      if step.Call? || Moves(step) {
        CallerBackSplits(s, step, sock, p, q);
      } else if step.GiveBack? {
        GiveBackSplits(s, step, sock, p, q);
      } else if !MovesNothing(step) {
        OtherBackSplits(s, step, sock, p, q);
      }
    }
  }

  /** Where a socket found at `p` before a step is after it. */
  ghost function Onward(s: State, step: Step, sock: Sock, p: Place): Place
    requires Enabled(s, step)
  {
    match step
    case Call(c, addr) =>
      if p.InPool? && p.addr == addr && p.i + 1 == |IdleAt(s, addr)| then ByCaller(c) else p
    case EncodeFails(c) => if p == ByCaller(c) then Dropped(c) else p
    case SendFails(c) => if p == ByCaller(c) then Shut else p
    case Enqueue(c) => if p == ByCaller(c) then InQueue(|s.queue|) else p
    case Register => if p == InQueue(0) then InSelector else if p.InQueue? then InQueue(p.i - 1) else p
    case Read(x, _) => if p == InSelector && sock == x && sock !in Apply(s, step).registered then WithLoop else p
    case ReadFails(x) => if p == InSelector && sock == x then Shut else p
    case GiveBack =>
      var keep := |IdleAt(s, s.loop.flight.addr)| < s.max;
      if p == WithLoop then (if keep then InPool(s.loop.flight.addr, 0) else Shut)
      else if p.InPool? && p.addr == s.loop.flight.addr && keep then InPool(p.addr, p.i + 1)
      else p
    case ClosePeer(addr) => if p.InPool? && p.addr == addr then BeingClosed else p
    case CloseOne(x) => if p == BeingClosed && sock == x then Shut else p
    case _ => p
  }

  lemma CallOnward(s: State, step: Step, sock: Sock, p: Place)
    requires Owned(s) && Enabled(s, step) && At(s, sock, p) && step.Call?
    ensures At(Apply(s, step), sock, Onward(s, step, sock, p))
  {
  }

  lemma CallerOnward(s: State, step: Step, sock: Sock, p: Place)
    requires Owned(s) && Enabled(s, step) && At(s, sock, p) && Moves(step)
    ensures At(Apply(s, step), sock, Onward(s, step, sock, p))
  {
  }

  lemma GiveBackOnward(s: State, step: Step, sock: Sock, p: Place)
    requires Owned(s) && Enabled(s, step) && At(s, sock, p) && step.GiveBack?
    ensures At(Apply(s, step), sock, Onward(s, step, sock, p))
  {
    var addr := s.loop.flight.addr;
    PoolChanges(s, step, addr);
  }

  lemma ReadOnward(s: State, step: Step, sock: Sock, p: Place)
    requires Owned(s) && Enabled(s, step) && At(s, sock, p) && step.Read?
    ensures At(Apply(s, step), sock, Onward(s, step, sock, p))
  {
  }

  lemma RegisterOnward(s: State, step: Step, sock: Sock, p: Place)
    requires Owned(s) && Enabled(s, step) && At(s, sock, p) && step.Register?
    ensures At(Apply(s, step), sock, Onward(s, step, sock, p))
  {
  }

  lemma ClosingOnward(s: State, step: Step, sock: Sock, p: Place)
    requires Owned(s) && Enabled(s, step) && At(s, sock, p)
    requires step.ClosePeer? || step.CloseOne? || step.ReadFails?
    ensures At(Apply(s, step), sock, Onward(s, step, sock, p))
  {
  }

  lemma StepKeepsOwned(s: State, step: Step)
    requires Owned(s) && Enabled(s, step)
    ensures Owned(Apply(s, step))
  {
    var s' := Apply(s, step);
    forall x, p, q | At(s', x, p) && At(s', x, q) ensures p == q {
      StepKeepsUnique(s, step, x, p, q);
    }
    forall x, p | At(s', x, p) ensures x in s'.conns {
      StepKeepsKnown(s, step, x, p);
    }
    forall x | x in s'.conns ensures exists p :: At(s', x, p) {
      StepKeepsPlaced(s, step, x);
    }
  }

  lemma StepKeepsKnown(s: State, step: Step, x: Sock, p: Place)
    requires Owned(s) && Enabled(s, step) && At(Apply(s, step), x, p)
    ensures x in Apply(s, step).conns
  {
    BackIsThere(s, step, x, p);
    SocketsStay(s, step, x);
  }

  /** Sockets are never forgotten, and only opening adds one. */
  lemma SocketsStay(s: State, step: Step, x: Sock)
    requires Enabled(s, step)
    ensures x in Apply(s, step).conns <==> x in s.conns || Opens(step, x)
  {
    if !WorksOn(step) {
      OtherConnsStay(s, step);
    }
  }

  lemma StepKeepsPlaced(s: State, step: Step, x: Sock)
    requires Owned(s) && Enabled(s, step) && x in Apply(s, step).conns
    ensures exists p :: At(Apply(s, step), x, p)
  {
    SocketsStay(s, step, x);
    if Opens(step, x) {
      assert At(Apply(s, step), x, FirstPlace(step));
    } else {
      var p :| At(s, x, p);
      OnwardIsThere(s, step, x, p);
    }
  }

  lemma OnwardIsThere(s: State, step: Step, x: Sock, p: Place)
    requires Owned(s) && Enabled(s, step) && At(s, x, p)
    ensures exists q :: At(Apply(s, step), x, q)
  {
    if MovesNothing(step) {
      NothingMoved(s, step, x, p);
    } else if step.Call? {
      CallOnward(s, step, x, p);
    } else if Moves(step) {
      CallerOnward(s, step, x, p);
    } else if step.GiveBack? {
      GiveBackOnward(s, step, x, p);
    } else if step.Read? {
      ReadOnward(s, step, x, p);
    } else if step.Register? {
      RegisterOnward(s, step, x, p);
    } else {
      ClosingOnward(s, step, x, p);
    }
  }

  // ---------------------------------------------------------------- what connections carry

  predicate Fits(body: seq<byte>) { 0 < |body| < LIMIT }

  /** Everything asked was answered and everything sent was read. */
  predicate Clean(conn: Conn) { |conn.asked| == |conn.replies| && conn.inbound == [] }

  /** The last request is the flight's, all earlier ones are answered, and what was read of the answer
      together with what is still to be read is nothing yet or the one frame of the last reply. */
  predicate Underway(conn: Conn, f: InFlight) {
    && conn.addr == f.addr && Sound(f.reader) && Need(f.reader) > 0
    && conn.asked != [] && conn.asked[|conn.asked| - 1] == f.caller
    && (if |conn.replies| < |conn.asked| then
          |conn.replies| + 1 == |conn.asked| && f.reader == FRESH && conn.inbound == []
        else
          |conn.replies| == |conn.asked| && Fits(conn.replies[|conn.replies| - 1])
          && Consumed(f.reader) + conn.inbound == Frame(conn.replies[|conn.replies| - 1]))
  }

  ghost predicate IdleClean(s: State) {
    forall addr, i :: addr in s.idle && 0 <= i < |s.idle[addr]| ==>
      && s.idle[addr][i] in s.conns && Clean(s.conns[s.idle[addr][i]]) && s.conns[s.idle[addr][i]].addr == addr
  }

  predicate CallerReady(s: State, c: Caller, p: Phase) {
    match p
    case Holding(addr, sock) => sock in s.conns && s.conns[sock].addr == addr && Clean(s.conns[sock])
    case Sent(addr, sock) => sock in s.conns && Underway(s.conns[sock], InFlight(c, addr, FRESH))
    case _ => true
  }

  ghost predicate CallersReady(s: State) { forall c :: c in s.callers ==> CallerReady(s, c, s.callers[c]) }

  /** The in-flight record belongs to a call to that address which has its result cell. */
  predicate Belongs(s: State, f: InFlight) {
    f.caller in s.callers && s.callers[f.caller].addr == f.addr && f.caller in s.slots
  }

  predicate Queued(s: State, x: Sock, f: InFlight) {
    x in s.conns && Underway(s.conns[x], f) && f.reader == FRESH && Belongs(s, f)
  }

  ghost predicate QueueReady(s: State) {
    forall i :: 0 <= i < |s.queue| ==> Queued(s, s.queue[i].0, s.queue[i].1)
  }

  ghost predicate SelectorReady(s: State) {
    forall x :: x in s.registered ==>
      x in s.conns && Underway(s.conns[x], s.registered[x]) && Belongs(s, s.registered[x])
  }

  /** `body` is what the peer at `addr` sent in answer to the request of call `c`. */
  ghost predicate Answered(s: State, c: Caller, addr: string, body: seq<byte>) {
    exists x, i :: AnsweredOn(s, x, i, c, addr, body)
  }

  predicate AnsweredOn(s: State, x: Sock, i: nat, c: Caller, addr: string, body: seq<byte>) {
    && x in s.conns && s.conns[x].addr == addr && i < |s.conns[x].asked| && i < |s.conns[x].replies|
    && s.conns[x].asked[i] == c && s.conns[x].replies[i] == body
  }

  ghost predicate LoopReady(s: State) {
    match s.loop
    case Returning(sock, f, body) =>
      && Belongs(s, f) && Answered(s, f.caller, f.addr, body)
      && sock in s.conns && Clean(s.conns[sock]) && s.conns[sock].addr == f.addr
    case Delivering(f, body) => Belongs(s, f) && Answered(s, f.caller, f.addr, body)
    case _ => true
  }

  /** A result cell, and a returned result, as far as one call is concerned. */
  ghost predicate ResultTrue(s: State, c: Caller) {
    && (c in s.slots ==>
          c in s.callers && (s.slots[c].Some? ==> Answered(s, c, s.callers[c].addr, s.slots[c].value)))
    && (c in s.callers && s.callers[c].Returned? && s.callers[c].result.Some? ==>
          Answered(s, c, s.callers[c].addr, s.callers[c].result.value))
    && (c in s.callers && (s.callers[c].Waking? || s.callers[c].Waiting?) ==> c in s.slots)
  }

  ghost predicate ResultsTrue(s: State) {
    forall c :: ResultTrue(s, c)
  }

  ghost predicate Traffic(s: State) {
    IdleClean(s) && CallersReady(s) && QueueReady(s) && SelectorReady(s) && LoopReady(s) && ResultsTrue(s)
  }

  // ---------------------------------------------------------------- answers are never lost

  /** Connections only ever gain requests and replies. */
  predicate Grows(conn: Conn, conn': Conn) {
    conn'.addr == conn.addr && conn.asked <= conn'.asked && conn.replies <= conn'.replies
  }

  ghost predicate Extends(s: State, s': State) {
    forall x :: x in s.conns ==> x in s'.conns && Grows(s.conns[x], s'.conns[x])
  }

  /** The steps that work on a connection. */
  predicate WorksOn(step: Step) {
    step.Connect? || step.ConnectFails? || step.Send? || step.Read? || step.PeerReplies?
  }

  lemma OtherConnsStay(s: State, step: Step)
    requires Enabled(s, step) && !WorksOn(step)
    ensures Apply(s, step).conns == s.conns
  {
    match step
    case Call(_, _) =>
    case EncodeFails(_) =>
    case SendFails(_) =>
    case Enqueue(_) =>
    case Wake(_) =>
    case Finish(_) =>
    case DrainWake =>
    case Register =>
    case DrainDone =>
    case ReadFails(_) =>
    case GiveBack =>
    case Deliver =>
    case ClosePeer(_) =>
    case CloseOne(_) =>
    case _ =>
  }

  lemma StepExtends(s: State, step: Step)
    requires Enabled(s, step)
    ensures Extends(s, Apply(s, step))
  {
    match step
    case Connect(_, _) =>
    case ConnectFails(_, _) =>
    case Send(_) =>
    case Read(_, _) =>
    case PeerReplies(_, _) =>
    case _ => OtherConnsStay(s, step);
  }

  lemma AnswersStay(s: State, s': State, c: Caller, addr: string, body: seq<byte>)
    requires Extends(s, s') && Answered(s, c, addr, body)
    ensures Answered(s', c, addr, body)
  {
    var x, i :| AnsweredOn(s, x, i, c, addr, body);
    assert AnsweredOn(s', x, i, c, addr, body);
  }

  /** What a read does to its own connection: it stays underway, or it is clean and the body is the
      last reply. */
  lemma ReadProgress(conn: Conn, f: InFlight, size: nat)
    requires Underway(conn, f) && 0 < size <= |conn.inbound| && size <= Need(f.reader)
    ensures var conn' := conn.(inbound := conn.inbound[size..]);
            match Feed(f.reader, conn.inbound[..size])
            case More(reader) => Underway(conn', f.(reader := reader))
            case Complete(body) => Clean(conn') && body == conn.replies[|conn.replies| - 1]
  {
    FeedWithinFrame(f.reader, conn.inbound, size, conn.replies[|conn.replies| - 1]);
  }

  /** A reply arriving on a connection that still owes one completes what is underway. */
  lemma ReplyProgress(conn: Conn, f: InFlight, body: seq<byte>)
    requires Underway(conn, f) && |conn.replies| < |conn.asked| && Fits(body)
    ensures Underway(conn.(replies := conn.replies + [body], inbound := conn.inbound + Frame(body)), f)
  {
  }

  // ---------------------------------------------------------------- one step keeps it all

  /** Only the socket a step works on changes its traffic. */
  lemma ConnKept(s: State, step: Step, x: Sock, p: Place)
    requires Owned(s) && Enabled(s, step) && At(s, x, p)
    requires step.Send? ==> p != ByCaller(step.c)
    requires step.Read? && x == step.sock ==> p != InSelector
    requires step.PeerReplies? ==> x != step.sock
    ensures x in s.conns && x in Apply(s, step).conns && Apply(s, step).conns[x] == s.conns[x]
  {
    if step.Send? {
      assert At(s, s.callers[step.c].sock, ByCaller(step.c));
    } else if step.Read? {
      assert At(s, step.sock, InSelector);
    }
  }

  lemma StepKeepsIdleClean(s: State, step: Step)
    requires Owned(s) && Traffic(s) && Enabled(s, step)
    ensures IdleClean(Apply(s, step))
  {
    var s' := Apply(s, step);
    forall addr, i | addr in s'.idle && 0 <= i < |s'.idle[addr]|
      ensures s'.idle[addr][i] in s'.conns && Clean(s'.conns[s'.idle[addr][i]])
              && s'.conns[s'.idle[addr][i]].addr == addr
    {
      var x := s'.idle[addr][i];
      assert At(s', x, InPool(addr, i));
      BackIsThere(s, step, x, InPool(addr, i));
      var p := Back(s, step, x, InPool(addr, i));
      assert p == WithLoop || p.InPool?;
      assert x in s.conns && Clean(s.conns[x]) && s.conns[x].addr == addr;
      ConnKept(s, step, x, p);
    }
  }

  /** What is underway on a connection stays so while its holder does not act on it. */
  lemma UnderwayKept(s: State, step: Step, x: Sock, p: Place, f: InFlight)
    requires Owned(s) && Enabled(s, step) && At(s, x, p) && x in s.conns && Underway(s.conns[x], f)
    requires step.Send? ==> p != ByCaller(step.c)
    requires step.Read? && x == step.sock ==> p != InSelector
    ensures x in Apply(s, step).conns && Underway(Apply(s, step).conns[x], f)
  {
    if step.PeerReplies? && step.sock == x {
      ReplyProgress(s.conns[x], f, step.body);
    } else {
      ConnKept(s, step, x, p);
    }
  }

  lemma BelongsStays(s: State, step: Step, f: InFlight)
    requires Enabled(s, step) && Belongs(s, f)
    ensures Belongs(Apply(s, step), f)
  {
    if ActsFor(step, f.caller) {
      ActingChanges(s, step);
    } else {
      OtherPhasesStay(s, step, f.caller);
    }
  }

  /** The step is taken by call `c` itself. */
  predicate ActsFor(step: Step, c: Caller) { CallerStep(step) && step.c == c }

  /** The selector, the peers and `close_peer` change no phase, and no cell but that of a delivery. */
  lemma OthersLeaveCallers(s: State, step: Step)
    requires Enabled(s, step) && !CallerStep(step)
    ensures Apply(s, step).callers == s.callers
    ensures Apply(s, step).slots == if step.Deliver? then s.slots[s.loop.flight.caller := Some(s.loop.body)] else s.slots
  {
    match step
    case DrainWake =>
    case Register =>
    case DrainDone =>
    case Read(_, _) =>
    case ReadFails(_) =>
    case GiveBack =>
    case Deliver =>
    case ClosePeer(_) =>
    case CloseOne(_) =>
    case PeerReplies(_, _) =>
    case _ =>
  }

  lemma CallersLeaveOthers(s: State, step: Step, c: Caller)
    requires Enabled(s, step) && CallerStep(step) && step.c != c
    ensures c in Apply(s, step).callers <==> c in s.callers
    ensures c in s.callers ==> Apply(s, step).callers[c] == s.callers[c]
  {
    match step
    case Call(_, _) =>
    case Connect(_, _) =>
    case ConnectFails(_, _) =>
    case Send(_) =>
    case EncodeFails(_) =>
    case SendFails(_) =>
    case Enqueue(_) =>
    case Wake(_) =>
    case Finish(_) =>
    case _ =>
  }

  lemma OtherPhasesStay(s: State, step: Step, c: Caller)
    requires Enabled(s, step) && !ActsFor(step, c)
    ensures c in Apply(s, step).callers <==> c in s.callers
    ensures c in s.callers ==> Apply(s, step).callers[c] == s.callers[c]
    ensures c in s.slots ==> c in Apply(s, step).slots
  {
    if CallerStep(step) {
      CallersLeaveOthers(s, step, c);
      CallerCells(s, step);
    } else {
      OthersLeaveCallers(s, step);
    }
  }

  lemma CallerCells(s: State, step: Step)
    requires Enabled(s, step) && CallerStep(step)
    ensures Apply(s, step).slots == if step.Enqueue? then s.slots[step.c := None] else s.slots
  {
    match step
    case Call(_, _) =>
    case Connect(_, _) =>
    case ConnectFails(_, _) =>
    case Send(_) =>
    case EncodeFails(_) =>
    case SendFails(_) =>
    case Enqueue(_) =>
    case Wake(_) =>
    case Finish(_) =>
    case _ =>
  }

  /** What a call's own step does to its phase and its cell. */
  lemma ActingChanges(s: State, step: Step)
    requires Enabled(s, step) && CallerStep(step)
    ensures step.c in Apply(s, step).callers
    ensures Apply(s, step).slots == if step.Enqueue? then s.slots[step.c := None] else s.slots
    ensures !step.Call? ==> step.c in s.callers && !s.callers[step.c].Returned?
    ensures !step.Call? ==> Apply(s, step).callers[step.c].addr == s.callers[step.c].addr
    ensures var p := Apply(s, step).callers[step.c];
            && (p.Connecting? || p.Holding? || p.Sent? ==>
                  step.c !in s.callers || s.callers[step.c].Connecting? || s.callers[step.c].Holding?)
            && (p.Waking? ==> step.Enqueue?)
            && (p.Waiting? ==> s.callers[step.c].Waking?)
            && (p.Returned? && p.result.Some? ==> step.Finish? && p.result == s.slots[step.c])
            && (step.Finish? ==> p.Returned? && p.result == s.slots[step.c])
            && (step.Enqueue? ==> s.callers[step.c].Sent?)
  {
    match step
    case Call(_, _) =>
    case Connect(_, _) =>
    case ConnectFails(_, _) =>
    case Send(_) =>
    case EncodeFails(_) =>
    case SendFails(_) =>
    case Enqueue(_) =>
    case Wake(_) =>
    case Finish(_) =>
    case _ =>
  }

  lemma ActingCallerReady(s: State, step: Step)
    requires Owned(s) && IdleClean(s) && CallersReady(s) && Enabled(s, step) && CallerStep(step)
    ensures step.c in Apply(s, step).callers
    ensures CallerReady(Apply(s, step), step.c, Apply(s, step).callers[step.c])
  {
    if step.Send? {
      assert CallerReady(s, step.c, s.callers[step.c]);
      SentIsUnderway(s.conns[s.callers[step.c].sock], step.c);
    }
  }

  lemma SentIsUnderway(conn: Conn, c: Caller)
    requires Clean(conn)
    ensures Underway(conn.(asked := conn.asked + [c]), InFlight(c, conn.addr, FRESH))
  {
  }

  lemma OtherCallerReady(s: State, step: Step, c: Caller)
    requires Owned(s) && CallersReady(s) && Enabled(s, step) && !ActsFor(step, c) && c in s.callers
    ensures CallerReady(Apply(s, step), c, s.callers[c])
  {
    match s.callers[c]
    case Holding(addr, sock) =>
      assert At(s, sock, ByCaller(c));
      assert CallerReady(s, c, s.callers[c]);
      ConnKept(s, step, sock, ByCaller(c));
    case Sent(addr, sock) =>
      assert At(s, sock, ByCaller(c));
      assert CallerReady(s, c, s.callers[c]);
      UnderwayKept(s, step, sock, ByCaller(c), InFlight(c, addr, FRESH));
    case _ =>
  }

  lemma StepKeepsCallersReady(s: State, step: Step)
    requires Owned(s) && Traffic(s) && Enabled(s, step)
    ensures CallersReady(Apply(s, step))
  {
    forall c | c in Apply(s, step).callers ensures CallerReady(Apply(s, step), c, Apply(s, step).callers[c]) {
      if ActsFor(step, c) {
        ActingCallerReady(s, step);
      } else {
        OtherPhasesStay(s, step, c);
        OtherCallerReady(s, step, c);
      }
    }
  }

  lemma EnqueuedReady(s: State, step: Step)
    requires Owned(s) && CallersReady(s) && Enabled(s, step) && step.Enqueue?
    ensures Queued(Apply(s, step), s.callers[step.c].sock, InFlight(step.c, s.callers[step.c].addr, FRESH))
  {
  }

  lemma StepKeepsQueued(s: State, step: Step, i: nat)
    requires Owned(s) && QueueReady(s) && Enabled(s, step) && i < |s.queue|
    ensures Queued(Apply(s, step), s.queue[i].0, s.queue[i].1)
  {
    assert At(s, s.queue[i].0, InQueue(i));
    UnderwayKept(s, step, s.queue[i].0, InQueue(i), s.queue[i].1);
    BelongsStays(s, step, s.queue[i].1);
  }

  /** A queued socket was queued before, unless it is the one just handed over. */
  lemma QueueChanges(s: State, step: Step, i: nat)
    requires Enabled(s, step) && i < |Apply(s, step).queue| && !(step.Enqueue? && i == |s.queue|)
    ensures var j := if step.Register? then i + 1 else i; j < |s.queue| && s.queue[j] == Apply(s, step).queue[i]
  {
    if !step.Enqueue? && !step.Register? {
      QueueStays(s, step);
    }
  }

  lemma QueueStays(s: State, step: Step)
    requires Enabled(s, step) && !step.Enqueue? && !step.Register?
    ensures Apply(s, step).queue == s.queue
  {
    match step
    case Call(_, _) =>
    case Connect(_, _) =>
    case ConnectFails(_, _) =>
    case Send(_) =>
    case EncodeFails(_) =>
    case SendFails(_) =>
    case Wake(_) =>
    case Finish(_) =>
    case DrainWake =>
    case DrainDone =>
    case Read(_, _) =>
    case ReadFails(_) =>
    case GiveBack =>
    case Deliver =>
    case ClosePeer(_) =>
    case CloseOne(_) =>
    case PeerReplies(_, _) =>
    case _ =>
  }

  lemma StepKeepsQueueReady(s: State, step: Step)
    requires Owned(s) && Traffic(s) && Enabled(s, step)
    ensures QueueReady(Apply(s, step))
  {
    var queue := Apply(s, step).queue;
    forall i | 0 <= i < |queue| ensures Queued(Apply(s, step), queue[i].0, queue[i].1) {
      if step.Enqueue? && i == |s.queue| {
        EnqueuedReady(s, step);
      } else {
        QueueChanges(s, step, i);
        StepKeepsQueued(s, step, if step.Register? then i + 1 else i);
      }
    }
  }

  lemma StepKeepsRegistered(s: State, step: Step, x: Sock)
    requires Owned(s) && SelectorReady(s) && Enabled(s, step)
    requires x in s.registered && !(step.Read? && step.sock == x)
    ensures x in Apply(s, step).conns && Underway(Apply(s, step).conns[x], s.registered[x])
    ensures Belongs(Apply(s, step), s.registered[x])
  {
    assert At(s, x, InSelector);
    UnderwayKept(s, step, x, InSelector, s.registered[x]);
    BelongsStays(s, step, s.registered[x]);
  }

  lemma RegisteredReady(s: State, step: Step)
    requires Owned(s) && QueueReady(s) && Enabled(s, step) && step.Register?
    ensures var s', x := Apply(s, step), s.queue[0].0;
            x in s'.conns && Underway(s'.conns[x], s'.registered[x]) && Belongs(s', s'.registered[x])
  {
  }

  lemma OthersStayRegistered(s: State, step: Step, x: Sock)
    requires Enabled(s, step) && x in Apply(s, step).registered
    requires !(step.Read? && step.sock == x) && !(step.Register? && x == s.queue[0].0)
    ensures x in s.registered && Apply(s, step).registered[x] == s.registered[x]
  {
  }

  lemma StepKeepsRead(s: State, step: Step)
    requires Owned(s) && SelectorReady(s) && Enabled(s, step)
    requires step.Read? && step.sock in Apply(s, step).registered
    ensures var s' := Apply(s, step);
            && step.sock in s'.conns && Underway(s'.conns[step.sock], s'.registered[step.sock])
            && Belongs(s', s'.registered[step.sock])
  {
    ReadProgress(s.conns[step.sock], s.registered[step.sock], step.size);
    BelongsStays(s, step, s.registered[step.sock]);
  }

  lemma StepKeepsSelectorReady(s: State, step: Step)
    requires Owned(s) && Traffic(s) && Enabled(s, step)
    ensures SelectorReady(Apply(s, step))
  {
    var registered := Apply(s, step).registered;
    forall x | x in registered
      ensures x in Apply(s, step).conns && Underway(Apply(s, step).conns[x], registered[x])
              && Belongs(Apply(s, step), registered[x])
    {
      if step.Read? && step.sock == x {
        StepKeepsRead(s, step);
      } else if step.Register? && x == s.queue[0].0 {
        RegisteredReady(s, step);
      } else {
        OthersStayRegistered(s, step, x);
        StepKeepsRegistered(s, step, x);
      }
    }
  }

  lemma BodyCompletes(s: State, step: Step)
    requires Owned(s) && SelectorReady(s) && Enabled(s, step) && step.Read? && Apply(s, step).loop.Returning?
    ensures LoopReady(Apply(s, step))
  {
    var s' := Apply(s, step);
    var conn, f := s.conns[step.sock], s.registered[step.sock];
    ReadProgress(conn, f, step.size);
    assert AnsweredOn(s', step.sock, |conn.asked| - 1, f.caller, f.addr, s'.loop.body);
  }

  lemma LoopWaits(s: State, step: Step)
    requires Owned(s) && LoopReady(s) && Enabled(s, step)
    requires (s.loop.Returning? && !step.GiveBack?) || (s.loop.Delivering? && !step.Deliver?)
    ensures Apply(s, step).loop == s.loop && LoopReady(Apply(s, step))
  {
    StepExtends(s, step);
    AnswersStay(s, Apply(s, step), s.loop.flight.caller, s.loop.flight.addr, s.loop.body);
    BelongsStays(s, step, s.loop.flight);
    if s.loop.Returning? {
      assert At(s, s.loop.sock, WithLoop);
      ConnKept(s, step, s.loop.sock, WithLoop);
    }
  }

  lemma StepKeepsLoopReady(s: State, step: Step)
    requires Owned(s) && Traffic(s) && Enabled(s, step)
    ensures LoopReady(Apply(s, step))
  {
    if step.Read? && Apply(s, step).loop.Returning? {
      BodyCompletes(s, step);
    } else if step.GiveBack? {
      StepExtends(s, step);
      AnswersStay(s, Apply(s, step), s.loop.flight.caller, s.loop.flight.addr, s.loop.body);
      BelongsStays(s, step, s.loop.flight);
    } else if (s.loop.Returning? || s.loop.Delivering?) && !step.Deliver? {
      LoopWaits(s, step);
    }
  }

  lemma SlotsChange(s: State, step: Step, c: Caller)
    requires Enabled(s, step) && c in Apply(s, step).slots
    ensures (step.Deliver? && c == s.loop.flight.caller && Apply(s, step).slots[c] == Some(s.loop.body))
            || (step.Enqueue? && c == step.c && Apply(s, step).slots[c] == None)
            || (c in s.slots && Apply(s, step).slots[c] == s.slots[c])
  {
    if CallerStep(step) {
      CallerCells(s, step);
    } else {
      OthersLeaveCallers(s, step);
    }
  }

  lemma ActingResultTrue(s: State, step: Step)
    requires ResultsTrue(s) && Enabled(s, step) && CallerStep(step)
    ensures ResultTrue(Apply(s, step), step.c)
  {
    var s', c := Apply(s, step), step.c;
    StepExtends(s, step);
    ActingChanges(s, step);
    assert ResultTrue(s, c);
    if c in s.slots && s.slots[c].Some? {
      AnswersStay(s, s', c, s.callers[c].addr, s.slots[c].value);
    }
  }

  lemma OtherResultTrue(s: State, step: Step, c: Caller)
    requires ResultsTrue(s) && LoopReady(s) && Enabled(s, step) && !ActsFor(step, c)
    ensures ResultTrue(Apply(s, step), c)
  {
    var s' := Apply(s, step);
    StepExtends(s, step);
    OtherPhasesStay(s, step, c);
    assert ResultTrue(s, c);
    if c in s'.slots {
      SlotsChange(s, step, c);
    }
    if c in s.slots && s.slots[c].Some? {
      AnswersStay(s, s', c, s.callers[c].addr, s.slots[c].value);
    }
    if c in s.callers && s.callers[c].Returned? && s.callers[c].result.Some? {
      AnswersStay(s, s', c, s.callers[c].addr, s.callers[c].result.value);
    }
    if step.Deliver? {
      AnswersStay(s, s', s.loop.flight.caller, s.loop.flight.addr, s.loop.body);
    }
  }

  lemma StepKeepsResultsTrue(s: State, step: Step)
    requires Owned(s) && Traffic(s) && Enabled(s, step)
    ensures ResultsTrue(Apply(s, step))
  {
    forall c: Caller ensures ResultTrue(Apply(s, step), c) {
      if ActsFor(step, c) {
        ActingResultTrue(s, step);
      } else {
        OtherResultTrue(s, step, c);
      }
    }
  }

  lemma StepKeepsTraffic(s: State, step: Step)
    requires Owned(s) && Traffic(s) && Enabled(s, step)
    ensures Traffic(Apply(s, step))
  {
    StepKeepsIdleClean(s, step);
    StepKeepsCallersReady(s, step);
    StepKeepsQueueReady(s, step);
    StepKeepsSelectorReady(s, step);
    StepKeepsLoopReady(s, step);
    StepKeepsResultsTrue(s, step);
  }

  // ---------------------------------------------------------------- each request is sent once

  predicate AskedAt(s: State, x: Sock, i: nat, c: Caller) {
    x in s.conns && i < |s.conns[x].asked| && s.conns[x].asked[i] == c
  }

  predicate PastSending(s: State, c: Caller) {
    c in s.callers && !s.callers[c].Connecting? && !s.callers[c].Holding?
  }

  ghost predicate AskedOnce(s: State) {
    && (forall x, i, c :: AskedAt(s, x, i, c) ==> PastSending(s, c))
    && (forall x, i, y, j, c :: AskedAt(s, x, i, c) && AskedAt(s, y, j, c) ==> x == y && i == j)
  }

  lemma StepKeepsAskedOnce(s: State, step: Step)
    requires AskedOnce(s) && Enabled(s, step)
    ensures AskedOnce(Apply(s, step))
  {
    var s' := Apply(s, step);
    forall x, i, c | AskedAt(s', x, i, c)
      ensures PastSending(s', c)
      ensures AskedAt(s, x, i, c)
              || (step.Send? && c == step.c && x == s.callers[c].sock && i == |s.conns[x].asked| && !PastSending(s, c))
    {
      AskedBefore(s, step, x, i, c);
    }
  }

  lemma AskedBefore(s: State, step: Step, x: Sock, i: nat, c: Caller)
    requires AskedOnce(s) && Enabled(s, step) && AskedAt(Apply(s, step), x, i, c)
    ensures PastSending(Apply(s, step), c)
    ensures AskedAt(s, x, i, c)
            || (step.Send? && c == step.c && x == s.callers[c].sock && i == |s.conns[x].asked| && !PastSending(s, c))
  {
    RequestsOnlySent(s, step, x, i, c);
    if AskedAt(s, x, i, c) {
      assert PastSending(s, c);
      if ActsFor(step, c) {
        ActingChanges(s, step);
      } else {
        OtherPhasesStay(s, step, c);
      }
    }
  }

  lemma RequestsOnlySent(s: State, step: Step, x: Sock, i: nat, c: Caller)
    requires Enabled(s, step) && AskedAt(Apply(s, step), x, i, c)
    ensures AskedAt(s, x, i, c) || (step.Send? && c == step.c && x == s.callers[c].sock && i == |s.conns[x].asked|)
  {
    if !WorksOn(step) {
      OtherConnsStay(s, step);
    }
  }

  // ---------------------------------------------------------------- one flight per call

  /** Where an in-flight record is kept. */
  datatype Carrier = OfQueue(i: nat) | OfSelector(x: Sock) | OfLoop

  predicate Carries(s: State, k: Carrier, c: Caller) {
    match k
    case OfQueue(i) => i < |s.queue| && s.queue[i].1.caller == c
    case OfSelector(x) => x in s.registered && s.registered[x].caller == c
    case OfLoop => (s.loop.Returning? || s.loop.Delivering?) && s.loop.flight.caller == c
  }

  /** A call has no record before it hands over, one record after, and none once it has its result. */
  ghost predicate OneFlight(s: State) {
    && (forall k, l, c :: Carries(s, k, c) && Carries(s, l, c) ==> k == l)
    && (forall k, c :: Carries(s, k, c) ==> c in s.slots && s.slots[c] == None)
    && (forall c :: c in s.callers && (s.callers[c].Connecting? || s.callers[c].Holding? || s.callers[c].Sent?) ==>
          c !in s.slots)
    && (forall c :: c in s.slots ==> c in s.callers)
  }

  ghost function CarriedBefore(s: State, step: Step, k: Carrier): Carrier
    requires Enabled(s, step)
  {
    match step
    case Register =>
      if k.OfQueue? then OfQueue(k.i + 1) else if k == OfSelector(s.queue[0].0) then OfQueue(0) else k
    case Read(sock, _) => if k == OfLoop then OfSelector(sock) else k
    case _ => k
  }

  lemma CallerCarriers(s: State, step: Step, k: Carrier, c: Caller)
    requires Enabled(s, step) && Carries(Apply(s, step), k, c) && CallerStep(step)
    ensures Carries(s, k, c) || (step.Enqueue? && c == step.c && k == OfQueue(|s.queue|))
  {
  }

  lemma CarrierBack(s: State, step: Step, k: Carrier, c: Caller)
    requires Enabled(s, step) && Carries(Apply(s, step), k, c)
    ensures Carries(s, CarriedBefore(s, step, k), c) || (step.Enqueue? && c == step.c && k == OfQueue(|s.queue|))
    ensures step.Deliver? ==> k != OfLoop
  {
    if CallerStep(step) {
      CallerCarriers(s, step, k, c);
    }
  }

  lemma CarriersSplit(s: State, step: Step, k: Carrier, l: Carrier, c: Caller)
    requires Enabled(s, step) && Carries(Apply(s, step), k, c) && Carries(Apply(s, step), l, c)
    requires CarriedBefore(s, step, k) == CarriedBefore(s, step, l)
    ensures k == l
  {
  }

  lemma StepKeepsSingle(s: State, step: Step, k: Carrier, l: Carrier, c: Caller)
    requires OneFlight(s) && Enabled(s, step) && Carries(Apply(s, step), k, c) && Carries(Apply(s, step), l, c)
    ensures k == l
  {
    CarrierBack(s, step, k, c);
    CarrierBack(s, step, l, c);
    if !(step.Enqueue? && c == step.c) {
      CarriersSplit(s, step, k, l, c);
    } else {
      assert c !in s.slots;
    }
  }

  lemma StepKeepsPending(s: State, step: Step, k: Carrier, c: Caller)
    requires OneFlight(s) && Enabled(s, step) && Carries(Apply(s, step), k, c)
    ensures c in Apply(s, step).slots && Apply(s, step).slots[c] == None
  {
    CarrierBack(s, step, k, c);
    if step.Deliver? && c == s.loop.flight.caller {
      assert Carries(s, OfLoop, c);
      assert false;
    }
  }

  lemma StepKeepsUnhanded(s: State, step: Step, c: Caller)
    requires OneFlight(s) && Enabled(s, step) && c in Apply(s, step).slots
    ensures c in Apply(s, step).callers
    ensures var p := Apply(s, step).callers[c]; !p.Connecting? && !p.Holding? && !p.Sent?
  {
    if ActsFor(step, c) {
      ActingChanges(s, step);
    } else {
      OtherPhasesStay(s, step, c);
      SlotsChange(s, step, c);
      if step.Deliver? && c == s.loop.flight.caller {
        assert Carries(s, OfLoop, c);
      }
    }
  }

  lemma StepKeepsOneFlight(s: State, step: Step)
    requires OneFlight(s) && Enabled(s, step)
    ensures OneFlight(Apply(s, step))
  {
    var s' := Apply(s, step);
    forall k, l, c | Carries(s', k, c) && Carries(s', l, c) ensures k == l {
      StepKeepsSingle(s, step, k, l, c);
    }
    forall k, c | Carries(s', k, c) ensures c in s'.slots && s'.slots[c] == None {
      StepKeepsPending(s, step, k, c);
    }
    forall c | c in s'.slots
      ensures c in s'.callers && !s'.callers[c].Connecting? && !s'.callers[c].Holding? && !s'.callers[c].Sent?
    {
      StepKeepsUnhanded(s, step, c);
    }
  }

  // ---------------------------------------------------------------- bounds and wake-ups

  ghost predicate PoolsBounded(s: State) { forall addr :: addr in s.idle ==> |s.idle[addr]| <= s.max }

  /** A queued socket has a wake-up on its way: a byte unread, a caller about to write one, or the
      selector emptying the queue right now. */
  ghost predicate WakeupPending(s: State) {
    s.queue != [] ==> s.wake > 0 || s.loop.Draining? || exists c :: c in s.callers && s.callers[c].Waking?
  }

  lemma StepKeepsBounds(s: State, step: Step)
    requires PoolsBounded(s) && Enabled(s, step)
    ensures PoolsBounded(Apply(s, step)) && Apply(s, step).max == s.max
  {
  }

  lemma StepKeepsWakeup(s: State, step: Step)
    requires WakeupPending(s) && Enabled(s, step)
    ensures WakeupPending(Apply(s, step))
  {
    if step.Enqueue? {
      assert Apply(s, step).callers[step.c].Waking?;
    } else if s.queue != [] && s.wake == 0 && !s.loop.Draining? {
      var c :| c in s.callers && s.callers[c].Waking?;
      if !ActsFor(step, c) {
        OtherPhasesStay(s, step, c);
      }
    }
  }

  // ---------------------------------------------------------------- every reachable state

  ghost predicate Inv(s: State) {
    Owned(s) && Traffic(s) && AskedOnce(s) && OneFlight(s) && PoolsBounded(s) && WakeupPending(s)
  }

  lemma OpeningInv(max: nat)
    ensures Inv(Opening(max))
  {
  }

  lemma StepKeepsInv(s: State, step: Step)
    requires Inv(s) && Enabled(s, step)
    ensures Inv(Apply(s, step)) && Apply(s, step).max == s.max
  {
    StepKeepsOwned(s, step);
    StepKeepsTraffic(s, step);
    StepKeepsAskedOnce(s, step);
    StepKeepsOneFlight(s, step);
    StepKeepsBounds(s, step);
    StepKeepsWakeup(s, step);
  }

  /** The code never trips: in a reachable state what it takes for granted is there. A caller that sends
      has an open socket, one that waits has its result cell, a reader that is fed is sound. */
  lemma ReadyIsEnabled(s: State, step: Step)
    requires Inv(s)
    ensures Ready(s, step) <==> Enabled(s, step)
  {
    if Ready(s, step) {
      match step
      case Send(c) => assert CallerReady(s, c, s.callers[c]);
      case Finish(c) => assert ResultTrue(s, c);
      case _ =>
    }
  }

  lemma {:induction false} InvHolds(run: seq<State>, steps: seq<Step>, i: nat)
    requires IsRun(run, steps) && i < |run|
    ensures Inv(run[i]) && run[i].max == run[0].max
  {
    if i == 0 {
      OpeningInv(run[0].max);
    } else {
      InvHolds(run, steps, i - 1);
      StepKeepsInv(run[i - 1], steps[i - 1]);
    }
  }

  /** Each caller gets its own reply. In every run, whatever a call returns is the body that the peer
      it addressed sent in answer to that very call, which went out on one connection once. */
  lemma CallerGetsOwnReply(run: seq<State>, steps: seq<Step>, k: nat, c: Caller)
    requires IsRun(run, steps) && k < |run|
    requires c in run[k].callers && run[k].callers[c].Returned? && run[k].callers[c].result.Some?
    ensures exists x, i :: AnsweredOn(run[k], x, i, c, run[k].callers[c].addr, run[k].callers[c].result.value)
              && forall y, j :: AskedAt(run[k], y, j, c) ==> y == x && j == i
  {
    InvHolds(run, steps, k);
    var s := run[k];
    assert ResultTrue(s, c);
    var x, i :| AnsweredOn(s, x, i, c, s.callers[c].addr, s.callers[c].result.value);
    assert AskedAt(s, x, i, c);
  }

  /** Delivery is not lost: the body put into the cell of a call that has not returned yet is what the
      call returns when it does. */
  lemma {:induction false} DeliveredReplyIsReturned(run: seq<State>, steps: seq<Step>, k: nat, m: nat)
    requires IsRun(run, steps) && k < m < |run| && steps[k] == Deliver
    requires var c := run[k].loop.flight.caller; c in run[k].callers && !run[k].callers[c].Returned?
    ensures var c, body := run[k].loop.flight.caller, run[k].loop.body;
            && c in run[m].slots && run[m].slots[c] == Some(body) && c in run[m].callers
            && (run[m].callers[c].Returned? ==> run[m].callers[c].result == Some(body))
    decreases m
  {
    var c := run[k].loop.flight.caller;
    InvHolds(run, steps, m - 1);
    if m == k + 1 {
      OtherPhasesStay(run[k], Deliver, c);
    } else {
      DeliveredReplyIsReturned(run, steps, k, m - 1);
      FilledCellStays(run[m - 1], steps[m - 1], c);
    }
  }

  lemma FilledCellStays(s: State, step: Step, c: Caller)
    requires Inv(s) && Enabled(s, step) && c in s.slots && s.slots[c].Some? && c in s.callers
    ensures c in Apply(s, step).slots && Apply(s, step).slots[c] == s.slots[c] && c in Apply(s, step).callers
    ensures Apply(s, step).callers[c].Returned? && !s.callers[c].Returned? ==>
              Apply(s, step).callers[c].result == s.slots[c]
    ensures s.callers[c].Returned? ==> Apply(s, step).callers[c] == s.callers[c]
  {
    if ActsFor(step, c) {
      ActingChanges(s, step);
    } else {
      OtherPhasesStay(s, step, c);
      SlotsChange(s, step, c);
      if step.Deliver? {
        assert Carries(s, OfLoop, s.loop.flight.caller);
      }
    }
  }

  /** An idle socket never carries an unread or a late reply, and is kept under its own address; no
      pool is larger than allowed. */
  lemma IdleSocketsAreClean(run: seq<State>, steps: seq<Step>, k: nat, addr: string)
    requires IsRun(run, steps) && k < |run| && addr in run[k].idle
    ensures |run[k].idle[addr]| <= run[0].max
    ensures forall i :: 0 <= i < |run[k].idle[addr]| ==>
              var x := run[k].idle[addr][i];
              x in run[k].conns && Clean(run[k].conns[x]) && run[k].conns[x].addr == addr
  {
    InvHolds(run, steps, k);
  }

  /** Socket ownership: every socket opened so far is in exactly one place, which is with nobody only if an
      encoding failure dropped it (`DroppedIff`). In particular no two callers hold the same socket,
      and the selector is never asked to register a socket it already has. */
  lemma SocketOwnership(run: seq<State>, steps: seq<Step>, k: nat)
    requires IsRun(run, steps) && k < |run|
    ensures forall x :: x in run[k].conns <==> exists p :: At(run[k], x, p)
    ensures forall x, p, q :: At(run[k], x, p) && At(run[k], x, q) ==> p == q
    ensures forall b, c, x ::
              (b in run[k].callers && c in run[k].callers && Holds(run[k].callers[b], x) && Holds(run[k].callers[c], x))
              ==> b == c
    ensures run[k].queue != [] ==> run[k].queue[0].0 !in run[k].registered
  {
    InvHolds(run, steps, k);
    var s := run[k];
    forall b, c, x | b in s.callers && c in s.callers && Holds(s.callers[b], x) && Holds(s.callers[c], x)
      ensures b == c
    {
      assert At(s, x, ByCaller(b)) && At(s, x, ByCaller(c));
    }
    if s.queue != [] {
      assert At(s, s.queue[0].0, InQueue(0)) && !At(s, s.queue[0].0, InSelector);
    }
  }

  /** Step `n` of the run is call `c` raising with socket `x` in its hands. */
  predicate DropsAt(run: seq<State>, steps: seq<Step>, n: nat, c: Caller, x: Sock) {
    n < |steps| && n < |run| && steps[n] == EncodeFails(c) && c in run[n].callers && Holds(run[n].callers[c], x)
  }

  lemma StepDrops(s: State, step: Step, c: Caller, x: Sock)
    requires Enabled(s, step)
    ensures At(Apply(s, step), x, Dropped(c))
       <==> At(s, x, Dropped(c)) || (step == EncodeFails(c) && Holds(s.callers[c], x))
  {
    if !ActsFor(step, c) {
      OtherPhasesStay(s, step, c);
    }
  }

  /** Sockets are dropped, for good, exactly by encoding failures: a socket is one that call `c` dropped if
      and only if `c` held it when its message could not be encoded. */
  lemma {:induction false} DroppedIff(run: seq<State>, steps: seq<Step>, k: nat, c: Caller, x: Sock)
    requires IsRun(run, steps) && k < |run|
    ensures At(run[k], x, Dropped(c)) <==> exists n: nat :: n < k && DropsAt(run, steps, n, c, x)
  {
    if k > 0 {
      DroppedIff(run, steps, k - 1, c, x);
      StepDrops(run[k - 1], steps[k - 1], c, x);
      assert DropsAt(run, steps, k - 1, c, x) <==> steps[k - 1] == EncodeFails(c) && Holds(run[k - 1].callers[c], x);
    }
  }

  /** The first call of a pool, for a message that cannot be encoded: the socket it opened is neither idle nor
      closed, and stays so. */
  lemma EncodeFailureDropsSocket(max: nat, addr: string) returns (run: seq<State>, steps: seq<Step>)
    ensures IsRun(run, steps) && steps == [Call(0, addr), Connect(0, 7), EncodeFails(0)]
    ensures run[3].conns.Keys == {7} && run[3].idle == map[] && run[3].closed == run[3].closing == {}
    ensures At(run[3], 7, Dropped(0))
  {
    var a := Opening(max);
    var b := Apply(a, Call(0, addr));
    var c := Apply(b, Connect(0, 7));
    run, steps := [a, b, c, Apply(c, EncodeFails(0))], [Call(0, addr), Connect(0, 7), EncodeFails(0)];
  }

  /** No wake-up is lost, and what the selector and the callers rely on is there: a registered socket is
      open, with a reader that needs at least one byte; a caller that waits has its result cell. */
  lemma SelectorCanProceed(run: seq<State>, steps: seq<Step>, k: nat)
    requires IsRun(run, steps) && k < |run|
    ensures WakeupPending(run[k])
    ensures forall x :: x in run[k].registered ==>
              x in run[k].conns && Sound(run[k].registered[x].reader) && Need(run[k].registered[x].reader) > 0
    ensures forall step :: Ready(run[k], step) ==> Enabled(run[k], step)
  {
    InvHolds(run, steps, k);
    forall step | Ready(run[k], step) ensures Enabled(run[k], step) {
      ReadyIsEnabled(run[k], step);
    }
  }

  // ---------------------------------------------------------------- order of reuse

  /** Of a peer's idle sockets the next call takes the one given back longest ago, and the one just given
      back exactly when there is no other. */
  lemma OldestIdleIsReused(s: State, c: Caller)
    requires Owned(s) && Enabled(s, GiveBack) && |IdleAt(s, s.loop.flight.addr)| < s.max && c !in s.callers
    ensures var addr := s.loop.flight.addr;
            var returned := Apply(s, GiveBack);
            && Enabled(returned, Call(c, addr))
            && Apply(returned, Call(c, addr)).callers[c]
               == Holding(addr, if IdleAt(s, addr) == [] then s.loop.sock else IdleAt(s, addr)[|IdleAt(s, addr)| - 1])
            && IdleAt(Apply(returned, Call(c, addr)), addr)
               == (if IdleAt(s, addr) == [] then [] else [s.loop.sock] + IdleAt(s, addr)[..|IdleAt(s, addr)| - 1])
            && (Apply(returned, Call(c, addr)).callers[c] == Holding(addr, s.loop.sock) <==> IdleAt(s, addr) == [])
  {
    var pool := IdleAt(s, s.loop.flight.addr);
    if pool != [] {
      assert At(s, s.loop.sock, WithLoop) && At(s, pool[|pool| - 1], InPool(s.loop.flight.addr, |pool| - 1));
    }
  }

  /** Both are idle at `addr`, and `x` was given back before `y`. */
  ghost predicate Ahead(s: State, addr: string, x: Sock, y: Sock) {
    exists i, j :: 0 <= i < j < |IdleAt(s, addr)| && IdleAt(s, addr)[i] == y && IdleAt(s, addr)[j] == x
  }

  /** Step `n` of the run is call `c` taking idle socket `x`. */
  predicate Takes(run: seq<State>, steps: seq<Step>, n: nat, c: Caller, addr: string, x: Sock) {
    && n < |steps| && n + 1 < |run| && steps[n] == Call(c, addr) && x in IdleAt(run[n], addr)
    && c in run[n + 1].callers && run[n + 1].callers[c] == Holding(addr, x)
  }

  lemma PoolChanges(s: State, step: Step, addr: string)
    requires Enabled(s, step) && step != ClosePeer(addr)
    ensures var pool := IdleAt(s, addr);
            IdleAt(Apply(s, step), addr)
            == if step.Call? && step.addr == addr && pool != [] then pool[..|pool| - 1]
               else if step.GiveBack? && s.loop.flight.addr == addr && |pool| < s.max then [s.loop.sock] + pool
               else pool
  {
  }

  /** The order of two idle sockets lasts until a call takes the first or the peer is closed. */
  lemma OrderLasts(s: State, step: Step, addr: string, x: Sock, y: Sock)
    requires Enabled(s, step) && Ahead(s, addr, x, y) && step != ClosePeer(addr)
    ensures Ahead(Apply(s, step), addr, x, y)
            || (step.Call? && step.addr == addr && Apply(s, step).callers[step.c] == Holding(addr, x))
  {
    var pool, after := IdleAt(s, addr), IdleAt(Apply(s, step), addr);
    var i, j :| 0 <= i < j < |pool| && pool[i] == y && pool[j] == x;
    PoolChanges(s, step, addr);
    if step.Call? && step.addr == addr {
      assert j < |pool| - 1 ==> after[i] == y && after[j] == x;
    } else if step.GiveBack? && s.loop.flight.addr == addr && |pool| < s.max {
      assert after[i + 1] == y && after[j + 1] == x;
    }
  }

  lemma {:induction false} AheadUntilTaken(run: seq<State>, steps: seq<Step>, k: nat, m: nat, addr: string, x: Sock, y: Sock)
    requires IsRun(run, steps) && k <= m < |run| && Ahead(run[k], addr, x, y)
    requires forall n :: k <= n < m ==> steps[n] != ClosePeer(addr)
    ensures Ahead(run[m], addr, x, y) || exists n: nat, d :: k <= n < m && Takes(run, steps, n, d, addr, x)
    decreases m
  {
    if k < m {
      AheadUntilTaken(run, steps, k, m - 1, addr, x, y);
      if Ahead(run[m - 1], addr, x, y) {
        OrderLasts(run[m - 1], steps[m - 1], addr, x, y);
        if !Ahead(run[m], addr, x, y) {
          assert Takes(run, steps, m - 1, steps[m - 1].c, addr, x);
        }
      }
    }
  }

  lemma OwnedHolds(run: seq<State>, steps: seq<Step>, i: nat)
    requires IsRun(run, steps) && i < |run|
    ensures Owned(run[i])
  {
    InvHolds(run, steps, i);
  }

  /** First in, first out. In every run, when socket `y` is given back while `x` is idle at the same peer,
      and a later call takes `y`, another call took `x` in between; unless the peer was closed in
      between, which takes all its idle sockets at once. */
  lemma FirstInFirstOut(run: seq<State>, steps: seq<Step>, k: nat, m: nat, c: Caller, addr: string, x: Sock, y: Sock)
    requires IsRun(run, steps) && k < m < |steps|
    requires steps[k] == GiveBack && run[k].loop.sock == y && run[k].loop.flight.addr == addr
    requires x in IdleAt(run[k], addr) && y in IdleAt(run[k + 1], addr)
    requires Takes(run, steps, m, c, addr, y)
    requires forall n :: k < n < m ==> steps[n] != ClosePeer(addr)
    ensures exists n: nat, d :: k < n < m && Takes(run, steps, n, d, addr, x)
  {
    OwnedHolds(run, steps, k);
    GivenBackLast(run[k], addr, x);
    AheadUntilTaken(run, steps, k + 1, m, addr, x, y);
    OwnedHolds(run, steps, m);
    TakenIsFirst(run[m], c, addr, x, y);
  }

  /** A call takes no socket that has another one ahead of it. */
  lemma TakenIsFirst(s: State, c: Caller, addr: string, x: Sock, y: Sock)
    requires Owned(s) && Enabled(s, Call(c, addr)) && Apply(s, Call(c, addr)).callers[c] == Holding(addr, y)
    ensures !Ahead(s, addr, x, y)
  {
    if Ahead(s, addr, x, y) {
      var pool := IdleAt(s, addr);
      var i, j :| 0 <= i < j < |pool| && pool[i] == y && pool[j] == x;
      assert At(s, y, InPool(addr, i)) && At(s, y, InPool(addr, |pool| - 1));
    }
  }

  lemma GivenBackLast(s: State, addr: string, x: Sock)
    requires Owned(s) && s.loop.Returning? && s.loop.flight.addr == addr
    requires x in IdleAt(s, addr) && s.loop.sock in IdleAt(Apply(s, GiveBack), addr)
    ensures Ahead(Apply(s, GiveBack), addr, x, s.loop.sock)
  {
    var pool, after := IdleAt(s, addr), IdleAt(Apply(s, GiveBack), addr);
    PoolChanges(s, GiveBack, addr);
    forall i | 0 <= i < |pool| ensures pool[i] != s.loop.sock {
      assert At(s, pool[i], InPool(addr, i)) && At(s, s.loop.sock, WithLoop);
    }
    assert after == [s.loop.sock] + pool;
    var j :| 0 <= j < |pool| && pool[j] == x;
    assert after[0] == s.loop.sock && after[j + 1] == x;
  }
}
