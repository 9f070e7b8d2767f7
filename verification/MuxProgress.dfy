/** Which calls of the multiplexed pool (dlstorage/connection_pool/mux.py) can still be answered: from a
    reachable state some continuation returns the peer's reply, or none does. */
module MuxProgress {
  import opened Types
  import opened Wire
  import opened Mux

  ghost predicate Carried(s: State, c: Caller) { exists k :: Carries(s, k, c) }

  predicate OutThere(s: State, c: Caller) { c in s.callers && (s.callers[c].Waking? || s.callers[c].Waiting?) }

  predicate GotReply(s: State, c: Caller) { c in s.callers && s.callers[c].Returned? && s.callers[c].result.Some? }

  /** The call has not handed over yet, or its cell is filled or its record still carried, or it returned
      its reply. Not so: it raised, returned nothing, or waits for a record that is gone. */
  ghost predicate CanAnswer(s: State, c: Caller) {
    c in s.callers &&
    match s.callers[c]
    case Connecting(_) => true
    case Holding(_, _) => true
    case Sent(_, _) => true
    case Raised(_, _) => false
    case Returned(_, result) => result.Some?
    case _ => (c in s.slots && s.slots[c].Some?) || Carried(s, c)
  }

  // ---------------------------------------------------------------- runs that go on

  /** The run, now at `s`, goes on and comes to `t`. */
  ghost predicate Leads(run: seq<State>, steps: seq<Step>, s: State, run': seq<State>, steps': seq<Step>, t: State) {
    && IsRun(run, steps) && s == run[|run| - 1]
    && IsRun(run', steps') && t == run'[|run'| - 1]
    && run <= run' && steps <= steps'
  }

  lemma OneMore(run: seq<State>, steps: seq<Step>, s: State, step: Step)
    requires IsRun(run, steps) && s == run[|run| - 1] && Enabled(s, step)
    ensures Leads(run, steps, s, run + [Apply(s, step)], steps + [step], Apply(s, step))
  {
  }

  // ---------------------------------------------------------------- towards the reply

  /** How far the selector is from polling, with something still queued and without. */
  function QueueRank(s: State): nat {
    match s.loop
    case Draining => 0
    case Polling => if s.wake > 0 then 1 else 2
    case Delivering(_, _) => 3
    case Returning(_, _, _) => 4
  }

  function PollRank(s: State): nat {
    match s.loop
    case Polling => 0
    case Delivering(_, _) => 1
    case Returning(_, _, _) => 2
    case Draining => 1 + |s.queue|
  }

  function Owing(s: State, x: Sock): nat {
    if x in s.conns && |s.conns[x].replies| < |s.conns[x].asked| then 1 else 0
  }

  /** What is left to do for a record, most significant first: where it is, then what keeps it there. */
  function Rank(s: State, k: Carrier): (nat, nat, nat, nat) {
    match k
    case OfQueue(i) => (2, QueueRank(s), i, 0)
    case OfSelector(x) => (1, Owing(s, x), |Inbound(s, x)|, PollRank(s))
    case OfLoop => (0, if s.loop.Returning? then 1 else 0, 0, 0)
  }

  predicate Less(a: (nat, nat, nat, nat), b: (nat, nat, nat, nat)) {
    a.0 < b.0 || (a.0 == b.0 && (a.1 < b.1 || (a.1 == b.1 && (a.2 < b.2 || (a.2 == b.2 && a.3 < b.3)))))
  }

  /** One step nearer: the record moved on, or its body is in the call's cell. */
  ghost predicate Nearer(s: State, step: Step, c: Caller, k: Carrier, k': Carrier) {
    && Enabled(s, step) && OutThere(Apply(s, step), c)
    && ((c in Apply(s, step).slots && Apply(s, step).slots[c].Some?)
        || (Carries(Apply(s, step), k', c) && Less(Rank(Apply(s, step), k'), Rank(s, k))))
  }

  lemma StaysOut(s: State, step: Step, c: Caller)
    requires OutThere(s, c) && Enabled(s, step) && !(step.Finish? && step.c == c)
    ensures OutThere(Apply(s, step), c)
  {
    if ActsFor(step, c) {
      assert step.Wake?;
    } else {
      OtherPhasesStay(s, step, c);
    }
  }

  lemma LoopTowards(s: State, c: Caller) returns (step: Step)
    requires OutThere(s, c) && Carries(s, OfLoop, c)
    ensures Nearer(s, step, c, OfLoop, OfLoop)
  {
    step := if s.loop.Returning? then GiveBack else Deliver;
    StaysOut(s, step, c);
  }

  /** While the selector finishes what it is at, a registered record waits where it is. */
  lemma BusyTowards(s: State, c: Caller, x: Sock) returns (step: Step)
    requires OutThere(s, c) && Carries(s, OfSelector(x), c) && (s.loop.Returning? || s.loop.Delivering?)
    ensures Nearer(s, step, c, OfSelector(x), OfSelector(x))
  {
    step := if s.loop.Returning? then GiveBack else Deliver;
    StaysOut(s, step, c);
    OtherConnsStay(s, step);
  }

  lemma DrainingTowards(s: State, c: Caller, x: Sock) returns (step: Step)
    requires Owned(s) && OutThere(s, c) && Carries(s, OfSelector(x), c) && s.loop.Draining?
    ensures Nearer(s, step, c, OfSelector(x), OfSelector(x))
  {
    step := if s.queue == [] then DrainDone else Register;
    StaysOut(s, step, c);
    OtherConnsStay(s, step);
    if s.queue != [] {
      assert At(s, s.queue[0].0, InQueue(0)) && At(s, x, InSelector);
    }
  }

  /** Something is there to read, or the peer still owes the reply. */
  lemma OwingOrInbound(conn: Conn, f: InFlight)
    requires Underway(conn, f) && conn.inbound == []
    ensures |conn.replies| < |conn.asked|
  {
    if |conn.replies| == |conn.asked| {
      var body := conn.replies[|conn.replies| - 1];
      assert Frame(body) + [] == Frame(body);
      ReceiveFrame(body, []);
      assert Consumed(f.reader) + [] == Consumed(f.reader);
      HalfReadIsIncomplete(f.reader);
    }
  }

  lemma AskTowards(s: State, c: Caller, x: Sock) returns (step: Step)
    requires SelectorReady(s) && OutThere(s, c) && Carries(s, OfSelector(x), c) && Inbound(s, x) == []
    ensures Nearer(s, step, c, OfSelector(x), OfSelector(x))
  {
    OwingOrInbound(s.conns[x], s.registered[x]);
    step := PeerReplies(x, [0]);
    StaysOut(s, step, c);
  }

  lemma ReadTowards(s: State, c: Caller, x: Sock) returns (k': Carrier)
    requires SelectorReady(s) && OutThere(s, c) && Carries(s, OfSelector(x), c) && s.loop.Polling? && Inbound(s, x) != []
    ensures Nearer(s, Read(x, 1), c, OfSelector(x), k')
  {
    StaysOut(s, Read(x, 1), c);
    k' := if x in Apply(s, Read(x, 1)).registered then OfSelector(x) else OfLoop;
  }

  lemma SelectorTowards(s: State, c: Caller, x: Sock) returns (step: Step, k': Carrier)
    requires Owned(s) && SelectorReady(s) && OutThere(s, c) && Carries(s, OfSelector(x), c)
    ensures Nearer(s, step, c, OfSelector(x), k')
  {
    k' := OfSelector(x);
    match s.loop
    case Draining => step := DrainingTowards(s, c, x);
    case Polling =>
      if Inbound(s, x) == [] {
        step := AskTowards(s, c, x);
      } else {
        step := Read(x, 1);
        k' := ReadTowards(s, c, x);
      }
    case _ => step := BusyTowards(s, c, x);
  }

  /** A queued record moves up while the queue is drained. */
  lemma RegisterTowards(s: State, c: Caller, i: nat) returns (k': Carrier)
    requires OutThere(s, c) && Carries(s, OfQueue(i), c) && s.loop.Draining?
    ensures Nearer(s, Register, c, OfQueue(i), k')
  {
    StaysOut(s, Register, c);
    k' := if i > 0 then OfQueue(i - 1) else OfSelector(s.queue[0].0);
  }

  /** Until then the selector is brought to drain it. */
  lemma ToDrain(s: State, c: Caller, i: nat) returns (step: Step)
    requires WakeupPending(s) && OutThere(s, c) && Carries(s, OfQueue(i), c) && !s.loop.Draining?
    ensures Nearer(s, step, c, OfQueue(i), OfQueue(i))
  {
    if s.loop.Returning? {
      step := GiveBack;
    } else if s.loop.Delivering? {
      step := Deliver;
    } else if s.wake > 0 {
      step := DrainWake;
    } else {
      var d :| d in s.callers && s.callers[d].Waking?;
      step := Wake(d);
    }
    StaysOut(s, step, c);
    QueueStays(s, step);
  }

  lemma Towards(s: State, c: Caller, k: Carrier) returns (step: Step, k': Carrier)
    requires Owned(s) && SelectorReady(s) && WakeupPending(s) && OutThere(s, c) && Carries(s, k, c)
    ensures Nearer(s, step, c, k, k')
  {
    match k
    case OfLoop =>
      step := LoopTowards(s, c);
      k' := OfLoop;
    case OfSelector(x) => step, k' := SelectorTowards(s, c, x);
    case OfQueue(i) =>
      if s.loop.Draining? {
        step := Register;
        k' := RegisterTowards(s, c, i);
      } else {
        step := ToDrain(s, c, i);
        k' := k;
      }
  }

  lemma NextTowards(run: seq<State>, steps: seq<Step>, s: State, c: Caller, k: Carrier) returns (step: Step, k': Carrier)
    requires IsRun(run, steps) && s == run[|run| - 1] && OutThere(s, c) && Carries(s, k, c)
    ensures Nearer(s, step, c, k, k')
  {
    InvHolds(run, steps, |run| - 1);
    step, k' := Towards(s, c, k);
  }

  // ---------------------------------------------------------------- the reply is reached

  lemma FilledReturns(run: seq<State>, steps: seq<Step>, s: State, c: Caller)
    returns (run': seq<State>, steps': seq<Step>, t: State)
    requires IsRun(run, steps) && s == run[|run| - 1] && OutThere(s, c) && c in s.slots && s.slots[c].Some?
    ensures Leads(run, steps, s, run', steps', t) && GotReply(t, c)
  {
    run', steps', t := run, steps, s;
    if s.callers[c].Waking? {
      OneMore(run', steps', t, Wake(c));
      t := Apply(t, Wake(c));
      run', steps' := run' + [t], steps' + [Wake(c)];
    }
    OneMore(run', steps', t, Finish(c));
    t := Apply(t, Finish(c));
    run', steps' := run' + [t], steps' + [Finish(c)];
  }

  lemma {:induction false} CarriedReturns(run: seq<State>, steps: seq<Step>, s: State, c: Caller, k: Carrier)
    returns (run': seq<State>, steps': seq<Step>, t: State)
    requires IsRun(run, steps) && s == run[|run| - 1] && OutThere(s, c) && Carries(s, k, c)
    ensures Leads(run, steps, s, run', steps', t) && GotReply(t, c)
    decreases Rank(s, k).0, Rank(s, k).1, Rank(s, k).2, Rank(s, k).3
  {
    var step, k' := NextTowards(run, steps, s, c, k);
    var m := Apply(s, step);
    OneMore(run, steps, s, step);
    if c in m.slots && m.slots[c].Some? {
      run', steps', t := FilledReturns(run + [m], steps + [step], m, c);
    } else {
      run', steps', t := CarriedReturns(run + [m], steps + [step], m, c, k');
    }
  }

  lemma LeadsOn(run: seq<State>, steps: seq<Step>, s: State, step: Step,
                run': seq<State>, steps': seq<Step>, t: State)
    requires IsRun(run, steps) && s == run[|run| - 1] && Enabled(s, step)
    requires Leads(run + [Apply(s, step)], steps + [step], Apply(s, step), run', steps', t)
    ensures Leads(run, steps, s, run', steps', t)
  {
    OneMore(run, steps, s, step);
  }

  lemma SentReturns(run: seq<State>, steps: seq<Step>, s: State, c: Caller)
    returns (run': seq<State>, steps': seq<Step>, t: State)
    requires IsRun(run, steps) && s == run[|run| - 1] && c in s.callers && s.callers[c].Sent?
    ensures Leads(run, steps, s, run', steps', t) && GotReply(t, c)
  {
    var m := Apply(s, Enqueue(c));
    OneMore(run, steps, s, Enqueue(c));
    assert Carries(m, OfQueue(|s.queue|), c);
    run', steps', t := CarriedReturns(run + [m], steps + [Enqueue(c)], m, c, OfQueue(|s.queue|));
    LeadsOn(run, steps, s, Enqueue(c), run', steps', t);
  }

  lemma HeldIsOpen(run: seq<State>, steps: seq<Step>, s: State, c: Caller)
    requires IsRun(run, steps) && s == run[|run| - 1] && Ready(s, Send(c))
    ensures Enabled(s, Send(c))
  {
    InvHolds(run, steps, |run| - 1);
    ReadyIsEnabled(s, Send(c));
  }

  lemma HoldingReturns(run: seq<State>, steps: seq<Step>, s: State, c: Caller)
    returns (run': seq<State>, steps': seq<Step>, t: State)
    requires IsRun(run, steps) && s == run[|run| - 1] && c in s.callers && s.callers[c].Holding?
    ensures Leads(run, steps, s, run', steps', t) && GotReply(t, c)
  {
    HeldIsOpen(run, steps, s, c);
    var m := Apply(s, Send(c));
    OneMore(run, steps, s, Send(c));
    run', steps', t := SentReturns(run + [m], steps + [Send(c)], m, c);
    LeadsOn(run, steps, s, Send(c), run', steps', t);
  }

  lemma {:induction false} NewSocket(known: set<Sock>) returns (x: Sock)
    ensures x !in known && forall y :: y in known ==> y < x
  {
    x := 0;
    if known != {} {
      var y :| y in known;
      var z := NewSocket(known - {y});
      x := if y < z then z else y + 1;
      forall w | w in known ensures w < x {
        assert w == y || w in known - {y};
      }
    }
  }

  lemma ConnectingReturns(run: seq<State>, steps: seq<Step>, s: State, c: Caller)
    returns (run': seq<State>, steps': seq<Step>, t: State)
    requires IsRun(run, steps) && s == run[|run| - 1] && c in s.callers && s.callers[c].Connecting?
    ensures Leads(run, steps, s, run', steps', t) && GotReply(t, c)
  {
    var x := NewSocket(s.conns.Keys);
    var m := Apply(s, Connect(c, x));
    OneMore(run, steps, s, Connect(c, x));
    run', steps', t := HoldingReturns(run + [m], steps + [Connect(c, x)], m, c);
    LeadsOn(run, steps, s, Connect(c, x), run', steps', t);
  }

  lemma CanReturn(run: seq<State>, steps: seq<Step>, s: State, c: Caller)
    returns (run': seq<State>, steps': seq<Step>, t: State)
    requires IsRun(run, steps) && s == run[|run| - 1] && CanAnswer(s, c)
    ensures Leads(run, steps, s, run', steps', t) && GotReply(t, c)
  {
    match s.callers[c]
    case Connecting(_) => run', steps', t := ConnectingReturns(run, steps, s, c);
    case Holding(_, _) => run', steps', t := HoldingReturns(run, steps, s, c);
    case Sent(_, _) => run', steps', t := SentReturns(run, steps, s, c);
    case Returned(_, _) => run', steps', t := run, steps, s;
    case Raised(_, _) => assert false;
    case _ =>
      if c in s.slots && s.slots[c].Some? {
        run', steps', t := FilledReturns(run, steps, s, c);
      } else {
        var k :| Carries(s, k, c);
        run', steps', t := CarriedReturns(run, steps, s, c, k);
      }
  }

  // ---------------------------------------------------------------- or it is not

  /** Without a record nothing fills the cell of a waiting call. */
  lemma StaysEmpty(s: State, step: Step, c: Caller)
    requires Enabled(s, step) && OutThere(s, c) && c in s.slots && s.slots[c] == None && !Carried(s, c)
    ensures c in Apply(s, step).slots && Apply(s, step).slots[c] == None && !Carried(Apply(s, step), c)
  {
    OtherPhasesOrOwn(s, step, c);
    SlotsChange(s, step, c);
    assert !Carries(s, OfLoop, c);
    forall k | Carries(Apply(s, step), k, c) ensures Carried(s, c) {
      CarrierBack(s, step, k, c);
    }
  }

  lemma OtherPhasesOrOwn(s: State, step: Step, c: Caller)
    requires Enabled(s, step) && OutThere(s, c) && c in s.slots
    ensures c in Apply(s, step).slots && !(step.Enqueue? && step.c == c)
  {
    if ActsFor(step, c) {
      ActingChanges(s, step);
    } else {
      OtherPhasesStay(s, step, c);
    }
  }

  /** A call that cannot be answered never can be again. */
  lemma StaysHopeless(s: State, step: Step, c: Caller)
    requires ResultTrue(s, c) && Enabled(s, step) && c in s.callers && !CanAnswer(s, c)
    ensures c in Apply(s, step).callers && !CanAnswer(Apply(s, step), c)
  {
    if OutThere(s, c) {
      StaysEmpty(s, step, c);
    }
    if ActsFor(step, c) {
      ActingChanges(s, step);
    } else {
      OtherPhasesStay(s, step, c);
    }
  }

  lemma ResultHolds(run: seq<State>, steps: seq<Step>, i: nat, c: Caller)
    requires IsRun(run, steps) && i < |run|
    ensures ResultTrue(run[i], c)
  {
    InvHolds(run, steps, i);
  }

  lemma {:induction false} HopelessHolds(run: seq<State>, steps: seq<Step>, i: nat, j: nat, c: Caller)
    requires IsRun(run, steps) && i <= j < |run| && c in run[i].callers && !CanAnswer(run[i], c)
    ensures c in run[j].callers && !CanAnswer(run[j], c)
    decreases j
  {
    if i < j {
      HopelessHolds(run, steps, i, j - 1, c);
      ResultHolds(run, steps, j - 1, c);
      StaysHopeless(run[j - 1], steps[j - 1], c);
    }
  }

  /** Progress, exactly: after any run, a call can still return its reply, by some continuation in which its
      peer answers, if and only if it has not handed its socket over yet, or its cell is filled, or its
      record is still carried by the queue, the selector or the thread. A call that raised, that
      returned without a reply, or whose record is gone never will. */
  lemma ReplyReachableIff(run: seq<State>, steps: seq<Step>, s: State, c: Caller)
    requires IsRun(run, steps) && s == run[|run| - 1] && c in s.callers
    ensures CanAnswer(s, c) <==> exists run', steps', t :: Leads(run, steps, s, run', steps', t) && GotReply(t, c)
  {
    if CanAnswer(s, c) {
      var run', steps', t := CanReturn(run, steps, s, c);
    } else {
      forall run', steps', t | Leads(run, steps, s, run', steps', t) ensures !GotReply(t, c) {
        assert run'[|run| - 1] == s;
        HopelessHolds(run', steps', |run| - 1, |run'| - 1, c);
      }
    }
  }
}
