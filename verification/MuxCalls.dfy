/** The life of one call, and of a closed socket, over whole runs of the multiplexed pool
    (dlstorage/connection_pool/mux.py). */
module MuxCalls {
  import opened Types
  import opened Wire
  import opened Mux
  import opened MuxProgress

  // ---------------------------------------------------------------- a call only advances

  function Stage(p: Phase): nat {
    match p
    case Connecting(_) => 0
    case Holding(_, _) => 1
    case Sent(_, _) => 2
    case Waking(_) => 3
    case Waiting(_) => 4
    case Raised(_, _) => 5
    case Returned(_, _) => 5
  }

  predicate Over(p: Phase) { p.Raised? || p.Returned? }

  /** A call's own steps take it to a later stage, the steps of others leave it where it is. */
  lemma StepAdvances(s: State, step: Step, c: Caller)
    requires Enabled(s, step) && c in s.callers
    ensures c in Apply(s, step).callers && Apply(s, step).callers[c].addr == s.callers[c].addr
    ensures if ActsFor(step, c) then Stage(Apply(s, step).callers[c]) > Stage(s.callers[c]) && !Over(s.callers[c])
            else Apply(s, step).callers[c] == s.callers[c]
  {
    if ActsFor(step, c) {
      OwnStepAdvances(s, step);
    } else {
      OtherPhasesStay(s, step, c);
    }
  }

  lemma OwnStepAdvances(s: State, step: Step)
    requires Enabled(s, step) && CallerStep(step) && step.c in s.callers
    ensures step.c in Apply(s, step).callers && Apply(s, step).callers[step.c].addr == s.callers[step.c].addr
    ensures Stage(Apply(s, step).callers[step.c]) > Stage(s.callers[step.c]) && !Over(s.callers[step.c])
  {
    match step
    case Connect(_, _) =>
    case ConnectFails(_, _) =>
    case EncodeFails(_) =>
    case Send(_) =>
    case SendFails(_) =>
    case Enqueue(_) =>
    case Wake(_) =>
    case Finish(_) =>
    case _ =>
  }

  /** `q` comes no earlier in the call than `p`; an end is the end. */
  predicate Later(p: Phase, q: Phase) { q.addr == p.addr && Stage(q) >= Stage(p) && (Over(p) ==> q == p) }

  function PhaseOf(s: State, c: Caller): Option<Phase> { if c in s.callers then Some(s.callers[c]) else None }

  lemma NextIsLater(run: seq<State>, steps: seq<Step>, n: nat, c: Caller)
    requires IsRun(run, steps) && n + 1 < |run| && PhaseOf(run[n], c).Some?
    ensures PhaseOf(run[n + 1], c).Some? && Later(PhaseOf(run[n], c).value, PhaseOf(run[n + 1], c).value)
  {
    assert Enabled(run[n], steps[n]) && run[n + 1] == Apply(run[n], steps[n]);
    StepAdvances(run[n], steps[n], c);
  }

  lemma {:induction false} LaterAlong(phases: seq<Option<Phase>>, i: nat, j: nat)
    requires i <= j < |phases| && phases[i].Some?
    requires forall n :: 0 <= n < |phases| - 1 && phases[n].Some? ==>
               phases[n + 1].Some? && Later(phases[n].value, phases[n + 1].value)
    ensures phases[j].Some? && Later(phases[i].value, phases[j].value)
    decreases j
  {
    if i < j {
      LaterAlong(phases, i, j - 1);
    }
  }

  /** A call never goes back, and keeps its address; once over it stays as it is. */
  lemma CallAdvances(run: seq<State>, steps: seq<Step>, i: nat, j: nat, c: Caller)
    requires IsRun(run, steps) && i <= j < |run| && c in run[i].callers
    ensures c in run[j].callers && run[j].callers[c].addr == run[i].callers[c].addr
    ensures Stage(run[j].callers[c]) >= Stage(run[i].callers[c])
    ensures Over(run[i].callers[c]) ==> run[j].callers[c] == run[i].callers[c]
  {
    var phases := seq(|run|, n requires 0 <= n < |run| => PhaseOf(run[n], c));
    forall n | 0 <= n < |phases| - 1 && phases[n].Some?
      ensures phases[n + 1].Some? && Later(phases[n].value, phases[n + 1].value)
    {
      NextIsLater(run, steps, n, c);
    }
    LaterAlong(phases, i, j);
  }

  /** No call takes two steps of one stage: none connects twice, none sends twice, none sends after a failed
      send, none hands over twice. */
  lemma StagesHappenOnce(run: seq<State>, steps: seq<Step>, n: nat, m: nat, c: Caller)
    requires IsRun(run, steps) && n < m < |steps| && ActsFor(steps[n], c) && ActsFor(steps[m], c)
    ensures c in run[m].callers && !steps[m].Call?
    ensures c in run[n].callers ==> Stage(run[m].callers[c]) > Stage(run[n].callers[c])
    ensures !Over(run[n + 1].callers[c])
  {
    BeginsOnce(run[n], steps[n]);
    CallAdvances(run, steps, n + 1, m, c);
    StepAdvances(run[m], steps[m], c);
    if c in run[n].callers {
      StepAdvances(run[n], steps[n], c);
    }
  }

  lemma BeginsOnce(s: State, step: Step)
    requires Enabled(s, step) && CallerStep(step)
    ensures step.c in Apply(s, step).callers
    ensures step.Call? <==> step.c !in s.callers
  {
    ActingChanges(s, step);
  }

  /** The step opens a socket for the call, used or lost. */
  predicate OpensFor(step: Step, c: Caller) {
    (step.Connect? || (step.ConnectFails? && step.created.Some?)) && step.c == c
  }

  /** One call opens at most one socket. */
  lemma OpensAtMostOne(run: seq<State>, steps: seq<Step>, n: nat, m: nat, c: Caller)
    requires IsRun(run, steps) && n < |steps| && m < |steps| && OpensFor(steps[n], c) && OpensFor(steps[m], c)
    ensures n == m
  {
    if n < m {
      StagesHappenOnce(run, steps, n, m, c);
    } else if m < n {
      StagesHappenOnce(run, steps, m, n, c);
    }
  }

  /** And only if no socket was idle at its peer when it looked. */
  lemma {:induction false} ConnectsOnlyWithoutIdle(run: seq<State>, steps: seq<Step>, k: nat, c: Caller)
    requires IsRun(run, steps) && k < |run| && c in run[k].callers && run[k].callers[c].Connecting?
    ensures exists n: nat :: n < k && steps[n] == Call(c, run[k].callers[c].addr)
                             && IdleAt(run[n], run[k].callers[c].addr) == []
    decreases k
  {
    var s, step := run[k - 1], steps[k - 1];
    if c in s.callers {
      StepAdvances(s, step, c);
      ConnectsOnlyWithoutIdle(run, steps, k - 1, c);
    } else {
      NewcomerCalls(s, step, c);
      assert steps[k - 1] == Call(c, run[k].callers[c].addr);
    }
  }

  lemma NewcomerCalls(s: State, step: Step, c: Caller)
    requires Enabled(s, step) && c !in s.callers && c in Apply(s, step).callers
    ensures step.Call? && step.c == c && Apply(s, step).callers[c].addr == step.addr
    ensures Apply(s, step).callers[c].Connecting? <==> IdleAt(s, step.addr) == []
  {
    if !ActsFor(step, c) {
      OtherPhasesStay(s, step, c);
    }
  }

  // ---------------------------------------------------------------- how calls fail

  predicate Gone(s: State, x: Sock) { x in s.closing || x in s.closed }

  lemma StepKeepsClosed(s: State, step: Step, x: Sock)
    requires Enabled(s, step)
    ensures x in s.closed ==> x in Apply(s, step).closed
    ensures Gone(s, x) ==> Gone(Apply(s, step), x)
  {
    if !CallerStep(step) {
      OthersKeepClosed(s, step, x);
    }
  }

  lemma OthersKeepClosed(s: State, step: Step, x: Sock)
    requires Enabled(s, step) && !CallerStep(step)
    ensures x in s.closed ==> x in Apply(s, step).closed
    ensures Gone(s, x) ==> Gone(Apply(s, step), x)
  {
  }

  lemma NextKeepsClosed(run: seq<State>, steps: seq<Step>, n: nat, x: Sock)
    requires IsRun(run, steps) && n + 1 < |run|
    ensures x in run[n].closed ==> x in run[n + 1].closed
    ensures Gone(run[n], x) ==> Gone(run[n + 1], x)
  {
    assert Enabled(run[n], steps[n]) && run[n + 1] == Apply(run[n], steps[n]);
    StepKeepsClosed(run[n], steps[n], x);
  }

  /** What is kept from each moment to the next is kept. */
  lemma {:induction false} KeptAlong(kept: seq<bool>, i: nat, j: nat)
    requires i <= j < |kept| && kept[i] && forall n :: 0 <= n < |kept| - 1 && kept[n] ==> kept[n + 1]
    ensures kept[j]
    decreases j
  {
    if i < j {
      KeptAlong(kept, i, j - 1);
    }
  }

  /** What is closed stays closed. */
  lemma ClosedStays(run: seq<State>, steps: seq<Step>, i: nat, j: nat, x: Sock)
    requires IsRun(run, steps) && i <= j < |run| && x in run[i].closed
    ensures x in run[j].closed
  {
    var kept := seq(|run|, n requires 0 <= n < |run| => x in run[n].closed);
    forall n | 0 <= n < |kept| - 1 && kept[n] ensures kept[n + 1] {
      NextKeepsClosed(run, steps, n, x);
    }
    KeptAlong(kept, i, j);
  }

  /** What is closed or about to be stays so. */
  lemma GoneStays(run: seq<State>, steps: seq<Step>, i: nat, j: nat, x: Sock)
    requires IsRun(run, steps) && i <= j < |run| && Gone(run[i], x)
    ensures Gone(run[j], x)
  {
    var kept := seq(|run|, n requires 0 <= n < |run| => Gone(run[n], x));
    forall n | 0 <= n < |kept| - 1 && kept[n] ensures kept[n + 1] {
      NextKeepsClosed(run, steps, n, x);
    }
    KeptAlong(kept, i, j);
  }

  /** A failed send ends the call with no result, for good, and its socket is closed, for good. */
  lemma FailedSendEnds(run: seq<State>, steps: seq<Step>, n: nat, m: nat, c: Caller)
    requires IsRun(run, steps) && n < m < |run| && steps[n] == SendFails(c)
    ensures c in run[m].callers && run[m].callers[c] == Returned(run[n].callers[c].addr, None)
    ensures run[n].callers[c].sock in run[m].closed
  {
    assert Enabled(run[n], steps[n]) && run[n + 1] == Apply(run[n], steps[n]);
    CallAdvances(run, steps, n + 1, m, c);
    ClosedStays(run, steps, n + 1, m, run[n].callers[c].sock);
  }

  /** So does a failed connect; if it had created a socket, that one is closed. */
  lemma FailedConnectEnds(run: seq<State>, steps: seq<Step>, n: nat, m: nat, c: Caller, created: Option<Sock>)
    requires IsRun(run, steps) && n < m < |run| && steps[n] == ConnectFails(c, created)
    ensures c in run[m].callers && run[m].callers[c] == Returned(run[n].callers[c].addr, None)
    ensures created.Some? ==> created.value in run[m].closed
  {
    assert Enabled(run[n], steps[n]) && run[n + 1] == Apply(run[n], steps[n]);
    CallAdvances(run, steps, n + 1, m, c);
    if created.Some? {
      ClosedStays(run, steps, n + 1, m, created.value);
    }
  }

  /** A failed read closes the socket for good, and the call it was read for, if it is still out, never
      returns a reply. */
  lemma FailedReadEnds(run: seq<State>, steps: seq<Step>, n: nat, m: nat, x: Sock)
    requires IsRun(run, steps) && n < m < |run| && steps[n] == ReadFails(x)
    ensures x in run[n].registered && x in run[m].closed
    ensures var c := run[n].registered[x].caller; OutThere(run[n], c) ==> !GotReply(run[m], c)
  {
    var s, c := run[n], run[n].registered[x].caller;
    assert Enabled(s, steps[n]) && run[n + 1] == Apply(s, steps[n]);
    ClosedStays(run, steps, n + 1, m, x);
    if OutThere(s, c) {
      FlightHolds(run, steps, n);
      RecordIsGone(s, x);
      HopelessHolds(run, steps, n + 1, m, c);
    }
  }

  lemma FlightHolds(run: seq<State>, steps: seq<Step>, i: nat)
    requires IsRun(run, steps) && i < |run|
    ensures OneFlight(run[i])
  {
    InvHolds(run, steps, i);
  }

  lemma RecordIsGone(s: State, x: Sock)
    requires OneFlight(s) && Enabled(s, ReadFails(x)) && OutThere(s, s.registered[x].caller)
    ensures var c := s.registered[x].caller;
            c in Apply(s, ReadFails(x)).callers && !CanAnswer(Apply(s, ReadFails(x)), c)
  {
    var s', c := Apply(s, ReadFails(x)), s.registered[x].caller;
    assert Carries(s, OfSelector(x), c);
    forall k | Carries(s', k, c) ensures false {
      CarrierBack(s, ReadFails(x), k, c);
    }
  }

  // ---------------------------------------------------------------- close_peer

  /** `close_peer` takes all idle sockets of the peer, and no other, out of the pool. */
  lemma ClosePeerEmpties(s: State, addr: string, other: string, x: Sock)
    ensures IdleAt(Apply(s, ClosePeer(addr)), addr) == []
    ensures other != addr ==> IdleAt(Apply(s, ClosePeer(addr)), other) == IdleAt(s, other)
    ensures x in Apply(s, ClosePeer(addr)).closing <==> x in s.closing || x in IdleAt(s, addr)
  {
  }

  /** They are never used again: in every later state each is closed or about to be, so no call holds it, the
      selector does not have it, and it is idle nowhere. */
  lemma TakenNeverReturns(run: seq<State>, steps: seq<Step>, n: nat, m: nat, addr: string, x: Sock, p: Place)
    requires IsRun(run, steps) && n < m < |run| && steps[n] == ClosePeer(addr) && x in IdleAt(run[n], addr)
    requires At(run[m], x, p)
    ensures p == BeingClosed || p == Shut
  {
    ClosePeerEmpties(run[n], addr, addr, x);
    assert run[n + 1] == Apply(run[n], steps[n]);
    GoneStays(run, steps, n + 1, m, x);
    OwnedHolds(run, steps, m);
    assert At(run[m], x, BeingClosed) || At(run[m], x, Shut);
  }
}
