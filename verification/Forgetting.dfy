/** What makes a last-write-wins store forget a version, and what it holds when it does.

    A store forgets a key with its timestamp when a read finds it lapsed, a purge finds it due, or a flush
    hits it. Then an older write can become visible. This module says exactly when. */
module Forgetting {
  import opened Types
  import opened LwwStore
  import opened Replay
  import opened StoreRefinement

  /** The step drops the entry of `key`. */
  predicate Forgets(d: Data, ev: Event, key: string) {
    key in d &&
    match ev.op
    case GetOp(k) => k == key && Lapsed(d[key], ev.now)
    case ExistsOp(k) => k == key && Lapsed(d[key], ev.now)
    case PurgeOp => Due(d[key], ev.now)
    case ClearOp => true
    case FlushOp(pattern) => Contains(key, pattern)
    case _ => false
  }

  /** The step's write to `key`, if it is one. */
  function WriteTo(ev: Event, key: string): Option<Write> {
    match ev.op
    case SetOp(k, v, ttl, ts) => if k == key then Some(Write(k, Entry(Live(v), Deadline(ev.now, ttl), ts))) else None
    case DeleteOp(k, ts) => if k == key then Some(Write(k, Entry(Tombstone, None, ts))) else None
    case _ => None
  }

  // ---------------------------------------------------------------- one step

  /** A key's version survives a step, or is replaced by one at least as new, exactly when the step
      does not forget it. */
  lemma VersionFallsOnlyByForgetting(d: Data, ev: Event, key: string)
    requires key in d
    ensures var d' := StepLww(d, ev).0;
            (key in d' && d'[key].ts >= d[key].ts) <==> !Forgets(d, ev, key)
    ensures Forgets(d, ev, key) ==> key !in StepLww(d, ev).0
  {
  }

  /** A write lands after a step as it would have without the step, except exactly when the step
      forgot a newer version of its key: then it becomes visible. */
  lemma OlderWriteLands(d: Data, ev: Event, w: Write)
    requires !ev.op.SetOp? && !ev.op.DeleteOp?
    ensures var late := Put(StepLww(d, ev).0, w.key, w.entry);
            var early := Put(d, w.key, w.entry);
            (w.key in late && w.key in early && late[w.key] == early[w.key])
            <==> !(Forgets(d, ev, w.key) && d[w.key].ts > w.entry.ts)
  {
  }

  /** The same for a purge alone. */
  lemma PurgeForgets(d: Data, now: real, w: Write)
    ensures var purged := d - DueKeys(d, now);
            var late := Put(purged, w.key, w.entry);
            var early := Put(d, w.key, w.entry);
            (w.key in late && w.key in early && late[w.key] == early[w.key])
            <==> !(w.key in d && Due(d[w.key], now) && d[w.key].ts > w.entry.ts)
  {
    OlderWriteLands(d, Event(PurgeOp, now), w);
  }

  // ---------------------------------------------------------------- whole runs

  /** The store after each of the events in turn. */
  function After(d: Data, evs: seq<Event>): Data {
    if evs == [] then d else StepLww(After(d, evs[..|evs| - 1]), evs[|evs| - 1]).0
  }

  lemma {:induction false} AfterFirst(d: Data, evs: seq<Event>)
    requires evs != []
    ensures After(d, evs) == After(StepLww(d, evs[0]).0, evs[1..])
  {
    var n := |evs| - 1;
    if n > 0 {
      AfterFirst(d, evs[..n]);
      assert evs[..n][1..] == evs[1..][..n - 1];
    } else {
      assert evs[..0] == [] && After(d, []) == d;
    }
  }

  lemma {:induction false} AfterIsRun(d: Data, evs: seq<Event>)
    ensures RunLww(d, evs).0 == After(d, evs)
    decreases |evs|
  {
    if evs != [] {
      AfterFirst(d, evs);
      AfterIsRun(StepLww(d, evs[0]).0, evs[1..]);
    }
  }

  /** At step `i` of the run the key is forgotten. */
  predicate ForgottenAt(d: Data, evs: seq<Event>, i: nat, key: string) {
    i < |evs| && Forgets(After(d, evs[..i]), evs[i], key)
  }

  ghost predicate NewerOrSame(d: Data, d': Data, key: string) { key in d ==> key in d' && d'[key].ts >= d[key].ts }

  lemma {:induction false} VersionsRise(d: Data, evs: seq<Event>, key: string, i: nat, j: nat)
    requires i <= j <= |evs| && forall k :: i <= k < j ==> !ForgottenAt(d, evs, k, key)
    ensures NewerOrSame(After(d, evs[..i]), After(d, evs[..j]), key)
    decreases j - i
  {
    if i < j {
      VersionsRise(d, evs, key, i, j - 1);
      assert evs[..j][..j - 1] == evs[..j - 1];
      assert !ForgottenAt(d, evs, j - 1, key);
      if key in After(d, evs[..i]) {
        VersionFallsOnlyByForgetting(After(d, evs[..j - 1]), evs[j - 1], key);
      }
    }
  }

  /** Over a whole run, reads, purges and flushes included, a key's version never disappears or falls
      if and only if no step forgets it. */
  lemma VersionNeverFalls(d: Data, evs: seq<Event>, key: string)
    ensures (forall i, j :: 0 <= i <= j <= |evs| ==> NewerOrSame(After(d, evs[..i]), After(d, evs[..j]), key))
       <==> (forall i: nat :: !ForgottenAt(d, evs, i, key))
  {
    if forall i: nat :: !ForgottenAt(d, evs, i, key) {
      forall i, j | 0 <= i <= j <= |evs| ensures NewerOrSame(After(d, evs[..i]), After(d, evs[..j]), key) {
        VersionsRise(d, evs, key, i, j);
      }
    } else {
      var i: nat :| ForgottenAt(d, evs, i, key);
      assert evs[..i + 1][..i] == evs[..i];
      VersionFallsOnlyByForgetting(After(d, evs[..i]), evs[i], key);
      assert !NewerOrSame(After(d, evs[..i]), After(d, evs[..i + 1]), key);
    }
  }

  /** The writes to `key` since it was last forgotten. */
  function Remembered(evs: seq<Event>, key: string): seq<Write> {
    if evs == [] then []
    else
      var n := |evs| - 1;
      var before := Remembered(evs[..n], key);
      if Forgets(After(map[], evs[..n]), evs[n], key) then []
      else if WriteTo(evs[n], key).Some? then before + [WriteTo(evs[n], key).value]
      else before
  }

  lemma {:induction false} RememberedIsSummary(evs: seq<Event>, key: string)
    ensures var d, ws := After(map[], evs), Remembered(evs, key);
            && (key in d <==> ws != [])
            && (key in d ==> Write(key, d[key]) in ws)
            && (forall w :: w in ws ==> w.key == key && key in d && w.entry.ts <= d[key].ts)
  {
    if evs != [] {
      var n := |evs| - 1;
      RememberedIsSummary(evs[..n], key);
      var d, ev := After(map[], evs[..n]), evs[n];
      if key in d {
        VersionFallsOnlyByForgetting(d, ev, key);
      }
    }
  }

  /** After any run from an empty store, TTLs, reads, purges and flushes included, the store holds for
      each key the newest write since it last forgot the key, and nothing if there was none. */
  lemma HoldsNewestRemembered(evs: seq<Event>, key: string)
    ensures var d, ws := RunLww(map[], evs).0, Remembered(evs, key);
            && (key in d <==> ws != [])
            && (key in d ==> Write(key, d[key]) in ws && forall w :: w in ws ==> w.entry.ts <= d[key].ts)
  {
    AfterIsRun(map[], evs);
    RememberedIsSummary(evs, key);
  }

  /** Resurrection, exactly: a key shows a version older than `t` (the time of a delete, say) if and only
      if something was written since the key was last forgotten and all of it is older than `t`. So a
      delete not forgotten since keeps every older write down. */
  lemma ResurrectedIff(evs: seq<Event>, key: string, t: int)
    ensures var d, ws := RunLww(map[], evs).0, Remembered(evs, key);
            (key in d && d[key].ts < t) <==> (ws != [] && forall w :: w in ws ==> w.entry.ts < t)
    ensures var d, ws := RunLww(map[], evs).0, Remembered(evs, key);
            (exists w :: w in ws && w.entry.ts >= t) ==> key in d && d[key].ts >= t
  {
    HoldsNewestRemembered(evs, key);
  }

  // ---------------------------------------------------------------- it happens

  /** A read forgets: a lapsed value is looked up once, and a write far older than it is accepted. Without
      the lookup it is rejected. */
  lemma ReadLetsOlderWriteIn()
    ensures var newer := Event(SetOp("k", Obj(1), Some(5.0), 10), 0.0);
            var look := Event(GetOp("k"), 6.0);
            var older := Event(SetOp("k", Obj(2), None, 3), 6.0);
            && After(map[], [newer, look, older]) == map["k" := Entry(Live(Obj(2)), None, 3)]
            && After(map[], [newer, older]) == map["k" := Entry(Live(Obj(1)), Some(5.0), 10)]
  {
    var newer := Event(SetOp("k", Obj(1), Some(5.0), 10), 0.0);
    var look := Event(GetOp("k"), 6.0);
    var older := Event(SetOp("k", Obj(2), None, 3), 6.0);
    AfterTwo(newer, older);
    AfterTwo(newer, look);
    assert [newer, look, older][..2] == [newer, look];
  }

  /** So does a purge. */
  lemma PurgeLetsOlderWriteIn()
    ensures var newer := Event(SetOp("k", Obj(1), Some(5.0), 10), 0.0);
            var purge := Event(PurgeOp, 6.0);
            var older := Event(SetOp("k", Obj(2), None, 3), 6.0);
            After(map[], [newer, purge, older]) == map["k" := Entry(Live(Obj(2)), None, 3)]
  {
    var newer := Event(SetOp("k", Obj(1), Some(5.0), 10), 0.0);
    var purge := Event(PurgeOp, 6.0);
    var older := Event(SetOp("k", Obj(2), None, 3), 6.0);
    AfterTwo(newer, purge);
    assert [newer, purge, older][..2] == [newer, purge];
    assert After(map[], [newer, purge]) == map[];
  }

  lemma AfterTwo(a: Event, b: Event)
    ensures After(map[], [a, b]) == StepLww(StepLww(map[], a).0, b).0
  {
    assert [a, b][..1] == [a] && [a][..0] == [];
    assert After(map[], [a]) == StepLww(After(map[], []), a).0;
  }

  /** A deleted key comes back: delete at 10, a short-lived value at 20, a lookup after it lapsed, and a
      write made at 5 is live. */
  lemma DeletedKeyComesBack()
    ensures var evs := [Event(DeleteOp("k", 10), 0.0), Event(SetOp("k", Obj(1), Some(1.0), 20), 0.0),
                        Event(GetOp("k"), 5.0), Event(SetOp("k", Obj(2), None, 5), 5.0)];
            After(map[], evs) == map["k" := Entry(Live(Obj(2)), None, 5)]
  {
    var del, short := Event(DeleteOp("k", 10), 0.0), Event(SetOp("k", Obj(1), Some(1.0), 20), 0.0);
    var look, late := Event(GetOp("k"), 5.0), Event(SetOp("k", Obj(2), None, 5), 5.0);
    AfterTwo(del, short);
    assert [del, short, look, late][..3] == [del, short, look] && [del, short, look][..2] == [del, short];
    assert After(map[], [del, short, look]) == map[];
  }
}
