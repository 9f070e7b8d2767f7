/** The versioned store refines the plain one: hide the tombstones and the timestamps, and the two
    answer every operation alike, for as long as no operation arrives out of timestamp order. */
module StoreRefinement {
  import opened Types
  import opened LwwStore
  import opened BasicStore

  datatype Op =
    | SetOp(key: string, value: Value, ttl: Option<real>, ts: int)
    | DeleteOp(key: string, ts: int)
    | GetOp(key: string)
    | ExistsOp(key: string)
    | KeysOp
    | ScanOp(pattern: string)
    | LenOp
    | PurgeOp
    | ClearOp
    | FlushOp(pattern: string)

  /** An operation and the monotonic clock reading it takes. */
  datatype Event = Event(op: Op, now: real)

  datatype Out = Flag(b: bool) | Val(v: Value) | Names(names: set<string>) | Pairs(pairs: map<string, Value>)
               | Count(n: nat) | Done

  // ---------------------------------------------------------------- the two stores as machines

  function StepLww(d: Data, ev: Event): (Data, Out) {
    var now := ev.now;
    match ev.op
    case SetOp(k, v, ttl, ts) => (Put(d, k, Entry(Live(v), Deadline(now, ttl), ts)), Flag(Accepts(d, k, ts)))
    case DeleteOp(k, ts) => (Put(d, k, Entry(Tombstone, None, ts)), Flag(IsLive(d, k)))
    case GetOp(k) => (Touch(d, k, now), Val(Plain(Versioned(d, k, now))))
    case ExistsOp(k) => (Touch(d, k, now), Flag(Plain(Versioned(d, k, now)) != Nil))
    case KeysOp => (d, Names(ListedKeys(d, now)))
    case ScanOp(p) => (d, Pairs(ListedPairs(d, p, now)))
    case LenOp => (d, Count(|ListedKeys(d, now)|))
    case PurgeOp => (d - DueKeys(d, now), Count(|DueKeys(d, now)|))
    case ClearOp => (map[], Done)
    case FlushOp(p) => (d - MatchingKeys(d, p), Done)
  }

  function StepBasic(b: Items, ev: Event): (Items, Out) {
    var now := ev.now;
    match ev.op
    case SetOp(k, v, ttl, _) => (b[k := Item(v, Deadline(now, ttl))], Flag(true))
    case DeleteOp(k, _) => (b - {k}, Flag(k in b))
    case GetOp(k) => (TouchItem(b, k, now), Val(Fetch(b, k, now)))
    case ExistsOp(k) => (TouchItem(b, k, now), Flag(Fetch(b, k, now) != Nil))
    case KeysOp => (b, Names(ItemKeys(b, now)))
    case ScanOp(p) => (b, Pairs(ItemPairs(b, p, now)))
    case LenOp => (b, Count(|ItemKeys(b, now)|))
    case PurgeOp => (b - DueItems(b, now), Count(|DueItems(b, now)|))
    case ClearOp => (map[], Done)
    case FlushOp(p) => (b - MatchingItems(b, p), Done)
  }

  /** The abstraction: forget tombstones and versions. */
  function View(d: Data): Items {
    map k | k in d && d[k].body.Live? :: Item(d[k].body.value, d[k].expiresAt)
  }

  /** The operation comes too late to take effect: a `set` behind any newer entry, or a `delete`
      behind a newer live one. */
  predicate Overtaken(d: Data, op: Op) {
    match op
    case SetOp(k, _, _, ts) => k in d && d[k].ts > ts
    case DeleteOp(k, ts) => IsLive(d, k) && d[k].ts > ts
    case _ => false
  }

  // ---------------------------------------------------------------- one step

  lemma SameListings(d: Data, now: real)
    ensures ListedKeys(d, now) == ItemKeys(View(d), now)
    ensures DueKeys(d, now) == DueItems(View(d), now)
  {
  }

  /** The plain store matches the versioned one across a step exactly when the step is not overtaken. */
  lemma StepRefines(d: Data, ev: Event)
    ensures StepBasic(View(d), ev) == (View(StepLww(d, ev).0), StepLww(d, ev).1) <==> !Overtaken(d, ev.op)
  {
    SameListings(d, ev.now);
    var d', out := StepLww(d, ev).0, StepLww(d, ev).1;
    var b', out' := StepBasic(View(d), ev).0, StepBasic(View(d), ev).1;
    match ev.op
    case SetOp(k, v, ttl, ts) =>
      if !Overtaken(d, ev.op) {
        assert b' == View(d');
      }
    case DeleteOp(k, ts) =>
      if Overtaken(d, ev.op) {
        assert k in View(d') && k !in b';
      } else {
        assert b' == View(d');
      }
    case GetOp(k) => assert b' == View(d');
    case ExistsOp(k) => assert b' == View(d');
    case KeysOp =>
    case ScanOp(p) =>
      assert out'.pairs == out.pairs;
    case LenOp =>
    case PurgeOp => assert b' == View(d');
    case ClearOp => assert b' == View(d');
    case FlushOp(p) => assert b' == View(d');
  }

  // ---------------------------------------------------------------- whole runs

  predicate WritesTo(op: Op, key: string) { (op.SetOp? || op.DeleteOp?) && op.key == key }

  /** Timestamps never go backwards on any one key. */
  ghost predicate Ordered(evs: seq<Event>) {
    forall i, j, k :: 0 <= i < j < |evs| && WritesTo(evs[i].op, k) && WritesTo(evs[j].op, k)
                      ==> evs[i].op.ts <= evs[j].op.ts
  }

  /** No entry is newer than a write still to come. */
  ghost predicate Behind(d: Data, evs: seq<Event>) {
    forall i, k :: 0 <= i < |evs| && k in d && WritesTo(evs[i].op, k) ==> d[k].ts <= evs[i].op.ts
  }

  function RunLww(d: Data, evs: seq<Event>): (Data, seq<Out>)
    decreases |evs|
  {
    if evs == [] then (d, [])
    else
      var (d', out) := StepLww(d, evs[0]);
      var (final, outs) := RunLww(d', evs[1..]);
      (final, [out] + outs)
  }

  function RunBasic(b: Items, evs: seq<Event>): (Items, seq<Out>)
    decreases |evs|
  {
    if evs == [] then (b, [])
    else
      var (b', out) := StepBasic(b, evs[0]);
      var (final, outs) := RunBasic(b', evs[1..]);
      (final, [out] + outs)
  }

  lemma StepKeepsBehind(d: Data, evs: seq<Event>)
    requires evs != [] && Ordered(evs) && Behind(d, evs)
    ensures Ordered(evs[1..]) && Behind(StepLww(d, evs[0]).0, evs[1..])
    ensures !Overtaken(d, evs[0].op)
  {
  }

  lemma {:induction false} RunRefinesFrom(d: Data, evs: seq<Event>)
    requires Ordered(evs) && Behind(d, evs)
    ensures RunBasic(View(d), evs) == (View(RunLww(d, evs).0), RunLww(d, evs).1)
    decreases |evs|
  {
    if evs != [] {
      StepKeepsBehind(d, evs);
      StepRefines(d, evs[0]);
      RunRefinesFrom(StepLww(d, evs[0]).0, evs[1..]);
    }
  }

  /** Two empty stores driven by the same events in timestamp order answer alike at every step
      (TTLs, purges and flushes included) and end up showing the same contents. */
  lemma RunRefines(evs: seq<Event>)
    requires Ordered(evs)
    ensures RunLww(map[], evs).1 == RunBasic(map[], evs).1
    ensures View(RunLww(map[], evs).0) == RunBasic(map[], evs).0
  {
    assert View(map[]) == map[];
    RunRefinesFrom(map[], evs);
  }

  // ---------------------------------------------------------------- the classes are these machines

  method PerformLww(store: LocalLWWStore, ev: Event) returns (out: Out)
    modifies store
    ensures (store.data, out) == StepLww(old(store.data), ev)
  {
    match ev.op {
      case SetOp(k, v, ttl, ts) => var b := store.Set(k, v, ttl, Some(ts), ev.now, 0); out := Flag(b);
      case DeleteOp(k, ts) => var b := store.Delete(k, Some(ts), 0); out := Flag(b);
      case GetOp(k) => var v := store.Get(k, ev.now); out := Val(v);
      case ExistsOp(k) => var b := store.Exists(k, ev.now); out := Flag(b);
      case KeysOp => var ks := store.Keys(ev.now); out := Names(ks);
      case ScanOp(p) => var ps := store.Scan(p, ev.now); out := Pairs(ps);
      case LenOp => var n := store.Len(ev.now); out := Count(n);
      case PurgeOp => var n := store.PurgeExpired(ev.now); out := Count(n);
      case ClearOp => store.Clear(); out := Done;
      case FlushOp(p) => var _ := store.FlushKeys(p); out := Done;
    }
  }

  method PerformBasic(store: LocalStore, ev: Event) returns (out: Out)
    modifies store
    ensures (store.data, out) == StepBasic(old(store.data), ev)
  {
    match ev.op {
      case SetOp(k, v, ttl, _) => var b := store.Set(k, v, ttl, ev.now); out := Flag(b);
      case DeleteOp(k, _) => var b := store.Delete(k); out := Flag(b);
      case GetOp(k) => var v := store.Get(k, ev.now); out := Val(v);
      case ExistsOp(k) => var b := store.Exists(k, ev.now); out := Flag(b);
      case KeysOp => var ks := store.Keys(ev.now); out := Names(ks);
      case ScanOp(p) => var ps := store.Scan(p, ev.now); out := Pairs(ps);
      case LenOp => var n := store.Len(ev.now); out := Count(n);
      case PurgeOp => var n := store.PurgeExpired(ev.now); out := Count(n);
      case ClearOp => store.Clear(); out := Done;
      case FlushOp(p) => var _ := store.FlushKeys(p); out := Done;
    }
  }
}
