/** The last-write-wins store (dlstorage/store/lww.py).

    The dictionary is a map; the clocks are parameters: `now` is the monotonic clock in seconds,
    `wall` the nanosecond wall clock used when the caller passes no timestamp. */
module LwwStore {
  import opened Types

  datatype Body = Live(value: Value) | Tombstone

  datatype Entry = Entry(body: Body, expiresAt: Option<real>, ts: int)

  type Data = map<string, Entry>

  /** What `get_versioned` answers for a key that has an entry. */
  datatype Version = Version(value: Value, ts: int, tombstone: bool)

  function Deadline(now: real, ttl: Option<real>): Option<real> {
    if ttl.None? then None else Some(now + ttl.value)
  }

  function Stamp(ts: Option<int>, wall: int): int {
    if ts.None? then wall else ts.value
  }

  /** A write is rejected exactly when a strictly newer entry is already there. */
  predicate Accepts(d: Data, key: string, ts: int) {
    key in d ==> d[key].ts <= ts
  }

  /** The one state change behind both `set` and `delete`. */
  function Put(d: Data, key: string, e: Entry): Data {
    if Accepts(d, key, e.ts) then d[key := e] else d
  }

  predicate IsLive(d: Data, key: string) { key in d && d[key].body.Live? }

  /** `get` drops the entry: strictly after the deadline. */
  predicate Lapsed(e: Entry, now: real) {
    e.body.Live? && e.expiresAt.Some? && now > e.expiresAt.value
  }

  /** `purge_expired` drops the entry and `keys` hides it: from the deadline on. */
  predicate Due(e: Entry, now: real) {
    e.body.Live? && e.expiresAt.Some? && e.expiresAt.value <= now
  }

  predicate Listed(e: Entry, now: real) { e.body.Live? && !Due(e, now) }

  function ListedKeys(d: Data, now: real): set<string> { set k | k in d && Listed(d[k], now) }

  function DueKeys(d: Data, now: real): set<string> { set k | k in d && Due(d[k], now) }

  function ListedPairs(d: Data, pattern: string, now: real): map<string, Value> {
    map k | k in d && Listed(d[k], now) && Contains(k, pattern) :: d[k].body.value
  }

  function MatchingKeys(d: Data, pattern: string): set<string> { set k | k in d && Contains(k, pattern) }

  /** What reading `key` leaves behind. */
  function Touch(d: Data, key: string, now: real): Data {
    if key in d && Lapsed(d[key], now) then d - {key} else d
  }

  function Versioned(d: Data, key: string, now: real): Option<Version> {
    if key !in d || Lapsed(d[key], now) then None
    else
      match d[key].body
      case Tombstone => Some(Version(Nil, d[key].ts, true))
      case Live(value) => Some(Version(value, d[key].ts, false))
  }

  /** A version as a caller sees it: tombstones and missing entries read as `None`. */
  function Plain(v: Option<Version>): Value {
    if v.None? || v.value.tombstone then Nil else v.value.value
  }

  /** The life of a value, from an accepted write at clock `now` on: read up to and including `now + ttl`,
      listed and scanned before it, purged from it on; and forever without a TTL. Other keys stay. */
  lemma ValueLives(d: Data, key: string, value: Value, ttl: Option<real>, ts: int, now: real, t: real)
    requires key in d ==> d[key].ts <= ts
    ensures var d' := Put(d, key, Entry(Live(value), Deadline(now, ttl), ts));
            && Versioned(d', key, t)
               == (if ttl.None? || t <= now + ttl.value then Some(Version(value, ts, false)) else None)
            && (key in Touch(d', key, t) <==> ttl.None? || t <= now + ttl.value)
            && (key in ListedKeys(d', t) <==> ttl.None? || t < now + ttl.value)
            && (key in d' - DueKeys(d', t) <==> ttl.None? || t < now + ttl.value)
            && d' - {key} == d - {key}
  {
  }

  /** Read at any time, the key shows the value up to and including `clock + ttl` and nothing after it; without
      a TTL it shows it for ever. */
  ghost predicate LivesFrom(d: Data, key: string, value: Value, ts: int, clock: real, ttl: Option<real>) {
    forall t: real ::
      Versioned(d, key, t) == if ttl.None? || t <= clock + ttl.value then Some(Version(value, ts, false)) else None
  }

  /** The life of a delete: read as a tombstone at all times, never listed, never purged. */
  lemma TombstoneStays(d: Data, key: string, ts: int, t: real)
    requires key in d ==> d[key].ts <= ts
    ensures var d' := Put(d, key, Entry(Tombstone, None, ts));
            && Versioned(d', key, t) == Some(Version(Nil, ts, true)) && Touch(d', key, t) == d'
            && key !in ListedKeys(d', t) && key in d' - DueKeys(d', t)
            && d' - {key} == d - {key}
  {
  }

  /** A write behind a newer entry changes nothing. */
  lemma StaleWriteIsNothing(d: Data, key: string, e: Entry)
    requires key in d && d[key].ts > e.ts
    ensures Put(d, key, e) == d && !Accepts(d, key, e.ts)
  {
  }

  predicate Readable(d: Data, key: string, now: real) {
    Versioned(d, key, now).Some? && !Versioned(d, key, now).value.tombstone
  }

  /** `keys` lists exactly the keys for which `get_versioned` returns a value, except at the very instant of
      the deadline: then the entry is no longer listed and still returned. */
  lemma ListedIsReadable(d: Data, key: string, now: real)
    ensures (key in ListedKeys(d, now) <==> Readable(d, key, now))
       <==> !(IsLive(d, key) && d[key].expiresAt == Some(now))
    ensures key in ListedKeys(d, now) ==> Readable(d, key, now)
  {
    if key in d {
      assert Lapsed(d[key], now) ==> Due(d[key], now);
    }
  }

  /** `keys` lists exactly what `get` and `exists` find, with two exceptions: a stored `None`, which is
      listed until its deadline and never found, and any other value at the very instant of its
      deadline, which is found and no longer listed. */
  lemma ListedIsFound(d: Data, key: string, now: real)
    ensures (key in ListedKeys(d, now) <==> Plain(Versioned(d, key, now)) != Nil)
       <==> !(IsLive(d, key)
              && if d[key].body.value == Nil then !Due(d[key], now) else d[key].expiresAt == Some(now))
  {
    ListedIsReadable(d, key, now);
  }

  /** A stored `None` is listed, and reading it finds nothing. */
  lemma StoredNone()
    ensures var d := Put(map[], "k", Entry(Live(Nil), None, 10));
            "k" in ListedKeys(d, 0.0) && Plain(Versioned(d, "k", 0.0)) == Nil
  {
  }

  /** One entry, stored with a TTL into an empty store and looked at when the TTL is up. */
  lemma DeadlineInstant()
    ensures var d := Put(map[], "k", Entry(Live(Obj(1)), Deadline(0.0, Some(5.0)), 10));
            Readable(d, "k", 5.0) && "k" !in ListedKeys(d, 5.0)
  {
  }

  /** `pattern in text` for strings. */
  predicate Contains(text: string, pattern: string) {
    pattern <= text || (text != [] && Contains(text[1..], pattern))
  }

  lemma {:induction false} ContainsAt(left: string, pattern: string, right: string)
    ensures Contains(left + pattern + right, pattern)
  {
    var text := left + pattern + right;
    if left != [] {
      ContainsAt(left[1..], pattern, right);
      assert text[1..] == left[1..] + pattern + right;
    } else {
      assert text[..|pattern|] == pattern;
    }
  }

  lemma {:induction false} ContainedAt(text: string, pattern: string) returns (left: string, right: string)
    requires Contains(text, pattern)
    ensures text == left + pattern + right
  {
    if pattern <= text {
      left, right := [], text[|pattern|..];
    } else {
      left, right := ContainedAt(text[1..], pattern);
      left := [text[0]] + left;
    }
  }

  /** The pattern is found anywhere in the text. */
  lemma ContainsIff(text: string, pattern: string)
    ensures Contains(text, pattern) <==> exists left: string, right: string :: text == left + pattern + right
  {
    if Contains(text, pattern) {
      var left, right := ContainedAt(text, pattern);
    }
    if left: string, right: string :| text == left + pattern + right {
      ContainsAt(left, pattern, right);
    }
  }

  /** A scan finds exactly the listed keys with the pattern somewhere in them, with what `get_versioned`
      returns for them; a flush hits exactly the keys with the pattern, listed or not. */
  lemma ScanFinds(d: Data, pattern: string, now: real, key: string)
    ensures key in ListedPairs(d, pattern, now)
       <==> key in ListedKeys(d, now)
            && exists left: string, right: string :: key == left + pattern + right
    ensures key in ListedPairs(d, pattern, now) ==>
              Versioned(d, key, now) == Some(Version(ListedPairs(d, pattern, now)[key], d[key].ts, false))
    ensures key in MatchingKeys(d, pattern)
       <==> key in d && exists left: string, right: string :: key == left + pattern + right
  {
    ContainsIff(key, pattern);
    ListedIsReadable(d, key, now);
  }

  class LocalLWWStore {
    var data: Data

    constructor ()
      ensures data == map[]
    {
      data := map[];
    }

    method Set(key: string, value: Value, ttl: Option<real>, ts: Option<int>, now: real, wall: int)
      returns (stored: bool)
      modifies this
      ensures stored <==> Accepts(old(data), key, Stamp(ts, wall))
      ensures data == Put(old(data), key, Entry(Live(value), Deadline(now, ttl), Stamp(ts, wall)))
      ensures var stamp := if ts.None? then wall else ts.value;
              && (stored <==> !(key in old(data) && old(data)[key].ts > stamp))
              && (!stored ==> data == old(data))
              && (stored ==> data - {key} == old(data) - {key} && LivesFrom(data, key, value, stamp, now, ttl))
    {
      var stamp := if ts.None? then wall else ts.value;
      var expiresAt := if ttl.Some? then Some(now + ttl.value) else None;
      if key in data && data[key].ts > stamp {
        return false;
      }
      data := data[key := Entry(Live(value), expiresAt, stamp)];
      return true;
    }

    method GetVersioned(key: string, now: real) returns (version: Option<Version>)
      modifies this
      ensures version == Versioned(old(data), key, now)
      ensures data == Touch(old(data), key, now)
    {
      if key !in data {
        return None;
      }
      var entry := data[key];
      if entry.body.Tombstone? {
        return Some(Version(Nil, entry.ts, true));
      }
      if entry.expiresAt.Some? && now > entry.expiresAt.value {
        data := data - {key};
        return None;
      }
      return Some(Version(entry.body.value, entry.ts, false));
    }

    method Get(key: string, now: real) returns (value: Value)
      modifies this
      ensures value == Plain(Versioned(old(data), key, now))
      ensures data == Touch(old(data), key, now)
    {
      var version := GetVersioned(key, now);
      if version.None? {
        return Nil;
      }
      value := if version.value.tombstone then Nil else version.value.value;
    }

    method Exists(key: string, now: real) returns (found: bool)
      modifies this
      ensures found <==> Plain(Versioned(old(data), key, now)) != Nil
      ensures data == Touch(old(data), key, now)
    {
      var value := Get(key, now);
      found := value != Nil;
    }

    method Delete(key: string, ts: Option<int>, wall: int) returns (lived: bool)
      modifies this
      ensures lived <==> IsLive(old(data), key)
      ensures data == Put(old(data), key, Entry(Tombstone, None, Stamp(ts, wall)))
      ensures var stamp := if ts.None? then wall else ts.value;
              if key in old(data) && old(data)[key].ts > stamp then data == old(data)
              else
                data - {key} == old(data) - {key}
                && forall t: real :: Versioned(data, key, t) == Some(Version(Nil, stamp, true))
    {
      var stamp := if ts.None? then wall else ts.value;
      lived := key in data && !data[key].body.Tombstone?;
      if key !in data || data[key].ts <= stamp {
        data := data[key := Entry(Tombstone, None, stamp)];
      }
    }

    method Keys(now: real) returns (names: set<string>)
      ensures names == ListedKeys(data, now)
    {
      names := set k | k in data && !data[k].body.Tombstone?
                       && (data[k].expiresAt.None? || data[k].expiresAt.value > now);
    }

    method Scan(pattern: string, now: real) returns (pairs: map<string, Value>)
      ensures pairs == ListedPairs(data, pattern, now)
    {
      pairs := map k | k in data && !data[k].body.Tombstone? && Contains(k, pattern)
                       && (data[k].expiresAt.None? || data[k].expiresAt.value > now) :: data[k].body.value;
    }

    method Clear()
      modifies this
      ensures data == map[]
    {
      data := map[];
    }

    /** Flushing counts tombstones too. */
    method FlushKeys(pattern: string) returns (count: nat)
      modifies this
      ensures data == old(data) - MatchingKeys(old(data), pattern)
      ensures count == |MatchingKeys(old(data), pattern)|
    {
      var toDelete := MatchingKeys(data, pattern);
      var todo := toDelete;
      while todo != {}
        invariant todo <= toDelete
        invariant data == old(data) - (toDelete - todo)
      {
        var k :| k in todo;
        data := data - {k};
        todo := todo - {k};
      }
      count := |toDelete|;
    }

    method PurgeExpired(now: real) returns (count: nat)
      modifies this
      ensures data == old(data) - DueKeys(old(data), now)
      ensures count == |DueKeys(old(data), now)|
    {
      var expired := set k | k in data && !data[k].body.Tombstone? && data[k].expiresAt.Some?
                             && data[k].expiresAt.value <= now;
      assert expired == DueKeys(data, now);
      var todo := expired;
      while todo != {}
        invariant todo <= expired
        invariant data == old(data) - (expired - todo)
      {
        var k :| k in todo;
        data := data - {k};
        todo := todo - {k};
      }
      count := |expired|;
    }

    method Len(now: real) returns (n: nat)
      ensures n == |ListedKeys(data, now)|
    {
      var names := Keys(now);
      n := |names|;
    }
  }
}
