/** The plain store without versions (dlstorage/store/basic.py). */
module BasicStore {
  import opened Types
  import opened LwwStore

  datatype Item = Item(value: Value, expiresAt: Option<real>)

  type Items = map<string, Item>

  predicate ItemDue(item: Item, now: real) { item.expiresAt.Some? && item.expiresAt.value <= now }

  predicate ItemLapsed(item: Item, now: real) { item.expiresAt.Some? && now > item.expiresAt.value }

  function Fetch(items: Items, key: string, now: real): Value {
    if key !in items || ItemLapsed(items[key], now) then Nil else items[key].value
  }

  function TouchItem(items: Items, key: string, now: real): Items {
    if key in items && ItemLapsed(items[key], now) then items - {key} else items
  }

  function ItemKeys(items: Items, now: real): set<string> { set k | k in items && !ItemDue(items[k], now) }

  function DueItems(items: Items, now: real): set<string> { set k | k in items && ItemDue(items[k], now) }

  function ItemPairs(items: Items, pattern: string, now: real): map<string, Value> {
    map k | k in items && !ItemDue(items[k], now) && Contains(k, pattern) :: items[k].value
  }

  function MatchingItems(items: Items, pattern: string): set<string> {
    set k | k in items && Contains(k, pattern)
  }

  /** The life of a value: read up to and including `now + ttl`, listed and scanned before it, purged from it
      on; and forever without a TTL. Other keys stay. */
  lemma ItemLives(items: Items, key: string, value: Value, ttl: Option<real>, now: real, t: real)
    ensures var items' := items[key := Item(value, Deadline(now, ttl))];
            && Fetch(items', key, t) == (if ttl.None? || t <= now + ttl.value then value else Nil)
            && (key in TouchItem(items', key, t) <==> ttl.None? || t <= now + ttl.value)
            && (key in ItemKeys(items', t) <==> ttl.None? || t < now + ttl.value)
            && (key in items' - DueItems(items', t) <==> ttl.None? || t < now + ttl.value)
  {
  }

  /** A scan finds exactly the listed keys with the pattern somewhere in them, with their values; a flush
      hits exactly the keys with the pattern, listed or not. */
  lemma ScanFindsItems(items: Items, pattern: string, now: real, key: string)
    ensures key in ItemPairs(items, pattern, now)
       <==> key in ItemKeys(items, now)
            && exists left: string, right: string :: key == left + pattern + right
    ensures key in ItemPairs(items, pattern, now) ==> ItemPairs(items, pattern, now)[key] == Fetch(items, key, now)
    ensures key in MatchingItems(items, pattern)
       <==> key in items && exists left: string, right: string :: key == left + pattern + right
  {
    ContainsIff(key, pattern);
  }

  class LocalStore {
    var data: Items

    constructor ()
      ensures data == map[]
    {
      data := map[];
    }

    method Set(key: string, value: Value, ttl: Option<real>, now: real) returns (stored: bool)
      modifies this
      ensures stored
      ensures data == old(data)[key := Item(value, Deadline(now, ttl))]
      ensures data - {key} == old(data) - {key}
              && forall t: real :: Fetch(data, key, t) == if ttl.None? || t <= now + ttl.value then value else Nil
    {
      var expiresAt := if ttl.Some? then Some(now + ttl.value) else None;
      data := data[key := Item(value, expiresAt)];
      return true;
    }

    method Get(key: string, now: real) returns (value: Value)
      modifies this
      ensures value == Fetch(old(data), key, now)
      ensures data == TouchItem(old(data), key, now)
    {
      if key !in data {
        return Nil;
      }
      var item := data[key];
      if item.expiresAt.Some? && now > item.expiresAt.value {
        data := data - {key};
        return Nil;
      }
      return item.value;
    }

    method Delete(key: string) returns (existed: bool)
      modifies this
      ensures existed <==> key in old(data)
      ensures data == old(data) - {key}
    {
      existed := key in data;
      data := data - {key};
    }

    method Exists(key: string, now: real) returns (found: bool)
      modifies this
      ensures found <==> Fetch(old(data), key, now) != Nil
      ensures data == TouchItem(old(data), key, now)
    {
      var value := Get(key, now);
      found := value != Nil;
    }

    method Keys(now: real) returns (names: set<string>)
      ensures names == ItemKeys(data, now)
    {
      names := set k | k in data && (data[k].expiresAt.None? || data[k].expiresAt.value > now);
    }

    method Scan(pattern: string, now: real) returns (pairs: map<string, Value>)
      ensures pairs == ItemPairs(data, pattern, now)
    {
      pairs := map k | k in data && Contains(k, pattern)
                       && (data[k].expiresAt.None? || data[k].expiresAt.value > now) :: data[k].value;
    }

    method Clear()
      modifies this
      ensures data == map[]
    {
      data := map[];
    }

    method FlushKeys(pattern: string) returns (count: nat)
      modifies this
      ensures data == old(data) - MatchingItems(old(data), pattern)
      ensures count == |MatchingItems(old(data), pattern)|
    {
      var toDelete := MatchingItems(data, pattern);
      var todo := toDelete;
      while todo != {}
        invariant todo <= toDelete
        invariant data == old(data) - (toDelete - todo)
      {
        var k :| k in todo;
        data := data - {k};
        todo := todo - {k};
      }
      count := |toDelete|;
    }

    method PurgeExpired(now: real) returns (count: nat)
      modifies this
      ensures data == old(data) - DueItems(old(data), now)
      ensures count == |DueItems(old(data), now)|
    {
      var expired := set k | k in data && data[k].expiresAt.Some? && data[k].expiresAt.value <= now;
      assert expired == DueItems(data, now);
      var todo := expired;
      while todo != {}
        invariant todo <= expired
        invariant data == old(data) - (expired - todo)
      {
        var k :| k in todo;
        data := data - {k};
        todo := todo - {k};
      }
      count := |expired|;
    }

    method Len(now: real) returns (n: nat)
      ensures n == |ItemKeys(data, now)|
    {
      var names := Keys(now);
      n := |names|;
    }
  }
}
