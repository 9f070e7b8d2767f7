/** What a last-write-wins store remembers: of the writes delivered to it, the newest one on each key.

    SET and DELETE are one kind of write, carrying a live body or a tombstone. */
module Replay {
  import opened Types
  import opened LwwStore

  datatype Write = Write(key: string, entry: Entry)

  function ApplyAll(d: Data, ws: seq<Write>): Data
    decreases |ws|
  {
    if ws == [] then d else ApplyAll(Put(d, ws[0].key, ws[0].entry), ws[1..])
  }

  function Delivered(ws: seq<Write>): set<Write> { set w | w in ws }

  /** Distinct writes to one key carry distinct timestamps. */
  ghost predicate Consistent(writes: set<Write>) {
    forall a, b :: a in writes && b in writes && a.key == b.key && a.entry.ts == b.entry.ts ==> a == b
  }

  /** `d` holds, for each key written, one of the writes, and nothing written to that key is newer. */
  ghost predicate Reflects(d: Data, writes: set<Write>) {
    && (forall k :: k in d ==> Write(k, d[k]) in writes)
    && (forall w :: w in writes ==> w.key in d && w.entry.ts <= d[w.key].ts)
  }

  /** Delivering one more write keeps the summary right, ties included. */
  lemma PutReflects(d: Data, writes: set<Write>, w: Write)
    requires Reflects(d, writes)
    ensures Reflects(Put(d, w.key, w.entry), writes + {w})
  {
  }

  lemma DeliveredFirst(ws: seq<Write>)
    requires ws != []
    ensures Delivered(ws) == {ws[0]} + Delivered(ws[1..])
  {
    assert ws == [ws[0]] + ws[1..];
  }

  lemma {:induction false} ApplyAllReflects(d: Data, before: set<Write>, ws: seq<Write>)
    requires Reflects(d, before)
    ensures Reflects(ApplyAll(d, ws), before + Delivered(ws))
    decreases |ws|
  {
    if ws == [] {
      assert before + Delivered(ws) == before;
    } else {
      var d' := Put(d, ws[0].key, ws[0].entry);
      PutReflects(d, before, ws[0]);
      ApplyAllReflects(d', before + {ws[0]}, ws[1..]);
      DeliveredFirst(ws);
      assert before + Delivered(ws) == before + {ws[0]} + Delivered(ws[1..]);
    }
  }

  /** A consistent set of writes has only one summary. */
  lemma SummaryIsUnique(d: Data, e: Data, writes: set<Write>)
    requires Reflects(d, writes) && Reflects(e, writes) && Consistent(writes)
    ensures d == e
  {
  }

  /** Replay confluence: the same set of writes, in any order and with any repetition, leaves the
      same store, whatever consistent history `before` the store started from. */
  lemma {:induction false} ReplayConfluence(d: Data, before: set<Write>, ws: seq<Write>, vs: seq<Write>)
    requires Reflects(d, before)
    requires Delivered(ws) == Delivered(vs) && Consistent(before + Delivered(ws))
    ensures ApplyAll(d, ws) == ApplyAll(d, vs)
  {
    ApplyAllReflects(d, before, ws);
    ApplyAllReflects(d, before, vs);
    SummaryIsUnique(ApplyAll(d, ws), ApplyAll(d, vs), before + Delivered(ws));
  }

  lemma ApplyPair(d: Data, a: Write, b: Write)
    ensures ApplyAll(d, [a, b]) == Put(Put(d, a.key, a.entry), b.key, b.entry)
  {
    assert [a, b][1..] == [b] && [b][1..] == [];
    assert ApplyAll(d, [a, b]) == ApplyAll(Put(d, a.key, a.entry), [b]);
    assert ApplyAll(Put(d, a.key, a.entry), [b]) == ApplyAll(Put(Put(d, a.key, a.entry), b.key, b.entry), []);
  }

  /** Two writes commute exactly unless they tie on one key, differ, and are both accepted: with
      equal timestamps the last arrival wins. */
  lemma WritesCommute(d: Data, a: Write, b: Write)
    ensures ApplyAll(d, [a, b]) == ApplyAll(d, [b, a])
       <==> !(a.key == b.key && a.entry.ts == b.entry.ts && a.entry != b.entry && Accepts(d, a.key, a.entry.ts))
  {
    var ab := Put(Put(d, a.key, a.entry), b.key, b.entry);
    var ba := Put(Put(d, b.key, b.entry), a.key, a.entry);
    ApplyPair(d, a, b);
    ApplyPair(d, b, a);
    if a.key == b.key && a.entry.ts == b.entry.ts && a.entry != b.entry && Accepts(d, a.key, a.entry.ts) {
      assert ab[a.key] == b.entry && ba[a.key] == a.entry;
    } else if a.key != b.key {
      assert ab == ba;
    }
  }

  lemma {:induction false} EntryNeverAges(d: Data, key: string, ws: seq<Write>)
    requires key in d
    ensures var d' := ApplyAll(d, ws);
            key in d' && d'[key].ts >= d[key].ts && (d'[key] == d[key] || Write(key, d'[key]) in ws)
    ensures forall w :: w in ws && w.key == key ==> w.entry.ts <= ApplyAll(d, ws)[key].ts
    decreases |ws|
  {
    if ws != [] {
      EntryNeverAges(Put(d, ws[0].key, ws[0].entry), key, ws[1..]);
    }
  }

  /** No resurrection: after a delete made at time `t`, accepted or not, whatever arrives later leaves
      the key with a version at least as new, and a live entry then comes from a write made at `t` or
      after: one delivered later, or the one that had already overtaken the delete. */
  lemma NoResurrection(d: Data, key: string, t: int, ws: seq<Write>, now: real)
    ensures var deleted := Put(d, key, Entry(Tombstone, None, t));
            var d' := ApplyAll(deleted, ws);
            && key in d' && d'[key].ts >= t
            && (d'[key].body.Live? ==> Write(key, d'[key]) in ws || (key in d && d'[key] == d[key] && d[key].ts > t))
            && ((forall w :: w in ws && w.key == key && w.entry.ts >= t ==> w.entry.body.Tombstone?)
                && (IsLive(d, key) ==> d[key].ts <= t)
                ==> Plain(Versioned(d', key, now)) == Nil)
  {
    EntryNeverAges(Put(d, key, Entry(Tombstone, None, t)), key, ws);
  }

  /** Two writes that tie, from an empty store: each order keeps the write that came last. */
  lemma TieKeepsLastArrival()
    ensures var a, b := Write("k", Entry(Live(Obj(1)), None, 7)), Write("k", Entry(Live(Obj(2)), None, 7));
            ApplyAll(map[], [a, b]) == map["k" := b.entry] && ApplyAll(map[], [b, a]) == map["k" := a.entry]
  {
    var a, b := Write("k", Entry(Live(Obj(1)), None, 7)), Write("k", Entry(Live(Obj(2)), None, 7));
    ApplyPair(map[], a, b);
    ApplyPair(map[], b, a);
  }
}
