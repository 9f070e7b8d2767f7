/** Rendezvous hashing (dlstorage/ring/rendezvous.py).

    The hash is an uninterpreted `score`; results that need it assume the scores of the members to be
    distinct for the key at hand. A Python set is iterated in an arbitrary order, so the functions
    take the iteration order `order` and the lemmas show when it does not matter. */
module Ring {
  import opened Types

  type Score = (NodeInfo, string) -> int

  predicate Distinct(score: Score, key: string, members: set<NodeInfo>) {
    forall a, b :: a in members && b in members && score(a, key) == score(b, key) ==> a == b
  }

  function Members(order: seq<NodeInfo>): set<NodeInfo> { set x | x in order }

  /** `order` lists the members once each. */
  predicate Enumerates(order: seq<NodeInfo>, members: set<NodeInfo>) {
    && (forall x :: x in order ==> x in members)
    && (forall x :: x in members ==> x in order)
    && (forall i, j :: 0 <= i < j < |order| ==> order[i] != order[j])
  }

  // ---------------------------------------------------------------- sorted(..., reverse=True), max(...)

  /** Stable insertion into a list sorted by falling score. */
  function Insert(score: Score, key: string, sorted: seq<NodeInfo>, x: NodeInfo): seq<NodeInfo> {
    if sorted == [] then [x]
    else
      var n := |sorted| - 1;
      if score(sorted[n], key) >= score(x, key) then sorted + [x]
      else Insert(score, key, sorted[..n], x) + [sorted[n]]
  }

  function Sorted(score: Score, key: string, order: seq<NodeInfo>): seq<NodeInfo> {
    if order == [] then []
    else Insert(score, key, Sorted(score, key, order[..|order| - 1]), order[|order| - 1])
  }

  /** `xs[:n]` for any integer `n`. */
  function Cut<T>(xs: seq<T>, n: int): seq<T> {
    if n >= |xs| then xs
    else if n >= 0 then xs[..n]
    else if |xs| + n >= 0 then xs[..|xs| + n]
    else []
  }

  function TopNodes(score: Score, key: string, order: seq<NodeInfo>, n: int): seq<NodeInfo> {
    Cut(Sorted(score, key, order), n)
  }

  /** `max` keeps the first of several equal maxima. */
  function MaxBy(score: Score, key: string, order: seq<NodeInfo>): NodeInfo
    requires order != []
  {
    var n := |order| - 1;
    if n == 0 then order[0]
    else
      var best := MaxBy(score, key, order[..n]);
      if score(order[n], key) > score(best, key) then order[n] else best
  }

  function Primary(score: Score, key: string, order: seq<NodeInfo>): Option<NodeInfo> {
    if order == [] then None else Some(MaxBy(score, key, order))
  }

  // ---------------------------------------------------------------- the ranking, and its uniqueness

  /** Strictly falling in score. */
  predicate Falling(score: Score, key: string, r: seq<NodeInfo>) {
    forall i, j :: 0 <= i < j < |r| ==> score(r[i], key) > score(r[j], key)
  }

  /** `r` lists exactly the members, from the highest score strictly down. */
  predicate Ranking(score: Score, key: string, members: set<NodeInfo>, r: seq<NodeInfo>) {
    && (forall x :: x in r ==> x in members)
    && (forall x :: x in members ==> x in r)
    && Falling(score, key, r)
  }

  function Above(score: Score, key: string, members: set<NodeInfo>, x: NodeInfo): set<NodeInfo> {
    set y | y in members && score(y, key) > score(x, key)
  }

  lemma {:induction false} InsertSorts(score: Score, key: string, sorted: seq<NodeInfo>, x: NodeInfo)
    requires Falling(score, key, sorted)
    requires forall y :: y in sorted ==> score(y, key) != score(x, key)
    ensures var r := Insert(score, key, sorted, x);
            (forall y :: y in r <==> y in sorted || y == x) && Falling(score, key, r)
  {
    if sorted != [] {
      var n := |sorted| - 1;
      if score(sorted[n], key) < score(x, key) {
        InsertSorts(score, key, sorted[..n], x);
        var front := Insert(score, key, sorted[..n], x);
        forall i | 0 <= i < |front| ensures score(front[i], key) > score(sorted[n], key) {
          assert front[i] in front;
        }
      }
    }
  }

  lemma {:induction false} SortedRanks(score: Score, key: string, order: seq<NodeInfo>, members: set<NodeInfo>)
    requires Enumerates(order, members) && Distinct(score, key, members)
    ensures Ranking(score, key, members, Sorted(score, key, order))
  {
    if order != [] {
      var n := |order| - 1;
      var x := order[n];
      var rest := members - {x};
      assert forall y :: y in order[..n] ==> y in order;
      forall y | y in rest ensures y in order[..n] {
        var i :| 0 <= i < |order| && order[i] == y;
      }
      SortedRanks(score, key, order[..n], rest);
      InsertSorts(score, key, Sorted(score, key, order[..n]), x);
    }
  }

  lemma {:induction false} DistinctCount(s: seq<NodeInfo>)
    requires forall i, j :: 0 <= i < j < |s| ==> s[i] != s[j]
    ensures |Members(s)| == |s|
  {
    if s != [] {
      var n := |s| - 1;
      DistinctCount(s[..n]);
      assert Members(s) == Members(s[..n]) + {s[n]};
    }
  }

  lemma EnumerationLength(order: seq<NodeInfo>, members: set<NodeInfo>)
    requires Enumerates(order, members)
    ensures |order| == |members|
  {
    DistinctCount(order);
    assert members == Members(order);
  }

  /** A member's place in the ranking is the number of members above it. */
  lemma PlaceIsCountAbove(score: Score, key: string, members: set<NodeInfo>, r: seq<NodeInfo>, i: nat)
    requires Ranking(score, key, members, r) && i < |r|
    ensures |Above(score, key, members, r[i])| == i
  {
    var front := r[..i];
    forall y | y in Above(score, key, members, r[i]) ensures y in front {
      var j :| 0 <= j < |r| && r[j] == y;
      assert j < i;
    }
    assert Above(score, key, members, r[i]) == Members(front);
    DistinctCount(front);
  }

  lemma RankingIsUnique(score: Score, key: string, members: set<NodeInfo>, r: seq<NodeInfo>, s: seq<NodeInfo>)
    requires Ranking(score, key, members, r) && Ranking(score, key, members, s)
    ensures r == s && |r| == |members|
  {
    assert members == Members(r) == Members(s);
    DistinctCount(r);
    DistinctCount(s);
    forall i | 0 <= i < |r| ensures r[i] == s[i] {
      assert r[i] in s;
      var j :| 0 <= j < |s| && s[j] == r[i];
      PlaceIsCountAbove(score, key, members, r, i);
      PlaceIsCountAbove(score, key, members, s, j);
    }
  }

  /** `x` is one of the top `n` members. */
  predicate InTop(score: Score, key: string, members: set<NodeInfo>, n: int, x: NodeInfo) {
    x in members && |Above(score, key, members, x)| < n
  }

  lemma TopOfRanking(score: Score, key: string, members: set<NodeInfo>, r: seq<NodeInfo>, n: nat, x: NodeInfo)
    requires Ranking(score, key, members, r)
    ensures x in Cut(r, n) <==> InTop(score, key, members, n, x)
  {
    if x in members {
      assert x in r;
      var i :| 0 <= i < |r| && r[i] == x;
      PlaceIsCountAbove(score, key, members, r, i);
      if i < n {
        assert Cut(r, n)[i] == x;
      }
      if x in Cut(r, n) {
        var j :| 0 <= j < |Cut(r, n)| && Cut(r, n)[j] == x;
        PlaceIsCountAbove(score, key, members, r, j);
      }
    } else {
      assert forall y :: y in Cut(r, n) ==> y in r;
    }
  }

  /** Whatever the iteration order, the ranking is the same, so is every request. */
  lemma OrderIsIrrelevant(score: Score, key: string, members: set<NodeInfo>,
                          order: seq<NodeInfo>, other: seq<NodeInfo>, n: int)
    requires Enumerates(order, members) && Enumerates(other, members) && Distinct(score, key, members)
    ensures TopNodes(score, key, order, n) == TopNodes(score, key, other, n)
    ensures Primary(score, key, order) == Primary(score, key, other)
  {
    SortedRanks(score, key, order, members);
    SortedRanks(score, key, other, members);
    RankingIsUnique(score, key, members, Sorted(score, key, order), Sorted(score, key, other));
    EnumerationLength(order, members);
    EnumerationLength(other, members);
    if order != [] {
      PrimaryIsHead(score, key, order);
      PrimaryIsHead(score, key, other);
    }
  }

  /** `get_nodes` lists the min(n, |S|) members with fewer than `n` others above them, strictly
      falling in score; a shorter request is a prefix of a longer one. */
  lemma TopNodesIsTop(score: Score, key: string, members: set<NodeInfo>, order: seq<NodeInfo>, n: nat)
    requires Enumerates(order, members) && Distinct(score, key, members)
    ensures var top := TopNodes(score, key, order, n);
            && |top| == (if n < |members| then n else |members|)
            && (forall x :: x in top <==> InTop(score, key, members, n, x))
            && Falling(score, key, top)
    ensures forall m: nat :: m <= n ==> TopNodes(score, key, order, m) <= TopNodes(score, key, order, n)
  {
    var r := Sorted(score, key, order);
    SortedRanks(score, key, order, members);
    RankingIsUnique(score, key, members, r, r);
    forall x ensures x in TopNodes(score, key, order, n) <==> InTop(score, key, members, n, x) {
      TopOfRanking(score, key, members, r, n, x);
    }
  }

  /** A negative request drops that many members from the bottom of the ranking. */
  lemma NegativeRequest(score: Score, key: string, members: set<NodeInfo>, order: seq<NodeInfo>, m: int)
    requires Enumerates(order, members) && Distinct(score, key, members) && m > 0
    ensures TopNodes(score, key, order, -m)
         == TopNodes(score, key, order, if m < |members| then |members| - m else 0)
  {
    SortedRanks(score, key, order, members);
    RankingIsUnique(score, key, members, Sorted(score, key, order), Sorted(score, key, order));
  }

  lemma {:induction false} MaxByIsMaximal(score: Score, key: string, order: seq<NodeInfo>)
    requires order != []
    ensures MaxBy(score, key, order) in order
    ensures forall x :: x in order ==> score(x, key) <= score(MaxBy(score, key, order), key)
  {
    var n := |order| - 1;
    if n > 0 {
      MaxByIsMaximal(score, key, order[..n]);
      assert order == order[..n] + [order[n]];
    }
  }

  /** Inserting changes the head only for a strictly higher score. */
  lemma {:induction false} InsertHead(score: Score, key: string, sorted: seq<NodeInfo>, x: NodeInfo)
    requires sorted != [] && forall y :: y in sorted ==> score(y, key) <= score(sorted[0], key)
    ensures Insert(score, key, sorted, x)[0] == if score(x, key) > score(sorted[0], key) then x else sorted[0]
    ensures forall y :: y in Insert(score, key, sorted, x) ==> y in sorted || y == x
  {
    var n := |sorted| - 1;
    if score(sorted[n], key) < score(x, key) && n > 0 {
      InsertHead(score, key, sorted[..n], x);
    }
  }

  lemma {:induction false} SortedHead(score: Score, key: string, order: seq<NodeInfo>)
    requires order != []
    ensures Sorted(score, key, order) != [] && Sorted(score, key, order)[0] == MaxBy(score, key, order)
    ensures forall y :: y in Sorted(score, key, order) ==> y in order
  {
    var n := |order| - 1;
    if n > 0 {
      SortedHead(score, key, order[..n]);
      MaxByIsMaximal(score, key, order[..n]);
      InsertHead(score, key, Sorted(score, key, order[..n]), order[n]);
    }
  }

  /** `get_node` is the head of any non-empty `get_nodes`, ties included: `max` keeps the first of several
      maxima, and the sort is stable. */
  lemma PrimaryIsHead(score: Score, key: string, order: seq<NodeInfo>)
    requires order != []
    ensures Sorted(score, key, order) != []
    ensures Primary(score, key, order) == Some(Sorted(score, key, order)[0])
    ensures forall n: int :: n >= 1 ==>
              (TopNodes(score, key, order, n) != [] && Primary(score, key, order) == Some(TopNodes(score, key, order, n)[0]))
  {
    SortedHead(score, key, order);
  }

  lemma SortedPair(score: Score, key: string, x: NodeInfo, y: NodeInfo)
    ensures Sorted(score, key, [x, y]) == if score(x, key) >= score(y, key) then [x, y] else [y, x]
  {
    assert [x, y][..1] == [x] && [x][..0] == [];
    assert Sorted(score, key, [x]) == Insert(score, key, Sorted(score, key, []), x) == [x];
    assert Sorted(score, key, [x, y]) == Insert(score, key, [x], y);
    assert Insert(score, key, [x][..0], y) == [y];
  }

  /** Some iteration order of a set. */
  ghost function Listing(members: set<NodeInfo>): (order: seq<NodeInfo>)
    ensures Enumerates(order, members)
  {
    if members == {} then []
    else
      var x :| x in members;
      Listing(members - {x}) + [x]
  }

  /** The places of `a` and `b` alone. */
  function Only(r: seq<NodeInfo>, a: NodeInfo, b: NodeInfo): seq<NodeInfo> {
    if r == [] then []
    else
      var n := |r| - 1;
      Only(r[..n], a, b) + if r[n] == a || r[n] == b then [r[n]] else []
  }

  lemma {:induction false} InsertKeepsOnly(score: Score, key: string, sorted: seq<NodeInfo>, x: NodeInfo,
                                           a: NodeInfo, b: NodeInfo)
    requires x != a && x != b
    ensures Only(Insert(score, key, sorted, x), a, b) == Only(sorted, a, b)
  {
    var r := Insert(score, key, sorted, x);
    if sorted != [] && score(sorted[|sorted| - 1], key) < score(x, key) {
      var n := |sorted| - 1;
      InsertKeepsOnly(score, key, sorted[..n], x, a, b);
      assert r[..|r| - 1] == Insert(score, key, sorted[..n], x);
    } else {
      assert r[..|r| - 1] == sorted;
    }
  }

  lemma OnlyPair(a: NodeInfo, b: NodeInfo)
    ensures Only([a, b], a, b) == [a, b]
  {
    assert [a, b][..1] == [a] && [a][..0] == [];
    assert Only([a], a, b) == Only([], a, b) + [a];
  }

  /** Sorting is stable: two members that tie stay in the order they came in. */
  lemma {:induction false} TiedStayInOrder(score: Score, key: string, a: NodeInfo, b: NodeInfo, rest: seq<NodeInfo>)
    requires score(a, key) == score(b, key) && a !in rest && b !in rest
    ensures Only(Sorted(score, key, [a, b] + rest), a, b) == [a, b]
    decreases |rest|
  {
    var order := [a, b] + rest;
    if rest == [] {
      SortedPair(score, key, a, b);
      OnlyPair(a, b);
      assert order == [a, b];
    } else {
      var n := |rest| - 1;
      TiedStayInOrder(score, key, a, b, rest[..n]);
      assert order[..|order| - 1] == [a, b] + rest[..n];
      InsertKeepsOnly(score, key, Sorted(score, key, [a, b] + rest[..n]), rest[n], a, b);
    }
  }

  lemma PairFirst(a: NodeInfo, b: NodeInfo, members: set<NodeInfo>, rest: seq<NodeInfo>)
    requires a in members && b in members && a != b && Enumerates(rest, members - {a, b})
    ensures Enumerates([a, b] + rest, members)
  {
  }

  lemma {:induction false} OnlyIsSymmetric(r: seq<NodeInfo>, a: NodeInfo, b: NodeInfo)
    ensures Only(r, a, b) == Only(r, b, a)
  {
    if r != [] {
      OnlyIsSymmetric(r[..|r| - 1], a, b);
    }
  }

  lemma TieShows(score: Score, key: string, members: set<NodeInfo>, a: NodeInfo, b: NodeInfo)
    returns (order: seq<NodeInfo>, other: seq<NodeInfo>)
    requires a in members && b in members && a != b && score(a, key) == score(b, key)
    ensures Enumerates(order, members) && Enumerates(other, members)
    ensures Sorted(score, key, order) != Sorted(score, key, other)
  {
    var rest := Listing(members - {a, b});
    order, other := [a, b] + rest, [b, a] + rest;
    PairFirst(a, b, members, rest);
    PairFirst(b, a, members, rest);
    TiedStayInOrder(score, key, a, b, rest);
    TiedStayInOrder(score, key, b, a, rest);
    OnlyIsSymmetric(Sorted(score, key, other), a, b);
    assert [a, b][0] != [b, a][0];
  }

  /** Routing depends on the iteration order exactly when two members tie, whatever the other members. */
  lemma TiesFollowOrder(score: Score, key: string, members: set<NodeInfo>)
    ensures (forall order, other, n ::
               Enumerates(order, members) && Enumerates(other, members) ==>
                 TopNodes(score, key, order, n) == TopNodes(score, key, other, n))
       <==> Distinct(score, key, members)
  {
    if Distinct(score, key, members) {
      forall order, other, n | Enumerates(order, members) && Enumerates(other, members)
        ensures TopNodes(score, key, order, n) == TopNodes(score, key, other, n)
      {
        OrderIsIrrelevant(score, key, members, order, other, n);
      }
    } else {
      var a, b :| a in members && b in members && score(a, key) == score(b, key) && a != b;
      var order, other := TieShows(score, key, members, a, b);
      var n := |Sorted(score, key, order)| + |Sorted(score, key, other)|;
      assert TopNodes(score, key, order, n) != TopNodes(score, key, other, n);
    }
  }

  // ---------------------------------------------------------------- membership changes

  /** The sequence with its first occurrence of `x` deleted. */
  function Without(r: seq<NodeInfo>, x: NodeInfo): seq<NodeInfo> {
    if r == [] then []
    else if r[0] == x then r[1..]
    else [r[0]] + Without(r[1..], x)
  }

  lemma FallingTail(score: Score, key: string, head: NodeInfo, tail: seq<NodeInfo>)
    ensures Falling(score, key, [head] + tail)
       <==> Falling(score, key, tail) && forall y :: y in tail ==> score(head, key) > score(y, key)
  {
    var r := [head] + tail;
    if Falling(score, key, r) {
      forall y | y in tail ensures score(head, key) > score(y, key) {
        var j :| 0 <= j < |tail| && tail[j] == y;
        assert r[0] == head && r[j + 1] == y;
      }
      forall i, j | 0 <= i < j < |tail| ensures score(tail[i], key) > score(tail[j], key) {
        assert tail[i] == r[i + 1] && tail[j] == r[j + 1];
      }
    }
  }

  lemma {:induction false} FallingWithout(score: Score, key: string, r: seq<NodeInfo>, x: NodeInfo)
    requires Falling(score, key, r)
    ensures Falling(score, key, Without(r, x))
    ensures forall y :: y in Without(r, x) <==> y in r && y != x
  {
    if r != [] {
      var head, tail := r[0], r[1..];
      assert r == [head] + tail;
      FallingTail(score, key, head, tail);
      FallingWithout(score, key, tail, x);
      if head != x {
        FallingTail(score, key, head, Without(tail, x));
      }
    }
  }

  lemma RankingWithout(score: Score, key: string, members: set<NodeInfo>, x: NodeInfo, r: seq<NodeInfo>)
    requires Ranking(score, key, members, r)
    ensures Ranking(score, key, members - {x}, Without(r, x))
  {
    FallingWithout(score, key, r, x);
  }

  /** Cutting one place later loses nothing that deleting `x` could bring back. */
  lemma {:induction false} CutWithout(r: seq<NodeInfo>, x: NodeInfo, n: nat)
    ensures Cut(Without(r, x), n) == Cut(Without(Cut(r, n + 1), x), n)
  {
    if r != [] && r[0] != x && n > 0 {
      CutWithout(r[1..], x, n - 1);
      assert Cut(r, n + 1)[1..] == Cut(r[1..], n);
      assert Cut(Without(r, x), n) == [r[0]] + Cut(Without(r[1..], x), n - 1);
      assert Without(Cut(r, n + 1), x) == [r[0]] + Without(Cut(r[1..], n), x);
      assert Cut(Without(Cut(r, n + 1), x), n) == [r[0]] + Cut(Without(Cut(r[1..], n), x), n - 1);
    }
  }

  /** Minimal remapping: the top `n` after removing `x` is the old top `n + 1` with `x` deleted, cut to
      `n`. Read from right to left it says what adding `x` does. So one change of membership replaces
      at most one replica and keeps the others in their order. */
  lemma RemovalRemapsMinimally(score: Score, key: string, members: set<NodeInfo>, x: NodeInfo,
                               order: seq<NodeInfo>, remaining: seq<NodeInfo>, n: nat)
    requires Enumerates(order, members) && Enumerates(remaining, members - {x}) && Distinct(score, key, members)
    ensures TopNodes(score, key, remaining, n) == Cut(Without(TopNodes(score, key, order, n + 1), x), n)
    ensures forall y :: y in TopNodes(score, key, order, n) && y != x ==> y in TopNodes(score, key, remaining, n)
    ensures forall y :: y in TopNodes(score, key, remaining, n) ==> y in TopNodes(score, key, order, n + 1)
  {
    var r, s := Sorted(score, key, order), Sorted(score, key, remaining);
    SortedRanks(score, key, order, members);
    SortedRanks(score, key, remaining, members - {x});
    RankingWithout(score, key, members, x, r);
    RankingIsUnique(score, key, members - {x}, s, Without(r, x));
    CutWithout(r, x, n);
    SurvivorsStay(score, key, members, x, order, remaining, n);
  }

  lemma SurvivorsStay(score: Score, key: string, members: set<NodeInfo>, x: NodeInfo,
                      order: seq<NodeInfo>, remaining: seq<NodeInfo>, n: nat)
    requires Enumerates(order, members) && Enumerates(remaining, members - {x}) && Distinct(score, key, members)
    ensures forall y :: y in TopNodes(score, key, order, n) && y != x ==> y in TopNodes(score, key, remaining, n)
    ensures forall y :: y in TopNodes(score, key, remaining, n) ==> y in TopNodes(score, key, order, n + 1)
  {
    TopNodesIsTop(score, key, members, order, n);
    TopNodesIsTop(score, key, members, order, n + 1);
    TopNodesIsTop(score, key, members - {x}, remaining, n);
    forall y | y in members && y != x
      ensures |Above(score, key, members - {x}, y)| <= |Above(score, key, members, y)|
                <= |Above(score, key, members - {x}, y)| + 1
    {
      var before, after := Above(score, key, members, y), Above(score, key, members - {x}, y);
      assert after == before - {x};
    }
  }

  // ---------------------------------------------------------------- histories

  datatype Change = Joined(node: NodeInfo) | Gone(node: NodeInfo)

  /** The members after a history of `add` and `remove` calls. */
  function MembersAfter(history: seq<Change>): set<NodeInfo> {
    if history == [] then {}
    else
      var before, last := MembersAfter(history[..|history| - 1]), history[|history| - 1];
      if last.Joined? then before + {last.node} else before - {last.node}
  }

  function LastChange(history: seq<Change>, x: NodeInfo): Option<Change> {
    if history == [] then None
    else if history[|history| - 1].node == x then Some(history[|history| - 1])
    else LastChange(history[..|history| - 1], x)
  }

  lemma {:induction false} MemberIfLastJoined(history: seq<Change>, x: NodeInfo)
    ensures x in MembersAfter(history) <==> LastChange(history, x) == Some(Joined(x))
  {
    if history != [] {
      MemberIfLastJoined(history[..|history| - 1], x);
    }
  }

  /** Two rings with different pasts route alike as soon as each node's last change is the same. */
  lemma RoutingForgetsHistory(score: Score, key: string, h: seq<Change>, g: seq<Change>,
                              order: seq<NodeInfo>, other: seq<NodeInfo>, n: int)
    requires forall x :: LastChange(h, x) == LastChange(g, x)
    requires Enumerates(order, MembersAfter(h)) && Enumerates(other, MembersAfter(g))
    requires Distinct(score, key, MembersAfter(h))
    ensures TopNodes(score, key, order, n) == TopNodes(score, key, other, n)
    ensures Primary(score, key, order) == Primary(score, key, other)
  {
    forall x: NodeInfo ensures x in MembersAfter(h) <==> x in MembersAfter(g) {
      MemberIfLastJoined(h, x);
      MemberIfLastJoined(g, x);
    }
    assert MembersAfter(h) == MembersAfter(g);
    OrderIsIrrelevant(score, key, MembersAfter(h), order, other, n);
  }

  // ---------------------------------------------------------------- the ring object

  class RendezvousRing {
    const score: Score
    var nodes: set<NodeInfo>

    constructor (score: Score)
      ensures this.score == score && nodes == {}
    {
      this.score := score;
      nodes := {};
    }

    method Add(node: NodeInfo)
      modifies this
      ensures nodes == old(nodes) + {node}
    {
      nodes := nodes + {node};
    }

    method Remove(node: NodeInfo)
      modifies this
      ensures nodes == old(nodes) - {node}
    {
      nodes := nodes - {node};
    }

    /** Iterating the set: the members in some order. */
    method Nodes() returns (order: seq<NodeInfo>)
      ensures Enumerates(order, nodes)
    {
      order := [];
      var todo := nodes;
      while todo != {}
        invariant todo <= nodes
        invariant Enumerates(order, nodes - todo)
      {
        var x :| x in todo;
        todo := todo - {x};
        order := order + [x];
      }
    }

    method GetNodes(key: string, n: int) returns (top: seq<NodeInfo>)
      ensures exists order :: Enumerates(order, nodes) && top == TopNodes(score, key, order, n)
    {
      var order := Nodes();
      EnumerationLength(order, nodes);
      if nodes == {} {
        return [];
      }
      top := Cut(Sorted(score, key, order), n);
    }

    method GetNode(key: string) returns (primary: Option<NodeInfo>)
      ensures exists order :: Enumerates(order, nodes) && primary == Primary(score, key, order)
    {
      var order := Nodes();
      EnumerationLength(order, nodes);
      if nodes == {} {
        return None;
      }
      primary := Some(MaxBy(score, key, order));
    }
  }
}
