/** The top-k kernels of the people and search pages. */
module TopK {
  // Similarities are given values; a heap and a sort are used by what their library promises. Main
  // results: the blockwise pair scan with a bounded heap keeps the highest-scoring pairs, whatever
  // the block size; each person's three best scores are the three largest; and the face search
  // returns the best distinct photos, each with its best score.

  // ---- What "the k largest" means -------------------------------------------------------------

  predicate Desc(vs: seq<real>) {
    forall i, j :: 0 <= i < j < |vs| ==> vs[i] >= vs[j]
  }

  function Smaller(a: nat, b: nat): nat {
    if a < b then a else b
  }

  /** `top` is the k largest of `all`, in descending order. */
  ghost predicate IsTop(top: seq<real>, all: multiset<real>, k: nat) {
    && Desc(top) && |top| == Smaller(k, |all|) && multiset(top) <= all
    && forall v, i :: v in all - multiset(top) && 0 <= i < |top| ==> v <= top[i]
  }

  lemma {:induction false} FirstIsMax(top: seq<real>, all: multiset<real>, k: nat)
    requires IsTop(top, all, k) && top != []
    ensures top[0] in all && forall v :: v in all ==> v <= top[0]
  {
    forall v | v in all ensures v <= top[0] {
      if v !in all - multiset(top) {
        assert v in multiset(top);
        var i :| 0 <= i < |top| && top[i] == v;
        assert i > 0 ==> top[0] >= top[i];
      }
    }
    assert top[0] in multiset(top);
  }

  lemma RestIsTop(top: seq<real>, all: multiset<real>, k: nat)
    requires IsTop(top, all, k) && top != []
    ensures k >= 1 && top[0] in all && IsTop(top[1..], all - multiset{top[0]}, k - 1)
  {
    assert top == [top[0]] + top[1..];
    assert multiset(top) == multiset{top[0]} + multiset(top[1..]);
    assert top[0] in multiset(top);
    assert all - multiset{top[0]} - multiset(top[1..]) == all - multiset(top);
  }

  lemma SameLength(a: seq<real>, b: seq<real>, all: multiset<real>, k: nat)
    requires IsTop(a, all, k) && IsTop(b, all, k)
    ensures |a| == |b|
  {}

  /** There is only one such list. */
  lemma {:induction false} TopUnique(a: seq<real>, b: seq<real>, all: multiset<real>, k: nat)
    requires IsTop(a, all, k) && IsTop(b, all, k)
    ensures a == b
    decreases |a|
  {
    hide IsTop;
    SameLength(a, b, all, k);
    if a != [] {
      FirstIsMax(a, all, k);
      FirstIsMax(b, all, k);
      assert a[0] == b[0];
      RestIsTop(a, all, k);
      RestIsTop(b, all, k);
      TopUnique(a[1..], b[1..], all - multiset{a[0]}, k - 1);
      assert a == [a[0]] + a[1..] && b == [b[0]] + b[1..];
    }
  }

  // ---- A list of the three best scores --------------------------------------------------------

  /** The list after appending v and sorting in descending order. */
  function Inserted(vs: seq<real>, v: real): (r: seq<real>) {
    if vs == [] || vs[|vs| - 1] >= v then vs + [v]
    else Inserted(vs[..|vs| - 1], v) + [vs[|vs| - 1]]
  }

  lemma DescSnoc(vs: seq<real>, v: real)
    requires Desc(vs) && forall i :: 0 <= i < |vs| ==> vs[i] >= v
    ensures Desc(vs + [v])
  {}

  lemma DescFront(vs: seq<real>)
    requires Desc(vs) && vs != []
    ensures Desc(vs[..|vs| - 1]) && forall i :: 0 <= i < |vs| ==> vs[i] >= vs[|vs| - 1]
  {}

  lemma Snoc(vs: seq<real>, v: real)
    ensures multiset(vs + [v]) == multiset(vs) + multiset{v}
  {}

  lemma {:induction false} InsertedSorts(vs: seq<real>, v: real)
    requires Desc(vs)
    ensures Desc(Inserted(vs, v)) && multiset(Inserted(vs, v)) == multiset(vs) + multiset{v}
    ensures |Inserted(vs, v)| == |vs| + 1
  {
    hide Desc;
    if vs == [] || vs[|vs| - 1] >= v {
      if vs != [] { DescFront(vs); }
      DescSnoc(vs, v);
      Snoc(vs, v);
    } else {
      var front, last := vs[..|vs| - 1], vs[|vs| - 1];
      DescFront(vs);
      InsertedSorts(front, v);
      var r := Inserted(front, v);
      assert vs == front + [last];
      forall i | 0 <= i < |r| ensures r[i] >= last {
        assert r[i] in multiset(r);
        MemberOf(front, v, r[i]);
      }
      DescSnoc(r, last);
      Snoc(front, last);
      Snoc(r, last);
    }
  }

  lemma MemberOf(vs: seq<real>, v: real, x: real)
    requires x in multiset(vs) + multiset{v}
    ensures x == v || exists i :: 0 <= i < |vs| && vs[i] == x
  {
    if x != v { assert x in multiset(vs); }
  }

  const TOP_SCORES: nat := 3

  /** One more score for a list of at most three. */
  function Bettered(top: seq<real>, v: real): seq<real> {
    if |top| < TOP_SCORES then Inserted(top, v)
    else if v > top[|top| - 1] then Inserted(top[..|top| - 1], v)
    else top
  }

  lemma BetteredIsTop(top: seq<real>, all: multiset<real>, v: real)
    requires IsTop(top, all, TOP_SCORES)
    ensures IsTop(Bettered(top, v), all + multiset{v}, TOP_SCORES)
  {
    hide Inserted;
    var all' := all + multiset{v};
    if |top| < TOP_SCORES {
      InsertedSorts(top, v);
      AllKept(top, all);
      assert multiset(Inserted(top, v)) == all';
      assert all' - multiset(Inserted(top, v)) == multiset{};
    } else if v > top[|top| - 1] {
      ReplaceLast(top, all, v);
    } else {
      DropNew(top, all, v);
    }
  }

  lemma AllKept(top: seq<real>, all: multiset<real>)
    requires IsTop(top, all, TOP_SCORES) && |top| < TOP_SCORES
    ensures multiset(top) == all
  {
    assert |all - multiset(top)| == 0;
    assert all == multiset(top) + (all - multiset(top));
  }

  lemma DropNew(top: seq<real>, all: multiset<real>, v: real)
    requires IsTop(top, all, TOP_SCORES) && |top| == TOP_SCORES && v <= top[|top| - 1]
    ensures IsTop(top, all + multiset{v}, TOP_SCORES)
  {
    assert (all + multiset{v}) - multiset(top) == (all - multiset(top)) + multiset{v};
    forall x, i | x in (all + multiset{v}) - multiset(top) && 0 <= i < |top| ensures x <= top[i] {
      assert top[i] >= top[|top| - 1] || i == |top| - 1;
      if x != v { assert x in all - multiset(top); }
    }
  }

  lemma ReplaceLast(top: seq<real>, all: multiset<real>, v: real)
    requires IsTop(top, all, TOP_SCORES) && |top| == TOP_SCORES && v > top[|top| - 1]
    ensures IsTop(Inserted(top[..|top| - 1], v), all + multiset{v}, TOP_SCORES)
  {
    hide Inserted;
    var front, last := top[..|top| - 1], top[|top| - 1];
    assert top == front + [last];
    assert multiset(top) == multiset(front) + multiset{last};
    InsertedSorts(front, v);
    var r := Inserted(front, v);
    assert last in multiset(top);
    assert (all + multiset{v}) - multiset(r) == (all - multiset(top)) + multiset{last};
    forall x, i | x in (all + multiset{v}) - multiset(r) && 0 <= i < |r| ensures x <= r[i] {
      assert r[i] in multiset(r);
      MemberOf(front, v, r[i]);
      assert r[i] >= last;
      if x != last {
        assert x in all - multiset(top);
        assert x <= top[|top| - 1];
      }
    }
  }

  function Best(scores: seq<real>): seq<real> {
    if scores == [] then [] else Bettered(Best(scores[..|scores| - 1]), scores[|scores| - 1])
  }

  /** The list kept while the scores go by is always the three largest so far. */
  lemma {:induction false} BestIsTop(scores: seq<real>)
    ensures IsTop(Best(scores), multiset(scores), TOP_SCORES)
  {
    hide Bettered;
    if scores != [] {
      var front, last := scores[..|scores| - 1], scores[|scores| - 1];
      BestIsTop(front);
      assert scores == front + [last];
      assert multiset(scores) == multiset(front) + multiset{last};
      BetteredIsTop(Best(front), multiset(front), last);
    }
  }

  // ---- The pair scan --------------------------------------------------------------------------

  datatype Pair = Pair(v: real, i: int, j: int)

  /** Tuples compare by score, then by indices. */
  predicate Before(a: Pair, b: Pair) {
    a.v < b.v || (a.v == b.v && (a.i < b.i || (a.i == b.i && a.j < b.j)))
  }

  predicate NotAfter(a: Pair, b: Pair) {
    a == b || Before(a, b)
  }

  lemma Ordered(a: Pair, b: Pair, c: Pair)
    ensures NotAfter(a, b) || NotAfter(b, a)
    ensures NotAfter(a, b) && NotAfter(b, c) ==> NotAfter(a, c)
    ensures NotAfter(a, b) ==> a.v <= b.v
  {}

  /** The heap as the sorted list of what it holds: its first element is the heap's minimum. */
  predicate Sorted(heap: seq<Pair>) {
    forall a, b :: 0 <= a < b < |heap| ==> NotAfter(heap[a], heap[b])
  }

  function Pushed(heap: seq<Pair>, e: Pair): seq<Pair> {
    if heap == [] || NotAfter(e, heap[0]) then [e] + heap else [heap[0]] + Pushed(heap[1..], e)
  }

  lemma SortedCons(first: Pair, rest: seq<Pair>)
    requires Sorted(rest) && forall b :: 0 <= b < |rest| ==> NotAfter(first, rest[b])
    ensures Sorted([first] + rest)
  {
    hide NotAfter;
  }

  lemma SortedRest(heap: seq<Pair>)
    requires Sorted(heap) && heap != []
    ensures Sorted(heap[1..]) && forall b :: 0 <= b < |heap[1..]| ==> NotAfter(heap[0], heap[1..][b])
  {
    hide NotAfter;
  }

  lemma {:induction false} PushedSorts(heap: seq<Pair>, e: Pair)
    requires Sorted(heap)
    ensures Sorted(Pushed(heap, e)) && |Pushed(heap, e)| == |heap| + 1
    ensures multiset(Pushed(heap, e)) == multiset(heap) + multiset{e}
  {
    hide NotAfter, Sorted;
    if heap == [] {
      assert [e] + heap == [e];
      SortedCons(e, heap);
    } else {
      var first, rest := heap[0], heap[1..];
      SortedRest(heap);
      assert heap == [first] + rest;
      if NotAfter(e, first) {
        forall b | 0 <= b < |heap| ensures NotAfter(e, heap[b]) { FirstLeast(heap, e, b); }
        SortedCons(e, heap);
        assert multiset([e] + heap) == multiset(heap) + multiset{e};
      } else {
        PushedSorts(rest, e);
        var r := Pushed(rest, e);
        forall b | 0 <= b < |r| ensures NotAfter(first, r[b]) { FirstOfRest(first, rest, e, r, b); }
        SortedCons(first, r);
        assert multiset([first] + r) == multiset{first} + multiset(r);
      }
    }
  }

  lemma FirstLeast(heap: seq<Pair>, e: Pair, b: nat)
    requires Sorted(heap) && b < |heap| && NotAfter(e, heap[0])
    ensures NotAfter(e, heap[b])
  {
    hide NotAfter;
    if b > 0 { Ordered(e, heap[0], heap[b]); }
  }

  lemma FirstOfRest(first: Pair, rest: seq<Pair>, e: Pair, r: seq<Pair>, b: nat)
    requires forall c :: 0 <= c < |rest| ==> NotAfter(first, rest[c])
    requires !NotAfter(e, first) && multiset(r) == multiset(rest) + multiset{e} && b < |r|
    ensures NotAfter(first, r[b])
  {
    hide NotAfter;
    Ordered(e, first, e);
    assert r[b] in multiset(r);
    if r[b] != e {
      assert r[b] in multiset(rest);
    }
  }

  /** The heap after one more qualifying pair. */
  function Offered(heap: seq<Pair>, e: Pair, limit: nat): seq<Pair> {
    if |heap| < limit then Pushed(heap, e)
    else if heap != [] && e.v > heap[0].v then Pushed(heap[1..], e)
    else heap
  }

  function HeapOf(pairs: seq<Pair>, limit: nat): seq<Pair> {
    if pairs == [] then [] else Offered(HeapOf(pairs[..|pairs| - 1], limit), pairs[|pairs| - 1], limit)
  }

  /** `heap` holds as many of `all` as fit, each no more often than it occurs, and nothing left out
      scores higher than anything in it. */
  ghost predicate Holds(heap: seq<Pair>, all: multiset<Pair>, limit: nat) {
    && Sorted(heap) && |heap| == Smaller(limit, |all|) && multiset(heap) <= all
    && forall e, i :: e in all - multiset(heap) && 0 <= i < |heap| ==> e.v <= heap[i].v
  }

  lemma OfferedHolds(heap: seq<Pair>, all: multiset<Pair>, e: Pair, limit: nat)
    requires Holds(heap, all, limit)
    ensures Holds(Offered(heap, e, limit), all + multiset{e}, limit)
  {
    hide Sorted, Pushed;
    if |heap| < limit {
      PushedSorts(heap, e);
      AllHeld(heap, all, limit);
      assert (all + multiset{e}) - multiset(Pushed(heap, e)) == multiset{};
    } else if heap != [] && e.v > heap[0].v {
      ReplaceMin(heap, all, e, limit);
    } else {
      LeaveOut(heap, all, e, limit);
    }
  }

  lemma AllHeld(heap: seq<Pair>, all: multiset<Pair>, limit: nat)
    requires Holds(heap, all, limit) && |heap| < limit
    ensures multiset(heap) == all
  {
    assert |all - multiset(heap)| == 0;
    assert all == multiset(heap) + (all - multiset(heap));
  }

  lemma MinIsLeast(heap: seq<Pair>, i: nat)
    requires Sorted(heap) && i < |heap|
    ensures heap[0].v <= heap[i].v
  {
    if i > 0 { Ordered(heap[0], heap[i], heap[i]); }
  }

  lemma LeaveOut(heap: seq<Pair>, all: multiset<Pair>, e: Pair, limit: nat)
    requires Holds(heap, all, limit) && |heap| >= limit && !(heap != [] && e.v > heap[0].v)
    ensures Holds(heap, all + multiset{e}, limit)
  {
    hide Sorted;
    assert (all + multiset{e}) - multiset(heap) == (all - multiset(heap)) + multiset{e};
    forall x, i | x in (all + multiset{e}) - multiset(heap) && 0 <= i < |heap| ensures x.v <= heap[i].v {
      MinIsLeast(heap, i);
      if x != e { assert x in all - multiset(heap); }
    }
  }

  lemma SwapOne(all: multiset<Pair>, held: multiset<Pair>, rest: multiset<Pair>, first: Pair, e: Pair)
    requires held == multiset{first} + rest && held <= all
    ensures rest + multiset{e} <= all + multiset{e}
    ensures forall x :: x in (all + multiset{e}) - (rest + multiset{e}) ==> x == first || x in all - held
  {
    assert (all + multiset{e}) - (rest + multiset{e}) == (all - held) + multiset{first};
  }

  lemma LeftOutBound(heap: seq<Pair>, all: multiset<Pair>, limit: nat, x: Pair)
    requires Holds(heap, all, limit) && heap != []
    ensures x in all - multiset(heap) ==> x.v <= heap[0].v
  {
    hide Sorted;
  }

  lemma ReplaceMin(heap: seq<Pair>, all: multiset<Pair>, e: Pair, limit: nat)
    requires Holds(heap, all, limit) && |heap| >= limit && heap != [] && e.v > heap[0].v
    ensures Holds(Pushed(heap[1..], e), all + multiset{e}, limit)
  {
    hide Pushed, NotAfter, Sorted, Holds;
    var rest := heap[1..];
    HoldsParts(heap, all, limit);
    HeadAndRest(heap);
    SortedRest(heap);
    PushedSorts(rest, e);
    var r := Pushed(rest, e);
    SwapOne(all, multiset(heap), multiset(rest), heap[0], e);
    forall x, i | x in (all + multiset{e}) - multiset(r) && 0 <= i < |r| ensures x.v <= r[i].v {
      RestAtLeast(heap, e, r, i);
      LeftOutBound(heap, all, limit, x);
    }
    MakeHolds(r, all + multiset{e}, limit);
  }

  lemma HeadAndRest(heap: seq<Pair>)
    requires heap != []
    ensures multiset(heap) == multiset{heap[0]} + multiset(heap[1..])
  {
    assert heap == [heap[0]] + heap[1..];
  }

  lemma HoldsParts(heap: seq<Pair>, all: multiset<Pair>, limit: nat)
    requires Holds(heap, all, limit)
    ensures Sorted(heap) && |heap| == Smaller(limit, |all|) && multiset(heap) <= all
  {
    hide Sorted;
  }

  lemma MakeHolds(heap: seq<Pair>, all: multiset<Pair>, limit: nat)
    requires Sorted(heap) && |heap| == Smaller(limit, |all|) && multiset(heap) <= all
    requires forall e, i :: e in all - multiset(heap) && 0 <= i < |heap| ==> e.v <= heap[i].v
    ensures Holds(heap, all, limit)
  {
    hide Sorted;
  }

  lemma RestAtLeast(heap: seq<Pair>, e: Pair, r: seq<Pair>, i: nat)
    requires Sorted(heap) && heap != [] && e.v > heap[0].v && i < |r|
    requires multiset(r) == multiset(heap[1..]) + multiset{e}
    ensures r[i].v >= heap[0].v
  {
    assert r[i] in multiset(r);
    if r[i] != e {
      assert r[i] in multiset(heap[1..]);
      var c :| 0 <= c < |heap[1..]| && heap[1..][c] == r[i];
      MinIsLeast(heap, c + 1);
    }
  }

  lemma EmptyHolds(limit: nat)
    ensures Holds([], multiset([]), limit)
  {}

  lemma {:induction false} HeapHolds(pairs: seq<Pair>, limit: nat)
    ensures Holds(HeapOf(pairs, limit), multiset(pairs), limit)
  {
    hide Offered, Sorted;
    if pairs == [] {
      EmptyHolds(limit);
    } else {
      var front, last := pairs[..|pairs| - 1], pairs[|pairs| - 1];
      HeapHolds(front, limit);
      assert pairs == front + [last];
      assert multiset(pairs) == multiset(front) + multiset{last};
      OfferedHolds(HeapOf(front, limit), multiset(front), last, limit);
    }
  }

  // ---- Which pairs the scan meets -------------------------------------------------------------

  /** Row i up to column j: the pairs above the diagonal at or over the threshold. */
  function RowPairs(sim: (int, int) -> real, threshold: real, i: nat, j: nat): seq<Pair> {
    if j == 0 then [] else
      RowPairs(sim, threshold, i, j - 1)
        + (if sim(i, j - 1) >= threshold && i < j - 1 then [Pair(sim(i, j - 1), i, j - 1)] else [])
  }

  /** Rows first to last - 1 of a matrix with m columns. */
  function Pairs(sim: (int, int) -> real, threshold: real, m: nat, first: nat, last: nat): seq<Pair>
    requires first <= last
    decreases last - first
  {
    if first == last then [] else Pairs(sim, threshold, m, first, last - 1) + RowPairs(sim, threshold, last - 1, m)
  }

  lemma {:induction false} PairsJoin(sim: (int, int) -> real, threshold: real, m: nat, a: nat, b: nat, c: nat)
    requires a <= b <= c
    ensures Pairs(sim, threshold, m, a, b) + Pairs(sim, threshold, m, b, c) == Pairs(sim, threshold, m, a, c)
    decreases c - b
  {
    if b < c {
      PairsJoin(sim, threshold, m, a, b, c - 1);
      assert Pairs(sim, threshold, m, a, b) + Pairs(sim, threshold, m, b, c)
          == (Pairs(sim, threshold, m, a, b) + Pairs(sim, threshold, m, b, c - 1)) + RowPairs(sim, threshold, c - 1, m);
    }
  }

  predicate Qualifies(sim: (int, int) -> real, threshold: real, m: nat, e: Pair) {
    0 <= e.i < e.j < m && e.v == sim(e.i, e.j) && e.v >= threshold
  }

  lemma CountSnoc(pairs: seq<Pair>, p: Pair, e: Pair)
    ensures multiset(pairs + [p])[e] == multiset(pairs)[e] + if e == p then 1 else 0
  {
    assert multiset(pairs + [p]) == multiset(pairs) + multiset{p};
  }

  lemma RowPairsNext(sim: (int, int) -> real, threshold: real, i: nat, j: nat)
    requires j > 0
    ensures var before, v := RowPairs(sim, threshold, i, j - 1), sim(i, j - 1);
      RowPairs(sim, threshold, i, j) == if v >= threshold && i < j - 1 then before + [Pair(v, i, j - 1)] else before
  {}

  predicate InRow(sim: (int, int) -> real, threshold: real, i: nat, j: nat, e: Pair) {
    e.i == i && Qualifies(sim, threshold, j, e)
  }

  lemma InRowNext(sim: (int, int) -> real, threshold: real, i: nat, j: nat, e: Pair)
    requires j > 0
    ensures var here := sim(i, j - 1) >= threshold && i < j - 1 && e == Pair(sim(i, j - 1), i, j - 1);
      InRow(sim, threshold, i, j, e) <==> InRow(sim, threshold, i, j - 1, e) != here
  {}

  lemma {:induction false} RowPairsAre(sim: (int, int) -> real, threshold: real, i: nat, j: nat, e: Pair)
    ensures multiset(RowPairs(sim, threshold, i, j))[e] == if InRow(sim, threshold, i, j, e) then 1 else 0
    decreases j
  {
    hide InRow, Qualifies, RowPairs;
    if j > 0 {
      RowPairsAre(sim, threshold, i, j - 1, e);
      RowPairsNext(sim, threshold, i, j);
      InRowNext(sim, threshold, i, j, e);
      if e == Pair(sim(i, j - 1), i, j - 1) { InRowOnce(sim, threshold, i, j, e); }
      CountSnoc(RowPairs(sim, threshold, i, j - 1), Pair(sim(i, j - 1), i, j - 1), e);
    } else {
      NoneInRow(sim, threshold, i, j, e);
    }
  }

  lemma NoneInRow(sim: (int, int) -> real, threshold: real, i: nat, j: nat, e: Pair)
    requires j == 0
    ensures !InRow(sim, threshold, i, j, e) && RowPairs(sim, threshold, i, j) == []
  {}

  lemma InRowOnce(sim: (int, int) -> real, threshold: real, i: nat, j: nat, e: Pair)
    requires j > 0 && e == Pair(sim(i, j - 1), i, j - 1)
    ensures !InRow(sim, threshold, i, j - 1, e)
  {}

  /** The scan meets every qualifying pair exactly once. */
  lemma {:induction false} PairsAre(sim: (int, int) -> real, threshold: real, m: nat, last: nat, e: Pair)
    ensures multiset(Pairs(sim, threshold, m, 0, last))[e]
         == if e.i < last && Qualifies(sim, threshold, m, e) then 1 else 0
    decreases last
  {
    if last > 0 {
      PairsAre(sim, threshold, m, last - 1, e);
      RowPairsAre(sim, threshold, last - 1, m, e);
      assert multiset(Pairs(sim, threshold, m, 0, last))
          == multiset(Pairs(sim, threshold, m, 0, last - 1)) + multiset(RowPairs(sim, threshold, last - 1, m));
    }
  }

  function Reversed(heap: seq<Pair>): (r: seq<Pair>)
    ensures |r| == |heap| && forall k :: 0 <= k < |heap| ==> r[k] == heap[|heap| - 1 - k]
  {
    if heap == [] then [] else Reversed(heap[1..]) + [heap[0]]
  }

  /** Descending, each a qualifying pair and no pair twice, as many as fit, and every qualifying pair
      that is not among them scores no higher than any of them. */
  ghost predicate BestPairs(hits: seq<Pair>, sim: (int, int) -> real, threshold: real, m: nat, limit: nat) {
    && (forall a, b :: 0 <= a < b < |hits| ==> hits[a].v >= hits[b].v && hits[a] != hits[b])
    && (forall a :: 0 <= a < |hits| ==> Qualifies(sim, threshold, m, hits[a]))
    && |hits| <= limit
    && (forall e :: Qualifies(sim, threshold, m, e) && e !in hits ==>
          |hits| == limit && forall a :: 0 <= a < |hits| ==> e.v <= hits[a].v)
  }

  lemma HeapIsBest(sim: (int, int) -> real, threshold: real, m: nat, limit: nat)
    ensures BestPairs(Reversed(HeapOf(Pairs(sim, threshold, m, 0, m), limit)), sim, threshold, m, limit)
  {
    hide HeapOf, Qualifies, Pairs, Holds, Sorted;
    var pairs := Pairs(sim, threshold, m, 0, m);
    var heap := HeapOf(pairs, limit);
    HeapHolds(pairs, limit);
    HoldsParts(heap, multiset(pairs), limit);
    HeapMembers(sim, threshold, m, heap, limit);
    HeapLeftOut(sim, threshold, m, heap, limit);
    var hits := Reversed(heap);
    ReversedDescends(heap);
    forall e | Qualifies(sim, threshold, m, e) && e !in hits
      ensures |hits| == limit && forall a :: 0 <= a < |hits| ==> e.v <= hits[a].v
    {
      NotReversed(heap, e);
    }
  }

  lemma ReversedDescends(heap: seq<Pair>)
    requires Sorted(heap) && forall a, b :: 0 <= a < b < |heap| ==> heap[a] != heap[b]
    ensures var hits := Reversed(heap);
      forall a, b :: 0 <= a < b < |hits| ==> hits[a].v >= hits[b].v && hits[a] != hits[b]
  {
    hide NotAfter;
    var hits := Reversed(heap);
    forall a, b | 0 <= a < b < |hits| ensures hits[a].v >= hits[b].v && hits[a] != hits[b] {
      Ordered(hits[b], hits[a], hits[a]);
    }
  }

  lemma NotReversed(heap: seq<Pair>, e: Pair)
    requires e !in Reversed(heap)
    ensures e !in heap
  {
    forall k | 0 <= k < |heap| ensures heap[k] != e { assert Reversed(heap)[|heap| - 1 - k] == heap[k]; }
  }

  lemma HeapMembers(sim: (int, int) -> real, threshold: real, m: nat, heap: seq<Pair>, limit: nat)
    requires Holds(heap, multiset(Pairs(sim, threshold, m, 0, m)), limit)
    ensures forall a :: 0 <= a < |heap| ==> Qualifies(sim, threshold, m, heap[a])
    ensures forall a, b :: 0 <= a < b < |heap| ==> heap[a] != heap[b]
  {
    hide Qualifies, Pairs, Sorted;
    forall a | 0 <= a < |heap| ensures Qualifies(sim, threshold, m, heap[a]) {
      assert heap[a] in multiset(heap);
      PairsAre(sim, threshold, m, m, heap[a]);
    }
    forall a, b | 0 <= a < b < |heap| ensures heap[a] != heap[b] {
      PairsAre(sim, threshold, m, m, heap[a]);
      TwiceIn(heap, a, b);
    }
  }

  lemma TwiceIn(heap: seq<Pair>, a: nat, b: nat)
    requires a < b < |heap|
    ensures heap[a] == heap[b] ==> multiset(heap)[heap[a]] >= 2
  {
    assert heap == heap[..b] + [heap[b]] + heap[b + 1..];
    assert heap[..b][a] in multiset(heap[..b]);
    assert multiset(heap) == multiset(heap[..b]) + multiset{heap[b]} + multiset(heap[b + 1..]);
  }

  lemma HeapLeftOut(sim: (int, int) -> real, threshold: real, m: nat, heap: seq<Pair>, limit: nat)
    requires Holds(heap, multiset(Pairs(sim, threshold, m, 0, m)), limit)
    ensures forall e :: Qualifies(sim, threshold, m, e) && e !in heap ==>
      |heap| == limit && forall a :: 0 <= a < |heap| ==> e.v <= heap[a].v
  {
    hide Pairs, Sorted;
    var all := multiset(Pairs(sim, threshold, m, 0, m));
    forall e | Qualifies(sim, threshold, m, e) && e !in heap
      ensures |heap| == limit && forall a :: 0 <= a < |heap| ==> e.v <= heap[a].v
    {
      PairsAre(sim, threshold, m, m, e);
      assert e in all && e !in multiset(heap);
      assert e in all - multiset(heap);
      assert |all| == |multiset(heap)| + |all - multiset(heap)|;
    }
  }

  // ---- The scans ------------------------------------------------------------------------------

  /** The qualifying pairs of one block of rows, in the order the scan meets them. */
  method BlockPairs(sim: (int, int) -> real, threshold: real, m: nat, s: nat, e: nat) returns (found: seq<Pair>)
    requires s <= e
    ensures found == Pairs(sim, threshold, m, s, e)
  {
    found := [];
    var i := s;
    while i < e
      invariant s <= i <= e && found == Pairs(sim, threshold, m, s, i)
    {
      ghost var before := found;
      var j := 0;
      while j < m
        invariant 0 <= j <= m && found == before + RowPairs(sim, threshold, i, j)
      {
        var v := sim(i, j);
        if v >= threshold && i < j {
          found := found + [Pair(v, i, j)];
        }
        j := j + 1;
      }
      i := i + 1;
    }
  }

  /** MAIN RESULT: the bounded heap over a blockwise scan ends with the best pairs, in descending
      order, and the block size makes no difference. */
  method DuplicatePairs(sim: (int, int) -> real, threshold: real, m: nat, limit: nat, block: nat) returns (hits: seq<Pair>)
    requires limit >= 1 && block >= 1
    ensures hits == Reversed(HeapOf(Pairs(sim, threshold, m, 0, m), limit))
    ensures BestPairs(hits, sim, threshold, m, limit)
  {
    hide BestPairs, Pairs, HeapOf, Pushed, Offered;
    var heap: seq<Pair> := [];
    var s := 0;
    NoPairs(sim, threshold, m, limit);
    while s < m
      invariant 0 <= s <= m && heap == HeapOf(Pairs(sim, threshold, m, 0, s), limit)
    {
      var e := Smaller(s + block, m);
      var found := BlockPairs(sim, threshold, m, s, e);
      PairsJoin(sim, threshold, m, 0, s, e);
      ghost var before := Pairs(sim, threshold, m, 0, s);
      assert before + found[..0] == before;
      var k := 0;
      while k < |found|
        invariant 0 <= k <= |found| && heap == HeapOf(before + found[..k], limit)
      {
        HeapNext(before, found, k, limit);
        OfferedIs(heap, found[k], limit);
        if |heap| < limit {
          heap := Pushed(heap, found[k]);
        } else if found[k].v > heap[0].v {
          heap := Pushed(heap[1..], found[k]);
        }
        k := k + 1;
      }
      assert found[..k] == found;
      s := e;
    }
    HeapIsBest(sim, threshold, m, limit);
    hits := Reversed(heap);
  }

  lemma NoPairs(sim: (int, int) -> real, threshold: real, m: nat, limit: nat)
    ensures HeapOf(Pairs(sim, threshold, m, 0, 0), limit) == []
  {}

  lemma HeapNext(before: seq<Pair>, found: seq<Pair>, k: nat, limit: nat)
    requires k < |found|
    ensures HeapOf(before + found[..k + 1], limit) == Offered(HeapOf(before + found[..k], limit), found[k], limit)
  {
    hide Offered;
    var more := before + found[..k + 1];
    assert more[..|more| - 1] == before + found[..k];
  }

  lemma OfferedIs(heap: seq<Pair>, e: Pair, limit: nat)
    ensures Offered(heap, e, limit) ==
      if |heap| < limit then Pushed(heap, e)
      else if heap != [] && e.v > heap[0].v then Pushed(heap[1..], e) else heap
  {}

  /** The scores of the pairs that p belongs to. */
  function ScoresOf(pairs: seq<Pair>, p: int): seq<real> {
    if pairs == [] then [] else
      var last := pairs[|pairs| - 1];
      ScoresOf(pairs[..|pairs| - 1], p) + (if last.i == p || last.j == p then [last.v] else [])
  }

  /** The similarity of two people, whichever comes first. */
  function Between(sim: (int, int) -> real, p: int, q: int): real {
    if p < q then sim(p, q) else sim(q, p)
  }

  /** How alike p is to each of the others below q, where that is at least the threshold. */
  function PartnerScores(sim: (int, int) -> real, threshold: real, p: int, q: nat): seq<real> {
    if q == 0 then [] else
      PartnerScores(sim, threshold, p, q - 1)
        + (if q - 1 != p && Between(sim, p, q - 1) >= threshold then [Between(sim, p, q - 1)] else [])
  }

  lemma {:induction false} ScoresJoin(xs: seq<Pair>, ys: seq<Pair>, p: int)
    ensures ScoresOf(xs + ys, p) == ScoresOf(xs, p) + ScoresOf(ys, p)
  {
    if ys == [] {
      assert xs + ys == xs;
    } else {
      var front, last := ys[..|ys| - 1], ys[|ys| - 1];
      assert (xs + ys)[..|xs + ys| - 1] == xs + front;
      ScoresJoin(xs, front, p);
    }
  }

  lemma ScoreOfOne(e: Pair, p: int)
    ensures ScoresOf([e], p) == if e.i == p || e.j == p then [e.v] else []
  {
    assert [e][..0] == [];
  }

  function Here(sim: (int, int) -> real, threshold: real, i: nat, q: nat): seq<Pair> {
    if sim(i, q) >= threshold && i < q then [Pair(sim(i, q), i, q)] else []
  }

  /** One more column of a row. */
  lemma RowStep(sim: (int, int) -> real, threshold: real, i: nat, q: nat, p: int)
    ensures RowPairs(sim, threshold, i, q + 1) == RowPairs(sim, threshold, i, q) + Here(sim, threshold, i, q)
    ensures ScoresOf(RowPairs(sim, threshold, i, q + 1), p)
         == ScoresOf(RowPairs(sim, threshold, i, q), p) + ScoresOf(Here(sim, threshold, i, q), p)
    ensures ScoresOf(Here(sim, threshold, i, q), p)
         == if i < q && sim(i, q) >= threshold && (i == p || q == p) then [sim(i, q)] else []
  {
    hide ScoresOf;
    ScoresJoin(RowPairs(sim, threshold, i, q), Here(sim, threshold, i, q), p);
    ScoreOfOne(Pair(sim(i, q), i, q), p);
    NoScores(p);
  }

  /** Another person's row holds p's score once, or not at all. */
  lemma {:induction false} OtherRow(sim: (int, int) -> real, threshold: real, i: nat, j: nat, p: nat)
    requires i != p
    ensures ScoresOf(RowPairs(sim, threshold, i, j), p)
         == if i < p < j && sim(i, p) >= threshold then [sim(i, p)] else []
    decreases j
  {
    hide ScoresOf, Here;
    if j == 0 {
      NoScores(p);
    } else {
      hide RowPairs;
      OtherRow(sim, threshold, i, j - 1, p);
      RowStep(sim, threshold, i, j - 1, p);
    }
  }

  lemma {:induction false} OwnRow(sim: (int, int) -> real, threshold: real, p: nat, j: nat)
    ensures PartnerScores(sim, threshold, p, p) + ScoresOf(RowPairs(sim, threshold, p, j), p)
         == PartnerScores(sim, threshold, p, if j > p then j else p)
    decreases j
  {
    hide ScoresOf, Here, PartnerScores;
    var base := PartnerScores(sim, threshold, p, p);
    if j == 0 {
      NoScores(p);
      assert base + [] == base;
    } else {
      hide RowPairs;
      OwnRow(sim, threshold, p, j - 1);
      RowStep(sim, threshold, p, j - 1, p);
      PartnerStep(sim, threshold, p, j - 1);
      JoinThree(base, ScoresOf(RowPairs(sim, threshold, p, j - 1), p), ScoresOf(Here(sim, threshold, p, j - 1), p));
    }
  }

  lemma PartnerStep(sim: (int, int) -> real, threshold: real, p: nat, q: nat)
    ensures var next, now := PartnerScores(sim, threshold, p, q + 1), PartnerScores(sim, threshold, p, q);
      && (q > p ==> next == now + (if sim(p, q) >= threshold then [sim(p, q)] else []))
      && (q == p ==> next == now)
  {
    var before := PartnerScores(sim, threshold, p, q);
    assert before + [] == before;
  }

  lemma JoinThree(a: seq<real>, b: seq<real>, c: seq<real>)
    ensures a + (b + c) == (a + b) + c && (a + b) + [] == a + b
  {}

  /** MAIN RESULT: the scan gives a person exactly the scores with all others, each once. */
  lemma {:induction false} ScoresArePartners(sim: (int, int) -> real, threshold: real, m: nat, last: nat, p: nat)
    requires last <= m && p < m
    ensures ScoresOf(Pairs(sim, threshold, m, 0, last), p)
         == PartnerScores(sim, threshold, p, if last <= p then last else m)
    decreases last
  {
    hide RowPairs, ScoresOf;
    if last == 0 {
      NoScores(p);
    } else {
      var i := last - 1;
      ScoresArePartners(sim, threshold, m, i, p);
      ScoresJoin(Pairs(sim, threshold, m, 0, i), RowPairs(sim, threshold, i, m), p);
      if i == p { OwnRow(sim, threshold, p, m); } else { OtherRow(sim, threshold, i, m, p); }
    }
  }

  lemma NoScores(p: int)
    ensures ScoresOf([], p) == []
  {}

  /** MAIN RESULT: each person's count is the number of others they are at least that similar to, and
      their list is the three largest of those similarities, whatever the block size. */
  method PersonScores(sim: (int, int) -> real, threshold: real, m: nat, block: nat)
    returns (counts: array<nat>, tops: array<seq<real>>)
    requires block >= 1
    ensures counts.Length == m && tops.Length == m
    ensures forall p :: 0 <= p < m ==> counts[p] == |PartnerScores(sim, threshold, p, m)|
    ensures forall p :: 0 <= p < m ==> IsTop(tops[p], multiset(PartnerScores(sim, threshold, p, m)), 3)
  {
    hide Pairs, IsTop, Best, Bettered, Inserted, ScoresOf;
    counts := new nat[m](_ => 0);
    tops := new seq<real>[m](_ => []);
    var s := 0;
    ghost var done: seq<Pair> := [];
    NothingScored(sim, threshold, m);
    while s < m
      invariant 0 <= s <= m && done == Pairs(sim, threshold, m, 0, s)
      invariant forall p :: 0 <= p < m ==> Scored(counts[p], tops[p], done, p)
    {
      var e := Smaller(s + block, m);
      var found := BlockPairs(sim, threshold, m, s, e);
      PairsJoin(sim, threshold, m, 0, s, e);
      ghost var before := done;
      assert before + found[..0] == before;
      var k := 0;
      while k < |found|
        invariant 0 <= k <= |found| && done == before + found[..k]
        invariant forall p :: 0 <= p < m ==> Scored(counts[p], tops[p], done, p)
      {
        FoundIndices(sim, threshold, m, s, e, k);
        assert before + found[..k + 1] == (before + found[..k]) + [found[k]];
        CountPair(counts, tops, done, found[k]);
        done := done + [found[k]];
        k := k + 1;
      }
      assert before + found[..k] == before + found;
      s := e;
    }
    forall p | 0 <= p < m
      ensures counts[p] == |PartnerScores(sim, threshold, p, m)|
      ensures IsTop(tops[p], multiset(PartnerScores(sim, threshold, p, m)), 3)
    {
      ScoresArePartners(sim, threshold, m, m, p);
      BestIsTop(ScoresOf(done, p));
    }
  }

  ghost predicate Scored(count: nat, top: seq<real>, pairs: seq<Pair>, p: int) {
    count == |ScoresOf(pairs, p)| && top == Best(ScoresOf(pairs, p))
  }

  lemma NothingScored(sim: (int, int) -> real, threshold: real, m: nat)
    ensures Pairs(sim, threshold, m, 0, 0) == []
    ensures forall p :: Scored(0, [], [], p)
  {}

  lemma ScoresNext(pairs: seq<Pair>, e: Pair, p: int)
    ensures ScoresOf(pairs + [e], p)
         == if e.i == p || e.j == p then ScoresOf(pairs, p) + [e.v] else ScoresOf(pairs, p)
  {
    assert (pairs + [e])[..|pairs + [e]| - 1] == pairs;
    assert ScoresOf(pairs, p) + [] == ScoresOf(pairs, p);
  }

  lemma BestNext(scores: seq<real>, v: real)
    ensures Best(scores + [v]) == Bettered(Best(scores), v)
  {
    hide Bettered;
    assert (scores + [v])[..|scores + [v]| - 1] == scores;
  }

  lemma {:induction false} RowIndices(sim: (int, int) -> real, threshold: real, i: nat, j: nat)
    ensures forall k :: 0 <= k < |RowPairs(sim, threshold, i, j)| ==>
      RowPairs(sim, threshold, i, j)[k].i == i && i < RowPairs(sim, threshold, i, j)[k].j < j
    decreases j
  {
    if j > 0 {
      RowIndices(sim, threshold, i, j - 1);
      RowPairsNext(sim, threshold, i, j);
    }
  }

  lemma {:induction false} FoundIndices(sim: (int, int) -> real, threshold: real, m: nat, s: nat, e: nat, k: nat)
    requires s <= e <= m && k < |Pairs(sim, threshold, m, s, e)|
    ensures 0 <= Pairs(sim, threshold, m, s, e)[k].i < Pairs(sim, threshold, m, s, e)[k].j < m
    decreases e - s
  {
    if s < e {
      var before := Pairs(sim, threshold, m, s, e - 1);
      if k < |before| {
        FoundIndices(sim, threshold, m, s, e - 1, k);
      } else {
        RowIndices(sim, threshold, e - 1, m);
        assert Pairs(sim, threshold, m, s, e)[k] == RowPairs(sim, threshold, e - 1, m)[k - |before|];
      }
    }
  }

  lemma ScoredNext(count: nat, top: seq<real>, done: seq<Pair>, e: Pair, p: int)
    requires Scored(count, top, done, p)
    ensures if e.i == p || e.j == p then Scored(count + 1, Bettered(top, e.v), done + [e], p)
            else Scored(count, top, done + [e], p)
  {
    hide Bettered, Best, ScoresOf;
    ScoresNext(done, e, p);
    BestNext(ScoresOf(done, p), e.v);
  }

  /** A list of at most three after one more score. */
  method Better(top: seq<real>, v: real) returns (better: seq<real>)
    ensures better == Bettered(top, v)
  {
    better := top;
    if |better| < TOP_SCORES {
      better := Inserted(better, v);
    } else if v > better[|better| - 1] {
      better := Inserted(better[..|better| - 1], v);
    }
  }

  /** One pair counted for both its people. */
  method CountPair(counts: array<nat>, tops: array<seq<real>>, ghost done: seq<Pair>, e: Pair)
    requires counts.Length == tops.Length && 0 <= e.i < e.j < counts.Length
    requires forall p :: 0 <= p < counts.Length ==> Scored(counts[p], tops[p], done, p)
    modifies counts, tops
    ensures forall p :: 0 <= p < counts.Length ==> Scored(counts[p], tops[p], done + [e], p)
  {
    hide Bettered, Best, ScoresOf;
    ghost var n, was := counts[..], tops[..];
    counts[e.i] := counts[e.i] + 1;
    counts[e.j] := counts[e.j] + 1;
    var t := Better(tops[e.i], e.v);
    tops[e.i] := t;
    t := Better(tops[e.j], e.v);
    tops[e.j] := t;
    forall p | 0 <= p < counts.Length ensures Scored(counts[p], tops[p], done + [e], p) {
      ScoredNext(n[p], was[p], done, e, p);
    }
  }
}
