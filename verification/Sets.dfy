/** Small facts about sets and the sequences that enumerate them: emptiness, picking an element,
    the set of a list and of its prefixes, lists without repetition, and the bounds of the chunks
    that statements with many parameters are cut into. */
module Sets {
  lemma NoneIn<T>(s: set<T>)
    requires forall x :: x !in s
    ensures s == {}
  {
    var none: set<T> := {};
    forall x ensures x in s <==> x in none {}
    assert s == none;
  }

  lemma NoInts(s: set<int>)
    requires forall x: int :: x !in s
    ensures s == {}
  {
    var none: set<int> := {};
    forall x ensures x in s <==> x in none {}
    assert s == none;
  }

  /** A set that is not empty has an element. */
  lemma Pick<T>(s: set<T>) returns (x: T)
    requires s != {}
    ensures x in s
  {
    if forall y :: y !in s { NoneIn(s); }
    x :| x in s;
  }

  function SetOf(xs: seq<int>): set<int> {
    set x | x in xs
  }

  predicate Distinct(xs: seq<int>) {
    forall i, j :: 0 <= i < j < |xs| ==> xs[i] != xs[j]
  }

  lemma PrefixSet(rows: seq<int>)
    requires rows != [] && Distinct(rows)
    ensures var front := rows[..|rows| - 1];
      Distinct(front) && rows[|rows| - 1] !in SetOf(front) && SetOf(rows) == SetOf(front) + {rows[|rows| - 1]}
  {
    var front, u := rows[..|rows| - 1], rows[|rows| - 1];
    forall x | x in SetOf(rows) ensures x in SetOf(front) + {u} {
      var i :| 0 <= i < |rows| && rows[i] == x;
      assert i < |front| ==> front[i] == x;
    }
    forall x | x in SetOf(front) + {u} ensures x in SetOf(rows) {
      if x != u {
        var i :| 0 <= i < |front| && front[i] == x;
        assert rows[i] == x;
      } else {
        assert rows[|rows| - 1] == u;
      }
    }
  }

  /** The rows of a query, in whatever order it returns them. */
  ghost predicate Lists(rows: seq<int>, uids: set<int>) {
    Distinct(rows) && SetOf(rows) == uids
  }

  const SQL_CHUNK: nat := 500

  function ChunkEnd(start: nat, step: nat, length: nat): (stop: nat)
    requires start < length && step > 0
    ensures start < stop <= length
  {
    if start + step < length then start + step else length
  }

  lemma SetOfJoin(xs: seq<int>, i: nat, j: nat)
    requires i <= j <= |xs|
    ensures SetOf(xs[..i]) + SetOf(xs[i..j]) == SetOf(xs[..j])
  {
    assert xs[..j] == xs[..i] + xs[i..j];
  }

  lemma SetOfNone(xs: seq<int>)
    ensures SetOf(xs[..0]) == {}
  {}

  /** A query's rows, in whatever order they come. */
  method Rows(uids: set<int>) returns (rows: seq<int>)
    ensures Lists(rows, uids)
  {
    rows := [];
    var todo := uids;
    while todo != {}
      invariant Distinct(rows) && SetOf(rows) !! todo && SetOf(rows) + todo == uids
      decreases todo
    {
      ghost var some := Pick(todo);
      var u :| u in todo;
      AsSetNext(rows, u);
      rows := rows + [u];
      todo := todo - {u};
    }
  }

  lemma AsSetNext(rows: seq<int>, u: int)
    requires Distinct(rows) && u !in SetOf(rows)
    ensures Distinct(rows + [u]) && SetOf(rows + [u]) == SetOf(rows) + {u}
  {
    forall i | 0 <= i < |rows| ensures rows[i] in SetOf(rows) {}
    forall x | x in SetOf(rows) ensures x in SetOf(rows + [u]) {
      var i :| 0 <= i < |rows| && rows[i] == x;
      assert (rows + [u])[i] == x;
    }
    assert (rows + [u])[|rows|] == u;
  }
}
