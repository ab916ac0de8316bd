/** The face search: the best photos by their best face. */
module FaceSearch {
  // A partial sort of the scores, one result per photo, and a fallback to the rest of the faces when
  // too few distinct photos were found. Main result: the outcome is the best photos by their best
  // face, in descending order, exactly as if all faces had been sorted.

  import opened Sets

  const SEARCH_MAX_LIMIT: int := 200
  const FACE_DEDUPE_SLACK: nat := 4

  function ClampSearchLimit(limit: int): (r: nat)
    ensures 1 <= r <= 200
    ensures 1 <= limit <= 200 ==> r == limit
    ensures limit < 1 ==> r == 1
    ensures limit > 200 ==> r == 200
  {
    if limit < 1 then 1 else if limit > SEARCH_MAX_LIMIT then SEARCH_MAX_LIMIT else limit
  }

  /** Valid face indices, none twice. */
  predicate Faces(order: seq<int>, n: nat) {
    Distinct(order) && forall k :: 0 <= k < |order| ==> 0 <= order[k] < n
  }

  /** Descending by score. */
  predicate Descending(order: seq<int>, scores: seq<real>)
    requires forall k :: 0 <= k < |order| ==> 0 <= order[k] < |scores|
  {
    forall a, b :: 0 <= a < b < |order| ==> scores[order[a]] >= scores[order[b]]
  }

  /** Every face not in the order scores no higher than any in it. */
  ghost predicate Tops(order: seq<int>, scores: seq<real>)
    requires forall k :: 0 <= k < |order| ==> 0 <= order[k] < |scores|
  {
    forall i, a :: 0 <= i < |scores| && i !in SetOf(order) && 0 <= a < |order| ==> scores[order[a]] >= scores[i]
  }

  /** A beginning of some descending ranking of all faces. */
  ghost predicate RankingPrefix(order: seq<int>, scores: seq<real>) {
    Faces(order, |scores|) && Descending(order, scores) && Tops(order, scores)
  }

  method Best(candidates: set<int>, scores: seq<real>) returns (best: int)
    requires candidates != {} && forall i :: i in candidates ==> 0 <= i < |scores|
    ensures best in candidates && forall i :: i in candidates ==> scores[i] <= scores[best]
  {
    ghost var some := Pick(candidates);
    best :| best in candidates;
    var todo := candidates - {best};
    while todo != {}
      invariant todo <= candidates && best in candidates
      invariant forall i :: i in candidates && i !in todo ==> scores[i] <= scores[best]
      decreases todo
    {
      ghost var other := Pick(todo);
      var i :| i in todo;
      if scores[i] > scores[best] || (scores[i] == scores[best] && i < best) {
        best := i;
      }
      todo := todo - {i};
    }
  }

  /** The order is descending and no face in `left` scores higher than any in it. */
  ghost predicate RankedSoFar(order: seq<int>, left: set<int>, scores: seq<real>) {
    && Faces(order, |scores|) && Descending(order, scores) && (forall i :: i in left ==> 0 <= i < |scores|)
    && forall i, a :: i in left && 0 <= a < |order| ==> scores[order[a]] >= scores[i]
  }

  lemma RankedNext(order: seq<int>, left: set<int>, scores: seq<real>, best: int)
    requires RankedSoFar(order, left, scores) && best in left && best !in SetOf(order)
    requires forall i :: i in left ==> scores[i] <= scores[best]
    ensures RankedSoFar(order + [best], left - {best}, scores)
  {
    hide Distinct;
    AsSetNext(order, best);
  }

  /** The k best of the candidates in descending order. The library's partial sort and sort promise
      no more; ties come in any order. */
  method Ranked(candidates: set<int>, scores: seq<real>, k: nat) returns (order: seq<int>)
    requires forall i :: i in candidates ==> 0 <= i < |scores|
    requires k <= |candidates|
    ensures |order| == k && SetOf(order) <= candidates
    ensures RankedSoFar(order, candidates - SetOf(order), scores)
  {
    hide RankedSoFar, Distinct;
    order := [];
    var left := candidates;
    NothingRanked(left, scores);
    while |order| < k
      invariant |order| <= k && RankedSoFar(order, left, scores)
      invariant SetOf(order) <= candidates && left == candidates - SetOf(order)
      invariant |left| + |order| == |candidates|
    {
      var i := Best(left, scores);
      RankedNext(order, left, scores, i);
      SetOfSnoc(order, i);
      RemoveOne(left, i);
      order := order + [i];
      left := left - {i};
    }
  }

  lemma SetOfSnoc(order: seq<int>, i: int)
    ensures SetOf(order + [i]) == SetOf(order) + {i}
  {}

  lemma NothingRanked(left: set<int>, scores: seq<real>)
    requires forall i :: i in left ==> 0 <= i < |scores|
    ensures RankedSoFar([], left, scores) && SetOf([]) == {}
  {}

  lemma RemoveOne(s: set<int>, i: int)
    requires i in s
    ensures |s - {i}| == |s| - 1
  {}

  function Indices(n: nat): (s: set<int>)
    ensures forall i :: i in s <==> 0 <= i < n
    ensures |s| == n
  {
    if n == 0 then {} else Indices(n - 1) + {n - 1}
  }

  /** `_topk_indices`: none for k below one, all if k is larger than the number of scores. */
  method TopkIndices(scores: seq<real>, k: int) returns (order: seq<int>)
    ensures |order| == if k <= 0 then 0 else if k < |scores| then k else |scores|
    ensures RankingPrefix(order, scores)
  {
    if k <= 0 || |scores| == 0 {
      return [];
    }
    var size := if k < |scores| then k else |scores|;
    order := Ranked(Indices(|scores|), scores, size);
    ghost var left := Indices(|scores|) - SetOf(order);
    forall i | 0 <= i < |scores| && i !in SetOf(order) ensures i in left {}
  }

  // ---- One result per photo -------------------------------------------------------------------

  datatype Hit = Hit(uid: int, score: real)

  predicate Seen(hits: seq<Hit>, uid: int) {
    exists k :: 0 <= k < |hits| && hits[k].uid == uid
  }

  /** Going down the order, the first face of each photo, until `limit` photos are found. */
  function Firsts(order: seq<int>, scores: seq<real>, uids: seq<int>, limit: nat): seq<Hit>
    requires |uids| == |scores| && forall k :: 0 <= k < |order| ==> 0 <= order[k] < |scores|
  {
    if order == [] then [] else
      var hits := Firsts(order[..|order| - 1], scores, uids, limit);
      var i := order[|order| - 1];
      if |hits| >= limit || Seen(hits, uids[i]) then hits else hits + [Hit(uids[i], scores[i])]
  }

  lemma {:induction false} FirstsStop(order: seq<int>, rest: seq<int>, scores: seq<real>, uids: seq<int>, limit: nat)
    requires |uids| == |scores| && forall k :: 0 <= k < |order| ==> 0 <= order[k] < |scores|
    requires forall k :: 0 <= k < |rest| ==> 0 <= rest[k] < |scores|
    requires |Firsts(order, scores, uids, limit)| >= limit
    ensures Firsts(order + rest, scores, uids, limit) == Firsts(order, scores, uids, limit)
    decreases |rest|
  {
    if rest == [] {
      assert order + rest == order;
    } else {
      assert (order + rest)[..|order + rest| - 1] == order + rest[..|rest| - 1];
      FirstsStop(order, rest[..|rest| - 1], scores, uids, limit);
    }
  }

  ghost predicate OncePerPhoto(hits: seq<Hit>) {
    forall a, b :: 0 <= a < b < |hits| ==> hits[a].uid != hits[b].uid && hits[a].score >= hits[b].score
  }

  /** One of the faces in the order is the hit's. */
  ghost predicate HasFace(order: seq<int>, scores: seq<real>, uids: seq<int>, h: Hit)
    requires |uids| == |scores| && forall k :: 0 <= k < |order| ==> 0 <= order[k] < |scores|
  {
    exists k :: 0 <= k < |order| && uids[order[k]] == h.uid && scores[order[k]] == h.score
  }

  /** A face of this photo and score exceeds neither its photo's hit nor, if its photo has none, any
      hit. */
  ghost predicate Bounded(hits: seq<Hit>, uid: int, score: real) {
    forall a :: 0 <= a < |hits| && (hits[a].uid == uid || !Seen(hits, uid)) ==> score <= hits[a].score
  }

  /** What the hits are, for a stretch of a descending ranking: one per photo, each with a score no
      face of that photo in the stretch exceeds, and unless the limit is reached no photo missing. */
  ghost predicate HitsRight(hits: seq<Hit>, order: seq<int>, scores: seq<real>, uids: seq<int>, limit: nat)
    requires |uids| == |scores| && forall k :: 0 <= k < |order| ==> 0 <= order[k] < |scores|
  {
    && |hits| <= limit && OncePerPhoto(hits)
    && (forall a :: 0 <= a < |hits| ==> HasFace(order, scores, uids, hits[a]))
    && (forall k :: 0 <= k < |order| ==> Bounded(hits, uids[order[k]], scores[order[k]]))
    && (|hits| < limit ==> forall k :: 0 <= k < |order| ==> Seen(hits, uids[order[k]]))
  }

  lemma {:induction false} FirstsRight(order: seq<int>, scores: seq<real>, uids: seq<int>, limit: nat)
    requires |uids| == |scores| && Faces(order, |scores|) && Descending(order, scores)
    ensures HitsRight(Firsts(order, scores, uids, limit), order, scores, uids, limit)
  {
    if order != [] {
      var front, i := order[..|order| - 1], order[|order| - 1];
      FirstsRight(front, scores, uids, limit);
      var hits := Firsts(front, scores, uids, limit);
      LastIsLeast(order, scores);
      if |hits| >= limit || Seen(hits, uids[i]) {
        FirstsSkip(hits, front, i, scores, uids, limit);
      } else {
        FirstsTake(hits, front, i, scores, uids, limit);
      }
      assert order == front + [i];
    }
  }

  lemma LastIsLeast(order: seq<int>, scores: seq<real>)
    requires order != [] && (forall k :: 0 <= k < |order| ==> 0 <= order[k] < |scores|) && Descending(order, scores)
    ensures forall k :: 0 <= k < |order| ==> scores[order[|order| - 1]] <= scores[order[k]]
  {}

  lemma FaceStays(order: seq<int>, i: int, scores: seq<real>, uids: seq<int>, h: Hit)
    requires |uids| == |scores| && (forall k :: 0 <= k < |order| ==> 0 <= order[k] < |scores|) && 0 <= i < |scores|
    requires HasFace(order, scores, uids, h)
    requires forall k :: 0 <= k < |order| ==> scores[i] <= scores[order[k]]
    ensures HasFace(order + [i], scores, uids, h) && scores[i] <= h.score
  {
    var k :| 0 <= k < |order| && uids[order[k]] == h.uid && scores[order[k]] == h.score;
    assert (order + [i])[k] == order[k];
  }

  lemma FirstsSkip(hits: seq<Hit>, front: seq<int>, i: int, scores: seq<real>, uids: seq<int>, limit: nat)
    requires |uids| == |scores| && (forall k :: 0 <= k < |front| ==> 0 <= front[k] < |scores|) && 0 <= i < |scores|
    requires HitsRight(hits, front, scores, uids, limit)
    requires forall k :: 0 <= k < |front| ==> scores[i] <= scores[front[k]]
    requires |hits| >= limit || Seen(hits, uids[i])
    ensures HitsRight(hits, front + [i], scores, uids, limit)
  {
    hide OncePerPhoto, HasFace, Seen;
    var order := front + [i];
    forall a | 0 <= a < |hits| ensures HasFace(order, scores, uids, hits[a]) && scores[i] <= hits[a].score {
      FaceStays(front, i, scores, uids, hits[a]);
    }
    forall k | 0 <= k < |order| ensures Bounded(hits, uids[order[k]], scores[order[k]]) {
      if k < |front| { assert order[k] == front[k]; }
    }
  }

  lemma FirstsTake(hits: seq<Hit>, front: seq<int>, i: int, scores: seq<real>, uids: seq<int>, limit: nat)
    requires |uids| == |scores| && (forall k :: 0 <= k < |front| ==> 0 <= front[k] < |scores|) && 0 <= i < |scores|
    requires HitsRight(hits, front, scores, uids, limit)
    requires forall k :: 0 <= k < |front| ==> scores[i] <= scores[front[k]]
    requires |hits| < limit && !Seen(hits, uids[i])
    ensures HitsRight(hits + [Hit(uids[i], scores[i])], front + [i], scores, uids, limit)
  {
    hide HasFace, Seen, OncePerPhoto, Bounded;
    var h := Hit(uids[i], scores[i]);
    var order, more := front + [i], hits + [h];
    SeenNext(hits, h);
    forall a | 0 <= a < |hits| ensures HasFace(order, scores, uids, hits[a]) && scores[i] <= hits[a].score {
      FaceStays(front, i, scores, uids, hits[a]);
    }
    LastHasFace(front, i, scores, uids);
    OnceMore(hits, h);
    forall k | 0 <= k < |order|
      ensures Bounded(more, uids[order[k]], scores[order[k]]) && Seen(more, uids[order[k]])
    {
      if k < |front| { assert order[k] == front[k]; }
      BoundedMore(hits, h, uids[order[k]], scores[order[k]]);
    }
  }

  lemma LastHasFace(order: seq<int>, i: int, scores: seq<real>, uids: seq<int>)
    requires |uids| == |scores| && (forall k :: 0 <= k < |order| ==> 0 <= order[k] < |scores|) && 0 <= i < |scores|
    ensures HasFace(order + [i], scores, uids, Hit(uids[i], scores[i]))
  {
    assert (order + [i])[|order|] == i;
  }

  lemma OnceMore(hits: seq<Hit>, h: Hit)
    requires OncePerPhoto(hits) && !Seen(hits, h.uid) && forall a :: 0 <= a < |hits| ==> h.score <= hits[a].score
    ensures OncePerPhoto(hits + [h])
  {}

  lemma BoundedMore(hits: seq<Hit>, h: Hit, uid: int, score: real)
    requires !Seen(hits, h.uid) && forall a :: 0 <= a < |hits| ==> h.score <= hits[a].score
    requires (Seen(hits, uid) && Bounded(hits, uid, score)) || (uid == h.uid && score == h.score)
    ensures Bounded(hits + [h], uid, score)
  {
    SeenNext(hits, h);
    var more := hits + [h];
    forall a | 0 <= a < |more| && (more[a].uid == uid || !Seen(more, uid)) ensures score <= more[a].score {
      if a < |hits| { assert more[a] == hits[a]; }
    }
  }

  lemma SeenNext(hits: seq<Hit>, h: Hit)
    ensures forall uid :: Seen(hits + [h], uid) <==> Seen(hits, uid) || uid == h.uid
  {
    forall uid ensures Seen(hits + [h], uid) <==> Seen(hits, uid) || uid == h.uid {
      if Seen(hits, uid) {
        var k :| 0 <= k < |hits| && hits[k].uid == uid;
        assert (hits + [h])[k].uid == uid;
      }
      if uid == h.uid { assert (hits + [h])[|hits|].uid == uid; }
    }
  }

  /** The best photos by their best face: as many as fit, each once and with its maximum score, in
      descending order, and no other photo has a face that scores higher. */
  ghost predicate BestPhotos(hits: seq<Hit>, scores: seq<real>, uids: seq<int>, limit: nat)
    requires |uids| == |scores|
  {
    && |hits| <= limit && OncePerPhoto(hits)
    && (forall a :: 0 <= a < |hits| ==> IsFace(scores, uids, hits[a]))
    && (forall i :: 0 <= i < |scores| ==> Bounded(hits, uids[i], scores[i]))
    && (|hits| < limit ==> forall i :: 0 <= i < |scores| ==> Seen(hits, uids[i]))
  }

  ghost predicate IsFace(scores: seq<real>, uids: seq<int>, h: Hit)
    requires |uids| == |scores|
  {
    exists i :: 0 <= i < |scores| && uids[i] == h.uid && scores[i] == h.score
  }

  lemma FaceOf(order: seq<int>, scores: seq<real>, uids: seq<int>, h: Hit)
    requires |uids| == |scores| && (forall k :: 0 <= k < |order| ==> 0 <= order[k] < |scores|)
    requires HasFace(order, scores, uids, h)
    ensures IsFace(scores, uids, h)
  {
    var k :| 0 <= k < |order| && uids[order[k]] == h.uid && scores[order[k]] == h.score;
    assert 0 <= order[k] < |scores|;
  }

  lemma Position(ranking: seq<int>, i: int) returns (k: nat)
    requires i in ranking
    ensures k < |ranking| && ranking[k] == i
  {
    k :| 0 <= k < |ranking| && ranking[k] == i;
  }

  lemma AllFaces(ranking: seq<int>, scores: seq<real>, uids: seq<int>, limit: nat)
    requires |uids| == |scores| && Faces(ranking, |scores|) && Descending(ranking, scores)
    requires forall i :: 0 <= i < |scores| ==> i in ranking
    ensures BestPhotos(Firsts(ranking, scores, uids, limit), scores, uids, limit)
  {
    hide Firsts, Descending, OncePerPhoto, HasFace, IsFace, Bounded, Seen, Distinct;
    FirstsRight(ranking, scores, uids, limit);
    var hits := Firsts(ranking, scores, uids, limit);
    forall i | 0 <= i < |scores|
      ensures Bounded(hits, uids[i], scores[i]) && (|hits| < limit ==> Seen(hits, uids[i]))
    {
      var k := Position(ranking, i);
    }
    forall a | 0 <= a < |hits| ensures IsFace(scores, uids, hits[a]) {
      FaceOf(ranking, scores, uids, hits[a]);
    }
  }

  /** The best faces first, then the rest in descending order: a descending ranking of all faces. */
  lemma RankingCompletes(order: seq<int>, rest: seq<int>, scores: seq<real>)
    requires RankingPrefix(order, scores) && RankedSoFar(rest, {}, scores)
    requires SetOf(rest) == Indices(|scores|) - SetOf(order)
    ensures Faces(order + rest, |scores|) && Descending(order + rest, scores)
    ensures forall i :: 0 <= i < |scores| ==> i in order + rest
  {
    var all := order + rest;
    forall k | 0 <= k < |rest| ensures rest[k] !in SetOf(order) { assert rest[k] in SetOf(rest); }
    forall k | 0 <= k < |order| ensures order[k] in SetOf(order) {}
    forall i | 0 <= i < |scores| ensures i in all {
      if i !in SetOf(order) { assert i in SetOf(rest); }
    }
  }

  // ---- The search -----------------------------------------------------------------------------

  lemma {:induction false} DistinctSize(rows: seq<int>)
    requires Distinct(rows)
    ensures |SetOf(rows)| == |rows|
  {
    if rows != [] {
      PrefixSet(rows);
      DistinctSize(rows[..|rows| - 1]);
    }
  }

  lemma SameSize(a: set<int>, b: set<int>)
    requires a <= b && |a| == |b|
    ensures a == b
  {
    assert b == a + (b - a);
    assert |b - a| == 0;
  }

  /** Goes down `order`, after `before` has given the hits so far. */
  method TakeFirsts(order: seq<int>, ghost before: seq<int>, sofar: seq<Hit>, scores: seq<real>, uids: seq<int>, limit: nat)
    returns (hits: seq<Hit>)
    requires |uids| == |scores| && Faces(order, |scores|) && Faces(before, |scores|)
    requires sofar == Firsts(before, scores, uids, limit)
    ensures hits == Firsts(before + order, scores, uids, limit)
  {
    hide Distinct, Firsts, Seen;
    hits := sofar;
    var seen := set h | h in sofar :: h.uid;
    SeenSet(sofar);
    var k := 0;
    assert before + order[..0] == before;
    while k < |order|
      invariant 0 <= k <= |order|
      invariant hits == Firsts(before + order[..k], scores, uids, limit)
      invariant forall uid :: uid in seen <==> Seen(hits, uid)
    {
      if |hits| >= limit {
        assert before + order == (before + order[..k]) + order[k..];
        FirstsStop(before + order[..k], order[k..], scores, uids, limit);
        return;
      }
      var uid := uids[order[k]];
      FirstsNext(before, order, k, scores, uids, limit);
      if uid !in seen {
        SeenNext(hits, Hit(uid, scores[order[k]]));
        seen := seen + {uid};
        hits := hits + [Hit(uid, scores[order[k]])];
      }
      k := k + 1;
    }
    assert order[..k] == order;
  }

  lemma SeenSet(hits: seq<Hit>)
    ensures forall uid :: uid in (set h | h in hits :: h.uid) <==> Seen(hits, uid)
  {
    forall uid ensures uid in (set h | h in hits :: h.uid) <==> Seen(hits, uid) {
      if Seen(hits, uid) {
        var k :| 0 <= k < |hits| && hits[k].uid == uid;
        assert hits[k] in hits;
      }
    }
  }

  lemma FirstsNext(before: seq<int>, order: seq<int>, k: nat, scores: seq<real>, uids: seq<int>, limit: nat)
    requires |uids| == |scores| && Faces(order, |scores|) && Faces(before, |scores|) && k < |order|
    ensures var hits := Firsts(before + order[..k], scores, uids, limit);
      Firsts(before + order[..k + 1], scores, uids, limit) ==
        if |hits| >= limit || Seen(hits, uids[order[k]]) then hits else hits + [Hit(uids[order[k]], scores[order[k]])]
  {
    hide Seen, Distinct;
    var more := before + order[..k + 1];
    assert more[..|more| - 1] == before + order[..k];
  }

  /** MAIN RESULT: the search finds the best photos, and what it returns is what the first-face rule
      gives on a descending ranking of all faces. */
  method FaceSimilarity(scores: seq<real>, uids: seq<int>, requested: int)
    returns (hits: seq<Hit>, ghost ranking: seq<int>)
    requires |uids| == |scores|
    ensures Faces(ranking, |scores|) && Descending(ranking, scores)
    ensures forall i :: 0 <= i < |scores| ==> i in ranking
    ensures hits == Firsts(ranking, scores, uids, ClampSearchLimit(requested))
    ensures BestPhotos(hits, scores, uids, ClampSearchLimit(requested))
  {
    hide Descending, Tops, BestPhotos, Firsts, SetOf;
    var limit := ClampSearchLimit(requested);
    var n := |scores|;
    var order := TopkIndices(scores, Least(limit * FACE_DEDUPE_SLACK, n));
    hits := TakeFirsts(order, [], [], scores, uids, limit) by { NoFirsts(scores, uids, limit); }
    assert [] + order == order;
    var left := Indices(n) - SetOf(order);
    var rest := Ranked(left, scores, |left|);
    DistinctSize(rest);
    SameSize(SetOf(rest), left);
    assert left - SetOf(rest) == {};
    RankingCompletes(order, rest, scores);
    ranking := order + rest;
    AllFaces(ranking, scores, uids, limit);
    if |order| < n && |hits| < limit {
      hits := TakeFirsts(rest, order, hits, scores, uids, limit);
    } else if |hits| >= limit {
      FirstsStop(order, rest, scores, uids, limit);
    } else {
      NothingLeft(order, left, n);
      DistinctSize(order);
      assert rest == [];
      assert ranking == order;
    }
  }

  function Least(a: int, b: int): int {
    if a < b then a else b
  }

  lemma NoFirsts(scores: seq<real>, uids: seq<int>, limit: nat)
    requires |uids| == |scores|
    ensures Firsts([], scores, uids, limit) == [] && Faces([], |scores|)
  {}

  lemma NothingLeft(order: seq<int>, left: set<int>, n: nat)
    requires Faces(order, n) && |order| >= n && left == Indices(n) - SetOf(order)
    ensures |left| == 0
  {
    DistinctSize(order);
    assert SetOf(order) <= Indices(n);
    assert Indices(n) == SetOf(order) + left;
  }
}
