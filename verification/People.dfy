/** People and the faces assigned to them. */
module People {
  // What each write does to the two tables, the cached counts it must keep true, and the bulk merge
  // as a fast form of merging one person at a time.

  import opened Wrappers
  import opened Sets

  type PersonId = int
  type FaceId = int
  type PhotoId = int

  datatype Person = Person(
    name: Option<string>,
    coverUid: Option<string>,
    coverFace: Option<int>,
    faceCount: nat,
    photoCount: nat)

  datatype Face = Face(photo: PhotoId, person: Option<PersonId>)

  datatype Tables = Tables(people: map<PersonId, Person>, faces: map<FaceId, Face>)

  // ---- Counts ---------------------------------------------------------------------------------

  function FacesOf(faces: map<FaceId, Face>, p: PersonId): set<FaceId> {
    set f | f in faces && faces[f].person == Some(p)
  }

  function PhotosOf(faces: map<FaceId, Face>, p: PersonId): set<PhotoId> {
    set f | f in faces && faces[f].person == Some(p) :: faces[f].photo
  }

  function WithCounts(faces: map<FaceId, Face>, p: PersonId, row: Person): Person {
    row.(faceCount := |FacesOf(faces, p)|, photoCount := |PhotosOf(faces, p)|)
  }

  function Recounted(t: Tables, p: PersonId): Tables {
    if p in t.people then t.(people := t.people[p := WithCounts(t.faces, p, t.people[p])]) else t
  }

  predicate CountTrue(t: Tables, p: PersonId) {
    p in t.people ==> t.people[p] == WithCounts(t.faces, p, t.people[p])
  }

  ghost predicate CountsTrue(t: Tables) {
    forall p :: CountTrue(t, p)
  }

  /** The foreign key: a face points to a row of `people` or to none. */
  ghost predicate FacesLive(t: Tables) {
    forall f :: f in t.faces && t.faces[f].person.Some? ==> t.faces[f].person.value in t.people
  }

  ghost predicate Inv(t: Tables) {
    CountsTrue(t) && FacesLive(t)
  }

  // ---- Writes ---------------------------------------------------------------------------------

  predicate Unset(s: Option<string>) {
    s.None? || s.value == ""
  }

  predicate NoFace(f: Option<int>) {
    f.None? || f.value == 0
  }

  function GcUnnamed(t: Tables, p: PersonId): Tables {
    if p in t.people && Unset(t.people[p].name) && t.people[p].faceCount == 0 && FacesOf(t.faces, p) == {}
    then t.(people := t.people - {p})
    else t
  }

  function Without(people: map<PersonId, Person>, ids: set<PersonId>): map<PersonId, Person> {
    map p | p in people && p !in ids :: people[p]
  }

  function Put(t: Tables, f: FaceId, person: Option<PersonId>): Tables {
    if f in t.faces then t.(faces := t.faces[f := t.faces[f].(person := person)]) else t
  }

  function OwnerOf(t: Tables, f: FaceId): Option<PersonId> {
    if f in t.faces then t.faces[f].person else None
  }

  /** A write that names a person fails when it touches a row and there is no such person; it is then
      rolled back and nothing after it runs. */
  predicate Dangles(t: Tables, f: FaceId, p: PersonId) {
    f in t.faces && p !in t.people
  }

  function Inserted(t: Tables, f: FaceId, photo: PhotoId, person: Option<PersonId>): Tables {
    var t1 := t.(faces := t.faces[f := Face(photo, person)]);
    if person.Some? then Recounted(t1, person.value) else t1
  }

  function Released(t: Tables, old_: Option<PersonId>): Tables {
    if old_.Some? then GcUnnamed(Recounted(t, old_.value), old_.value) else t
  }

  function Assigned(t: Tables, f: FaceId, p: PersonId): Tables {
    var owner := OwnerOf(t, f);
    Recounted(Released(Put(t, f, Some(p)), if owner == Some(p) then None else owner), p)
  }

  function Unassigned(t: Tables, f: FaceId): Tables {
    Released(Put(t, f, None), OwnerOf(t, f))
  }

  /** Faces of `ids` handed to p. */
  function PutAll(faces: map<FaceId, Face>, ids: set<FaceId>, p: PersonId): map<FaceId, Face> {
    map f | f in faces :: if f in ids then faces[f].(person := Some(p)) else faces[f]
  }

  function BulkAssigned(t: Tables, ids: set<FaceId>, p: PersonId): Tables {
    Recounted(t.(faces := PutAll(t.faces, ids, p)), p)
  }

  predicate Belongs(face: Face, ids: set<PersonId>) {
    face.person.Some? && face.person.value in ids
  }

  function Reparented(faces: map<FaceId, Face>, ids: set<PersonId>, to: Option<PersonId>): map<FaceId, Face> {
    map f | f in faces :: if Belongs(faces[f], ids) then faces[f].(person := to) else faces[f]
  }

  function DeletedAll(t: Tables, ids: set<PersonId>): Tables {
    Tables(Without(t.people, ids), Reparented(t.faces, ids, None))
  }

  function Created(t: Tables, p: PersonId, name: Option<string>, coverUid: Option<string>, coverFace: Option<int>): Tables {
    t.(people := t.people[p := Person(name, coverUid, coverFace, 0, 0)])
  }

  /** The people whose faces are on the photos. */
  function Touched(faces: map<FaceId, Face>, photos: set<PhotoId>): set<PersonId> {
    set f | f in faces && faces[f].photo in photos && faces[f].person.Some? :: faces[f].person.value
  }

  function RecountedAll(t: Tables, ids: set<PersonId>): Tables {
    t.(people := map p | p in t.people :: if p in ids then WithCounts(t.faces, p, t.people[p]) else t.people[p])
  }

  function Dropped(faces: map<FaceId, Face>, photos: set<PhotoId>): map<FaceId, Face> {
    map f | f in faces && faces[f].photo !in photos :: faces[f]
  }

  /** The faces of purged photos are dropped and the people they were assigned to recounted. */
  function Purged(t: Tables, photos: set<PhotoId>): Tables {
    RecountedAll(t.(faces := Dropped(t.faces, photos)), Touched(t.faces, photos))
  }

  // ---- Merging --------------------------------------------------------------------------------

  /** The target's row with what it lacks taken from the source. */
  function Backfilled(target: Person, source: Person): Person {
    target.(name := if Unset(target.name) && !Unset(source.name) then source.name else target.name,
            coverUid := if Unset(target.coverUid) && !Unset(source.coverUid) then source.coverUid else target.coverUid,
            coverFace := if NoFace(target.coverFace) && !NoFace(source.coverFace) then source.coverFace else target.coverFace)
  }

  function Merged(t: Tables, source: PersonId, target: PersonId): Tables {
    if source == target then t else
      var people := if source in t.people && target in t.people
                    then t.people[target := Backfilled(t.people[target], t.people[source])] else t.people;
      Recounted(Tables(Without(people, {source}), Reparented(t.faces, {source}, Some(target))), target)
  }

  /** One merge after another. */
  function MergedEach(t: Tables, sources: seq<PersonId>, target: PersonId): Tables {
    if sources == [] then t
    else Merged(MergedEach(t, sources[..|sources| - 1], target), sources[|sources| - 1], target)
  }

  function BackfilledEach(people: map<PersonId, Person>, sources: seq<PersonId>, row: Person): Person
    requires forall i :: 0 <= i < |sources| ==> sources[i] in people
  {
    if sources == [] then row
    else Backfilled(BackfilledEach(people, sources[..|sources| - 1], row), people[sources[|sources| - 1]])
  }

  /** One chunk of the bulk merge: the live sources in the order the query returns them, then all
      faces and rows of the chunk at once. The target is not recounted here. */
  function MergedChunk(t: Tables, ids: set<PersonId>, rows: seq<PersonId>, target: PersonId): Tables
    requires target in t.people && forall i :: 0 <= i < |rows| ==> rows[i] in t.people
  {
    Tables(Without(t.people[target := BackfilledEach(t.people, rows, t.people[target])], ids),
           Reparented(t.faces, ids, Some(target)))
  }

  predicate AllLive(people: map<PersonId, Person>, rows: seq<PersonId>) {
    forall i :: 0 <= i < |rows| ==> rows[i] in people
  }

  lemma {:induction false} BackfillKeepsCounts(people: map<PersonId, Person>, rows: seq<PersonId>, row: Person, n: nat, m: nat)
    requires AllLive(people, rows)
    ensures BackfilledEach(people, rows, row.(faceCount := n, photoCount := m))
         == BackfilledEach(people, rows, row).(faceCount := n, photoCount := m)
  {
    if rows != [] { BackfillKeepsCounts(people, rows[..|rows| - 1], row, n, m); }
  }

  /** Up to the target's counts. */
  predicate SameButCounts(t: Tables, t': Tables, target: PersonId) {
    && t.faces == t'.faces && target in t.people && target in t'.people
    && Without(t.people, {target}) == Without(t'.people, {target})
    && t.people[target].(faceCount := 0, photoCount := 0) == t'.people[target].(faceCount := 0, photoCount := 0)
  }

  lemma RecountSame(t: Tables, t': Tables, target: PersonId)
    requires SameButCounts(t, t', target)
    ensures Recounted(t, target) == Recounted(t', target)
  {
    hide FacesOf, PhotosOf;
    var r, r' := Recounted(t, target).people, Recounted(t', target).people;
    assert t.people[target] == t'.people[target].(faceCount := t.people[target].faceCount, photoCount := t.people[target].photoCount);
    forall p ensures p in r <==> p in r'
             ensures p in r && p in r' ==> r[p] == r'[p]
    {
      if p != target { assert p in t.people <==> p in Without(t.people, {target}); }
      if p != target { assert p in t'.people <==> p in Without(t'.people, {target}); }
    }
    assert r == r';
  }

  // ---- The bulk merge is the fold of single merges --------------------------------------------

  lemma BackfilledIgnoresCounts(a: Person, b: Person, source: Person)
    requires a.(faceCount := 0, photoCount := 0) == b.(faceCount := 0, photoCount := 0)
    ensures Backfilled(a, source).(faceCount := 0, photoCount := 0) == Backfilled(b, source).(faceCount := 0, photoCount := 0)
  {}

  lemma {:induction false} BackfilledEachIgnoresCounts(people: map<PersonId, Person>, people': map<PersonId, Person>,
                                                       rows: seq<PersonId>, a: Person, b: Person)
    requires AllLive(people, rows) && AllLive(people', rows)
    requires forall i :: 0 <= i < |rows| ==> people[rows[i]] == people'[rows[i]]
    requires a.(faceCount := 0, photoCount := 0) == b.(faceCount := 0, photoCount := 0)
    ensures BackfilledEach(people, rows, a).(faceCount := 0, photoCount := 0)
         == BackfilledEach(people', rows, b).(faceCount := 0, photoCount := 0)
  {
    hide Backfilled;
    if rows != [] {
      var front, last := rows[..|rows| - 1], rows[|rows| - 1];
      BackfilledEachIgnoresCounts(people, people', front, a, b);
      BackfilledIgnoresCounts(BackfilledEach(people, front, a), BackfilledEach(people', front, b), people[last]);
    }
  }

  lemma RecountKeeps(t: Tables, target: PersonId)
    requires target in t.people
    ensures SameButCounts(Recounted(t, target), t, target)
  {
    hide FacesOf, PhotosOf;
  }

  lemma SameTrans(a: Tables, b: Tables, c: Tables, target: PersonId)
    requires SameButCounts(a, b, target) && SameButCounts(b, c, target)
    ensures SameButCounts(a, c, target) && SameButCounts(b, a, target)
  {
    hide Without;
  }

  lemma SameRow(t: Tables, t': Tables, target: PersonId, p: PersonId)
    requires SameButCounts(t, t', target) && p != target
    ensures p in t.people <==> p in t'.people
    ensures p in t.people ==> t.people[p] == t'.people[p]
  {
    assert p in t.people <==> p in Without(t.people, {target});
    assert p in t'.people <==> p in Without(t'.people, {target});
  }

  /** Merging one more source into equal tables gives equal tables. */
  lemma MergeStep(t: Tables, front: Tables, ids: set<PersonId>, rows: seq<PersonId>, source: PersonId, target: PersonId)
    requires target in t.people && AllLive(t.people, rows) && SetOf(rows) == ids && target !in ids
    requires source in t.people && source !in ids && source != target
    requires SameButCounts(front, MergedChunk(t, ids, rows, target), target)
    ensures AllLive(t.people, rows + [source])
    ensures SameButCounts(Merged(front, source, target), MergedChunk(t, ids + {source}, rows + [source], target), target)
  {
    hide Backfilled, SameButCounts, Recounted;
    var chunk := MergedChunk(t, ids, rows, target);
    SameRow(front, chunk, target, source);
    SameTarget(front, chunk, target);
    var bare := Tables(Without(front.people[target := Backfilled(front.people[target], t.people[source])], {source}),
                       Reparented(front.faces, {source}, Some(target)));
    assert Merged(front, source, target) == Recounted(bare, target);
    RecountKeeps(bare, target);
    MergeStepBare(t, front, bare, ids, rows, source, target);
    SameTrans(Recounted(bare, target), bare, MergedChunk(t, ids + {source}, rows + [source], target), target);
  }

  lemma SameTarget(t: Tables, t': Tables, target: PersonId)
    requires SameButCounts(t, t', target)
    ensures target in t.people && target in t'.people && t.faces == t'.faces
    ensures t.people[target].(faceCount := 0, photoCount := 0) == t'.people[target].(faceCount := 0, photoCount := 0)
  {}

  lemma MergeStepBare(t: Tables, front: Tables, bare: Tables, ids: set<PersonId>, rows: seq<PersonId>,
                      source: PersonId, target: PersonId)
    requires target in t.people && AllLive(t.people, rows) && SetOf(rows) == ids && target !in ids
    requires source in t.people && source !in ids && source != target
    requires SameButCounts(front, MergedChunk(t, ids, rows, target), target)
    requires source in front.people && target in front.people
    requires bare == Tables(Without(front.people[target := Backfilled(front.people[target], t.people[source])], {source}),
                            Reparented(front.faces, {source}, Some(target)))
    ensures AllLive(t.people, rows + [source])
    ensures SameButCounts(bare, MergedChunk(t, ids + {source}, rows + [source], target), target)
  {
    hide Backfilled;
    var chunk := MergedChunk(t, ids, rows, target);
    assert (rows + [source])[..|rows + [source]| - 1] == rows;
    var next := MergedChunk(t, ids + {source}, rows + [source], target);
    BackfilledIgnoresCounts(front.people[target], chunk.people[target], t.people[source]);
    ReparentTwice(t.faces, ids, source, target);
    forall p ensures p in Without(bare.people, {target}) <==> p in Without(next.people, {target})
             ensures p in Without(bare.people, {target}) ==> bare.people[p] == next.people[p]
    {
      if p != target { SameRow(front, chunk, target, p); }
    }
    assert Without(bare.people, {target}) == Without(next.people, {target});
  }

  lemma ReparentTwice(faces: map<FaceId, Face>, ids: set<PersonId>, source: PersonId, target: PersonId)
    requires source != target
    ensures Reparented(Reparented(faces, ids, Some(target)), {source}, Some(target))
         == Reparented(faces, ids + {source}, Some(target))
  {
    var once := Reparented(faces, ids, Some(target));
    forall f | f in faces
      ensures Reparented(once, {source}, Some(target))[f] == Reparented(faces, ids + {source}, Some(target))[f]
    {
      assert once[f] == if Belongs(faces[f], ids) then faces[f].(person := Some(target)) else faces[f];
    }
  }

  lemma SetOfNext(rows: seq<int>, u: int)
    ensures SetOf(rows + [u]) == SetOf(rows) + {u}
  {}

  lemma {:induction false} EachIsChunk(t: Tables, rows: seq<PersonId>, target: PersonId)
    requires target in t.people && AllLive(t.people, rows) && Distinct(rows) && target !in SetOf(rows)
    ensures SameButCounts(MergedEach(t, rows, target), MergedChunk(t, SetOf(rows), rows, target), target)
  {
    hide SameButCounts, Merged, MergedChunk;
    if rows == [] {
      EmptyChunk(t, target);
    } else {
      var front, last := rows[..|rows| - 1], rows[|rows| - 1];
      assert rows == front + [last];
      PrefixSet(rows);
      EachIsChunk(t, front, target);
      MergeStep(t, MergedEach(t, front, target), SetOf(front), front, last, target);
    }
  }

  lemma EmptyChunk(t: Tables, target: PersonId)
    requires target in t.people
    ensures SameButCounts(t, MergedChunk(t, SetOf([]), [], target), target)
  {
    assert SetOf([]) == {};
    assert Without(t.people[target := t.people[target]], {}) == t.people;
    ReparentNone(t.faces, target);
  }

  lemma ReparentNone(faces: map<FaceId, Face>, target: PersonId)
    ensures Reparented(faces, {}, Some(target)) == faces
  {
    forall f | f in faces ensures Reparented(faces, {}, Some(target))[f] == faces[f] {
      assert !Belongs(faces[f], {});
    }
  }

  /** Ids without a row make no difference to a chunk. */
  lemma DeadIdsIgnored(t: Tables, ids: set<PersonId>, rows: seq<PersonId>, target: PersonId)
    requires FacesLive(t) && target in t.people && AllLive(t.people, rows)
    requires SetOf(rows) == ids * t.people.Keys && target !in ids
    ensures MergedChunk(t, ids, rows, target) == MergedChunk(t, SetOf(rows), rows, target)
  {
    var row := t.people[target := BackfilledEach(t.people, rows, t.people[target])];
    assert Without(row, ids) == Without(row, SetOf(rows)) by {
      forall p ensures p in Without(row, ids) <==> p in Without(row, SetOf(rows)) {}
    }
    forall f | f in t.faces ensures Belongs(t.faces[f], ids) <==> Belongs(t.faces[f], SetOf(rows)) {}
    assert Reparented(t.faces, ids, Some(target)) == Reparented(t.faces, SetOf(rows), Some(target));
  }

  lemma ChunkIgnoresCounts(t: Tables, t': Tables, ids: set<PersonId>, rows: seq<PersonId>, target: PersonId)
    requires SameButCounts(t, t', target) && AllLive(t.people, rows) && target !in SetOf(rows) && target !in ids
    ensures AllLive(t'.people, rows)
    ensures SameButCounts(MergedChunk(t, ids, rows, target), MergedChunk(t', ids, rows, target), target)
  {
    hide BackfilledEach;
    forall i | 0 <= i < |rows| ensures rows[i] in t'.people && t.people[rows[i]] == t'.people[rows[i]] {
      assert rows[i] in SetOf(rows);
      SameRow(t, t', target, rows[i]);
    }
    BackfilledEachIgnoresCounts(t.people, t'.people, rows, t.people[target], t'.people[target]);
    var c, c' := MergedChunk(t, ids, rows, target), MergedChunk(t', ids, rows, target);
    forall p ensures p in Without(c.people, {target}) <==> p in Without(c'.people, {target})
             ensures p in Without(c.people, {target}) ==> c.people[p] == c'.people[p]
    {
      if p != target { SameRow(t, t', target, p); }
    }
    assert Without(c.people, {target}) == Without(c'.people, {target});
  }

  lemma {:induction false} EachJoin(t: Tables, a: seq<PersonId>, b: seq<PersonId>, target: PersonId)
    ensures MergedEach(MergedEach(t, a, target), b, target) == MergedEach(t, a + b, target)
  {
    hide Merged;
    if b == [] {
      assert a + b == a;
    } else {
      assert (a + b)[..|a + b| - 1] == a + b[..|b| - 1];
      EachJoin(t, a, b[..|b| - 1], target);
    }
  }

  /** One more chunk of the bulk merge, against one more stretch of single merges. */
  lemma ChunkStep(t: Tables, bulk: Tables, order: seq<PersonId>, ids: set<PersonId>, rows: seq<PersonId>, target: PersonId)
    requires SameButCounts(bulk, MergedEach(t, order, target), target) && FacesLive(bulk)
    requires target !in ids && Distinct(rows) && SetOf(rows) == ids * bulk.people.Keys && AllLive(bulk.people, rows)
    ensures SameButCounts(MergedChunk(bulk, ids, rows, target), MergedEach(t, order + rows, target), target)
    ensures FacesLive(MergedChunk(bulk, ids, rows, target))
    ensures MergedChunk(bulk, ids, rows, target).people.Keys == bulk.people.Keys - ids
  {
    hide SameButCounts, MergedEach, BackfilledEach;
    var single := MergedEach(t, order, target);
    SameTarget(bulk, single, target);
    ChunkIgnoresCounts(bulk, single, ids, rows, target);
    FacesLiveSame(bulk, single, target);
    forall p ensures p in bulk.people <==> p in single.people {
      if p != target { SameRow(bulk, single, target, p); }
    }
    DeadIdsIgnored(single, ids, rows, target);
    EachIsChunk(single, rows, target);
    SameSymmetric(MergedEach(single, rows, target), MergedChunk(single, SetOf(rows), rows, target), target);
    SameTrans(MergedChunk(bulk, ids, rows, target), MergedChunk(single, ids, rows, target),
              MergedEach(single, rows, target), target);
    EachJoin(t, order, rows, target);
    ChunkKeepsLive(bulk, ids, rows, target);
  }

  lemma SameSymmetric(a: Tables, b: Tables, target: PersonId)
    requires SameButCounts(a, b, target)
    ensures SameButCounts(b, a, target)
  {
    hide Without;
  }

  lemma FacesLiveSame(a: Tables, b: Tables, target: PersonId)
    requires SameButCounts(a, b, target) && FacesLive(a)
    ensures FacesLive(b)
  {
    forall f | f in b.faces && b.faces[f].person.Some? ensures b.faces[f].person.value in b.people {
      var p := a.faces[f].person.value;
      assert p in a.people;
      if p != target { SameRow(a, b, target, p); }
    }
  }

  lemma ChunkKeepsLive(t: Tables, ids: set<PersonId>, rows: seq<PersonId>, target: PersonId)
    requires FacesLive(t) && target in t.people && target !in ids && AllLive(t.people, rows)
    ensures FacesLive(MergedChunk(t, ids, rows, target))
    ensures MergedChunk(t, ids, rows, target).people.Keys == t.people.Keys - ids
  {
    hide BackfilledEach;
  }

  /** Merging moves faces to the target and changes nothing else about them. */
  lemma {:induction false} MergesConserveFaces(t: Tables, order: seq<PersonId>, target: PersonId)
    requires target !in SetOf(order)
    ensures var t' := MergedEach(t, order, target);
      && t'.faces.Keys == t.faces.Keys
      && forall f :: f in t.faces ==>
           t'.faces[f] == if Belongs(t.faces[f], SetOf(order)) then t.faces[f].(person := Some(target)) else t.faces[f]
  {
    hide Recounted;
    if order != [] {
      var front, last := order[..|order| - 1], order[|order| - 1];
      assert order == front + [last];
      SetOfNext(front, last);
      MergesConserveFaces(t, front, target);
      MergedFaces(MergedEach(t, front, target), last, target);
    }
  }

  lemma MergedFaces(t: Tables, source: PersonId, target: PersonId)
    requires source != target
    ensures Merged(t, source, target).faces == Reparented(t.faces, {source}, Some(target))
  {}

  // ---- Every write keeps the counts true ------------------------------------------------------

  /** The two tables show the same faces of q. */
  predicate SameFaces(faces: map<FaceId, Face>, faces': map<FaceId, Face>, q: PersonId) {
    && FacesOf(faces, q) == FacesOf(faces', q)
    && forall f :: f in FacesOf(faces, q) ==> faces[f].photo == faces'[f].photo
  }

  lemma SameFacesCounts(faces: map<FaceId, Face>, faces': map<FaceId, Face>, q: PersonId)
    requires SameFaces(faces, faces', q)
    ensures PhotosOf(faces, q) == PhotosOf(faces', q)
  {
    forall x ensures x in PhotosOf(faces, q) <==> x in PhotosOf(faces', q) {
      if x in PhotosOf(faces, q) {
        var f :| f in faces && faces[f].person == Some(q) && faces[f].photo == x;
        assert f in FacesOf(faces, q) && f in FacesOf(faces', q);
      }
      if x in PhotosOf(faces', q) {
        var f :| f in faces' && faces'[f].person == Some(q) && faces'[f].photo == x;
        assert f in FacesOf(faces', q) && f in FacesOf(faces, q);
      }
    }
  }

  lemma CountFrame(t: Tables, t': Tables, q: PersonId)
    requires CountTrue(t, q) && SameFaces(t.faces, t'.faces, q)
    requires q in t'.people ==> q in t.people && t'.people[q] == t.people[q]
    ensures CountTrue(t', q)
  {
    hide SameFaces, FacesOf, PhotosOf;
    SameFacesCounts(t.faces, t'.faces, q);
    SameFacesOf(t.faces, t'.faces, q);
  }

  lemma SameFacesOf(faces: map<FaceId, Face>, faces': map<FaceId, Face>, q: PersonId)
    requires SameFaces(faces, faces', q)
    ensures FacesOf(faces, q) == FacesOf(faces', q)
  {}

  lemma RecountTrue(t: Tables, p: PersonId, q: PersonId)
    requires q == p || CountTrue(t, q)
    ensures CountTrue(Recounted(t, p), q)
    ensures Recounted(t, p).faces == t.faces && Recounted(t, p).people.Keys == t.people.Keys
  {
    hide FacesOf, PhotosOf;
  }

  lemma GcTrue(t: Tables, p: PersonId, q: PersonId)
    requires CountTrue(t, q)
    ensures CountTrue(GcUnnamed(t, p), q) && GcUnnamed(t, p).faces == t.faces
    ensures FacesLive(t) ==> FacesLive(GcUnnamed(t, p))
    ensures GcUnnamed(t, p).people.Keys == t.people.Keys
         || (GcUnnamed(t, p).people.Keys == t.people.Keys - {p} && FacesOf(t.faces, p) == {})
  {
    if p in t.people && Unset(t.people[p].name) && t.people[p].faceCount == 0 && FacesOf(t.faces, p) == {} {
      forall f | f in t.faces && t.faces[f].person.Some? ensures t.faces[f].person.value != p {
        assert f !in FacesOf(t.faces, p);
      }
    }
  }

  lemma InsertKeeps(t: Tables, f: FaceId, photo: PhotoId, person: Option<PersonId>)
    requires Inv(t) && f !in t.faces && (person.Some? ==> person.value in t.people)
    ensures Inv(Inserted(t, f, photo, person))
  {
    hide CountTrue, Recounted;
    var t1 := t.(faces := t.faces[f := Face(photo, person)]);
    var t2 := Inserted(t, f, photo, person);
    forall q ensures CountTrue(t2, q) {
      if person != Some(q) {
        assert FacesOf(t.faces, q) == FacesOf(t1.faces, q);
        CountFrame(t, t1, q);
      }
      if person.Some? { RecountTrue(t1, person.value, q); }
    }
    assert FacesLive(t1);
    if person.Some? { RecountTrue(t1, person.value, person.value); }
  }

  /** Putting a face elsewhere leaves the counts of all but the two owners true. */
  lemma PutFrame(t: Tables, f: FaceId, person: Option<PersonId>, q: PersonId)
    requires CountTrue(t, q) && OwnerOf(t, f) != Some(q) && person != Some(q)
    ensures CountTrue(Put(t, f, person), q)
  {
    assert FacesOf(t.faces, q) == FacesOf(Put(t, f, person).faces, q);
    CountFrame(t, Put(t, f, person), q);
  }

  lemma PutLive(t: Tables, f: FaceId, person: Option<PersonId>)
    requires FacesLive(t) && (person.Some? ==> person.value in t.people || f !in t.faces)
    ensures FacesLive(Put(t, f, person)) && Put(t, f, person).people == t.people
  {}

  lemma ReleaseTrue(t: Tables, owner: Option<PersonId>, q: PersonId)
    requires owner == Some(q) || CountTrue(t, q)
    ensures CountTrue(Released(t, owner), q) && Released(t, owner).faces == t.faces
    ensures FacesLive(t) ==> FacesLive(Released(t, owner))
  {
    hide CountTrue, Recounted, GcUnnamed, FacesLive;
    if owner.Some? {
      RecountTrue(t, owner.value, q);
      RecountLive(t, owner.value);
      GcTrue(Recounted(t, owner.value), owner.value, q);
    }
  }

  lemma RecountLive(t: Tables, p: PersonId)
    ensures FacesLive(Recounted(t, p)) == FacesLive(t)
  {}

  lemma AssignKeeps(t: Tables, f: FaceId, p: PersonId)
    requires Inv(t) && !Dangles(t, f, p)
    ensures Inv(Assigned(t, f, p))
  {
    hide CountTrue, Recounted, Released, Put, FacesLive, OwnerOf;
    var owner := OwnerOf(t, f);
    var left := if owner == Some(p) then None else owner;
    var t1 := Put(t, f, Some(p));
    var t2 := Released(t1, left);
    forall q ensures CountTrue(Recounted(t2, p), q) {
      if q != p {
        if owner != Some(q) { PutFrame(t, f, Some(p), q); }
        ReleaseTrue(t1, left, q);
      }
      RecountTrue(t2, p, q);
    }
    PutLive(t, f, Some(p));
    OwnOrNone(t, f);
    ReleaseLive(t1, left);
    RecountLive(t2, p);
  }

  lemma OwnOrNone(t: Tables, f: FaceId)
    ensures OwnerOf(t, f).Some? ==> f in t.faces
  {}

  lemma ReleaseLive(t: Tables, owner: Option<PersonId>)
    requires FacesLive(t)
    ensures FacesLive(Released(t, owner))
  {
    hide CountTrue, Recounted, GcUnnamed, FacesLive;
    if owner.Some? {
      RecountLive(t, owner.value);
      RecountTrue(t, owner.value, owner.value);
      GcTrue(Recounted(t, owner.value), owner.value, owner.value);
    }
  }

  lemma UnassignKeeps(t: Tables, f: FaceId)
    requires Inv(t)
    ensures Inv(Unassigned(t, f))
  {
    hide CountTrue, Released, Put, FacesLive, OwnerOf;
    var owner := OwnerOf(t, f);
    var t1 := Put(t, f, None);
    forall q ensures CountTrue(Released(t1, owner), q) {
      if owner != Some(q) { PutFrame(t, f, None, q); }
      ReleaseTrue(t1, owner, q);
    }
    PutLive(t, f, None);
    ReleaseLive(t1, owner);
  }

  /** No listed face belongs to someone else. */
  predicate NoneTaken(t: Tables, ids: set<FaceId>, p: PersonId) {
    forall f :: f in ids && f in t.faces ==> t.faces[f].person in {None, Some(p)}
  }

  /** A bulk assignment keeps the counts true if and only if it takes no face from another person:
      it recounts the new owner only. */
  lemma BulkAssignKeepsIff(t: Tables, ids: set<FaceId>, p: PersonId)
    requires Inv(t) && p in t.people
    ensures Inv(BulkAssigned(t, ids, p)) <==> NoneTaken(t, ids, p)
  {
    hide CountTrue, Recounted;
    var t1 := t.(faces := PutAll(t.faces, ids, p));
    var t2 := BulkAssigned(t, ids, p);
    RecountTrue(t1, p, p);
    assert FacesLive(t2);
    if NoneTaken(t, ids, p) {
      forall q ensures CountTrue(t2, q) {
        if q != p {
          forall f ensures f in FacesOf(t.faces, q) <==> f in FacesOf(t1.faces, q) {}
          CountFrame(t, t1, q);
        }
        RecountTrue(t1, p, q);
      }
    } else {
      var f :| f in ids && f in t.faces && t.faces[f].person !in {None, Some(p)};
      var q := t.faces[f].person.value;
      TakenCountFalse(t, ids, p, f, q);
      assert !CountTrue(t2, q);
    }
  }

  lemma TakenCountFalse(t: Tables, ids: set<FaceId>, p: PersonId, f: FaceId, q: PersonId)
    requires Inv(t) && f in ids && f in t.faces && t.faces[f].person == Some(q) && q != p
    ensures !CountTrue(BulkAssigned(t, ids, p), q)
  {
    hide PhotosOf;
    var t2 := BulkAssigned(t, ids, p);
    assert CountTrue(t, q);
    assert FacesOf(t2.faces, q) < FacesOf(t.faces, q) by {
      assert f in FacesOf(t.faces, q) && f !in FacesOf(t2.faces, q);
    }
    Smaller(FacesOf(t2.faces, q), FacesOf(t.faces, q));
    assert t2.people[q] == t.people[q];
  }

  lemma Smaller(a: set<FaceId>, b: set<FaceId>)
    requires a < b
    ensures |a| < |b|
  {
    assert b == a + (b - a);
    assert b - a != {};
  }

  lemma DeleteKeeps(t: Tables, ids: set<PersonId>)
    requires Inv(t)
    ensures Inv(DeletedAll(t, ids))
  {
    hide CountTrue;
    var t' := DeletedAll(t, ids);
    forall q ensures CountTrue(t', q) {
      if q in ids {
        GoneIsTrue(t', q);
      } else {
        forall f ensures f in FacesOf(t.faces, q) <==> f in FacesOf(t'.faces, q) {}
        CountFrame(t, t', q);
      }
    }
  }

  lemma GoneIsTrue(t: Tables, q: PersonId)
    requires q !in t.people
    ensures CountTrue(t, q)
  {}

  lemma CreateKeeps(t: Tables, p: PersonId, name: Option<string>, coverUid: Option<string>, coverFace: Option<int>)
    requires Inv(t) && p !in t.people
    ensures Inv(Created(t, p, name, coverUid, coverFace))
  {
    hide CountTrue;
    var t' := Created(t, p, name, coverUid, coverFace);
    forall q ensures CountTrue(t', q) {
      if q == p { NewIsTrue(t, t', p); } else { CountFrame(t, t', q); }
    }
  }

  lemma NewIsTrue(t: Tables, t': Tables, p: PersonId)
    requires FacesLive(t) && p !in t.people && t'.faces == t.faces && p in t'.people
    requires t'.people[p].faceCount == 0 && t'.people[p].photoCount == 0
    ensures CountTrue(t', p)
  {
    forall f ensures f !in FacesOf(t.faces, p) {}
    NoneIn(FacesOf(t.faces, p));
    NoneIn(PhotosOf(t.faces, p));
  }

  /** The empty, unnamed people that are old enough are swept. */
  function Sweepable(t: Tables, aged: set<PersonId>): set<PersonId> {
    set p | p in t.people && p in aged && Unset(t.people[p].name) && t.people[p].faceCount == 0 && FacesOf(t.faces, p) == {}
  }

  function Swept(t: Tables, aged: set<PersonId>): Tables {
    t.(people := Without(t.people, Sweepable(t, aged)))
  }

  lemma SweepKeeps(t: Tables, aged: set<PersonId>)
    requires Inv(t)
    ensures Inv(Swept(t, aged))
  {
    hide CountTrue;
    var t' := Swept(t, aged);
    forall q ensures CountTrue(t', q) { CountFrame(t, t', q); }
    forall f | f in t.faces && t.faces[f].person.Some? ensures t.faces[f].person.value in t'.people {
      assert f in FacesOf(t.faces, t.faces[f].person.value);
    }
  }

  lemma TouchedHas(faces: map<FaceId, Face>, photos: set<PhotoId>, f: FaceId)
    requires f in faces && faces[f].photo in photos && faces[f].person.Some?
    ensures faces[f].person.value in Touched(faces, photos)
  {}

  lemma PurgeKeeps(t: Tables, photos: set<PhotoId>)
    requires Inv(t)
    ensures Inv(Purged(t, photos))
  {
    hide CountTrue, RecountedAll;
    var t1 := t.(faces := Dropped(t.faces, photos));
    var ids := Touched(t.faces, photos);
    var t2 := Purged(t, photos);
    forall q ensures CountTrue(t2, q) {
      if q !in ids {
        forall f ensures f in FacesOf(t.faces, q) <==> f in FacesOf(t1.faces, q) {
          if f in t.faces && t.faces[f].photo in photos && t.faces[f].person.Some? { TouchedHas(t.faces, photos, f); }
        }
        CountFrame(t, t1, q);
      }
      RecountAllTrue(t1, ids, q);
    }
    assert FacesLive(t1);
    RecountAllTrue(t1, ids, 0);
  }

  lemma RecountAllTrue(t: Tables, ids: set<PersonId>, q: PersonId)
    ensures q in ids || CountTrue(t, q) ==> CountTrue(RecountedAll(t, ids), q)
    ensures FacesLive(RecountedAll(t, ids)) == FacesLive(t)
  {
    hide FacesOf, PhotosOf;
    assert RecountedAll(t, ids).people.Keys == t.people.Keys;
  }

  /** A merge needs the target's row, unless the source has no face to hand over. */
  predicate Mergeable(t: Tables, source: PersonId, target: PersonId) {
    target in t.people || FacesOf(t.faces, source) == {}
  }

  lemma MergeKeeps(t: Tables, source: PersonId, target: PersonId)
    requires Inv(t) && Mergeable(t, source, target)
    ensures Inv(Merged(t, source, target))
  {
    hide CountTrue, Recounted, Backfilled;
    if source != target {
      var people := if source in t.people && target in t.people
                    then t.people[target := Backfilled(t.people[target], t.people[source])] else t.people;
      var t1 := Tables(Without(people, {source}), Reparented(t.faces, {source}, Some(target)));
      forall q ensures CountTrue(Recounted(t1, target), q) {
        if q == source {
          GoneIsTrue(t1, q);
        } else if q != target {
          forall f ensures f in FacesOf(t.faces, q) <==> f in FacesOf(t1.faces, q) {}
          CountFrame(t, t1, q);
        }
        RecountTrue(t1, target, q);
      }
      MergeLive(t, t1, source, target);
      RecountLive(t1, target);
    }
  }

  lemma MergeLive(t: Tables, t1: Tables, source: PersonId, target: PersonId)
    requires FacesLive(t) && Mergeable(t, source, target) && source != target
    requires t1.faces == Reparented(t.faces, {source}, Some(target)) && t1.people.Keys == t.people.Keys - {source}
    ensures FacesLive(t1)
  {
    forall f | f in t1.faces && t1.faces[f].person.Some? ensures t1.faces[f].person.value in t1.people {
      if t.faces[f].person == Some(source) { assert f in FacesOf(t.faces, source); }
    }
  }

  lemma {:induction false} MergesKeep(t: Tables, order: seq<PersonId>, target: PersonId)
    requires Inv(t) && target in t.people && target !in SetOf(order)
    ensures Inv(MergedEach(t, order, target)) && target in MergedEach(t, order, target).people
  {
    hide Inv, Recounted, Backfilled;
    if order != [] {
      var front, last := order[..|order| - 1], order[|order| - 1];
      assert order == front + [last];
      SetOfNext(front, last);
      MergesKeep(t, front, target);
      MergeKeeps(MergedEach(t, front, target), last, target);
      TargetStays(MergedEach(t, front, target), last, target);
    }
  }

  lemma TargetStays(t: Tables, source: PersonId, target: PersonId)
    requires source != target && target in t.people
    ensures target in Merged(t, source, target).people
  {}

  // ---- What each write does to the rows -------------------------------------------------------

  predicate Given(s: Option<string>) {
    s.Some? && s.value != ""
  }

  predicate GivenFace(f: Option<int>) {
    f.Some? && f.value != 0
  }

  /** The same name and covers; counts are CountsStayTrue's business. */
  predicate SameIdentity(a: Person, b: Person) {
    a.name == b.name && a.coverUid == b.coverUid && a.coverFace == b.coverFace
  }

  /** Exactly the people in `gone` are gone, and the others are who they were. */
  ghost predicate OnlyGone(people: map<PersonId, Person>, people': map<PersonId, Person>, gone: set<PersonId>) {
    && (forall q :: q in people' <==> q in people && q !in gone)
    && forall q :: q in people' ==> q in people && SameIdentity(people[q], people'[q])
  }

  /** Who is removed when a face moves: its former owner, if that leaves an unnamed person without a
      face. */
  ghost predicate LeftEmpty(t: Tables, f: FaceId, to: Option<PersonId>, q: PersonId) {
    && f in t.faces && t.faces[f].person == Some(q) && to != Some(q)
    && q in t.people && !Given(t.people[q].name)
    && forall g :: g in t.faces && g != f ==> t.faces[g].person != Some(q)
  }

  /** The face is with its new owner, or with nobody; nothing else has moved, and no one but a former
      owner left empty is gone. */
  ghost predicate Moved(t: Tables, f: FaceId, to: Option<PersonId>, t': Tables) {
    && t'.faces.Keys == t.faces.Keys
    && (f in t.faces ==> t'.faces[f] == Face(t.faces[f].photo, to))
    && (forall g :: g in t.faces && g != f ==> t'.faces[g] == t.faces[g])
    && (forall q :: q in t'.people <==> q in t.people && !LeftEmpty(t, f, to, q))
    && (forall q :: q in t'.people ==> q in t.people && SameIdentity(t.people[q], t'.people[q]))
  }

  lemma RecountIdentity(t: Tables, p: PersonId)
    ensures Recounted(t, p).faces == t.faces && OnlyGone(t.people, Recounted(t, p).people, {})
  {
    hide FacesOf, PhotosOf;
  }

  /** A person is collected exactly if it has neither a name nor a face. */
  lemma CollectsNameless(t: Tables, p: PersonId)
    requires CountTrue(t, p)
    ensures GcUnnamed(t, p).faces == t.faces
    ensures OnlyGone(t.people, GcUnnamed(t, p).people,
                     if p in t.people && !Given(t.people[p].name) && (forall f :: f in t.faces ==> t.faces[f].person != Some(p))
                     then {p} else {})
  {
    hide PhotosOf;
    if forall f :: f in t.faces ==> t.faces[f].person != Some(p) {
      NoneIn(FacesOf(t.faces, p));
    } else {
      var f :| f in t.faces && t.faces[f].person == Some(p);
      assert f in FacesOf(t.faces, p);
    }
  }

  lemma ReleaseEffect(t: Tables, owner: Option<PersonId>)
    ensures Released(t, owner).faces == t.faces
    ensures OnlyGone(t.people, Released(t, owner).people,
                     if owner.Some? && owner.value in t.people && !Given(t.people[owner.value].name)
                        && (forall g :: g in t.faces ==> t.faces[g].person != owner)
                     then {owner.value} else {})
  {
    hide GcUnnamed, Recounted, Given;
    if owner.Some? {
      RecountIdentity(t, owner.value);
      RecountTrue(t, owner.value, owner.value);
      CollectsNameless(Recounted(t, owner.value), owner.value);
    } else {
      IdentitySame(t.people);
    }
  }

  lemma IdentityJoins(a: map<PersonId, Person>, b: map<PersonId, Person>, c: map<PersonId, Person>)
    ensures forall q :: q in a && q in b && q in c && SameIdentity(a[q], b[q]) && SameIdentity(b[q], c[q]) ==>
              SameIdentity(a[q], c[q]) && a[q].name == b[q].name
  {}

  lemma IdentitySame(a: map<PersonId, Person>)
    ensures OnlyGone(a, a, {})
  {}

  /** The owner that is released keeps no face exactly if this was its only one. */
  lemma LastFace(t: Tables, f: FaceId, to: Option<PersonId>, q: PersonId)
    requires f in t.faces && t.faces[f].person == Some(q) && to != Some(q)
    ensures (forall g :: g in Put(t, f, to).faces ==> Put(t, f, to).faces[g].person != Some(q))
       <==> (forall g :: g in t.faces && g != f ==> t.faces[g].person != Some(q))
  {
    var faces := Put(t, f, to).faces;
    if forall g :: g in faces ==> faces[g].person != Some(q) {
      forall g | g in t.faces && g != f ensures t.faces[g].person != Some(q) { assert faces[g] == t.faces[g]; }
    }
  }

  /** MAIN RESULT: assigning a face hands exactly this face to the person. */
  lemma AssignMoves(t: Tables, f: FaceId, p: PersonId)
    ensures Moved(t, f, Some(p), Assigned(t, f, p))
  {
    hide Recounted, Released, Given, SameIdentity;
    var owner := OwnerOf(t, f);
    var left := if owner == Some(p) then None else owner;
    var t1 := Put(t, f, Some(p));
    var t2 := Released(t1, left);
    ReleaseEffect(t1, left);
    RecountIdentity(t2, p);
    IdentityJoins(t1.people, t2.people, Recounted(t2, p).people);
    MovedFaces(t, f, Some(p));
    MovedPeople(t, f, Some(p), left, t2.people);
  }

  lemma UnassignMoves(t: Tables, f: FaceId)
    ensures Moved(t, f, None, Unassigned(t, f))
  {
    hide Recounted, Released, Given, SameIdentity;
    var owner := OwnerOf(t, f);
    var t1 := Put(t, f, None);
    ReleaseEffect(t1, owner);
    MovedFaces(t, f, None);
    MovedPeople(t, f, None, owner, Released(t1, owner).people);
  }

  lemma MovedFaces(t: Tables, f: FaceId, to: Option<PersonId>)
    ensures var faces := Put(t, f, to).faces;
      && faces.Keys == t.faces.Keys && (f in t.faces ==> faces[f] == Face(t.faces[f].photo, to))
      && forall g :: g in t.faces && g != f ==> faces[g] == t.faces[g]
  {}

  lemma MovedPeople(t: Tables, f: FaceId, to: Option<PersonId>, left: Option<PersonId>, people': map<PersonId, Person>)
    requires left == if f in t.faces && t.faces[f].person != to then t.faces[f].person else None
    requires var t1 := Put(t, f, to);
      OnlyGone(t1.people, people',
               if left.Some? && left.value in t1.people && !Given(t1.people[left.value].name)
                  && (forall g :: g in t1.faces ==> t1.faces[g].person != left)
               then {left.value} else {})
    ensures forall q :: q in people' <==> q in t.people && !LeftEmpty(t, f, to, q)
    ensures forall q :: q in people' ==> q in t.people && SameIdentity(t.people[q], people'[q])
  {
    hide Given, SameIdentity;
    assert Put(t, f, to).people == t.people;
    if left.Some? { LastFace(t, f, to, left.value); }
  }

  /** MAIN RESULT: what the other writes do to faces and people. */
  lemma InsertAdds(t: Tables, f: FaceId, photo: PhotoId, person: Option<PersonId>)
    ensures var t' := Inserted(t, f, photo, person);
      && t'.faces == t.faces[f := Face(photo, person)] && OnlyGone(t.people, t'.people, {})
  {
    hide Recounted, SameIdentity;
    var t1 := t.(faces := t.faces[f := Face(photo, person)]);
    IdentitySame(t.people);
    if person.Some? { RecountIdentity(t1, person.value); }
  }

  lemma BulkAssignMoves(t: Tables, ids: set<FaceId>, p: PersonId)
    ensures var t' := BulkAssigned(t, ids, p);
      && t'.faces.Keys == t.faces.Keys && OnlyGone(t.people, t'.people, {})
      && forall f :: f in t.faces ==>
           t'.faces[f] == Face(t.faces[f].photo, if f in ids then Some(p) else t.faces[f].person)
  {
    hide Recounted, SameIdentity;
    RecountIdentity(t.(faces := PutAll(t.faces, ids, p)), p);
  }

  /** The faces of the people deleted belong to nobody; every other face is as it was. */
  ghost predicate Freed(faces: map<FaceId, Face>, faces': map<FaceId, Face>, ids: set<PersonId>) {
    forall f :: f in faces && f in faces' ==>
      faces'[f] == Face(faces[f].photo, if faces[f].person.Some? && faces[f].person.value in ids then None
                                        else faces[f].person)
  }

  lemma DeleteReleases(t: Tables, ids: set<PersonId>)
    ensures var t' := DeletedAll(t, ids);
      && t'.faces.Keys == t.faces.Keys && OnlyGone(t.people, t'.people, ids)
      && Freed(t.faces, t'.faces, ids)
  {}

  /** The sweep removes exactly the old enough people with neither a name nor a face. */
  lemma SweepRemoves(t: Tables, aged: set<PersonId>)
    requires Inv(t)
    ensures Swept(t, aged).faces == t.faces
    ensures OnlyGone(t.people, Swept(t, aged).people,
                     set p | p in t.people && p in aged && !Given(t.people[p].name)
                             && (forall f :: f in t.faces ==> t.faces[f].person != Some(p)))
  {
    hide PhotosOf;
    forall p | p in t.people
      ensures (t.people[p].faceCount == 0 && FacesOf(t.faces, p) == {})
         <==> forall f :: f in t.faces ==> t.faces[f].person != Some(p)
    {
      assert CountTrue(t, p);
      if forall f :: f in t.faces ==> t.faces[f].person != Some(p) {
        NoneIn(FacesOf(t.faces, p));
      } else {
        var f :| f in t.faces && t.faces[f].person == Some(p);
        assert f in FacesOf(t.faces, p);
      }
    }
  }

  lemma PurgeDrops(t: Tables, photos: set<PhotoId>)
    ensures var t' := Purged(t, photos);
      && (forall f :: f in t'.faces <==> f in t.faces && t.faces[f].photo !in photos)
      && (forall f :: f in t'.faces ==> t'.faces[f] == t.faces[f])
      && OnlyGone(t.people, t'.people, {})
  {
    hide FacesOf, PhotosOf, Touched;
  }

  /** The target's row after merging sources in order: its own name and covers where it has them,
      otherwise those of the first source that has one. */
  ghost predicate InheritsFirst(own: Option<string>, sources: seq<Option<string>>, result: Option<string>) {
    if Given(own) then result == own
    else if exists i :: 0 <= i < |sources| && Given(sources[i]) then
      exists i :: 0 <= i < |sources| && Given(sources[i]) && result == sources[i]
                  && forall j :: 0 <= j < i ==> !Given(sources[j])
    else result == own
  }

  ghost predicate InheritsFirstFace(own: Option<int>, sources: seq<Option<int>>, result: Option<int>) {
    if GivenFace(own) then result == own
    else if exists i :: 0 <= i < |sources| && GivenFace(sources[i]) then
      exists i :: 0 <= i < |sources| && GivenFace(sources[i]) && result == sources[i]
                  && forall j :: 0 <= j < i ==> !GivenFace(sources[j])
    else result == own
  }

  lemma InheritNext(own: Option<string>, sources: seq<Option<string>>, result: Option<string>, next: Option<string>)
    requires InheritsFirst(own, sources, result)
    ensures InheritsFirst(own, sources + [next], if !Given(result) && Given(next) then next else result)
  {
    var more := sources + [next];
    if !Given(own) {
      if exists i :: 0 <= i < |sources| && Given(sources[i]) {
        var i :| 0 <= i < |sources| && Given(sources[i]) && result == sources[i]
                 && forall j :: 0 <= j < i ==> !Given(sources[j]);
        assert more[i] == sources[i] && forall j :: 0 <= j < i ==> more[j] == sources[j];
      } else if Given(next) {
        assert more[|sources|] == next;
      }
    }
  }

  lemma InheritNextFace(own: Option<int>, sources: seq<Option<int>>, result: Option<int>, next: Option<int>)
    requires InheritsFirstFace(own, sources, result)
    ensures InheritsFirstFace(own, sources + [next], if !GivenFace(result) && GivenFace(next) then next else result)
  {
    var more := sources + [next];
    if !GivenFace(own) {
      if exists i :: 0 <= i < |sources| && GivenFace(sources[i]) {
        var i :| 0 <= i < |sources| && GivenFace(sources[i]) && result == sources[i]
                 && forall j :: 0 <= j < i ==> !GivenFace(sources[j]);
        assert more[i] == sources[i] && forall j :: 0 <= j < i ==> more[j] == sources[j];
      } else if GivenFace(next) {
        assert more[|sources|] == next;
      }
    }
  }

  function NamesOf(people: map<PersonId, Person>, sources: seq<PersonId>): (n: seq<Option<string>>)
    requires AllLive(people, sources)
    ensures |n| == |sources| && forall i :: 0 <= i < |n| ==> n[i] == people[sources[i]].name
  {
    seq(|sources|, i requires 0 <= i < |sources| => people[sources[i]].name)
  }

  function CoverUidsOf(people: map<PersonId, Person>, sources: seq<PersonId>): (n: seq<Option<string>>)
    requires AllLive(people, sources)
    ensures |n| == |sources| && forall i :: 0 <= i < |n| ==> n[i] == people[sources[i]].coverUid
  {
    seq(|sources|, i requires 0 <= i < |sources| => people[sources[i]].coverUid)
  }

  function CoverFacesOf(people: map<PersonId, Person>, sources: seq<PersonId>): (n: seq<Option<int>>)
    requires AllLive(people, sources)
    ensures |n| == |sources| && forall i :: 0 <= i < |n| ==> n[i] == people[sources[i]].coverFace
  {
    seq(|sources|, i requires 0 <= i < |sources| => people[sources[i]].coverFace)
  }

  /** What merging live sources one after another into the target does. */
  ghost predicate MergedInto(t: Tables, sources: seq<PersonId>, target: PersonId, t': Tables)
    requires target in t.people && AllLive(t.people, sources)
  {
    && t'.faces.Keys == t.faces.Keys
    && (forall f :: f in t.faces ==>
          t'.faces[f] == Face(t.faces[f].photo, if t.faces[f].person.Some? && t.faces[f].person.value in SetOf(sources)
                                                then Some(target) else t.faces[f].person))
    && (forall q :: q in t'.people <==> q in t.people && q !in SetOf(sources))
    && (forall q :: q in t'.people && q != target ==> t'.people[q] == t.people[q])
    && target in t'.people
    && InheritsFirst(t.people[target].name, NamesOf(t.people, sources), t'.people[target].name)
    && InheritsFirst(t.people[target].coverUid, CoverUidsOf(t.people, sources), t'.people[target].coverUid)
    && InheritsFirstFace(t.people[target].coverFace, CoverFacesOf(t.people, sources), t'.people[target].coverFace)
  }

  /** One merge: what of the two rows is used. */
  lemma MergeOne(t: Tables, source: PersonId, target: PersonId)
    requires source != target && source in t.people && target in t.people
    ensures var t' := Merged(t, source, target);
      && t'.faces.Keys == t.faces.Keys
      && (forall f :: f in t.faces ==>
            t'.faces[f] == Face(t.faces[f].photo, if t.faces[f].person == Some(source) then Some(target) else t.faces[f].person))
      && (forall q :: q in t'.people <==> q in t.people && q != source)
      && (forall q :: q in t'.people && q != target ==> t'.people[q] == t.people[q])
      && var own, from, got := t.people[target], t.people[source], t'.people[target];
      && got.name == (if !Given(own.name) && Given(from.name) then from.name else own.name)
      && got.coverUid == (if !Given(own.coverUid) && Given(from.coverUid) then from.coverUid else own.coverUid)
      && got.coverFace == (if !GivenFace(own.coverFace) && GivenFace(from.coverFace) then from.coverFace else own.coverFace)
  {
    hide FacesOf, PhotosOf;
  }

  /** MAIN RESULT: a fold of merges over live distinct sources. */
  lemma {:induction false} MergesInherit(t: Tables, sources: seq<PersonId>, target: PersonId)
    requires target in t.people && AllLive(t.people, sources) && Distinct(sources) && target !in SetOf(sources)
    ensures MergedInto(t, sources, target, MergedEach(t, sources, target))
  {
    hide Merged, InheritsFirst, InheritsFirstFace, Given, GivenFace;
    if sources == [] {
      NothingInherited(t, target);
    } else {
      var front, last := sources[..|sources| - 1], sources[|sources| - 1];
      var mid := MergedEach(t, front, target);
      MergesInherit(t, front, target);
      assert sources == front + [last];
      SetOfNext(front, last);
      NotBefore(sources);
      assert last in SetOf(sources);
      MergeOne(mid, last, target);
      InheritMore(t, front, last, target, mid.people[target], MergedEach(t, sources, target).people[target]);
    }
  }

  lemma NotBefore(sources: seq<PersonId>)
    requires sources != [] && Distinct(sources)
    ensures sources[|sources| - 1] !in SetOf(sources[..|sources| - 1]) && Distinct(sources[..|sources| - 1])
  {}

  lemma NothingInherited(t: Tables, target: PersonId)
    requires target in t.people
    ensures MergedInto(t, [], target, t)
  {
    assert SetOf([]) == {};
  }

  lemma InheritMore(t: Tables, front: seq<PersonId>, last: PersonId, target: PersonId, mid: Person, got: Person)
    requires target in t.people && last in t.people && AllLive(t.people, front + [last]) && AllLive(t.people, front)
    requires InheritsFirst(t.people[target].name, NamesOf(t.people, front), mid.name)
    requires InheritsFirst(t.people[target].coverUid, CoverUidsOf(t.people, front), mid.coverUid)
    requires InheritsFirstFace(t.people[target].coverFace, CoverFacesOf(t.people, front), mid.coverFace)
    requires var from := t.people[last];
      && got.name == (if !Given(mid.name) && Given(from.name) then from.name else mid.name)
      && got.coverUid == (if !Given(mid.coverUid) && Given(from.coverUid) then from.coverUid else mid.coverUid)
      && got.coverFace == (if !GivenFace(mid.coverFace) && GivenFace(from.coverFace) then from.coverFace else mid.coverFace)
    ensures InheritsFirst(t.people[target].name, NamesOf(t.people, front + [last]), got.name)
    ensures InheritsFirst(t.people[target].coverUid, CoverUidsOf(t.people, front + [last]), got.coverUid)
    ensures InheritsFirstFace(t.people[target].coverFace, CoverFacesOf(t.people, front + [last]), got.coverFace)
  {
    hide InheritsFirst, InheritsFirstFace, Given, GivenFace;
    var own, from := t.people[target], t.people[last];
    assert (front + [last])[|front|] == last;
    InheritNext(own.name, NamesOf(t.people, front), mid.name, from.name);
    InheritNext(own.coverUid, CoverUidsOf(t.people, front), mid.coverUid, from.coverUid);
    InheritNextFace(own.coverFace, CoverFacesOf(t.people, front), mid.coverFace, from.coverFace);
    assert NamesOf(t.people, front + [last]) == NamesOf(t.people, front) + [from.name];
    assert CoverUidsOf(t.people, front + [last]) == CoverUidsOf(t.people, front) + [from.coverUid];
    assert CoverFacesOf(t.people, front + [last]) == CoverFacesOf(t.people, front) + [from.coverFace];
  }

  // ---- Runs -----------------------------------------------------------------------------------

  datatype Write =
    | InsertFace(f: FaceId, photo: PhotoId, person: Option<PersonId>)
    | Assign(f: FaceId, p: PersonId)
    | Unassign(f: FaceId)
    | AssignBulk(ids: set<FaceId>, p: PersonId)
    | DeletePeople(ids: set<PersonId>)
    | Sweep(ids: set<PersonId>)
    | Create(p: PersonId, name: Option<string>, coverUid: Option<string>, coverFace: Option<int>)
    | Purge(photos: set<PhotoId>)
    | Merge(source: PersonId, target: PersonId)

  /** New ids are new, no foreign key dangles, and bulk assignment takes no face from anyone. */
  predicate Allowed(t: Tables, w: Write) {
    match w
    case InsertFace(f, _, person) => f !in t.faces && (person.Some? ==> person.value in t.people)
    case Assign(f, p) => !Dangles(t, f, p)
    case AssignBulk(ids, p) => p in t.people && NoneTaken(t, ids, p)
    case Create(p, _, _, _) => p !in t.people
    case Merge(source, target) => Mergeable(t, source, target)
    case _ => true
  }

  function Written(t: Tables, w: Write): Tables {
    match w
    case InsertFace(f, photo, person) => Inserted(t, f, photo, person)
    case Assign(f, p) => Assigned(t, f, p)
    case Unassign(f) => Unassigned(t, f)
    case AssignBulk(ids, p) => BulkAssigned(t, ids, p)
    case DeletePeople(ids) => DeletedAll(t, ids)
    case Sweep(ids) => Swept(t, ids)
    case Create(p, name, coverUid, coverFace) => Created(t, p, name, coverUid, coverFace)
    case Purge(photos) => Purged(t, photos)
    case Merge(source, target) => Merged(t, source, target)
  }

  ghost predicate Run(t: Tables, writes: seq<Write>)
    decreases |writes|
  {
    writes == [] || (Allowed(t, writes[0]) && Run(Written(t, writes[0]), writes[1..]))
  }

  ghost function Final(t: Tables, writes: seq<Write>): Tables
    requires Run(t, writes)
    decreases |writes|
  {
    if writes == [] then t else Final(Written(t, writes[0]), writes[1..])
  }

  lemma WriteKeeps(t: Tables, w: Write)
    requires Inv(t) && Allowed(t, w)
    ensures Inv(Written(t, w))
  {
    hide Inv, Inserted, Assigned, Unassigned, BulkAssigned, DeletedAll, Swept, Created, Purged, Merged,
         NoneTaken, Dangles, Mergeable;
    match w
    case InsertFace(f, photo, person) => InsertKeeps(t, f, photo, person);
    case Assign(f, p) => AssignKeeps(t, f, p);
    case Unassign(f) => UnassignKeeps(t, f);
    case AssignBulk(ids, p) => BulkAssignKeepsIff(t, ids, p);
    case DeletePeople(ids) => DeleteKeeps(t, ids);
    case Sweep(ids) => SweepKeeps(t, ids);
    case Create(p, name, coverUid, coverFace) => CreateKeeps(t, p, name, coverUid, coverFace);
    case Purge(photos) => PurgeKeeps(t, photos);
    case Merge(source, target) => MergeKeeps(t, source, target);
  }

  /** MAIN RESULT: after any run of completed writes every person's cached counts are true and every
      face points to a live person or to none. */
  lemma {:induction false} CountsStayTrue(t: Tables, writes: seq<Write>)
    requires Inv(t) && Run(t, writes)
    ensures Inv(Final(t, writes)) && AllCounted(Final(t, writes))
    decreases |writes|
  {
    hide Inv, Allowed, Written, AllCounted;
    if writes != [] {
      WriteKeeps(t, writes[0]);
      CountsStayTrue(Written(t, writes[0]), writes[1..]);
    } else {
      InvCounts(t);
    }
  }

  /** Every person's counts are the number of faces that point to them and of the photos these are on,
      and every face points to a person there is, or to none. */
  ghost predicate AllCounted(t: Tables) {
    && (forall p :: p in t.people ==>
          && t.people[p].faceCount == |set f | f in t.faces && t.faces[f].person == Some(p)|
          && t.people[p].photoCount == |set f | f in t.faces && t.faces[f].person == Some(p) :: t.faces[f].photo|)
    && (forall f :: f in t.faces ==> t.faces[f].person == None || t.faces[f].person.value in t.people)
  }

  lemma InvCounts(t: Tables)
    requires Inv(t)
    ensures AllCounted(t)
  {
    forall p | p in t.people
      ensures t.people[p].faceCount == |set f | f in t.faces && t.faces[f].person == Some(p)|
      ensures t.people[p].photoCount == |set f | f in t.faces && t.faces[f].person == Some(p) :: t.faces[f].photo|
    {
      assert CountTrue(t, p);
      assert FacesOf(t.faces, p) == set f | f in t.faces && t.faces[f].person == Some(p);
      assert PhotosOf(t.faces, p) == set f | f in t.faces && t.faces[f].person == Some(p) :: t.faces[f].photo;
    }
  }

  lemma EmptyTablesTrue()
    ensures Inv(Tables(map[], map[]))
  {}
}
