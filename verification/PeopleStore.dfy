/** The store's methods on the people and face tables, with their chunk loops and accumulators, each
    proved against the table functions of People. A write that would leave a face pointing to a
    missing person fails and is rolled back, as the database's foreign keys demand. */
module PeopleStore {
  import opened Wrappers
  import opened People
  import opened Sets

  // ---- Composing chunks -----------------------------------------------------------------------

  lemma PutAllTwice(faces: map<FaceId, Face>, a: set<FaceId>, b: set<FaceId>, p: PersonId)
    ensures PutAll(PutAll(faces, a, p), b, p) == PutAll(faces, a + b, p)
  {
    forall f | f in faces ensures PutAll(PutAll(faces, a, p), b, p)[f] == PutAll(faces, a + b, p)[f] {}
  }

  lemma PutNone(faces: map<FaceId, Face>, p: PersonId)
    ensures PutAll(faces, {}, p) == faces
  {}

  lemma PutMissing(faces: map<FaceId, Face>, ids: set<FaceId>, p: PersonId)
    requires ids !! faces.Keys
    ensures PutAll(faces, ids, p) == faces
  {}

  lemma DeleteTwice(t: Tables, a: set<PersonId>, b: set<PersonId>)
    ensures DeletedAll(DeletedAll(t, a), b) == DeletedAll(t, a + b)
    ensures |t.people.Keys * (a + b)| == |t.people.Keys * a| + |DeletedAll(t, a).people.Keys * b|
  {
    var once := DeletedAll(t, a);
    forall f | f in t.faces ensures DeletedAll(once, b).faces[f] == DeletedAll(t, a + b).faces[f] {
      assert once.faces[f] == if Belongs(t.faces[f], a) then t.faces[f].(person := None) else t.faces[f];
    }
    assert DeletedAll(once, b).faces == DeletedAll(t, a + b).faces;
    assert DeletedAll(once, b).people == DeletedAll(t, a + b).people;
    var first, second := t.people.Keys * a, once.people.Keys * b;
    assert t.people.Keys * (a + b) == first + second && first !! second;
  }

  lemma DeleteNone(t: Tables)
    ensures DeletedAll(t, {}) == t && t.people.Keys * {} == {}
  {
    forall f | f in t.faces ensures DeletedAll(t, {}).faces[f] == t.faces[f] { assert !Belongs(t.faces[f], {}); }
    assert DeletedAll(t, {}).people == t.people;
  }

  lemma DropTwice(faces: map<FaceId, Face>, a: set<PhotoId>, b: set<PhotoId>)
    ensures Dropped(Dropped(faces, a), b) == Dropped(faces, a + b)
    ensures Touched(faces, a + b) == Touched(faces, a) + Touched(Dropped(faces, a), b)
  {
    forall p ensures p in Touched(faces, a + b) <==> p in Touched(faces, a) + Touched(Dropped(faces, a), b) {
      if p in Touched(faces, a + b) && p !in Touched(faces, a) {
        var f :| f in faces && faces[f].photo in a + b && faces[f].person.Some? && faces[f].person.value == p;
        assert f in Dropped(faces, a) && Dropped(faces, a)[f] == faces[f];
      }
    }
  }

  lemma DropNone(faces: map<FaceId, Face>)
    ensures Dropped(faces, {}) == faces && Touched(faces, {}) == {}
  {}

  lemma RecountAllOne(t: Tables, ids: set<PersonId>, p: PersonId)
    ensures Recounted(RecountedAll(t, ids), p) == RecountedAll(t, ids + {p})
  {
    hide FacesOf, PhotosOf;
    var a, b := Recounted(RecountedAll(t, ids), p).people, RecountedAll(t, ids + {p}).people;
    forall q | q in t.people ensures a[q] == b[q] {}
    assert a == b;
  }

  lemma RecountAllNone(t: Tables)
    ensures RecountedAll(t, {}) == t
  {
    hide FacesOf, PhotosOf;
    assert RecountedAll(t, {}).people == t.people;
  }

  // ---- The bulk merge -------------------------------------------------------------------------

  /** The sources without repeats and without the target, in the order of first occurrence. */
  function FirstSeen(sources: seq<PersonId>, target: PersonId): seq<PersonId> {
    if sources == [] then [] else
      var front, last := sources[..|sources| - 1], sources[|sources| - 1];
      FirstSeen(front, target) + (if last == target || last in front then [] else [last])
  }

  /** Where the k-th chunk starts. */
  function ChunkStart(k: nat, length: nat): (start: nat)
    ensures start <= length
  {
    if k * SQL_CHUNK < length then k * SQL_CHUNK else length
  }

  /** The order lists the live ids chunk by chunk: those of chunks 0 to k are its first `bounds[k]`
      entries. */
  ghost predicate ChunkByChunk(order: seq<PersonId>, bounds: seq<nat>, ids: seq<PersonId>, live: set<PersonId>) {
    forall k :: 0 <= k < |bounds| ==>
      bounds[k] <= |order| && Lists(order[..bounds[k]], SetOf(ids[..ChunkStart(k + 1, |ids|)]) * live)
  }

  lemma ChunkByChunkNext(order: seq<PersonId>, bounds: seq<nat>, ids: seq<PersonId>, live: set<PersonId>, rows: seq<PersonId>)
    requires ChunkByChunk(order, bounds, ids, live)
    requires Lists(order + rows, SetOf(ids[..ChunkStart(|bounds| + 1, |ids|)]) * live)
    ensures ChunkByChunk(order + rows, bounds + [|order + rows|], ids, live)
  {
    hide Lists, ChunkStart;
    assert (order + rows)[..|order + rows|] == order + rows;
    forall k | 0 <= k < |bounds| ensures (order + rows)[..bounds[k]] == order[..bounds[k]] {}
  }

  class PeopleTables {
    var people: map<PersonId, Person>
    var faces: map<FaceId, Face>
    var nextFace: FaceId

    ghost function Model(): Tables
      reads this
    {
      Tables(people, faces)
    }

    /** Ids are handed out in increasing order and never used again. */
    ghost predicate Valid()
      reads this
    {
      Inv(Model()) && forall f :: f in faces ==> f < nextFace
    }

    constructor ()
      ensures Valid() && Model() == Tables(map[], map[])
    {
      people, faces, nextFace := map[], map[], 1;
      new;
      EmptyTablesTrue();
    }

    method RecountPerson(p: PersonId)
      modifies this`people
      ensures Model() == Recounted(old(Model()), p)
    {
      if p in people {
        people := people[p := people[p].(faceCount := |FacesOf(faces, p)|, photoCount := |PhotosOf(faces, p)|)];
      }
    }

    method GcUnnamedPerson(p: PersonId) returns (deleted: bool)
      modifies this`people
      ensures Model() == GcUnnamed(old(Model()), p)
      ensures deleted == (p in old(people) && p !in people)
      ensures deleted ==> !Given(old(people)[p].name) && forall f :: f in faces ==> faces[f].person != Some(p)
    {
      deleted := p in people && Unset(people[p].name) && people[p].faceCount == 0 && FacesOf(faces, p) == {};
      if deleted {
        forall f | f in faces ensures faces[f].person != Some(p) { assert f !in FacesOf(faces, p); }
        people := people - {p};
      }
    }

    method InsertFace(photo: PhotoId, person: Option<PersonId>) returns (inserted: Option<FaceId>)
      requires Valid()
      modifies this`people, this`faces, this`nextFace
      ensures Valid()
      ensures inserted.None? <==> person.Some? && person.value !in old(people)
      ensures inserted.None? ==> Model() == old(Model())
      ensures inserted.Some? ==>
        inserted.value !in old(faces) && Model() == Inserted(old(Model()), inserted.value, photo, person)
      ensures inserted.Some? ==>
        faces == old(faces)[inserted.value := Face(photo, person)] && OnlyGone(old(people), people, {})
    {
      hide Inv, Recounted;
      if person.Some? && person.value !in people { return None; }
      InsertKeeps(Model(), nextFace, photo, person);
      InsertAdds(Model(), nextFace, photo, person);
      var f := nextFace;
      nextFace := nextFace + 1;
      faces := faces[f := Face(photo, person)];
      if person.Some? { RecountPerson(person.value); }
      KeysSame(Model(), old(Model()).(faces := faces));
      return Some(f);
    }

    static lemma KeysSame(t: Tables, t': Tables)
      requires t.faces == t'.faces
      ensures t.faces.Keys == t'.faces.Keys
    {}

    /** False: there is no such person, and nothing changed. */
    method AssignFacePerson(f: FaceId, p: PersonId) returns (ok: bool)
      requires Valid()
      modifies this`people, this`faces
      ensures Valid()
      ensures ok == !Dangles(old(Model()), f, p)
      ensures Model() == if ok then Assigned(old(Model()), f, p) else old(Model())
      ensures ok ==> Moved(old(Model()), f, Some(p), Model())
    {
      hide Inv, Recounted, GcUnnamed, Moved;
      if f in faces && p !in people { return false; }
      AssignKeeps(Model(), f, p);
      AssignMoves(Model(), f, p);
      var owner: Option<PersonId> := if f in faces then faces[f].person else None;
      if f in faces {
        faces := faces[f := faces[f].(person := Some(p))];
      }
      if owner.Some? && owner.value != p {
        RecountPerson(owner.value);
        var gone := GcUnnamedPerson(owner.value);
      }
      RecountPerson(p);
      AssignedFaces(old(Model()), f, p);
      return true;
    }

    static lemma AssignedFaces(t: Tables, f: FaceId, p: PersonId)
      ensures Assigned(t, f, p).faces.Keys == t.faces.Keys
    {
      hide FacesOf, PhotosOf;
    }

    method UnassignFace(f: FaceId)
      requires Valid()
      modifies this`people, this`faces
      ensures Valid() && Model() == Unassigned(old(Model()), f)
      ensures Moved(old(Model()), f, None, Model())
    {
      hide Inv, Recounted, GcUnnamed, Moved;
      UnassignKeeps(Model(), f);
      UnassignMoves(Model(), f);
      var owner: Option<PersonId> := if f in faces then faces[f].person else None;
      if f in faces {
        faces := faces[f := faces[f].(person := None)];
      }
      if owner.Some? {
        RecountPerson(owner.value);
        var gone := GcUnnamedPerson(owner.value);
      }
      UnassignedFaces(old(Model()), f);
    }

    static lemma UnassignedFaces(t: Tables, f: FaceId)
      ensures Unassigned(t, f).faces.Keys == t.faces.Keys
    {
      hide FacesOf, PhotosOf;
    }

    /** False: a listed face exists but the person does not, and nothing changed. */
    method AssignFacesPersonBulk(ids: seq<FaceId>, p: PersonId) returns (ok: bool)
      modifies this`people, this`faces
      ensures ok == (p in old(people) || SetOf(ids) !! old(faces.Keys))
      ensures Model() == if ok && ids != [] then BulkAssigned(old(Model()), SetOf(ids), p) else old(Model())
      ensures ok ==>
        && faces.Keys == old(faces).Keys && OnlyGone(old(people), people, {})
        && forall f :: f in faces ==>
             faces[f] == Face(old(faces)[f].photo, if f in ids then Some(p) else old(faces)[f].person)
    {
      hide PutAll, Recounted, BulkAssigned, OnlyGone;
      BulkEffect(Model(), ids, p);
      var start := 0;
      SetOfNone(ids);
      PutNone(faces, p);
      while start < |ids|
        invariant start <= |ids| && people == old(people)
        invariant faces == PutAll(old(faces), SetOf(ids[..start]), p) && faces.Keys == old(faces.Keys)
        invariant p in people || SetOf(ids[..start]) !! old(faces.Keys)
      {
        var stop := ChunkEnd(start, SQL_CHUNK, |ids|);
        var chunk := SetOf(ids[start..stop]);
        SetOfJoin(ids, start, stop);
        if p !in people && chunk * faces.Keys != {} {
          ghost var f := Pick(chunk * faces.Keys);
          assert f in SetOf(ids) && f in old(faces);
          PutMissing(old(faces), SetOf(ids[..start]), p);
          return false;
        }
        PutAllTwice(old(faces), SetOf(ids[..start]), chunk, p);
        PutAllKeys(faces, chunk, p);
        faces := PutAll(faces, chunk, p);
        start := stop;
      }
      assert ids[..|ids|] == ids;
      if ids != [] {
        RecountPerson(p);
      }
      return true;
    }

    static lemma BulkEffect(t: Tables, ids: seq<FaceId>, p: PersonId)
      ensures OnlyGone(t.people, t.people, {})
      ensures var t' := BulkAssigned(t, SetOf(ids), p);
        && t' == Recounted(t.(faces := PutAll(t.faces, SetOf(ids), p)), p)
        && t'.faces.Keys == t.faces.Keys && OnlyGone(t.people, t'.people, {})
        && forall f :: f in t.faces ==>
             t'.faces[f] == Face(t.faces[f].photo, if f in ids then Some(p) else t.faces[f].person)
    {
      hide Recounted, PutAll;
      IdentitySame(t.people);
      BulkAssignMoves(t, SetOf(ids), p);
      assert forall f :: f in ids <==> f in SetOf(ids);
    }

    static lemma PutAllKeys(faces: map<FaceId, Face>, ids: set<FaceId>, p: PersonId)
      ensures PutAll(faces, ids, p).Keys == faces.Keys
    {}

    method DeletePeopleBulk(ids: seq<PersonId>) returns (deleted: nat)
      modifies this`people, this`faces
      ensures Model() == DeletedAll(old(Model()), SetOf(ids))
      ensures OnlyGone(old(people), people, SetOf(ids)) && faces.Keys == old(faces).Keys
      ensures Freed(old(faces), faces, SetOf(ids))
      ensures deleted == |old(people.Keys) * SetOf(ids)|
    {
      hide DeletedAll, OnlyGone, Freed, Reparented, Without;
      DeleteReleases(Model(), SetOf(ids));
      deleted := 0;
      var start := 0;
      SetOfNone(ids);
      DeleteNone(Model());
      while start < |ids|
        invariant start <= |ids|
        invariant Model() == DeletedAll(old(Model()), SetOf(ids[..start]))
        invariant deleted == |old(people.Keys) * SetOf(ids[..start])|
      {
        var stop := ChunkEnd(start, SQL_CHUNK, |ids|);
        var chunk := SetOf(ids[start..stop]);
        SetOfJoin(ids, start, stop);
        DeleteTwice(old(Model()), SetOf(ids[..start]), chunk);
        DeletedIs(Model(), chunk);
        deleted := deleted + |people.Keys * chunk|;
        faces := Reparented(faces, chunk, None);
        people := Without(people, chunk);
        start := stop;
      }
      assert ids[..|ids|] == ids;
    }

    static lemma DeletedIs(t: Tables, ids: set<PersonId>)
      ensures DeletedAll(t, ids) == Tables(Without(t.people, ids), Reparented(t.faces, ids, None))
    {}

    /** The face side of the purge of deleted photos; returns the people recounted. */
    method PurgeFaces(photos: seq<PhotoId>) returns (touched: set<PersonId>)
      modifies this`people, this`faces
      ensures Model() == Purged(old(Model()), SetOf(photos))
      ensures forall f :: f in faces <==> f in old(faces) && old(faces)[f].photo !in SetOf(photos)
      ensures (forall f :: f in faces ==> faces[f] == old(faces)[f]) && OnlyGone(old(people), people, {})
      ensures touched == Touched(old(faces), SetOf(photos))
    {
      hide Dropped, Touched, RecountedAll, Recounted, OnlyGone;
      PurgeDrops(Model(), SetOf(photos));
      touched := {};
      var start := 0;
      SetOfNone(photos);
      DropNone(faces);
      while start < |photos|
        invariant start <= |photos| && people == old(people)
        invariant faces == Dropped(old(faces), SetOf(photos[..start]))
        invariant touched == Touched(old(faces), SetOf(photos[..start]))
      {
        var stop := ChunkEnd(start, SQL_CHUNK, |photos|);
        var chunk := SetOf(photos[start..stop]);
        SetOfJoin(photos, start, stop);
        DropTwice(old(faces), SetOf(photos[..start]), chunk);
        touched := touched + Touched(faces, chunk);
        faces := Dropped(faces, chunk);
        start := stop;
      }
      assert photos[..|photos|] == photos;
      ghost var dropped := Model();
      var todo := touched;
      RecountAllNone(dropped);
      assert touched - todo == {};
      while todo != {}
        invariant todo <= touched
        invariant Model() == RecountedAll(dropped, touched - todo)
        decreases todo
      {
        ghost var some := Pick(todo);
        var p :| p in todo;
        RecountAllOne(dropped, touched - todo, p);
        assert touched - (todo - {p}) == (touched - todo) + {p};
        RecountPerson(p);
        todo := todo - {p};
      }
      assert touched - todo == touched;
    }

    // ---- Merges -------------------------------------------------------------------------------

    /** False: the source has faces but there is no target, and nothing changed. */
    method MergePerson(source: PersonId, target: PersonId) returns (ok: bool)
      requires Valid()
      modifies this`people, this`faces
      ensures Valid()
      ensures ok == (source == target || Mergeable(old(Model()), source, target))
      ensures Model() == if ok then Merged(old(Model()), source, target) else old(Model())
      ensures source != target && source in old(people) && target in old(people) ==>
        MergedInto(old(Model()), [source], target, Model())
    {
      hide Inv, Recounted, FacesOf, MergedInto;
      if source != target && source in people && target in people { MergesOnce(Model(), source, target); }
      if source == target { return true; }
      if target !in people && FacesOf(faces, source) != {} { return false; }
      MergeKeeps(Model(), source, target);
      if source in people && target in people {
        var src, tgt := people[source], people[target];
        if Unset(tgt.name) && !Unset(src.name) {
          people := people[target := people[target].(name := src.name)];
        }
        if Unset(tgt.coverUid) && !Unset(src.coverUid) {
          people := people[target := people[target].(coverUid := src.coverUid)];
        }
        if NoFace(tgt.coverFace) && !NoFace(src.coverFace) {
          people := people[target := people[target].(coverFace := src.coverFace)];
        }
        assert people == old(people)[target := Backfilled(tgt, src)];
      }
      faces := Reparented(faces, {source}, Some(target));
      people := Without(people, {source});
      RecountPerson(target);
      assert faces.Keys == old(faces.Keys);
      return true;
    }

    static lemma MergesOnce(t: Tables, source: PersonId, target: PersonId)
      requires source != target && source in t.people && target in t.people
      ensures MergedInto(t, [source], target, Merged(t, source, target))
    {
      hide Merged, MergedInto;
      assert [source][..0] == [] && MergedEach(t, [], target) == t;
      MergesInherit(t, [source], target);
    }

    /** Drops repeats and the target, keeping the order of first occurrence. */
    static method DistinctSources(sources: seq<PersonId>, target: PersonId) returns (ids: seq<PersonId>)
      ensures ids == FirstSeen(sources, target)
      ensures Distinct(ids) && SetOf(ids) == SetOf(sources) - {target}
    {
      hide Distinct, SetOf, FirstSeen;
      var seen: set<PersonId> := {};
      ids := [];
      var i := 0;
      FirstSeenNone(target);
      while i < |sources|
        invariant 0 <= i <= |sources|
        invariant ids == FirstSeen(sources[..i], target) && seen == SetOf(sources[..i]) - {target}
      {
        var s := sources[i];
        FirstSeenNext(sources, i, target);
        if s != target && s !in seen {
          seen := seen + {s};
          ids := ids + [s];
        }
        i := i + 1;
      }
      assert sources[..|sources|] == sources;
      FirstSeenDistinct(sources, target);
    }

    static lemma FirstSeenNone(target: PersonId)
      ensures FirstSeen([][..0], target) == [] && SetOf([]) == {}
    {}

    static lemma FirstSeenNext(sources: seq<PersonId>, i: nat, target: PersonId)
      requires i < |sources|
      ensures SetOf(sources[..i + 1]) == SetOf(sources[..i]) + {sources[i]}
      ensures FirstSeen(sources[..i + 1], target) == FirstSeen(sources[..i], target)
           + (if sources[i] == target || sources[i] in SetOf(sources[..i]) then [] else [sources[i]])
    {
      assert sources[..i + 1] == sources[..i] + [sources[i]];
      assert sources[..i + 1][..i] == sources[..i];
      SetOfNext(sources[..i], sources[i]);
    }

    static lemma {:induction false} FirstSeenDistinct(sources: seq<PersonId>, target: PersonId)
      ensures Distinct(FirstSeen(sources, target)) && SetOf(FirstSeen(sources, target)) == SetOf(sources) - {target}
    {
      if sources != [] {
        var front, last := sources[..|sources| - 1], sources[|sources| - 1];
        FirstSeenDistinct(front, target);
        assert sources == front + [last];
        SetOfNext(front, last);
        if last != target && last !in front {
          AsNext(FirstSeen(front, target), last);
        } else {
          assert FirstSeen(sources, target) == FirstSeen(front, target);
        }
      }
    }

    /** In the order of their first occurrences. */
    static lemma {:induction false} FirstSeenInOrder(sources: seq<PersonId>, target: PersonId, i: nat, j: nat) returns (k: nat)
      requires i < j < |FirstSeen(sources, target)|
      ensures k < |sources| && sources[k] == FirstSeen(sources, target)[i]
      ensures FirstSeen(sources, target)[j] !in sources[..k + 1]
    {
      var front, last := sources[..|sources| - 1], sources[|sources| - 1];
      var ids := FirstSeen(front, target);
      assert sources == front + [last];
      FirstSeenDistinct(front, target);
      if j < |ids| {
        k := FirstSeenInOrder(front, target, i, j);
        assert sources[..k + 1] == front[..k + 1];
      } else {
        assert ids[i] in SetOf(ids);
        k :| 0 <= k < |front| && front[k] == ids[i];
        assert sources[..k + 1] == front[..k + 1];
        forall x | x in front[..k + 1] ensures x in front {}
      }
    }

    static lemma AsNext(ids: seq<PersonId>, s: PersonId)
      requires Distinct(ids) && s !in SetOf(ids)
      ensures Distinct(ids + [s]) && SetOf(ids + [s]) == SetOf(ids) + {s}
    {
      forall i | 0 <= i < |ids| ensures ids[i] in SetOf(ids) {}
    }

    /** One chunk in one transaction. `rows` is the order in which the live sources came. */
    method MergeChunk(ids: set<PersonId>, target: PersonId) returns (merged: nat, ghost rows: seq<PersonId>)
      requires target in people && target !in ids
      modifies this`people, this`faces
      ensures Lists(rows, ids * old(people.Keys)) && AllLive(old(people), rows) && merged == |rows|
      ensures Model() == MergedChunk(old(Model()), ids, rows, target)
    {
      hide Distinct, Unset, NoFace;
      var live := Rows(ids * people.Keys);
      rows := live;
      forall i | 0 <= i < |live| ensures live[i] in old(people) { assert live[i] in SetOf(live); }
      var tName, tCover, tFace := people[target].name, people[target].coverUid, people[target].coverFace;
      merged := 0;
      var i := 0;
      while i < |live|
        invariant 0 <= i <= |live| && merged == i && faces == old(faces)
        invariant people == old(people)[target := BackfilledEach(old(people), live[..i], old(people)[target])]
        invariant tName == people[target].name && tCover == people[target].coverUid && tFace == people[target].coverFace
      {
        assert live[..i + 1][..i] == live[..i];
        assert live[i] in SetOf(live);
        var src := people[live[i]];
        if Unset(tName) && !Unset(src.name) {
          tName := src.name;
          people := people[target := people[target].(name := tName)];
        }
        if Unset(tCover) && !Unset(src.coverUid) {
          tCover := src.coverUid;
          people := people[target := people[target].(coverUid := tCover)];
        }
        if NoFace(tFace) && !NoFace(src.coverFace) {
          tFace := src.coverFace;
          people := people[target := people[target].(coverFace := tFace)];
        }
        merged := merged + 1;
        i := i + 1;
      }
      assert live[..|live|] == live;
      faces := Reparented(faces, ids, Some(target));
      people := Without(people, ids);
    }

    /** MAIN RESULT: the bulk merge ends in the tables that merging the live distinct sources one by
        one would, in the order its queries returned them, chunk by chunk, with the target
        recounted; it returns how many there were. Without a target it does nothing. */
    method MergePeopleBulk(sources: seq<PersonId>, target: PersonId)
      returns (merged: nat, ghost order: seq<PersonId>, ghost bounds: seq<nat>)
      requires Valid()
      modifies this`people, this`faces
      ensures Valid()
      ensures target !in old(people) ==> merged == 0 && Model() == old(Model())
      ensures target in old(people) ==>
        && Lists(order, (SetOf(sources) - {target}) * old(people.Keys)) && merged == |order|
        && ChunkByChunk(order, bounds, FirstSeen(sources, target), old(people.Keys))
        && ChunkStart(|bounds|, |FirstSeen(sources, target)|) == |FirstSeen(sources, target)|
        && Model() == MergedEach(old(Model()), order, target)
        && AllLive(old(people), order) && MergedInto(old(Model()), order, target, Model())
    {
      hide Inv, Recounted, MergedChunk, SameButCounts, MergedEach, Merged, ChunkByChunk, MergedInto;
      order, bounds := [], [];
      NoChunks(FirstSeen(sources, target), people.Keys);
      var ids := DistinctSources(sources, target);
      merged := 0;
      if ids == [] {
        NothingToMerge(old(Model()), target);
        if target in people { Inherits(Model(), order, sources, target); }
        return;
      }
      ghost var start0 := Model();
      SetOfNone(ids);
      if target in people {
        NothingToMerge(start0, target);
        LiveFaces(start0);
      }
      var start := 0;
      while start < |ids|
        invariant start <= |ids| && merged == |order|
        invariant nextFace == old(nextFace) && faces.Keys == old(faces.Keys)
        invariant target !in old(people) ==> Model() == old(Model()) && merged == 0
        invariant target in old(people) ==>
          && SameButCounts(Model(), MergedEach(start0, order, target), target) && FacesLive(Model())
          && Lists(order, SetOf(ids[..start]) * old(people.Keys))
          && people.Keys == old(people.Keys) - SetOf(ids[..start])
          && ChunkByChunk(order, bounds, ids, old(people.Keys)) && start == ChunkStart(|bounds|, |ids|)
      {
        if target !in people {
          TargetKept(Model(), MergedEach(start0, order, target), target, target in old(people));
          return;
        }
        var stop := ChunkEnd(start, SQL_CHUNK, |ids|);
        var chunk := SetOf(ids[start..stop]);
        SetOfJoin(ids, start, stop);
        ChunkApart(ids, start, stop);
        assert chunk <= SetOf(ids) by { assert SetOf(ids[..stop]) <= SetOf(ids); }
        ghost var before := Model();
        var n, rows := MergeChunk(chunk, target);
        ChunkStep(start0, before, order, chunk, rows, target);
        OrderJoin(order, SetOf(ids[..start]) * old(people.Keys), rows, chunk * old(people.Keys));
        ChunkFaces(before, chunk, rows, target);
        assert chunk * before.people.Keys == chunk * old(people.Keys);
        BoundsNext(order, bounds, rows, ids, start, stop, old(people.Keys));
        bounds := bounds + [|order + rows|];
        order := order + rows;
        merged := merged + n;
        start := stop;
      }
      assert ids[..|ids|] == ids;
      if target in old(people) {
        RecountSame(Model(), MergedEach(start0, order, target), target);
        RecountedEach(start0, order, target);
        Inherits(start0, order, sources, target);
      }
      RecountPerson(target);
      MissingTarget(old(Model()), target);
    }

    static lemma Inherits(t: Tables, order: seq<PersonId>, sources: seq<PersonId>, target: PersonId)
      requires target in t.people && Lists(order, (SetOf(sources) - {target}) * t.people.Keys)
      ensures AllLive(t.people, order) && MergedInto(t, order, target, MergedEach(t, order, target))
    {
      hide MergedEach, MergedInto;
      forall i | 0 <= i < |order| ensures order[i] in t.people { assert order[i] in SetOf(order); }
      MergesInherit(t, order, target);
    }

    static lemma NoChunks(ids: seq<PersonId>, live: set<PersonId>)
      ensures ChunkByChunk([], [], ids, live)
    {}

    static lemma BoundsNext(order: seq<PersonId>, bounds: seq<nat>, rows: seq<PersonId>, ids: seq<PersonId>,
                            start: nat, stop: nat, live: set<PersonId>)
      requires ChunkByChunk(order, bounds, ids, live) && start == ChunkStart(|bounds|, |ids|) < |ids|
      requires stop == ChunkEnd(start, SQL_CHUNK, |ids|) && Lists(order + rows, SetOf(ids[..stop]) * live)
      ensures ChunkByChunk(order + rows, bounds + [|order + rows|], ids, live)
      ensures stop == ChunkStart(|bounds| + 1, |ids|)
    {
      hide ChunkByChunk, Lists;
      ChunkByChunkNext(order, bounds, ids, live, rows);
    }

    static lemma NothingToMerge(t: Tables, target: PersonId)
      ensures MergedEach(t, [], target) == t
      ensures target in t.people ==> SameButCounts(t, t, target)
      ensures SetOf([]) == {}
    {
      hide Merged;
    }

    static lemma LiveFaces(t: Tables)
      requires Inv(t)
      ensures FacesLive(t)
    {}

    static lemma MissingTarget(t: Tables, target: PersonId)
      ensures target !in t.people ==> Recounted(t, target) == t
    {}

    static lemma TargetKept(t: Tables, t': Tables, target: PersonId, alive: bool)
      requires alive ==> SameButCounts(t, t', target)
      ensures alive ==> target in t.people
    {}

    static lemma ChunkApart(ids: seq<PersonId>, start: nat, stop: nat)
      requires Distinct(ids) && start <= stop <= |ids|
      ensures SetOf(ids[..start]) !! SetOf(ids[start..stop])
    {}

    static lemma OrderJoin(order: seq<PersonId>, a: set<PersonId>, rows: seq<PersonId>, b: set<PersonId>)
      requires Lists(order, a) && Lists(rows, b) && a !! b
      ensures Lists(order + rows, a + b)
    {
      forall i | 0 <= i < |order| ensures order[i] in a { assert order[i] in SetOf(order); }
      forall i | 0 <= i < |rows| ensures rows[i] in b { assert rows[i] in SetOf(rows); }
      assert SetOf(order + rows) == SetOf(order) + SetOf(rows);
    }

    static lemma ChunkFaces(t: Tables, ids: set<PersonId>, rows: seq<PersonId>, target: PersonId)
      requires target in t.people && AllLive(t.people, rows)
      ensures MergedChunk(t, ids, rows, target).faces.Keys == t.faces.Keys
    {
      hide BackfilledEach;
    }

    /** The single merges leave the target counted already, and the counts stay true throughout. */
    static lemma RecountedEach(t: Tables, order: seq<PersonId>, target: PersonId)
      requires Inv(t) && target in t.people && target !in SetOf(order)
      ensures Inv(MergedEach(t, order, target))
      ensures Recounted(MergedEach(t, order, target), target) == MergedEach(t, order, target)
    {
      hide MergedEach, FacesOf, PhotosOf;
      MergesKeep(t, order, target);
      assert CountTrue(MergedEach(t, order, target), target);
    }
  }
}
