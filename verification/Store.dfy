/** The store's methods on the photo and album tables, with the chunk loops, accumulators and
    dictionaries they use, each proved against the table functions of Photos and Albums. Queries
    return their rows in any order. Main result: after an albums sync the counted rows agree with a
    recount from the photos. */
module Store {
  import opened Wrappers
  import opened Photos
  import opened Albums
  import opened Sets

  const UPSERT_CHUNK: nat := 1000

  // ---- Composing statements -------------------------------------------------------------------

  lemma MarkTwice(albums: map<Album, AlbumRow>, a: set<Album>, b: set<Album>)
    ensures MarkDirty(MarkDirty(albums, a), b) == MarkDirty(albums, a + b)
  {}

  lemma MarkNone(albums: map<Album, AlbumRow>)
    ensures MarkDirty(albums, {}) == albums
  {}

  lemma AlbumsOfJoin(photos: Table, a: set<Uid>, b: set<Uid>)
    ensures AlbumsOf(photos, a + b) == AlbumsOf(photos, a) + AlbumsOf(photos, b)
  {}

  function ActiveAmong(photos: Table, uids: set<Uid>): set<Uid> {
    set u | u in uids && u in photos && Active(photos[u])
  }

  lemma StageTwice(photos: Table, a: set<Uid>, b: set<Uid>, now: int)
    ensures Staged(Staged(photos, a, now), b, now) == Staged(photos, a + b, now)
    ensures |ActiveAmong(photos, a + b)| == |ActiveAmong(photos, a)| + |ActiveAmong(Staged(photos, a, now), b)|
  {
    var once := Staged(photos, a, now);
    forall u | u in photos
      ensures Staged(once, b, now)[u] == Staged(photos, a + b, now)[u]
      ensures Active(once[u]) <==> Active(photos[u]) && u !in a
    {
      StagedIs(photos, a, now, u);
    }
    assert Staged(once, b, now) == Staged(photos, a + b, now);
    var first, second := ActiveAmong(photos, a), ActiveAmong(once, b);
    assert ActiveAmong(photos, a + b) == first + second;
    assert first !! second;
  }

  lemma StagedIs(photos: Table, uids: set<Uid>, now: int, u: Uid)
    requires u in photos
    ensures u in Staged(photos, uids, now)
    ensures Staged(photos, uids, now)[u] == if u in uids then StagedRow(photos[u], now) else photos[u]
  {}

  lemma StageNone(photos: Table, now: int)
    ensures Staged(photos, {}, now) == photos && ActiveAmong(photos, {}) == {}
  {}

  /** The rows of an upsert, one after another. */
  function UpsertEach(t: Tables, items: seq<Item>): Tables {
    if items == [] then t else UpsertOne(UpsertEach(t, items[..|items| - 1]), items[|items| - 1])
  }

  lemma {:induction false} UpsertJoin(t: Tables, a: seq<Item>, b: seq<Item>)
    ensures UpsertEach(UpsertEach(t, a), b) == UpsertEach(t, a + b)
  {
    hide UpsertOne;
    if b == [] {
      assert a + b == a;
    } else {
      assert (a + b)[..|a + b| - 1] == a + b[..|b| - 1];
      UpsertJoin(t, a, b[..|b| - 1]);
    }
  }

  lemma {:induction false} UpsertAllLast(photos: Table, items: seq<Item>)
    requires items != []
    ensures UpsertAll(photos, items) == Upserted(UpsertAll(photos, items[..|items| - 1]), items[|items| - 1])
    decreases |items|
  {
    hide Upserted;
    if |items| > 1 {
      var front := items[..|items| - 1];
      assert items[1..][..|items| - 2] == front[1..];
      UpsertAllLast(Upserted(photos, items[0]), items[1..]);
    }
  }

  /** On the photo table this is the upsert of the deletion protocol. */
  lemma {:induction false} UpsertEachPhotos(t: Tables, items: seq<Item>)
    ensures UpsertEach(t, items).photos == UpsertAll(t.photos, items)
  {
    hide Upserted, UpsertDirties, MarkDirty, Mirrored;
    if items != [] {
      UpsertEachPhotos(t, items[..|items| - 1]);
      UpsertAllLast(t.photos, items);
    }
  }

  lemma AllSynced(t: Tables, items: seq<Item>)
    ensures var photos := UpsertEach(t, items).photos;
      forall u :: match LastItem(items, u)
                  case None => PhotoAt(photos, u) == PhotoAt(t.photos, u)
                  case Some(item) => u in photos && Synced(PhotoAt(t.photos, u), item, photos[u])
  {
    hide UpsertEach, UpsertAll, Synced, LastItem;
    UpsertEachPhotos(t, items);
    forall u
      ensures match LastItem(items, u)
              case None => PhotoAt(UpsertAll(t.photos, items), u) == PhotoAt(t.photos, u)
              case Some(item) => u in UpsertAll(t.photos, items) && Synced(PhotoAt(t.photos, u), item, UpsertAll(t.photos, items)[u])
    {
      UpsertAllSyncs(t.photos, items, u);
    }
  }

  // ---- Claims ---------------------------------------------------------------------------------

  function Claimable(photos: Table, uids: set<Uid>): set<Uid> {
    set u | u in uids && u in photos && photos[u].status.New?
  }

  /** The steps that make a photo new again: its claim is released, or a stuck download is reset. */
  predicate GivesBack(step: PipelineStep, u: Uid) {
    (step.ReleaseClaims? && u in step.uids) || step.ResetStuck?
  }

  function PipedAll(photos: Table, steps: seq<PipelineStep>): Table {
    if steps == [] then photos else Piped(PipedAll(photos, steps[..|steps| - 1]), steps[|steps| - 1])
  }

  lemma {:induction false} NotNewAgain(photos: Table, steps: seq<PipelineStep>, u: Uid)
    requires u in photos && !photos[u].status.New?
    requires forall i :: 0 <= i < |steps| ==> !GivesBack(steps[i], u)
    ensures u in PipedAll(photos, steps) && !PipedAll(photos, steps)[u].status.New?
  {
    if steps != [] {
      NotNewAgain(photos, steps[..|steps| - 1], u);
      assert !GivesBack(steps[|steps| - 1], u);
    }
  }

  /** No photo is handed out twice: whatever the pipeline does after a claim, a later claim for any
      photos leaves out those claimed, unless a step gave one back; and a claim right after takes
      exactly the new ones that are left. */
  lemma ClaimedOnce(photos: Table, first: set<Uid>, steps: seq<PipelineStep>, second: set<Uid>)
    ensures var after := Piped(photos, ClaimForDownload(first));
      && Claimable(after, second) == Claimable(photos, second) - Claimable(photos, first)
      && forall u :: u in Claimable(photos, first) && (forall i :: 0 <= i < |steps| ==> !GivesBack(steps[i], u))
           ==> u !in Claimable(PipedAll(after, steps), second)
  {
    hide GivesBack, PipedAll;
    var after := Piped(photos, ClaimForDownload(first));
    forall u | u in Claimable(photos, first) && (forall i :: 0 <= i < |steps| ==> !GivesBack(steps[i], u))
      ensures u !in Claimable(PipedAll(after, steps), second)
    {
      NotNewAgain(after, steps, u);
    }
  }

  // ---- The full rescan's dictionaries ---------------------------------------------------------

  datatype Dicts = Dicts(
    counts: map<Album, nat>,
    covers: map<Album, (int, Uid)>,
    spans: map<Album, (Option<int>, Option<int>)>,
    membership: map<Album, seq<Uid>>)

  function SpanOf(d: Dicts, a: Album): (Option<int>, Option<int>) {
    if a in d.spans then d.spans[a] else (None, None)
  }

  /** The totals the dictionaries hold for an album. */
  function View(d: Dicts, a: Album): Totals {
    Totals(if a in d.counts then d.counts[a] else 0,
           if a in d.covers then d.covers[a].0 else 0,
           if a in d.covers then Some(d.covers[a].1) else None,
           SpanOf(d, a).0, SpanOf(d, a).1)
  }

  ghost predicate TracksOne(d: Dicts, photos: Table, rows: seq<Uid>, a: Album) {
    && AllIn(photos, rows)
    && (a in d.counts <==> rows != []) && (a in d.membership <==> rows != [])
    && (a in d.covers <==> rows != []) && (a in d.spans ==> rows != [])
    && (rows != [] ==> d.membership[a] == rows)
    && View(d, a) == Rescanned(photos, rows)
  }

  lemma {:induction false} RescannedShape(photos: Table, rows: seq<Uid>)
    requires AllIn(photos, rows)
    ensures Rescanned(photos, rows).n == |rows|
    ensures Rescanned(photos, rows).cover.Some? <==> rows != []
  {
    if rows != [] { RescannedShape(photos, rows[..|rows| - 1]); }
  }

  lemma RescannedNext(photos: Table, rows: seq<Uid>, u: Uid)
    requires AllIn(photos, rows) && u in photos
    ensures AllIn(photos, rows + [u])
    ensures var t := Rescanned(photos, rows);
      Rescanned(photos, rows + [u]) == Tallied(t, u, Ts(photos[u]), t.cover.None? || Ts(photos[u]) >= t.coverTs)
  {
    assert (rows + [u])[..|rows + [u]| - 1] == rows;
  }

  /** The mentions of a seen when the loops are at row i and at the k-th album it lists. */
  function SoFar(photos: Table, rows: seq<Uid>, i: nat, k: nat, a: Album): seq<Uid>
    requires AllIn(photos, rows) && i <= |rows| && (i < |rows| ==> k <= |photos[rows[i]].albums|)
  {
    Listing(photos, rows[..i], a)
      + (if i < |rows| then Occurrences(photos[rows[i]].albums[..k], a, rows[i]) else [])
  }

  ghost predicate Tracks(d: Dicts, photos: Table, rows: seq<Uid>, i: nat, k: nat)
    requires AllIn(photos, rows) && i <= |rows| && (i < |rows| ==> k <= |photos[rows[i]].albums|)
  {
    forall a :: TracksOne(d, photos, SoFar(photos, rows, i, k, a), a)
  }

  /** One mention of album a by photo u entered in the dictionaries. */
  function Entered(d: Dicts, a: Album, u: Uid, ts: int): Dicts
    requires a in d.counts ==> a in d.membership
  {
    var (lo, hi) := SpanOf(d, a);
    Dicts(d.counts[a := (if a in d.counts then d.counts[a] else 0) + 1],
          if a !in d.covers || ts >= d.covers[a].0 then d.covers[a := (ts, u)] else d.covers,
          if ts != 0 then d.spans[a := (if lo.None? || ts < lo.value then Some(ts) else lo,
                                        if hi.None? || ts > hi.value then Some(ts) else hi)] else d.spans,
          d.membership[a := (if a in d.membership then d.membership[a] else []) + [u]])
  }

  lemma EnteredTracks(d: Dicts, photos: Table, rows: seq<Uid>, a: Album, u: Uid)
    requires TracksOne(d, photos, rows, a) && u in photos
    ensures TracksOne(Entered(d, a, u, Ts(photos[u])), photos, rows + [u], a)
  {
    hide Rescanned, Ts;
    RescannedNext(photos, rows, u);
    RescannedShape(photos, rows);
  }

  lemma EnteredOther(d: Dicts, photos: Table, rows: seq<Uid>, a: Album, b: Album, u: Uid, ts: int)
    requires TracksOne(d, photos, rows, b) && a != b && (a in d.counts ==> a in d.membership)
    ensures TracksOne(Entered(d, a, u, ts), photos, rows, b)
  {
    hide Rescanned;
  }

  lemma MentionStep(d: Dicts, photos: Table, rows: seq<Uid>, i: nat, k: nat)
    requires AllIn(photos, rows) && i < |rows| && k < |photos[rows[i]].albums| && Tracks(d, photos, rows, i, k)
    ensures var a := photos[rows[i]].albums[k];
      (a in d.counts ==> a in d.membership)
      && Tracks(Entered(d, a, rows[i], Ts(photos[rows[i]])), photos, rows, i, k + 1)
  {
    hide TracksOne, Entered, Listing, Ts;
    var u := rows[i];
    var a := photos[u].albums[k];
    assert TracksOne(d, photos, SoFar(photos, rows, i, k, a), a);
    SameKeys(d, photos, SoFar(photos, rows, i, k, a), a);
    var d', next := Entered(d, a, u, Ts(photos[u])), k + 1;
    forall b ensures TracksOne(d', photos, SoFar(photos, rows, i, next, b), b) {
      assert TracksOne(d, photos, SoFar(photos, rows, i, k, b), b);
      SoFarStep(photos, rows, i, k, b);
      if a == b {
        EnteredTracks(d, photos, SoFar(photos, rows, i, k, b), a, u);
      } else {
        EnteredOther(d, photos, SoFar(photos, rows, i, k, b), a, b, u, Ts(photos[u]));
      }
    }
  }

  lemma SameKeys(d: Dicts, photos: Table, rows: seq<Uid>, a: Album)
    requires TracksOne(d, photos, rows, a)
    ensures a in d.counts ==> a in d.membership
  {}

  lemma SoFarStep(photos: Table, rows: seq<Uid>, i: nat, k: nat, b: Album)
    requires AllIn(photos, rows) && i < |rows| && k < |photos[rows[i]].albums|
    ensures photos[rows[i]].albums[k] == b ==> SoFar(photos, rows, i, k + 1, b) == SoFar(photos, rows, i, k, b) + [rows[i]]
    ensures photos[rows[i]].albums[k] != b ==> SoFar(photos, rows, i, k + 1, b) == SoFar(photos, rows, i, k, b)
  {
    hide Listing;
    assert photos[rows[i]].albums[..k + 1][..k] == photos[rows[i]].albums[..k];
  }

  lemma RowStep(d: Dicts, photos: Table, rows: seq<Uid>, i: nat)
    requires AllIn(photos, rows) && i < |rows| && Tracks(d, photos, rows, i, |photos[rows[i]].albums|)
    ensures Tracks(d, photos, rows, i + 1, 0)
  {
    hide TracksOne;
    var next := i + 1;
    forall a ensures TracksOne(d, photos, SoFar(photos, rows, next, 0, a), a) {
      assert TracksOne(d, photos, SoFar(photos, rows, i, |photos[rows[i]].albums|, a), a);
      NextRow(photos, rows, i, a);
    }
  }

  lemma NextRow(photos: Table, rows: seq<Uid>, i: nat, a: Album)
    requires AllIn(photos, rows) && i < |rows|
    ensures SoFar(photos, rows, i + 1, 0, a) == SoFar(photos, rows, i, |photos[rows[i]].albums|, a)
  {
    var u := rows[i];
    assert rows[..i + 1][..i] == rows[..i];
    assert photos[u].albums[..|photos[u].albums|] == photos[u].albums;
    assert Listing(photos, rows[..i + 1], a) == Listing(photos, rows[..i], a) + Occurrences(photos[u].albums, a, u);
    if i + 1 < |rows| { assert photos[rows[i + 1]].albums[..0] == []; }
  }

  lemma TracksNothing(photos: Table, rows: seq<Uid>)
    requires AllIn(photos, rows)
    ensures Tracks(Dicts(map[], map[], map[], map[]), photos, rows, 0, 0)
  {
    assert rows[..0] == [];
    if rows != [] { assert photos[rows[0]].albums[..0] == []; }
  }

  lemma TracksAll(d: Dicts, photos: Table, rows: seq<Uid>)
    requires AllIn(photos, rows) && Tracks(d, photos, rows, |rows|, 0)
    ensures forall a :: TracksOne(d, photos, Listing(photos, rows, a), a)
  {
    hide TracksOne;
    assert rows[..|rows|] == rows;
    forall a ensures TracksOne(d, photos, Listing(photos, rows, a), a) {
      assert TracksOne(d, photos, SoFar(photos, rows, |rows|, 0, a), a);
      assert SoFar(photos, rows, |rows|, 0, a) == Listing(photos, rows, a);
    }
  }

  lemma {:induction false} ListingMentions(photos: Table, rows: seq<Uid>, a: Album)
    requires AllIn(photos, rows)
    ensures forall x :: x in Listing(photos, rows, a) <==> x in rows && a in photos[x].albums
  {
    if rows != [] {
      var front, u := rows[..|rows| - 1], rows[|rows| - 1];
      ListingMentions(photos, front, a);
      OccurrencesAre(photos[u].albums, a, u);
      assert rows == front + [u];
      var more := Occurrences(photos[u].albums, a, u);
      forall x ensures x in more <==> x == u && a in photos[u].albums {
        if more != [] { assert more[0] == u; }
      }
    }
  }

  /** The tables with the albums in `done` written back from the dictionaries. */
  function RowsBack(albums: map<Album, AlbumRow>, d: Dicts, done: set<Album>): (rows: map<Album, AlbumRow>)
    ensures rows.Keys == albums.Keys
  {
    map a | a in albums :: if a in done then RowOf(View(d, a)) else albums[a]
  }

  function MirrorBack(mirror: set<(Uid, Album)>, d: Dicts, done: set<Album>): set<(Uid, Album)>
    requires done <= d.membership.Keys
  {
    (set e | e in mirror && e.1 !in done) + (set a, u | a in done && u in d.membership[a] :: (u, a))
  }

  lemma BackNone(albums: map<Album, AlbumRow>, mirror: set<(Uid, Album)>, d: Dicts)
    ensures RowsBack(albums, d, {}) == albums && MirrorBack(mirror, d, {}) == mirror
  {}

  lemma BackOne(albums: map<Album, AlbumRow>, mirror: set<(Uid, Album)>, d: Dicts, done: set<Album>, a: Album)
    requires done <= d.membership.Keys && a in d.membership && a !in done
    ensures RowsBack(albums, d, done + {a})
         == if a in albums then RowsBack(albums, d, done)[a := RowOf(View(d, a))] else RowsBack(albums, d, done)
    ensures MirrorBack(mirror, d, done + {a})
         == (set e | e in MirrorBack(mirror, d, done) && e.1 != a) + (set u | u in d.membership[a] :: (u, a))
  {}

  lemma BackAll(t: Tables, rows: seq<Uid>, d: Dicts)
    requires AllIn(t.photos, rows) && forall a :: TracksOne(d, t.photos, Listing(t.photos, rows, a), a)
    ensures d.counts.Keys <= d.membership.Keys
    ensures RescanAll(t, rows).albums == RowsBack(t.albums, d, d.counts.Keys)
    ensures RescanAll(t, rows).mirror == MirrorBack(t.mirror, d, d.counts.Keys)
    ensures RescanAll(t, rows).late == t.late - d.counts.Keys
  {
    hide Rescanned, Listing;
    ListingsIn(t.photos, rows);
    forall a ensures a in d.counts <==> Listing(t.photos, rows, a) != [] {
      assert TracksOne(d, t.photos, Listing(t.photos, rows, a), a);
    }
    BackRows(t, rows, d);
    BackMirror(t, rows, d);
    forall a ensures a in RescanAll(t, rows).late <==> a in t.late - d.counts.Keys {}
  }

  lemma BackRows(t: Tables, rows: seq<Uid>, d: Dicts)
    requires AllIn(t.photos, rows) && forall a :: TracksOne(d, t.photos, Listing(t.photos, rows, a), a)
    ensures RescanAll(t, rows).albums == RowsBack(t.albums, d, d.counts.Keys)
  {
    hide Rescanned, Listing, View;
    forall a | a in t.albums ensures RescanAll(t, rows).albums[a] == RowsBack(t.albums, d, d.counts.Keys)[a] {
      assert TracksOne(d, t.photos, Listing(t.photos, rows, a), a);
    }
  }

  lemma BackMirror(t: Tables, rows: seq<Uid>, d: Dicts)
    requires AllIn(t.photos, rows) && forall a :: TracksOne(d, t.photos, Listing(t.photos, rows, a), a)
    ensures d.counts.Keys <= d.membership.Keys
    ensures RescanAll(t, rows).mirror == MirrorBack(t.mirror, d, d.counts.Keys)
  {
    hide Rescanned, Listing, View;
    forall a ensures a in d.counts <==> Listing(t.photos, rows, a) != []
             ensures a in d.counts ==> a in d.membership && d.membership[a] == Listing(t.photos, rows, a) {
      assert TracksOne(d, t.photos, Listing(t.photos, rows, a), a);
    }
    forall a | a in d.counts.Keys ensures a in d.membership.Keys {}
    forall e ensures e in RescanAll(t, rows).mirror <==> e in MirrorBack(t.mirror, d, d.counts.Keys) {
      ListingMentions(t.photos, rows, e.1);
      assert e == (e.0, e.1);
    }
  }

  class PhotoStore {
    var photos: Table
    var mirror: set<(Uid, Album)>
    var albums: map<Album, AlbumRow>
    ghost var late: set<Album>

    ghost function Model(): Tables
      reads this
    {
      Tables(photos, mirror, albums, late)
    }

    constructor ()
      ensures Model() == Empty()
    {
      photos, mirror, albums, late := map[], {}, map[], {};
    }

    // ---- Dirty flags --------------------------------------------------------------------------

    method MarkAlbumsDirty(dirty: set<Album>)
      modifies this`albums
      ensures albums == MarkDirty(old(albums), dirty)
    {
      hide MarkDirty;
      MarkNone(albums);
      if dirty == {} { return; }
      var uids := Rows(dirty);
      SetOfNone(uids);
      var start := 0;
      while start < |uids|
        invariant start <= |uids|
        invariant albums == MarkDirty(old(albums), SetOf(uids[..start]))
      {
        var stop := ChunkEnd(start, SQL_CHUNK, |uids|);
        albums := MarkDirty(albums, SetOf(uids[start..stop]));
        SetOfJoin(uids, start, stop);
        MarkTwice(old(albums), SetOf(uids[..start]), SetOf(uids[start..stop]));
        start := stop;
      }
      assert uids[..|uids|] == uids;
    }

    method MarkDirtyForPhotos(uids: seq<Uid>)
      modifies this`albums
      ensures albums == MarkDirty(old(albums), AlbumsOf(photos, SetOf(uids)))
    {
      hide MarkDirty, AlbumsOf;
      var found: set<Album> := {};
      var start := 0;
      SetOfNone(uids);
      AlbumsOfNone(photos);
      while start < |uids|
        invariant start <= |uids| && albums == old(albums)
        invariant found == AlbumsOf(photos, SetOf(uids[..start]))
      {
        var stop := ChunkEnd(start, SQL_CHUNK, |uids|);
        found := found + AlbumsOf(photos, SetOf(uids[start..stop]));
        SetOfJoin(uids, start, stop);
        AlbumsOfJoin(photos, SetOf(uids[..start]), SetOf(uids[start..stop]));
        start := stop;
      }
      assert uids[..|uids|] == uids;
      MarkAlbumsDirty(found);
    }

    static lemma AlbumsOfOne(photos: Table, u: Uid)
      ensures AlbumsOf(photos, {u}) == SetOf(AlbumsAt(photos, u))
    {
      forall a ensures a in AlbumsOf(photos, {u}) <==> a in SetOf(AlbumsAt(photos, u)) {}
    }

    static lemma AlbumsOfNone(photos: Table)
      ensures AlbumsOf(photos, {}) == {}
    {}

    // ---- The scan's writes --------------------------------------------------------------------

    /** Returns how many rows are new. */
    method UpsertPhotos(rows: seq<Item>) returns (added: nat)
      modifies this`photos, this`mirror, this`albums
      ensures Model() == UpsertEach(old(Model()), rows)
      ensures |photos| == |old(photos)| + added
      ensures forall u :: match LastItem(rows, u)
                          case None => PhotoAt(photos, u) == PhotoAt(old(photos), u)
                          case Some(item) => u in photos && Synced(PhotoAt(old(photos), u), item, photos[u])
    {
      hide UpsertEach, Synced, LastItem, PhotoAt;
      AllSynced(Model(), rows);
      added := 0;
      if rows == [] { UpsertNone(Model()); return; }
      var start := 0;
      UpsertNone(Model());
      while start < |rows|
        invariant start <= |rows|
        invariant Model() == UpsertEach(old(Model()), rows[..start])
        invariant |photos| == |old(photos)| + added
      {
        var stop := ChunkEnd(start, UPSERT_CHUNK, |rows|);
        var more := UpsertChunk(rows[start..stop]);
        added := added + more;
        UpsertJoin(old(Model()), rows[..start], rows[start..stop]);
        assert rows[..start] + rows[start..stop] == rows[..stop];
        start := stop;
      }
      assert rows[..|rows|] == rows;
    }

    static lemma UpsertNone(t: Tables)
      ensures UpsertEach(t, []) == t
    {}

    method UpsertChunk(rows: seq<Item>) returns (added: nat)
      modifies this`photos, this`mirror, this`albums
      ensures Model() == UpsertEach(old(Model()), rows)
      ensures |photos| == |old(photos)| + added
    {
      hide MarkDirty, UpsertDirties, Mirrored;
      added := 0;
      var dirty: set<Album> := {};
      var i := 0;
      MarkNone(albums);
      while i < |rows|
        invariant 0 <= i <= |rows|
        invariant albums == old(albums) && late == old(late)
        invariant photos == UpsertEach(old(Model()), rows[..i]).photos
        invariant mirror == UpsertEach(old(Model()), rows[..i]).mirror
        invariant UpsertEach(old(Model()), rows[..i]).albums == MarkDirty(albums, dirty)
        invariant UpsertEach(old(Model()), rows[..i]).late == late
        invariant |photos| == |old(photos)| + added
      {
        var r := rows[i];
        UpsertEachNext(old(Model()), rows, i);
        MarkTwice(albums, dirty, UpsertDirties(photos, r));
        var touched := Touched(r);
        if r.uid !in photos { added := added + 1; }
        photos := Upserted(photos, r);
        mirror := Mirrored(mirror, r.uid, r.albums);
        dirty := dirty + touched;
        i := i + 1;
      }
      assert rows[..|rows|] == rows;
      MarkAlbumsDirty(dirty);
    }

    static lemma UpsertEachNext(t: Tables, rows: seq<Item>, i: nat)
      requires i < |rows|
      ensures UpsertEach(t, rows[..i + 1]) == UpsertOne(UpsertEach(t, rows[..i]), rows[i])
    {
      assert rows[..i + 1][..i] == rows[..i];
    }

    /** The albums whose membership the row changes. */
    method Touched(r: Item) returns (touched: set<Album>)
      ensures touched == UpsertDirties(photos, r)
    {
      var prev: set<Album> := {};
      if r.uid in photos && photos[r.uid].albums != [] {
        prev := SetOf(photos[r.uid].albums);
      }
      touched := {};
      if prev != SetOf(r.albums) {
        touched := prev + SetOf(r.albums);
      }
    }

    /** Returns how many rows are newly staged. */
    method MarkPendingRemoval(uids: seq<Uid>, now: int) returns (staged: nat)
      modifies this`photos, this`albums
      ensures Model() == StageAll(old(Model()), SetOf(uids), now)
      ensures staged == |ActiveAmong(old(photos), SetOf(uids))|
      ensures staged == |set u | u in photos && photos[u] != old(photos)[u]|
    {
      StagedAreChanged(photos, SetOf(uids), now);
      hide Staged, ActiveAmong, MarkDirty, AlbumsOf;
      staged := 0;
      StageNone(photos, now);
      AlbumsOfNone(photos);
      MarkNone(albums);
      SetOfNone(uids);
      if uids == [] { assert SetOf(uids) == {}; return; }
      MarkDirtyForPhotos(uids);
      var start := 0;
      while start < |uids|
        invariant start <= |uids| && mirror == old(mirror) && late == old(late)
        invariant albums == MarkDirty(old(albums), AlbumsOf(old(photos), SetOf(uids)))
        invariant photos == Staged(old(photos), SetOf(uids[..start]), now)
        invariant staged == |ActiveAmong(old(photos), SetOf(uids[..start]))|
      {
        var stop := ChunkEnd(start, SQL_CHUNK, |uids|);
        var chunk := SetOf(uids[start..stop]);
        StageTwice(old(photos), SetOf(uids[..start]), chunk, now);
        SetOfJoin(uids, start, stop);
        staged := staged + |ActiveAmong(photos, chunk)|;
        photos := Staged(photos, chunk, now);
        start := stop;
      }
      assert uids[..|uids|] == uids;
    }

    static lemma StagedAreChanged(photos: Table, uids: set<Uid>, now: int)
      ensures ActiveAmong(photos, uids) == set u | u in Staged(photos, uids, now) && Staged(photos, uids, now)[u] != photos[u]
    {
      hide Active, Staged;
      StageStages(photos, uids, now);
      forall u | u in photos ensures Active(photos[u]) <==> StagedRow(photos[u], now) != photos[u] {
        StageChanges(photos[u], now);
      }
      forall u | u in photos ensures Staged(photos, uids, now)[u] == if u in uids then StagedRow(photos[u], now) else photos[u] {
        StagedIs(photos, uids, now, u);
      }
    }

    static lemma StageChanges(p: Photo, now: int)
      ensures Active(p) <==> StagedRow(p, now) != p
    {}

    static lemma ConfirmedAreChanged(photos: Table, grace: int, now: int)
      ensures OverdueUids(photos, now - grace)
           == set u | u in Confirmed(photos, grace, now) && Confirmed(photos, grace, now)[u] != photos[u]
    {
      hide Confirmed;
      ConfirmDeletes(photos, grace, now);
      forall u | u in photos
        ensures u in OverdueUids(photos, now - grace) <==> Confirmed(photos, grace, now)[u] != photos[u]
      {}
    }

    method ConfirmDeletions(graceSeconds: int, now: int) returns (confirmed: nat)
      modifies this`photos, this`albums
      ensures Model() == ConfirmAll(old(Model()), graceSeconds, now)
      ensures confirmed == |OverdueUids(old(photos), now - graceSeconds)|
      ensures confirmed == |set u | u in photos && photos[u] != old(photos)[u]|
    {
      ConfirmedAreChanged(photos, graceSeconds, now);
      hide MarkDirty, AlbumsOf;
      var target := Rows(OverdueUids(photos, now - graceSeconds));
      MarkDirtyForPhotos(target);
      confirmed := |OverdueUids(photos, now - graceSeconds)|;
      photos := Confirmed(photos, graceSeconds, now);
    }

    // ---- The pipeline's writes ----------------------------------------------------------------

    method SetPhotoDone(uid: Uid, thumb: string, now: int)
      modifies this`photos, this`mirror, this`albums
      ensures Model() == Pipe(old(Model()), SetDone(uid, thumb, now))
    {
      hide MarkDirty;
      if uid in photos {
        photos := photos[uid := photos[uid].(status := Done, thumb := Some(thumb), processedAt := Some(now))];
      }
      assert photos == Piped(old(photos), SetDone(uid, thumb, now));
      var listed := AlbumsAt(photos, uid);
      mirror := Mirrored(mirror, uid, listed);
      AlbumsOfOne(old(photos), uid);
      MarkAlbumsDirty(SetOf(listed));
    }

    /** The album side of the purge; the faces are dropped in the people tables. */
    method PurgeDeletedPhotoMedia(uids: seq<Uid>)
      modifies this`photos, this`albums
      ensures Model() == Pipe(old(Model()), PurgeMedia(SetOf(uids)))
    {
      hide MarkDirty, AlbumsOf, RowAfter;
      var start := 0;
      PurgeNone(photos);
      SetOfNone(uids);
      MarkNone(albums);
      AlbumsOfNone(photos);
      while start < |uids|
        invariant start <= |uids|
        invariant photos == Piped(old(photos), PurgeMedia(SetOf(uids[..start])))
        invariant albums == MarkDirty(old(albums), AlbumsOf(old(photos), SetOf(uids[..start])))
      {
        var stop := ChunkEnd(start, SQL_CHUNK, |uids|);
        var chunk := uids[start..stop];
        ghost var before, more := SetOf(uids[..start]), SetOf(chunk);
        PurgeTwice(old(photos), before, more);
        SetOfJoin(uids, start, stop);
        AlbumsOfJoin(old(photos), before, more);
        MarkTwice(old(albums), AlbumsOf(old(photos), before), AlbumsOf(old(photos), more));
        MarkDirtyForPhotos(chunk);
        photos := Piped(photos, PurgeMedia(SetOf(chunk)));
        start := stop;
      }
      assert uids[..|uids|] == uids;
    }

    static lemma PurgeNone(photos: Table)
      ensures Piped(photos, PurgeMedia({})) == photos
    {}

    static lemma PurgeTwice(photos: Table, a: set<Uid>, b: set<Uid>)
      ensures Piped(Piped(photos, PurgeMedia(a)), PurgeMedia(b)) == Piped(photos, PurgeMedia(a + b))
      ensures AlbumsOf(Piped(photos, PurgeMedia(a)), b) == AlbumsOf(photos, b)
    {
      var once := Piped(photos, PurgeMedia(a));
      assert forall u :: u in photos ==> once[u].albums == photos[u].albums;
      forall x ensures x in AlbumsOf(once, b) <==> x in AlbumsOf(photos, b) {
        if x in AlbumsOf(photos, b) {
          var u :| u in b && u in photos && x in photos[u].albums;
          assert x in once[u].albums;
        }
      }
    }

    /** Hands out exactly the rows it changes; asking again for the same ones hands out nothing. */
    method ClaimPhotosForDownload(uids: set<Uid>) returns (claimed: set<Uid>)
      modifies this`photos
      ensures photos == Piped(old(photos), ClaimForDownload(uids))
      ensures claimed == Claimable(old(photos), uids) && Claimable(photos, uids) == {}
      ensures photos.Keys == old(photos).Keys
      ensures forall u :: u in photos ==> (u in claimed <==> photos[u] != old(photos)[u])
      ensures forall u :: u in claimed ==> photos[u].status.Downloading?
    {
      claimed := set u | u in uids && u in photos && photos[u].status.New?;
      photos := Piped(photos, ClaimForDownload(uids));
    }

    // ---- Recounts -----------------------------------------------------------------------------

    method RecalcAlbum(album: Album) returns (ghost rows: seq<Uid>)
      modifies this`mirror, this`albums, this`late
      ensures Lists(rows, Selected(old(Model()), album)) && AllIn(old(photos), rows)
      ensures Model() == RecalcOne(old(Model()), album, rows)
    {
      hide Tallied, Distinct;
      var found := Rows(set u | u in photos && Counted(photos[u]) && (u, album) in mirror);
      rows := found;
      FoundIn(found, Selected(Model(), album), photos);
      mirror := set e | e in mirror && e.1 != album;
      late := late - {album};
      var n, coverTs, cover, lo, hi := CountRows(found);
      mirror := mirror + (set i | 0 <= i < |found| :: (found[i], album));
      if album in albums {
        albums := albums[album := AlbumRow(Some(n), cover, lo, hi, false)];
      }
    }

    static lemma FoundIn(rows: seq<Uid>, uids: set<Uid>, photos: Table)
      requires Lists(rows, uids) && uids <= photos.Keys
      ensures AllIn(photos, rows)
    {
      forall i | 0 <= i < |rows| ensures rows[i] in photos { assert rows[i] in SetOf(rows); }
    }

    method CountRows(rows: seq<Uid>)
      returns (n: nat, coverTs: int, cover: Option<Uid>, lo: Option<int>, hi: Option<int>)
      requires AllIn(photos, rows)
      ensures Totals(n, coverTs, cover, lo, hi) == Recounted(photos, rows)
    {
      n, coverTs, cover, lo, hi := 0, 0, None, None, None;
      var i := 0;
      while i < |rows|
        invariant 0 <= i <= |rows|
        invariant Totals(n, coverTs, cover, lo, hi) == Recounted(photos, rows[..i])
      {
        assert rows[..i + 1][..i] == rows[..i];
        var u := rows[i];
        n := n + 1;
        var ts := if photos[u].captureTime.Some? then photos[u].captureTime.value else 0;
        if ts >= coverTs {
          coverTs := ts;
          cover := Some(u);
        }
        if ts != 0 {
          lo := if lo.None? || ts < lo.value then Some(ts) else lo;
          hi := if hi.None? || ts > hi.value then Some(ts) else hi;
        }
        i := i + 1;
      }
      assert rows[..|rows|] == rows;
    }

    /** Recounts every album that a counted photo lists, in one pass over those photos. */
    method RescanAlbums() returns (ghost rows: seq<Uid>)
      modifies this`mirror, this`albums, this`late
      ensures Lists(rows, set u | u in old(photos) && Rescannable(old(photos)[u])) && AllIn(old(photos), rows)
      ensures Model() == RescanAll(old(Model()), rows)
    {
      hide Distinct, Tracks, TracksOne, MirrorBack, RowsBack, View, Listing;
      var found := Rows(set u | u in photos && Rescannable(photos[u]));
      rows := found;
      FoundIn(found, (set u | u in photos && Rescannable(photos[u])), photos);
      var d := CountMentions(found);
      TracksAll(d, photos, found);
      BackAll(Model(), found, d);
      var todo := d.counts.Keys;
      BackNone(albums, mirror, d);
      assert d.counts.Keys - todo == {};
      while todo != {}
        invariant todo <= d.counts.Keys
        invariant albums == RowsBack(old(albums), d, d.counts.Keys - todo)
        invariant mirror == MirrorBack(old(mirror), d, d.counts.Keys - todo)
        invariant late == old(late)
        decreases todo
      {
        ghost var some := Pick(todo);
        var a :| a in todo;
        ghost var done := d.counts.Keys - todo;
        assert d.counts.Keys - (todo - {a}) == done + {a};
        BackOne(old(albums), old(mirror), d, done, a);
        mirror := set e | e in mirror && e.1 != a;
        mirror := mirror + (set u | u in d.membership[a] :: (u, a));
        if a in albums {
          albums := albums[a := RowOf(View(d, a))];
        }
        todo := todo - {a};
      }
      assert d.counts.Keys - todo == d.counts.Keys;
      late := late - d.counts.Keys;
    }

    method CountMentions(rows: seq<Uid>) returns (d: Dicts)
      requires AllIn(photos, rows)
      ensures Tracks(d, photos, rows, |rows|, 0)
    {
      hide Tracks, Entered;
      d := Dicts(map[], map[], map[], map[]);
      TracksNothing(photos, rows);
      var i := 0;
      while i < |rows|
        invariant 0 <= i <= |rows|
        invariant Tracks(d, photos, rows, i, 0)
      {
        var u := rows[i];
        var k := 0;
        while k < |photos[u].albums|
          invariant 0 <= k <= |photos[u].albums|
          invariant Tracks(d, photos, rows, i, k)
        {
          MentionStep(d, photos, rows, i, k);
          d := Enter(d, photos[u].albums[k], u);
          k := k + 1;
        }
        RowStep(d, photos, rows, i);
        i := i + 1;
      }
    }

    /** The four dictionaries after one more mention. */
    method Enter(before: Dicts, a: Album, u: Uid) returns (d: Dicts)
      requires u in photos && (a in before.counts ==> a in before.membership)
      ensures d == Entered(before, a, u, Ts(photos[u]))
    {
      var counts, covers, spans, membership := before.counts, before.covers, before.spans, before.membership;
      if a !in membership {
        membership := membership[a := []];
      }
      membership := membership[a := membership[a] + [u]];
      counts := counts[a := (if a in counts then counts[a] else 0) + 1];
      var ts := if photos[u].captureTime.Some? then photos[u].captureTime.value else 0;
      if a !in covers || ts >= covers[a].0 {
        covers := covers[a := (ts, u)];
      }
      var lo: Option<int>, hi: Option<int> := None, None;
      if a in spans {
        lo, hi := spans[a].0, spans[a].1;
      }
      if ts != 0 {
        spans := spans[a := (if lo.None? || ts < lo.value then Some(ts) else lo,
                             if hi.None? || ts > hi.value then Some(ts) else hi)];
      }
      d := Dicts(counts, covers, spans, membership);
    }

    // ---- The albums sync ----------------------------------------------------------------------

    /** Inserts the rows of albums not seen before. */
    method SyncNames(names: seq<Album>)
      requires Inv(Model())
      modifies this`albums, this`late
      ensures Inv(Model()) && late >= old(late)
      ensures albums.Keys == old(albums.Keys) + SetOf(names)
      ensures forall a :: a in old(albums) ==> albums[a] == old(albums)[a] && (a in late <==> a in old(late))
      ensures forall a :: a in SetOf(names) - old(albums.Keys) ==> albums[a] == AlbumRow(None, None, None, None, false)
    {
      hide Inv, Members;
      var i := 0;
      SetOfNone(names);
      while i < |names|
        invariant 0 <= i <= |names| && Inv(Model()) && late >= old(late)
        invariant albums.Keys == old(albums.Keys) + SetOf(names[..i])
        invariant forall a :: a in old(albums) ==> albums[a] == old(albums)[a] && (a in late <==> a in old(late))
        invariant forall a :: a in SetOf(names[..i]) - old(albums.Keys) ==> albums[a] == Unseen()
      {
        var a := names[i];
        ChangeKeeps(Model(), SyncName(a));
        SetOfJoin(names, i, i + 1);
        assert names[i..i + 1] == [a];
        if a !in albums {
          late := if Members(photos, a) != {} then late + {a} else late;
          albums := albums[a := Unseen()];
        }
        i := i + 1;
      }
      assert names[..|names|] == names;
    }

    /** One albums sync. `fullDue` says that the last full rescan is too long ago.
        MAIN RESULT: after an incremental sync every album row that has a count agrees with a recount
        from the photos, and so does every row that was there before and was not late; after a full
        rescan every row of an album with counted photos does. */
    method SyncAlbums(names: seq<Album>, fullDue: bool) returns (synced: nat)
      requires Inv(Model())
      modifies this`mirror, this`albums, this`late
      ensures Inv(Model()) && synced == |names| && albums.Keys == old(albums.Keys) + SetOf(names)
      ensures !fullDue ==> forall a :: a in albums && a !in late ==> Exact(photos, a, albums[a]) && !albums[a].dirty
      ensures !fullDue ==> forall a :: a in albums && albums[a].photoCount.Some? ==> a !in late
      ensures !fullDue ==> late * old(albums.Keys) <= old(late)
      ensures fullDue ==> forall a :: a in albums && Members(photos, a) != {} ==>
        Exact(photos, a, albums[a]) && !albums[a].dirty
      ensures fullDue ==> forall a :: a in old(albums) && Members(photos, a) == {} ==> albums[a] == old(albums)[a]
    {
      hide Inv, Exact, Members, Allowed;
      SyncNames(names);
      synced := |names|;
      if fullDue {
        ghost var before := Model();
        ghost var rows := RescanAlbums();
        RescanResult(before, rows);
        return;
      }
      ghost var named := late;
      RecalcDirty();
      forall a | a in late * old(albums.Keys) ensures a in old(late) { assert a in named && a in old(albums); }
    }

    static lemma RescanResult(t: Tables, rows: seq<Uid>)
      requires Inv(t) && Lists(rows, set u | u in t.photos && Rescannable(t.photos[u])) && AllIn(t.photos, rows)
      ensures var t' := RescanAll(t, rows);
        && Inv(t') && t'.photos == t.photos && t'.albums.Keys == t.albums.Keys
        && (forall a :: a in t'.albums && Members(t'.photos, a) != {} ==> Exact(t'.photos, a, t'.albums[a]) && !t'.albums[a].dirty)
        && forall a :: a in t'.albums && Members(t'.photos, a) == {} ==> t'.albums[a] == t.albums[a]
    {
      hide Inv, Exact, Members, Listing;
      ChangeKeeps(t, Rescan(rows));
      forall a | a in t.albums && Members(t.photos, a) == {} ensures RescanAll(t, rows).albums[a] == t.albums[a] {
        RescanLeaves(t, rows, a);
      }
      forall a | a in t.albums && Members(t.photos, a) != {}
        ensures Exact(t.photos, a, RescanAll(t, rows).albums[a]) && !RescanAll(t, rows).albums[a].dirty
      {
        RescanRow(t, rows, a);
      }
    }

    /** Recounts the albums flagged dirty, in whatever order. */
    method RecalcDirty()
      requires Inv(Model())
      modifies this`mirror, this`albums, this`late
      ensures Inv(Model()) && albums.Keys == old(albums.Keys) && late <= old(late)
      ensures forall a :: a in albums && a !in late ==> Exact(photos, a, albums[a]) && !albums[a].dirty
      ensures forall a :: a in albums && albums[a].photoCount.Some? ==> a !in late
    {
      hide Inv, Exact, Members, Recounted, Selected;
      var todo := set a | a in albums && albums[a].dirty;
      while todo != {}
        invariant Inv(Model()) && albums.Keys == old(albums.Keys) && late <= old(late)
        invariant forall a :: a in albums && albums[a].dirty ==> a in todo
        decreases todo
      {
        ghost var some := Pick(todo);
        var a :| a in todo;
        ghost var before := Model();
        ghost var rows := RecalcAlbum(a);
        ChangeKeeps(before, Recalc(a, rows));
        todo := todo - {a};
      }
      forall a | a in albums
        ensures a !in late ==> Exact(photos, a, albums[a])
        ensures albums[a].photoCount.Some? ==> a !in late
      {
        RightRow(Model(), a);
      }
    }

    static lemma RightRow(t: Tables, a: Album)
      requires Inv(t) && a in t.albums
      ensures a in t.late ==> t.albums[a].photoCount.None?
      ensures a !in t.late && !t.albums[a].dirty ==> Exact(t.photos, a, t.albums[a])
    {
      hide Exact, MirrorRight, PhotosGood;
      assert RowRight(t, a);
    }
  }
}
