/** Album aggregates kept up to date incrementally. */
module Albums {
  // The photo writes flag the albums they touch as dirty, and the albums sync recounts only those.
  // Main result: for every run of upserts, pipeline steps, stagings, confirmations, purges, recounts
  // and rescans, a row that is not dirty agrees with a recount from the photos themselves, unless
  // the album was first seen after its photos.

  import opened Wrappers
  import opened Photos
  import opened Sets

  /** `photoCount` is None until the first recount. */
  datatype AlbumRow = AlbumRow(
    photoCount: Option<int>,
    cover: Option<Uid>,
    startTs: Option<int>,
    endTs: Option<int>,
    dirty: bool)

  /** `mirror` is the `photo_albums` join table. `late` is history: the albums whose row was inserted
      while a counted photo already listed them, and that have not been recounted since. */
  datatype Tables = Tables(
    photos: Table,
    mirror: set<(Uid, Album)>,
    albums: map<Album, AlbumRow>,
    late: set<Album>)

  predicate Counted(p: Photo) {
    p.status.Done? && !NoThumb(p)
  }

  function Members(photos: Table, a: Album): set<Uid> {
    set u | u in photos && Counted(photos[u]) && a in photos[u].albums
  }

  function Ts(p: Photo): int {
    if p.captureTime.Some? then p.captureTime.value else 0
  }

  // ---- What an aggregate should say -----------------------------------------------------------

  ghost predicate NewestOf(photos: Table, members: set<Uid>, cover: Option<Uid>)
    requires members <= photos.Keys
  {
    match cover
    case None => members == {}
    case Some(c) => c in members && forall u :: u in members ==> Ts(photos[u]) <= Ts(photos[c])
  }

  /** The earliest non-zero capture time. */
  ghost predicate EarliestOf(photos: Table, members: set<Uid>, lo: Option<int>)
    requires members <= photos.Keys
  {
    match lo
    case None => forall u :: u in members ==> Ts(photos[u]) == 0
    case Some(x) =>
      && x != 0 && (exists u :: u in members && Ts(photos[u]) == x)
      && forall u :: u in members && Ts(photos[u]) != 0 ==> x <= Ts(photos[u])
  }

  ghost predicate LatestOf(photos: Table, members: set<Uid>, hi: Option<int>)
    requires members <= photos.Keys
  {
    match hi
    case None => forall u :: u in members ==> Ts(photos[u]) == 0
    case Some(x) =>
      && x != 0 && (exists u :: u in members && Ts(photos[u]) == x)
      && forall u :: u in members && Ts(photos[u]) != 0 ==> Ts(photos[u]) <= x
  }

  /** The row agrees with a recount over `members`; a row never counted stands for none. */
  ghost predicate Agrees(photos: Table, members: set<Uid>, row: AlbumRow)
    requires members <= photos.Keys
  {
    && (row.photoCount == Some(|members|) || (row.photoCount.None? && members == {}))
    && NewestOf(photos, members, row.cover)
    && EarliestOf(photos, members, row.startTs)
    && LatestOf(photos, members, row.endTs)
  }

  ghost predicate Exact(photos: Table, a: Album, row: AlbumRow) {
    Agrees(photos, Members(photos, a), row)
  }

  // ---- The running totals of a recount --------------------------------------------------------

  datatype Totals = Totals(n: nat, coverTs: int, cover: Option<Uid>, lo: Option<int>, hi: Option<int>)

  function Zero(): Totals {
    Totals(0, 0, None, None, None)
  }

  /** One more photo; `newest` says whether it becomes the cover. */
  function Tallied(t: Totals, u: Uid, ts: int, newest: bool): Totals {
    Totals(t.n + 1,
           if newest then ts else t.coverTs,
           if newest then Some(u) else t.cover,
           if ts != 0 && (t.lo.None? || ts < t.lo.value) then Some(ts) else t.lo,
           if ts != 0 && (t.hi.None? || ts > t.hi.value) then Some(ts) else t.hi)
  }

  function RowOf(t: Totals): AlbumRow {
    AlbumRow(Some(t.n), t.cover, t.lo, t.hi, false)
  }

  /** A single album's recount starts at cover time 0; the full rescan takes the first photo. */
  function Recounted(photos: Table, rows: seq<Uid>): Totals
    requires forall i :: 0 <= i < |rows| ==> rows[i] in photos
  {
    if rows == [] then Zero() else
      var t := Recounted(photos, rows[..|rows| - 1]);
      var u := rows[|rows| - 1];
      Tallied(t, u, Ts(photos[u]), Ts(photos[u]) >= t.coverTs)
  }

  function Rescanned(photos: Table, rows: seq<Uid>): Totals
    requires forall i :: 0 <= i < |rows| ==> rows[i] in photos
  {
    if rows == [] then Zero() else
      var t := Rescanned(photos, rows[..|rows| - 1]);
      var u := rows[|rows| - 1];
      Tallied(t, u, Ts(photos[u]), t.cover.None? || Ts(photos[u]) >= t.coverTs)
  }

  /** The totals so far are right for the photos so far; the cover is the newest of those at or after
      `floor`, if there is one. */
  ghost predicate TotalsRight(photos: Table, members: set<Uid>, t: Totals)
    requires members <= photos.Keys
  {
    t.n == |members| && EarliestOf(photos, members, t.lo) && LatestOf(photos, members, t.hi)
  }

  lemma AddMember(photos: Table, members: set<Uid>, t: Totals, u: Uid, newest: bool)
    requires members <= photos.Keys && u in photos && u !in members && TotalsRight(photos, members, t)
    ensures TotalsRight(photos, members + {u}, Tallied(t, u, Ts(photos[u]), newest))
  {
    var ts, t' := Ts(photos[u]), Tallied(t, u, Ts(photos[u]), newest);
    if t.lo.Some? {
      var w :| w in members && Ts(photos[w]) == t.lo.value;
      assert w in members + {u};
    }
    if t.hi.Some? {
      var w :| w in members && Ts(photos[w]) == t.hi.value;
      assert w in members + {u};
    }
    assert u in members + {u};
  }

  predicate AllIn(photos: Table, rows: seq<Uid>) {
    forall i :: 0 <= i < |rows| ==> rows[i] in photos
  }

  lemma SetOfIn(photos: Table, rows: seq<Uid>)
    requires AllIn(photos, rows)
    ensures SetOf(rows) <= photos.Keys
  {}

  /** The recount's cover is the newest photo of those not before time 0, if there is one. */
  ghost predicate CoverFrom(photos: Table, members: set<Uid>, t: Totals, floor: Option<int>)
    requires members <= photos.Keys
  {
    match t.cover
    case None => t.coverTs == 0 && forall u :: u in members ==> floor.Some? && Ts(photos[u]) < floor.value
    case Some(c) =>
      && c in members && t.coverTs == Ts(photos[c]) && (floor.Some? ==> t.coverTs >= floor.value)
      && forall u :: u in members ==> Ts(photos[u]) <= t.coverTs
  }

  lemma {:induction false} RecountRight(photos: Table, rows: seq<Uid>)
    requires AllIn(photos, rows) && Distinct(rows)
    ensures SetOf(rows) <= photos.Keys
    ensures TotalsRight(photos, SetOf(rows), Recounted(photos, rows))
    ensures CoverFrom(photos, SetOf(rows), Recounted(photos, rows), Some(0))
  {
    hide TotalsRight, Ts, SetOf, Distinct;
    SetOfIn(photos, rows);
    if rows == [] {
      EmptyRight(photos);
    } else {
      var front, u := rows[..|rows| - 1], rows[|rows| - 1];
      PrefixSet(rows);
      RecountRight(photos, front);
      var t := Recounted(photos, front);
      AddMember(photos, SetOf(front), t, u, Ts(photos[u]) >= t.coverTs);
    }
  }

  lemma {:induction false} RescanRight(photos: Table, rows: seq<Uid>)
    requires AllIn(photos, rows) && Distinct(rows)
    ensures SetOf(rows) <= photos.Keys
    ensures TotalsRight(photos, SetOf(rows), Rescanned(photos, rows))
    ensures CoverFrom(photos, SetOf(rows), Rescanned(photos, rows), None)
  {
    hide TotalsRight, Ts, SetOf, Distinct;
    SetOfIn(photos, rows);
    if rows == [] {
      EmptyRight(photos);
    } else {
      var front, u := rows[..|rows| - 1], rows[|rows| - 1];
      PrefixSet(rows);
      RescanRight(photos, front);
      var t := Rescanned(photos, front);
      AddMember(photos, SetOf(front), t, u, t.cover.None? || Ts(photos[u]) >= t.coverTs);
    }
  }

  lemma EmptyRight(photos: Table)
    ensures SetOf([]) == {} && TotalsRight(photos, {}, Zero())
  {}

  /** A recount agrees with the photos exactly when there are none or one is not before time 0. */
  lemma RecountAgrees(photos: Table, rows: seq<Uid>)
    requires AllIn(photos, rows) && Distinct(rows)
    ensures SetOf(rows) <= photos.Keys
    ensures Agrees(photos, SetOf(rows), RowOf(Recounted(photos, rows)))
       <==> (rows == [] || exists u :: u in SetOf(rows) && Ts(photos[u]) >= 0)
  {
    hide Ts, EarliestOf, LatestOf, Recounted;
    RecountRight(photos, rows);
    assert rows != [] ==> rows[0] in SetOf(rows);
    assert rows == [] ==> SetOf(rows) == {};
  }

  lemma RescanAgrees(photos: Table, rows: seq<Uid>)
    requires AllIn(photos, rows) && Distinct(rows)
    ensures SetOf(rows) <= photos.Keys
    ensures Agrees(photos, SetOf(rows), RowOf(Rescanned(photos, rows)))
  {
    hide Ts, EarliestOf, LatestOf, Rescanned;
    RescanRight(photos, rows);
    assert rows == [] ==> SetOf(rows) == {};
  }

  // ---- Transactions ---------------------------------------------------------------------------

  function MarkDirty(albums: map<Album, AlbumRow>, dirty: set<Album>): map<Album, AlbumRow> {
    map a | a in albums :: if a in dirty then albums[a].(dirty := true) else albums[a]
  }

  /** The albums the given photos list. */
  function AlbumsOf(photos: Table, uids: set<Uid>): set<Album> {
    set u, a | u in uids && u in photos && a in photos[u].albums :: a
  }

  /** The join table with the rows of u rewritten. */
  function Mirrored(mirror: set<(Uid, Album)>, u: Uid, albums: seq<Album>): set<(Uid, Album)> {
    (set e | e in mirror && e.0 != u) + (set a | a in albums :: (u, a))
  }

  /** The albums whose membership an upserted row changes: all of both lists, if they differ. */
  function UpsertDirties(photos: Table, item: Item): set<Album> {
    var before := if item.uid in photos then SetOf(photos[item.uid].albums) else {};
    if before != SetOf(item.albums) then before + SetOf(item.albums) else {}
  }

  function UpsertOne(t: Tables, item: Item): Tables {
    t.(photos := Upserted(t.photos, item),
       mirror := Mirrored(t.mirror, item.uid, item.albums),
       albums := MarkDirty(t.albums, UpsertDirties(t.photos, item)))
  }

  function StageAll(t: Tables, uids: set<Uid>, now: int): Tables {
    t.(photos := Staged(t.photos, uids, now), albums := MarkDirty(t.albums, AlbumsOf(t.photos, uids)))
  }

  function ConfirmAll(t: Tables, grace: int, now: int): Tables {
    t.(photos := Confirmed(t.photos, grace, now),
       albums := MarkDirty(t.albums, AlbumsOf(t.photos, OverdueUids(t.photos, now - grace))))
  }

  /** The photos whose albums a pipeline step flags: the one it finishes, or those it purges. */
  function Flags(step: PipelineStep): set<Uid> {
    if step.SetDone? then {step.uid} else if step.PurgeMedia? then step.uids else {}
  }

  function AlbumsAt(photos: Table, u: Uid): seq<Album> {
    if u in photos then photos[u].albums else []
  }

  function Pipe(t: Tables, step: PipelineStep): Tables {
    t.(photos := Piped(t.photos, step),
       mirror := if step.SetDone? then Mirrored(t.mirror, step.uid, AlbumsAt(t.photos, step.uid)) else t.mirror,
       albums := MarkDirty(t.albums, AlbumsOf(t.photos, Flags(step))))
  }

  function Unseen(): AlbumRow {
    AlbumRow(None, None, None, None, false)
  }

  function NameOne(t: Tables, a: Album): Tables {
    if a in t.albums then t else
      t.(albums := t.albums[a := Unseen()], late := if Members(t.photos, a) != {} then t.late + {a} else t.late)
  }

  /** The photos the recount's query selects: counted, and in the join table. */
  function Selected(t: Tables, a: Album): set<Uid> {
    set u | u in t.photos && Counted(t.photos[u]) && (u, a) in t.mirror
  }

  function RecalcOne(t: Tables, a: Album, rows: seq<Uid>): Tables
    requires AllIn(t.photos, rows)
  {
    t.(mirror := (set e | e in t.mirror && e.1 != a) + (set i | 0 <= i < |rows| :: (rows[i], a)),
       albums := if a in t.albums then t.albums[a := RowOf(Recounted(t.photos, rows))] else t.albums,
       late := t.late - {a})
  }

  function Occurrences(albums: seq<Album>, a: Album, u: Uid): seq<Uid> {
    if albums == [] then [] else
      Occurrences(albums[..|albums| - 1], a, u) + (if albums[|albums| - 1] == a then [u] else [])
  }

  /** The photos that list a, in the order of the rows, once for every mention. */
  function Listing(photos: Table, rows: seq<Uid>, a: Album): (listing: seq<Uid>)
    requires AllIn(photos, rows)
  {
    if rows == [] then [] else
      var u := rows[|rows| - 1];
      Listing(photos, rows[..|rows| - 1], a) + Occurrences(photos[u].albums, a, u)
  }

  lemma {:induction false} OccurrencesAre(albums: seq<Album>, a: Album, u: Uid)
    ensures forall i :: 0 <= i < |Occurrences(albums, a, u)| ==> Occurrences(albums, a, u)[i] == u
    ensures Occurrences(albums, a, u) != [] <==> a in albums
    ensures Distinct(albums) ==> |Occurrences(albums, a, u)| <= 1
  {
    if albums != [] {
      var front, last := albums[..|albums| - 1], albums[|albums| - 1];
      OccurrencesAre(front, a, u);
      assert albums == front + [last];
    }
  }

  lemma {:induction false} ListingIn(photos: Table, rows: seq<Uid>, a: Album)
    requires AllIn(photos, rows)
    ensures AllIn(photos, Listing(photos, rows, a))
    ensures SetOf(Listing(photos, rows, a)) <= SetOf(rows)
  {
    if rows != [] {
      var front, u := rows[..|rows| - 1], rows[|rows| - 1];
      ListingIn(photos, front, a);
      OccurrencesAre(photos[u].albums, a, u);
      var before, more := Listing(photos, front, a), Occurrences(photos[u].albums, a, u);
      forall x | x in SetOf(before + more) ensures x in SetOf(rows) {
        var i :| 0 <= i < |before + more| && (before + more)[i] == x;
        if i < |before| {
          assert x in SetOf(before) && x in SetOf(front);
          var j :| 0 <= j < |front| && front[j] == x;
          assert rows[j] == x;
        } else {
          assert rows[|rows| - 1] == x;
        }
      }
    }
  }

  /** How often a photo lists an album. */
  function Mentions(albums: seq<Album>, a: Album): nat {
    if albums == [] then 0 else
      Mentions(albums[..|albums| - 1], a) + (if albums[|albums| - 1] == a then 1 else 0)
  }

  lemma {:induction false} MentionsAre(albums: seq<Album>, a: Album, u: Uid)
    ensures |Occurrences(albums, a, u)| == Mentions(albums, a)
    ensures Mentions(albums, a) > 0 <==> a in albums
    ensures Distinct(albums) ==> Mentions(albums, a) <= 1
  {
    OccurrencesAre(albums, a, u);
    if albums != [] { MentionsAre(albums[..|albums| - 1], a, u); }
  }

  /** If the photos list the album once, its listing is its members, each once. */
  lemma {:induction false} ListingOnce(photos: Table, rows: seq<Uid>, a: Album)
    requires AllIn(photos, rows) && Distinct(rows)
    requires forall i :: 0 <= i < |rows| ==> Mentions(photos[rows[i]].albums, a) <= 1
    ensures Distinct(Listing(photos, rows, a))
    ensures forall x :: x in SetOf(Listing(photos, rows, a)) <==> x in SetOf(rows) && a in photos[x].albums
  {
    if rows != [] {
      var front, u := rows[..|rows| - 1], rows[|rows| - 1];
      ListingOnce(photos, front, a);
      ListingIn(photos, front, a);
      OccurrencesAre(photos[u].albums, a, u);
      MentionsAre(photos[u].albums, a, u);
      PrefixSet(rows);
      var before, more := Listing(photos, front, a), Occurrences(photos[u].albums, a, u);
      JoinOnce(before, more, u);
    }
  }

  lemma JoinOnce(before: seq<Uid>, more: seq<Uid>, u: Uid)
    requires Distinct(before) && u !in SetOf(before) && |more| <= 1 && (more != [] ==> more[0] == u)
    ensures Distinct(before + more)
    ensures SetOf(before + more) == SetOf(before) + (if more == [] then {} else {u})
  {
    forall i | 0 <= i < |before| ensures before[i] in SetOf(before) {}
    forall x | x in SetOf(before) ensures x in SetOf(before + more) {
      var i :| 0 <= i < |before| && before[i] == x;
      assert (before + more)[i] == x;
    }
    if more != [] { assert (before + more)[|before|] == u; }
  }

  predicate Rescannable(p: Photo) {
    Counted(p) && p.albums != []
  }

  function RescanAll(t: Tables, rows: seq<Uid>): Tables
    requires AllIn(t.photos, rows)
  {
    ListingsIn(t.photos, rows);
    t.(mirror := (set e | e in t.mirror && Listing(t.photos, rows, e.1) == [])
               + (set u, a | u in rows && a in t.photos[u].albums :: (u, a)),
       albums := map a | a in t.albums ::
                   if Listing(t.photos, rows, a) == [] then t.albums[a]
                   else RowOf(Rescanned(t.photos, Listing(t.photos, rows, a))),
       late := set a | a in t.late && Listing(t.photos, rows, a) == [])
  }

  lemma ListingsIn(photos: Table, rows: seq<Uid>)
    requires AllIn(photos, rows)
    ensures forall a :: AllIn(photos, Listing(photos, rows, a))
  {
    forall a: Album ensures AllIn(photos, Listing(photos, rows, a)) { ListingIn(photos, rows, a); }
  }

  // ---- Runs -----------------------------------------------------------------------------------

  datatype Change =
    | Upsert(item: Item)
    | Stage(uids: set<Uid>, now: int)
    | Confirm(grace: int, now: int)
    | Pipeline(step: PipelineStep)
    | SyncName(album: Album)
    | Recalc(album: Album, rows: seq<Uid>)
    | Rescan(rows: seq<Uid>)

  /** The step moves a photo into or out of the counted set without flagging its albums. */
  ghost predicate Bypasses(photos: Table, step: PipelineStep) {
    exists u :: u in photos && u !in Flags(step) && Counted(RowAfter(step, u, photos[u])) != Counted(photos[u])
  }

  function TsOf(item: Item): int {
    if item.captureTime.Some? then item.captureTime.value else 0
  }

  /** The upsert changes the capture time of a counted photo and flags none of its albums. */
  predicate Retimes(photos: Table, item: Item) {
    && item.uid in photos && Counted(photos[item.uid])
    && SetOf(photos[item.uid].albums) == SetOf(item.albums)
    && Ts(photos[item.uid]) != TsOf(item)
  }

  /** Capture times are not negative, and a change of one comes with a change of the albums or
      before the photo is counted; a photo lists an album once. */
  predicate GoodItem(photos: Table, item: Item) {
    && Distinct(item.albums)
    && (item.captureTime.Some? ==> item.captureTime.value >= 0)
    && !Retimes(photos, item)
  }

  ghost predicate Allowed(t: Tables, c: Change) {
    match c
    case Upsert(item) => GoodItem(t.photos, item)
    case Pipeline(step) => !Bypasses(t.photos, step)
    case Recalc(a, rows) => Lists(rows, Selected(t, a)) && AllIn(t.photos, rows)
    case Rescan(rows) => Lists(rows, set u | u in t.photos && Rescannable(t.photos[u])) && AllIn(t.photos, rows)
    case _ => true
  }

  function Changed(t: Tables, c: Change): Tables
    requires c.Recalc? || c.Rescan? ==> AllIn(t.photos, c.rows)
  {
    match c
    case Upsert(item) => UpsertOne(t, item)
    case Stage(uids, now) => StageAll(t, uids, now)
    case Confirm(grace, now) => ConfirmAll(t, grace, now)
    case Pipeline(step) => Pipe(t, step)
    case SyncName(album) => NameOne(t, album)
    case Recalc(album, rows) => RecalcOne(t, album, rows)
    case Rescan(rows) => RescanAll(t, rows)
  }

  /** For counted photos the join table mirrors the album lists. */
  ghost predicate MirrorRight(t: Tables) {
    forall u, a :: u in t.photos && Counted(t.photos[u]) ==> ((u, a) in t.mirror <==> a in t.photos[u].albums)
  }

  ghost predicate PhotosGood(photos: Table) {
    forall u :: u in photos ==> Ts(photos[u]) >= 0 && Distinct(photos[u].albums)
  }

  /** A clean row is exact; a late row is as it was inserted. */
  ghost predicate RowRight(t: Tables, a: Album) {
    a in t.albums ==>
      if a in t.late then t.albums[a].(dirty := false) == Unseen()
      else !t.albums[a].dirty ==> Exact(t.photos, a, t.albums[a])
  }

  ghost predicate Inv(t: Tables) {
    MirrorRight(t) && PhotosGood(t.photos) && forall a :: RowRight(t, a)
  }

  // ---- Every change keeps the rows ------------------------------------------------------------

  /** Photos look the same to album a. */
  ghost predicate SameFor(photos: Table, photos': Table, a: Album) {
    && Members(photos, a) == Members(photos', a)
    && forall u :: u in Members(photos, a) ==> Ts(photos[u]) == Ts(photos'[u])
  }

  lemma ExactFrame(photos: Table, photos': Table, a: Album, row: AlbumRow)
    requires SameFor(photos, photos', a) && Exact(photos, a, row)
    ensures Exact(photos', a, row)
  {
    hide Members, Ts;
    MembersIn(photos, a);
    MembersIn(photos', a);
    var m := Members(photos, a);
    if row.startTs.Some? {
      var u :| u in m && Ts(photos[u]) == row.startTs.value;
      assert Ts(photos'[u]) == row.startTs.value;
    }
    if row.endTs.Some? {
      var u :| u in m && Ts(photos[u]) == row.endTs.value;
      assert Ts(photos'[u]) == row.endTs.value;
    }
  }

  lemma MembersIn(photos: Table, a: Album)
    ensures Members(photos, a) <= photos.Keys
  {}

  /** A change that flags every album it does not leave alone keeps all rows right. */
  lemma FlaggedKeeps(t: Tables, t': Tables, dirty: set<Album>, a: Album)
    requires RowRight(t, a) && t'.albums == MarkDirty(t.albums, dirty) && t'.late == t.late
    requires a !in dirty ==> SameFor(t.photos, t'.photos, a)
    ensures RowRight(t', a)
  {
    hide Exact, SameFor;
    if a in t.albums && a !in dirty && a !in t.late && !t.albums[a].dirty {
      ExactFrame(t.photos, t'.photos, a, t.albums[a]);
    }
  }

  /** An upsert that does not flag an album leaves all its aggregates depend on alone if and only if
      it keeps the capture time of a photo the album counts. */
  lemma UpsertSame(photos: Table, item: Item, a: Album)
    requires a !in UpsertDirties(photos, item)
    ensures SameFor(photos, Upserted(photos, item), a)
       <==> (item.uid in Members(photos, a) ==> Ts(photos[item.uid]) == TsOf(item))
  {
    var photos' := Upserted(photos, item);
    forall u ensures u in Members(photos, a) <==> u in Members(photos', a) {
      if u == item.uid && u in photos {
        assert a in SetOf(photos[u].albums) <==> a in SetOf(item.albums);
      }
    }
    if item.uid in photos { assert Ts(photos'[item.uid]) == TsOf(item); }
  }

  /** So an upsert that is allowed does, for every album it does not flag. */
  lemma GoodUpsertSame(photos: Table, item: Item, a: Album)
    requires GoodItem(photos, item) && a !in UpsertDirties(photos, item)
    ensures SameFor(photos, Upserted(photos, item), a)
  {
    hide SameFor, Upserted;
    assert item.uid in Members(photos, a) ==> a in SetOf(photos[item.uid].albums);
    UpsertSame(photos, item, a);
  }

  lemma StageSame(photos: Table, uids: set<Uid>, now: int, a: Album)
    requires a !in AlbumsOf(photos, uids)
    ensures SameFor(photos, Staged(photos, uids, now), a)
  {
    forall u ensures u in Members(photos, a) <==> u in Members(Staged(photos, uids, now), a) {}
  }

  lemma ConfirmSame(photos: Table, grace: int, now: int, a: Album)
    ensures SameFor(photos, Confirmed(photos, grace, now), a)
  {
    forall u ensures u in Members(photos, a) <==> u in Members(Confirmed(photos, grace, now), a) {}
  }

  lemma RowAfterKeeps(step: PipelineStep, u: Uid, p: Photo)
    ensures RowAfter(step, u, p).albums == p.albums && RowAfter(step, u, p).captureTime == p.captureTime
  {}

  lemma PipeSame(photos: Table, step: PipelineStep, a: Album)
    requires !Bypasses(photos, step) && a !in AlbumsOf(photos, Flags(step))
    ensures SameFor(photos, Piped(photos, step), a)
  {
    hide RowAfter, Counted, Flags;
    forall u | u in photos ensures u in Members(photos, a) <==> u in Members(Piped(photos, step), a) {
      RowAfterKeeps(step, u, photos[u]);
      assert Piped(photos, step)[u] == RowAfter(step, u, photos[u]);
    }
    forall u | u in Members(photos, a) ensures Ts(photos[u]) == Ts(Piped(photos, step)[u]) {
      RowAfterKeeps(step, u, photos[u]);
    }
  }

  lemma NameRow(t: Tables, name: Album, a: Album)
    requires RowRight(t, a)
    ensures RowRight(NameOne(t, name), a)
  {
    hide Members, Counted;
  }

  lemma SelectedAreMembers(t: Tables, a: Album)
    requires MirrorRight(t)
    ensures Selected(t, a) == Members(t.photos, a)
  {
    forall u ensures u in Selected(t, a) <==> u in Members(t.photos, a) {}
  }

  lemma FirstNotNegative(photos: Table, rows: seq<Uid>)
    requires PhotosGood(photos) && AllIn(photos, rows)
    ensures rows != [] ==> rows[0] in SetOf(rows) && Ts(photos[rows[0]]) >= 0
  {
    if rows != [] {
      var u := rows[0];
      assert u in photos;
    }
  }

  lemma RecountExact(photos: Table, rows: seq<Uid>)
    requires PhotosGood(photos) && AllIn(photos, rows) && Distinct(rows)
    ensures SetOf(rows) <= photos.Keys && Agrees(photos, SetOf(rows), RowOf(Recounted(photos, rows)))
  {
    hide Recounted, Agrees;
    RecountAgrees(photos, rows);
    FirstNotNegative(photos, rows);
  }

  lemma RecalcRow(t: Tables, album: Album, rows: seq<Uid>, a: Album)
    requires Inv(t) && Allowed(t, Recalc(album, rows))
    ensures RowRight(RecalcOne(t, album, rows), a)
    ensures album in t.albums ==>
      var row := RecalcOne(t, album, rows).albums[album]; !row.dirty && Exact(t.photos, album, row)
  {
    hide Recounted, Agrees, Distinct, Selected, Members;
    SelectedAreMembers(t, album);
    RecountExact(t.photos, rows);
    assert RowRight(t, a);
  }

  lemma RescanMembers(t: Tables, rows: seq<Uid>, a: Album)
    requires PhotosGood(t.photos) && Allowed(t, Rescan(rows))
    ensures Distinct(Listing(t.photos, rows, a)) && AllIn(t.photos, Listing(t.photos, rows, a))
    ensures SetOf(Listing(t.photos, rows, a)) == Members(t.photos, a)
  {
    hide Listing, Distinct;
    forall i | 0 <= i < |rows| ensures Mentions(t.photos[rows[i]].albums, a) <= 1 {
      MentionsAre(t.photos[rows[i]].albums, a, rows[i]);
    }
    ListingOnce(t.photos, rows, a);
    ListingIn(t.photos, rows, a);
    forall u ensures u in SetOf(Listing(t.photos, rows, a)) <==> u in Members(t.photos, a) {}
  }

  lemma RescanRow(t: Tables, rows: seq<Uid>, a: Album)
    requires Inv(t) && Allowed(t, Rescan(rows))
    ensures RowRight(RescanAll(t, rows), a)
    ensures a in t.albums && Members(t.photos, a) != {} ==>
      var row := RescanAll(t, rows).albums[a]; !row.dirty && Exact(t.photos, a, row)
  {
    hide Rescanned, Agrees, Distinct, Members, Listing;
    assert RowRight(t, a);
    RescanMembers(t, rows, a);
    RescanAgrees(t.photos, Listing(t.photos, rows, a));
    assert SetOf([]) == {};
  }

  lemma RowKept(t: Tables, c: Change, a: Album)
    requires Inv(t) && Allowed(t, c)
    ensures RowRight(Changed(t, c), a)
  {
    hide MirrorRight, PhotosGood, SameFor, Upserted, UpsertDirties, Piped, Flags, Staged, Confirmed,
         RecalcOne, RescanAll, NameOne, AlbumsOf, Mirrored, MarkDirty, Bypasses, GoodItem;
    assert RowRight(t, a);
    match c
    case Upsert(item) =>
      if a !in UpsertDirties(t.photos, item) { GoodUpsertSame(t.photos, item, a); }
      FlaggedKeeps(t, Changed(t, c), UpsertDirties(t.photos, item), a);
    case Stage(uids, now) =>
      if a !in AlbumsOf(t.photos, uids) { StageSame(t.photos, uids, now, a); }
      FlaggedKeeps(t, Changed(t, c), AlbumsOf(t.photos, uids), a);
    case Confirm(grace, now) =>
      ConfirmSame(t.photos, grace, now, a);
      FlaggedKeeps(t, Changed(t, c), AlbumsOf(t.photos, OverdueUids(t.photos, now - grace)), a);
    case Pipeline(step) =>
      if a !in AlbumsOf(t.photos, Flags(step)) { PipeSame(t.photos, step, a); }
      FlaggedKeeps(t, Changed(t, c), AlbumsOf(t.photos, Flags(step)), a);
    case SyncName(album) => NameRow(t, album, a);
    case Recalc(album, rows) => RecalcRow(t, album, rows, a);
    case Rescan(rows) => RescanRow(t, rows, a);
  }

  // ---- Every change keeps the join table and the photos ---------------------------------------

  lemma UpsertMirror(t: Tables, item: Item)
    requires MirrorRight(t)
    ensures MirrorRight(UpsertOne(t, item))
  {
    var t' := UpsertOne(t, item);
    forall u, a | u in t'.photos && Counted(t'.photos[u])
      ensures (u, a) in t'.mirror <==> a in t'.photos[u].albums
    {
      if u == item.uid { assert t'.photos[u].albums == item.albums; }
    }
  }

  lemma RowsMirror(t: Tables, photos: Table)
    requires MirrorRight(t) && photos.Keys == t.photos.Keys
    requires forall u :: u in photos ==> photos[u].albums == t.photos[u].albums
    requires forall u :: u in photos && Counted(photos[u]) ==> Counted(t.photos[u])
    ensures MirrorRight(t.(photos := photos))
  {
    hide Counted;
  }

  lemma RowsGood(photos: Table, photos': Table)
    requires PhotosGood(photos) && photos'.Keys == photos.Keys
    requires forall u :: u in photos ==>
      photos'[u].albums == photos[u].albums && photos'[u].captureTime == photos[u].captureTime
    ensures PhotosGood(photos')
  {
    forall u | u in photos' ensures Ts(photos'[u]) >= 0 && Distinct(photos'[u].albums) {
      assert u in photos && Ts(photos'[u]) == Ts(photos[u]) && photos'[u].albums == photos[u].albums;
    }
  }

  lemma PipeKeepsPhotos(photos: Table, step: PipelineStep)
    ensures forall u :: u in photos ==>
      Piped(photos, step)[u].albums == photos[u].albums && Piped(photos, step)[u].captureTime == photos[u].captureTime
  {
    hide RowAfter;
    forall u | u in photos
      ensures Piped(photos, step)[u].albums == photos[u].albums && Piped(photos, step)[u].captureTime == photos[u].captureTime
    {
      RowAfterKeeps(step, u, photos[u]);
    }
  }

  lemma PipeMirror(t: Tables, step: PipelineStep)
    requires MirrorRight(t) && !Bypasses(t.photos, step)
    ensures MirrorRight(Pipe(t, step))
  {
    hide RowAfter, Counted;
    var t' := Pipe(t, step);
    PipeKeepsPhotos(t.photos, step);
    forall u, a | u in t'.photos && Counted(t'.photos[u])
      ensures (u, a) in t'.mirror <==> a in t'.photos[u].albums
    {
      assert t'.photos[u] == RowAfter(step, u, t.photos[u]);
      if !(step.SetDone? && u == step.uid) {
        if step.PurgeMedia? && u in step.uids { PurgedIsUncounted(step, u, t.photos[u]); }
        assert Counted(t.photos[u]);
      }
    }
  }

  lemma PurgedIsUncounted(step: PipelineStep, u: Uid, p: Photo)
    requires step.PurgeMedia? && u in step.uids
    ensures !Counted(RowAfter(step, u, p))
  {}

  lemma RecalcMirror(t: Tables, a: Album, rows: seq<Uid>)
    requires MirrorRight(t) && Allowed(t, Recalc(a, rows))
    ensures MirrorRight(RecalcOne(t, a, rows))
  {
    var t' := RecalcOne(t, a, rows);
    forall u, b | u in t.photos && Counted(t.photos[u])
      ensures (u, b) in t'.mirror <==> b in t.photos[u].albums
    {
      if b == a {
        assert (u, a) in t'.mirror <==> u in SetOf(rows);
        assert u in Selected(t, a) <==> a in t.photos[u].albums;
      }
    }
  }

  lemma RescanMirror(t: Tables, rows: seq<Uid>)
    requires MirrorRight(t) && PhotosGood(t.photos) && Allowed(t, Rescan(rows))
    ensures MirrorRight(RescanAll(t, rows))
  {
    hide Listing, Distinct;
    var t' := RescanAll(t, rows);
    forall u, a | u in t.photos && Counted(t.photos[u])
      ensures (u, a) in t'.mirror <==> a in t.photos[u].albums
    {
      RescanMembers(t, rows, a);
      if a in t.photos[u].albums {
        assert u in Members(t.photos, a);
        assert u in SetOf(rows);
        assert (u, a) in t'.mirror;
      } else {
        assert (u, a) !in t.mirror;
      }
    }
  }

  lemma MirrorKept(t: Tables, c: Change)
    requires Inv(t) && Allowed(t, c)
    ensures MirrorRight(Changed(t, c))
  {
    hide Bypasses, GoodItem, Upserted, RowAfter, Recounted, Rescanned;
    match c
    case Upsert(item) => UpsertMirror(t, item);
    case Stage(uids, now) => RowsMirror(t, Staged(t.photos, uids, now));
    case Confirm(grace, now) => RowsMirror(t, Confirmed(t.photos, grace, now));
    case Pipeline(step) => PipeMirror(t, step);
    case SyncName(album) =>
    case Recalc(a, rows) => RecalcMirror(t, a, rows);
    case Rescan(rows) => RescanMirror(t, rows);
  }

  lemma PhotosKept(t: Tables, c: Change)
    requires Inv(t) && Allowed(t, c)
    ensures PhotosGood(Changed(t, c).photos)
  {
    hide Bypasses, RowAfter, RecalcOne, RescanAll;
    match c
    case Upsert(item) => UpsertGood(t.photos, item);
    case Stage(uids, now) => RowsGood(t.photos, Staged(t.photos, uids, now));
    case Confirm(grace, now) => RowsGood(t.photos, Confirmed(t.photos, grace, now));
    case Pipeline(step) =>
      PipeKeepsPhotos(t.photos, step);
      RowsGood(t.photos, Piped(t.photos, step));
    case SyncName(album) =>
    case Recalc(a, rows) => SamePhotos(t, c);
    case Rescan(rows) => SamePhotos(t, c);
  }

  lemma SamePhotos(t: Tables, c: Change)
    requires (c.Recalc? || c.Rescan?) && AllIn(t.photos, c.rows)
    ensures Changed(t, c).photos == t.photos
  {}

  lemma UpsertGood(photos: Table, item: Item)
    requires PhotosGood(photos) && GoodItem(photos, item)
    ensures PhotosGood(Upserted(photos, item))
  {
    var photos' := Upserted(photos, item);
    forall u | u in photos' ensures Ts(photos'[u]) >= 0 && Distinct(photos'[u].albums) {
      if u == item.uid {
        assert photos'[u].albums == item.albums && photos'[u].captureTime == item.captureTime;
      } else {
        assert u in photos && photos'[u] == photos[u];
      }
    }
  }

  lemma ChangeKeeps(t: Tables, c: Change)
    requires Inv(t) && Allowed(t, c)
    ensures Inv(Changed(t, c))
  {
    hide Changed, RowRight, MirrorRight, PhotosGood, GoodItem, Bypasses, Lists, AllIn;
    MirrorKept(t, c);
    PhotosKept(t, c);
    forall a: Album ensures RowRight(Changed(t, c), a) { RowKept(t, c, a); }
  }

  ghost predicate Run(t: Tables, changes: seq<Change>)
    decreases |changes|
  {
    changes == [] || (Allowed(t, changes[0]) && Run(Changed(t, changes[0]), changes[1..]))
  }

  ghost function Final(t: Tables, changes: seq<Change>): Tables
    requires Run(t, changes)
    decreases |changes|
  {
    if changes == [] then t else Final(Changed(t, changes[0]), changes[1..])
  }

  function Empty(): Tables {
    Tables(map[], {}, map[], {})
  }

  lemma EmptyInv()
    ensures Inv(Empty())
  {}

  lemma {:induction false} RunKeeps(t: Tables, changes: seq<Change>)
    requires Inv(t) && Run(t, changes)
    ensures Inv(Final(t, changes))
    decreases |changes|
  {
    hide Inv, Changed, GoodItem, Bypasses, Lists, AllIn;
    if changes != [] {
      ChangeKeeps(t, changes[0]);
      RunKeeps(Changed(t, changes[0]), changes[1..]);
    }
  }

  function TimeOf(p: Photo): int {
    match p.captureTime case None => 0 case Some(time) => time
  }

  /** What an album row reports: how many photos that are done and have a thumbnail list the album, one
      of the newest of them, and the first and last time other than 0. */
  ghost predicate Reports(photos: Table, a: Album, row: AlbumRow) {
    var members := set u | u in photos && photos[u].status == Done && photos[u].thumb.Some?
                           && photos[u].thumb.value != "" && a in photos[u].albums;
    && (row.photoCount == Some(|members|) || (row.photoCount == None && members == {}))
    && (match row.cover
        case None => members == {}
        case Some(c) => c in members && forall u :: u in members ==> TimeOf(photos[u]) <= TimeOf(photos[c]))
    && (match row.startTs
        case None => forall u :: u in members ==> TimeOf(photos[u]) == 0
        case Some(x) =>
          && x != 0 && (exists u :: u in members && TimeOf(photos[u]) == x)
          && forall u :: u in members && TimeOf(photos[u]) != 0 ==> x <= TimeOf(photos[u]))
    && (match row.endTs
        case None => forall u :: u in members ==> TimeOf(photos[u]) == 0
        case Some(x) =>
          && x != 0 && (exists u :: u in members && TimeOf(photos[u]) == x)
          && forall u :: u in members && TimeOf(photos[u]) != 0 ==> TimeOf(photos[u]) <= x)
  }

  lemma ExactReports(photos: Table, a: Album, row: AlbumRow)
    ensures Exact(photos, a, row) <==> Reports(photos, a, row)
  {
    var members := set u | u in photos && photos[u].status == Done && photos[u].thumb.Some?
                           && photos[u].thumb.value != "" && a in photos[u].albums;
    forall u | u in photos
      ensures Counted(photos[u]) <==>
        photos[u].status == Done && photos[u].thumb.Some? && photos[u].thumb.value != ""
    {}
    assert forall u :: u in members <==> u in Members(photos, a);
    assert members == Members(photos, a);
    forall u | u in photos ensures Ts(photos[u]) == TimeOf(photos[u]) {}
  }

  /** MAIN RESULT: after any run, a row that is not dirty agrees with a recount from the photos' own
      album lists if and only if it has been counted or there is nothing to count. */
  lemma AggregatesRight(changes: seq<Change>, a: Album)
    requires Run(Empty(), changes)
    ensures var t := Final(Empty(), changes);
      a in t.albums && !t.albums[a].dirty ==>
        (Reports(t.photos, a, t.albums[a]) <==> t.albums[a].photoCount.Some? || Members(t.photos, a) == {})
  {
    hide Run, Final, MirrorRight, PhotosGood, Members, Reports;
    ExactReports(Final(Empty(), changes).photos, a,
                 if a in Final(Empty(), changes).albums then Final(Empty(), changes).albums[a] else Unseen());
    EmptyInv();
    RunKeeps(Empty(), changes);
    var t := Final(Empty(), changes);
    MembersIn(t.photos, a);
    assert RowRight(t, a);
  }

  // ---- What is flagged and mirrored -----------------------------------------------------------

  /** The change touches the album: an item's album list changes and holds it before or after; a photo
      that lists it is staged, confirmed, finished or purged. */
  ghost predicate Touches(photos: Table, c: Change, a: Album) {
    match c
    case Upsert(item) =>
      var before := if item.uid in photos then photos[item.uid].albums else [];
      (a in before || a in item.albums) && exists b :: (b in before) != (b in item.albums)
    case Stage(uids, _) => exists u :: u in uids && u in photos && a in photos[u].albums
    case Confirm(grace, now) =>
      exists u :: u in photos && a in photos[u].albums && photos[u].status == PendingRemoval
                  && photos[u].processedAt.Some? && now - photos[u].processedAt.value >= grace
    case Pipeline(step) =>
      if step.SetDone? then step.uid in photos && a in photos[step.uid].albums
      else step.PurgeMedia? && exists u :: u in step.uids && u in photos && a in photos[u].albums
    case _ => false
  }

  /** MAIN RESULT: a write flags exactly the albums it touches, and changes nothing else about any
      album row. */
  lemma FlagsExactly(t: Tables, c: Change, a: Album)
    requires c.Upsert? || c.Stage? || c.Confirm? || c.Pipeline?
    ensures Changed(t, c).albums.Keys == t.albums.Keys && Changed(t, c).late == t.late
    ensures a in t.albums ==>
      Changed(t, c).albums[a] == t.albums[a].(dirty := t.albums[a].dirty || Touches(t.photos, c, a))
  {
    hide Upserted, Staged, Confirmed, Piped, Mirrored;
    match c
    case Upsert(item) =>
      var before := if item.uid in t.photos then t.photos[item.uid].albums else [];
      ListsDiffer(before, item.albums);
      assert SetOf([]) == {};
      assert a in UpsertDirties(t.photos, item) <==> Touches(t.photos, c, a);
    case Stage(uids, now) =>
      assert a in AlbumsOf(t.photos, uids) <==> Touches(t.photos, c, a);
    case Confirm(grace, now) =>
      assert a in AlbumsOf(t.photos, OverdueUids(t.photos, now - grace)) <==> Touches(t.photos, c, a);
    case Pipeline(step) =>
      assert a in AlbumsOf(t.photos, Flags(step)) <==> Touches(t.photos, c, a);
  }

  lemma ListsDiffer(xs: seq<Album>, ys: seq<Album>)
    ensures SetOf(xs) != SetOf(ys) <==> exists b :: (b in xs) != (b in ys)
    ensures forall b :: (b in SetOf(xs) <==> b in xs) && (b in SetOf(ys) <==> b in ys)
  {
    forall b ensures (b in SetOf(xs) <==> b in xs) && (b in SetOf(ys) <==> b in ys) {}
    if forall b :: (b in xs) == (b in ys) {
      assert SetOf(xs) == SetOf(ys);
    }
  }

  /** An upsert and a finished photo rewrite the join rows of that photo to its list, and no others;
      other pipeline steps, staging and confirming leave them. */
  lemma MirrorsExactly(t: Tables, c: Change, u: Uid, a: Album)
    requires c.Upsert? || c.Stage? || c.Confirm? || c.Pipeline?
    ensures (u, a) in Changed(t, c).mirror <==>
      if c.Upsert? && c.item.uid == u then a in c.item.albums
      else if c.Pipeline? && c.step.SetDone? && c.step.uid == u then u in t.photos && a in t.photos[u].albums
      else (u, a) in t.mirror
  {
    hide MarkDirty;
  }

  /** The full rescan leaves the row of an album without counted photos alone. */
  lemma RescanLeaves(t: Tables, rows: seq<Uid>, a: Album)
    requires Inv(t) && Allowed(t, Rescan(rows)) && a in t.albums && Members(t.photos, a) == {}
    ensures RescanAll(t, rows).albums[a] == t.albums[a]
  {
    hide Listing, Members, Distinct;
    var listing := Listing(t.photos, rows, a);
    assert listing != [] ==> listing[0] in SetOf(listing);
    RescanMembers(t, rows, a);
  }

  // ---- What the conditions are for ------------------------------------------------------------

  /** The step moves a photo that lists the album into or out of the counted set. */
  ghost predicate BypassesFor(photos: Table, step: PipelineStep, a: Album) {
    exists u :: u in photos && a in photos[u].albums && Counted(RowAfter(step, u, photos[u])) != Counted(photos[u])
  }

  /** A step without a hook only takes photos out, or touches a single one. */
  lemma OneWay(photos: Table, step: PipelineStep, a: Album)
    requires a !in AlbumsOf(photos, Flags(step))
    ensures Members(Piped(photos, step), a) <= Members(photos, a) || Members(photos, a) <= Members(Piped(photos, step), a)
  {
    var before, after := Members(photos, a), Members(Piped(photos, step), a);
    if step.FullToDone? && step.uid in after {
      forall u | u in before ensures u in after {}
    } else {
      forall u | u in after ensures u in before {
        assert u in photos && a in photos[u].albums && Piped(photos, step)[u] == RowAfter(step, u, photos[u]);
        assert u !in Flags(step);
      }
    }
  }

  lemma NoBypassSameMembers(photos: Table, step: PipelineStep, a: Album)
    ensures !BypassesFor(photos, step, a) <==> Members(Piped(photos, step), a) == Members(photos, a)
  {
    hide RowAfter, Counted;
    var before, after := Members(photos, a), Members(Piped(photos, step), a);
    forall u | u in photos ensures Piped(photos, step)[u].albums == photos[u].albums { RowAfterKeeps(step, u, photos[u]); }
    if before == after {
      forall u | u in photos && a in photos[u].albums
        ensures Counted(RowAfter(step, u, photos[u])) == Counted(photos[u])
      {
        assert u in before <==> u in after;
      }
    } else if !BypassesFor(photos, step, a) {
      forall u ensures u in before <==> u in after {}
    }
  }

  /** MAIN RESULT: a clean exact row that a pipeline step does not flag stays clean, and it stays exact
      if and only if the step moves no photo of the album into or out of the counted set. */
  lemma BypassGoesStale(t: Tables, step: PipelineStep, a: Album)
    requires a in t.albums && !t.albums[a].dirty && Exact(t.photos, a, t.albums[a])
    requires a !in AlbumsOf(t.photos, Flags(step))
    ensures var t' := Pipe(t, step);
      && a in t'.albums && !t'.albums[a].dirty
      && (Exact(t'.photos, a, t'.albums[a]) <==> !BypassesFor(t.photos, step, a))
  {
    hide Flags, AlbumsOf, Members, Piped, BypassesFor, NewestOf, EarliestOf, LatestOf, SameFor;
    var photos' := Piped(t.photos, step);
    assert Pipe(t, step).albums[a] == t.albums[a];
    NoBypassSameMembers(t.photos, step, a);
    OneWay(t.photos, step, a);
    MembersIn(t.photos, a);
    MembersIn(photos', a);
    if Members(photos', a) == Members(t.photos, a) {
      SameTimes(t.photos, step, a);
      ExactFrame(t.photos, photos', a, t.albums[a]);
    } else if Members(photos', a) <= Members(t.photos, a) {
      SmallerSet(Members(photos', a), Members(t.photos, a));
    } else {
      SmallerSet(Members(t.photos, a), Members(photos', a));
    }
  }

  lemma SameTimes(photos: Table, step: PipelineStep, a: Album)
    requires Members(Piped(photos, step), a) == Members(photos, a)
    ensures SameFor(photos, Piped(photos, step), a)
  {
    hide RowAfter, Counted;
    forall u | u in Members(photos, a) ensures Ts(photos[u]) == Ts(Piped(photos, step)[u]) {
      RowAfterKeeps(step, u, photos[u]);
    }
  }

  lemma SmallerSet(x: set<Uid>, y: set<Uid>)
    requires x <= y
    ensures |x| == |y| ==> x == y
  {
    var rest := y - x;
    assert y == x + rest;
    if |x| == |y| { assert rest == {}; }
  }

  // The members among the rows, counted with and without their repeated mentions.

  function MembersAmong(photos: Table, rows: seq<Uid>, a: Album): set<Uid>
    requires AllIn(photos, rows)
  {
    set u | u in SetOf(rows) && a in photos[u].albums
  }

  ghost predicate MentionedOnce(photos: Table, rows: seq<Uid>, a: Album)
    requires AllIn(photos, rows)
  {
    forall i :: 0 <= i < |rows| ==> Mentions(photos[rows[i]].albums, a) <= 1
  }

  lemma {:induction false} ListingCount(photos: Table, rows: seq<Uid>, a: Album)
    requires AllIn(photos, rows) && Distinct(rows)
    ensures |Listing(photos, rows, a)| >= |MembersAmong(photos, rows, a)|
    ensures |Listing(photos, rows, a)| == |MembersAmong(photos, rows, a)| <==> MentionedOnce(photos, rows, a)
  {
    hide Occurrences, Mentions, Distinct;
    if rows == [] {
      assert MembersAmong(photos, rows, a) == {};
    } else {
      var front, u := rows[..|rows| - 1], rows[|rows| - 1];
      PrefixSet(rows);
      ListingCount(photos, front, a);
      MentionsAre(photos[u].albums, a, u);
      var m := MembersAmong(photos, front, a);
      assert MembersAmong(photos, rows, a) == if a in photos[u].albums then m + {u} else m;
      assert u !in m;
      OnceSplits(photos, rows, a);
    }
  }

  lemma OnceSplits(photos: Table, rows: seq<Uid>, a: Album)
    requires AllIn(photos, rows) && rows != []
    ensures MentionedOnce(photos, rows, a)
       <==> MentionedOnce(photos, rows[..|rows| - 1], a) && Mentions(photos[rows[|rows| - 1]].albums, a) <= 1
  {
    hide Mentions;
    var front := rows[..|rows| - 1];
    if MentionedOnce(photos, rows, a) {
      forall i | 0 <= i < |front| ensures Mentions(photos[front[i]].albums, a) <= 1 { assert rows[i] == front[i]; }
    }
  }

  lemma {:induction false} RescanCounts(photos: Table, rows: seq<Uid>)
    requires AllIn(photos, rows)
    ensures Rescanned(photos, rows).n == |rows|
  {
    if rows != [] { RescanCounts(photos, rows[..|rows| - 1]); }
  }

  /** MAIN RESULT: for any album lists at all, the full rescan's row for an album is right if and only
      if no counted photo lists it twice; and so is its count alone. */
  lemma RepeatedMentionCountsTwice(t: Tables, rows: seq<Uid>, a: Album)
    requires Allowed(t, Rescan(rows))
    ensures AllIn(t.photos, Listing(t.photos, rows, a)) && Members(t.photos, a) <= t.photos.Keys
    ensures var totals := Rescanned(t.photos, Listing(t.photos, rows, a));
      && (totals.n == |Members(t.photos, a)|
          <==> forall u :: u in Members(t.photos, a) ==> Mentions(t.photos[u].albums, a) == 1)
      && (Agrees(t.photos, Members(t.photos, a), RowOf(totals))
          <==> forall u :: u in Members(t.photos, a) ==> Mentions(t.photos[u].albums, a) == 1)
  {
    hide Listing, Distinct, Mentions, Rescanned;
    var listing := Listing(t.photos, rows, a);
    ListingIn(t.photos, rows, a);
    MembersIn(t.photos, a);
    RescanCounts(t.photos, listing);
    ListingCount(t.photos, rows, a);
    AmongAreMembers(t, rows, a);
    OnceForMembers(t, rows, a);
    if MentionedOnce(t.photos, rows, a) {
      ListingOnce(t.photos, rows, a);
      RescanAgrees(t.photos, listing);
      forall u ensures u in SetOf(listing) <==> u in Members(t.photos, a) {
        assert u in MembersAmong(t.photos, rows, a) <==> u in Members(t.photos, a);
      }
    }
  }

  lemma AmongAreMembers(t: Tables, rows: seq<Uid>, a: Album)
    requires Allowed(t, Rescan(rows))
    ensures MembersAmong(t.photos, rows, a) == Members(t.photos, a)
  {
    forall u ensures u in MembersAmong(t.photos, rows, a) <==> u in Members(t.photos, a) {}
  }

  lemma MentionedByMembers(t: Tables, rows: seq<Uid>, a: Album, i: nat)
    requires Allowed(t, Rescan(rows)) && i < |rows|
    ensures Mentions(t.photos[rows[i]].albums, a) > 0 <==> rows[i] in Members(t.photos, a)
  {
    hide Mentions;
    AmongAreMembers(t, rows, a);
    MentionsAre(t.photos[rows[i]].albums, a, rows[i]);
    assert rows[i] in SetOf(rows);
  }

  lemma MembersAreRows(t: Tables, rows: seq<Uid>, a: Album, u: Uid) returns (i: nat)
    requires Allowed(t, Rescan(rows)) && u in Members(t.photos, a)
    ensures i < |rows| && rows[i] == u
  {
    AmongAreMembers(t, rows, a);
    assert u in SetOf(rows);
    i :| 0 <= i < |rows| && rows[i] == u;
  }

  lemma OnceForMembers(t: Tables, rows: seq<Uid>, a: Album)
    requires Allowed(t, Rescan(rows))
    ensures MentionedOnce(t.photos, rows, a)
       <==> forall u :: u in Members(t.photos, a) ==> Mentions(t.photos[u].albums, a) == 1
  {
    hide Mentions, Members, Lists;
    MembersIn(t.photos, a);
    if MentionedOnce(t.photos, rows, a) {
      forall u | u in Members(t.photos, a) ensures Mentions(t.photos[u].albums, a) == 1 {
        var i := MembersAreRows(t, rows, a, u);
        MentionedByMembers(t, rows, a, i);
      }
    }
    if forall u :: u in Members(t.photos, a) ==> Mentions(t.photos[u].albums, a) == 1 {
      forall i | 0 <= i < |rows| ensures Mentions(t.photos[rows[i]].albums, a) <= 1 {
        MentionedByMembers(t, rows, a, i);
      }
    }
  }
}
