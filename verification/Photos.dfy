/** The `photos` table and what each statement of the store and the indexer does to it. Every
    function here is one committed transaction, as its callers see it. */
module Photos {
  import opened Wrappers

  type Uid = int
  type Album = int

  datatype Status = New | Downloading | Processing | Done | Error | Deleted | PendingRemoval | Full | Fullres

  /** The columns the deletion protocol and the album aggregates depend on. `thumb` is the path of
      the thumbnail, empty for a photo that has none to show. */
  datatype Photo = Photo(
    status: Status,
    captureTime: Option<int>,
    albums: seq<Album>,
    thumb: Option<string>,
    processedAt: Option<int>,
    wasDeletedAt: Option<int>,
    retryCount: int)

  type Table = map<Uid, Photo>

  /** One row of metadata from the bridge. */
  datatype Item = Item(uid: Uid, captureTime: Option<int>, albums: seq<Album>)

  predicate Active(p: Photo) {
    !p.status.PendingRemoval? && !p.status.Deleted?
  }

  function ActiveUids(t: Table): set<Uid> {
    set u | u in t && Active(t[u])
  }

  // ---- The scan's statements ------------------------------------------------------------------

  function Fresh(item: Item): Photo {
    Photo(New, item.captureTime, item.albums, None, None, None, 0)
  }

  /** The row after the upsert's conflict clause: a row that was deleted or staged is reclaimed. */
  function Merged(p: Photo, item: Item): Photo {
    var q := p.(captureTime := item.captureTime, albums := item.albums);
    if Active(p) then q else q.(status := New, wasDeletedAt := None, retryCount := 0)
  }

  function Upserted(t: Table, item: Item): Table {
    t[item.uid := if item.uid in t then Merged(t[item.uid], item) else Fresh(item)]
  }

  function UpsertAll(t: Table, items: seq<Item>): Table
    decreases |items|
  {
    if items == [] then t else UpsertAll(Upserted(t, items[0]), items[1..])
  }

  function StagedRow(p: Photo, now: int): Photo {
    if Active(p) then p.(status := PendingRemoval, processedAt := Some(now)) else p
  }

  function Staged(t: Table, uids: set<Uid>, now: int): Table {
    map u | u in t :: if u in uids then StagedRow(t[u], now) else t[u]
  }

  predicate Overdue(p: Photo, cutoff: int) {
    p.status.PendingRemoval? && p.processedAt.Some? && p.processedAt.value <= cutoff
  }

  function OverdueUids(t: Table, cutoff: int): set<Uid> {
    set u | u in t && Overdue(t[u], cutoff)
  }

  function Confirmed(t: Table, grace: int, now: int): Table {
    map u | u in t ::
      if Overdue(t[u], now - grace)
      then t[u].(status := Deleted, wasDeletedAt := if t[u].wasDeletedAt.Some? then t[u].wasDeletedAt else Some(now))
      else t[u]
  }

  /** `MAX_RETRY_PARK` of the indexer. */
  const MAX_RETRY_PARK: int := 5

  function RetriedErrors(t: Table): Table {
    map u | u in t ::
      if t[u].status.Error? && t[u].retryCount < MAX_RETRY_PARK then t[u].(status := New) else t[u]
  }

  // ---- The pipeline's statements --------------------------------------------------------------

  datatype PipelineStep =
    | ClaimForDownload(uids: set<Uid>)
    | ReleaseClaims(uids: set<Uid>)
    | ClaimForProcessing(uid: Uid)
    | SetDone(uid: Uid, thumb: string, now: int)
    | SetFull(uid: Uid)
    | ClaimForFull(uid: Uid)
    | FullToDownloading(uid: Uid)
    | FullToDone(uid: Uid, thumb: string, now: int)
    | FullBackOff(uid: Uid, now: int)
    | SetError(uids: set<Uid>)
    | ResetStuck(cutoff: int, maxRetry: int)
    | BackfillFull(uids: set<Uid>)
    | Restart
    | PurgeMedia(uids: set<Uid>)

  predicate NoThumb(p: Photo) {
    p.thumb.None? || p.thumb.value == ""
  }

  /** What a step makes of one row. Steps that finish or fail a photo do so whatever its status. */
  function RowAfter(step: PipelineStep, u: Uid, p: Photo): Photo {
    match step
    case ClaimForDownload(uids) => if u in uids && p.status.New? then p.(status := Downloading) else p
    case ReleaseClaims(uids) => if u in uids && p.status.Downloading? then p.(status := New) else p
    case ClaimForProcessing(uid) => if u == uid && p.status.Downloading? then p.(status := Processing) else p
    case SetDone(uid, thumb, now) =>
      if u == uid then p.(status := Done, thumb := Some(thumb), processedAt := Some(now)) else p
    case SetFull(uid) => if u == uid then p.(status := Full) else p
    case ClaimForFull(uid) => if u == uid && p.status.Full? then p.(status := Fullres) else p
    case FullToDownloading(uid) => if u == uid then p.(status := Downloading) else p
    case FullToDone(uid, thumb, now) =>
      if u == uid then p.(status := Done, thumb := Some(thumb), processedAt := Some(now)) else p
    case FullBackOff(uid, now) => if u == uid then p.(status := Full, processedAt := Some(now)) else p
    case SetError(uids) => if u in uids then p.(status := Error) else p
    case ResetStuck(cutoff, maxRetry) =>
      if p.status.Full? && p.processedAt.Some? && p.processedAt.value <= cutoff then
        p.(status := if p.retryCount < maxRetry then New else Error, retryCount := p.retryCount + 1)
      else p
    case BackfillFull(uids) => if u in uids && p.status.Done? && NoThumb(p) then p.(status := Full) else p
    case Restart =>
      if p.status.Processing? then p.(status := Downloading)
      else if p.status.Fullres? then p.(status := Full)
      else p
    case PurgeMedia(uids) => if u in uids then p.(thumb := None) else p
  }

  function Piped(t: Table, step: PipelineStep): Table {
    map u | u in t :: RowAfter(step, u, t[u])
  }

  // ---- What the statements keep ---------------------------------------------------------------

  /** No pipeline step stages or deletes a row, or touches the stage time of one that stays staged. */
  lemma PipelineNeverStages(step: PipelineStep, u: Uid, p: Photo)
    ensures var q := RowAfter(step, u, p);
      !Active(q) ==> q.status == p.status && q.processedAt == p.processedAt && q.wasDeletedAt == p.wasDeletedAt
    ensures Active(p) ==> Active(RowAfter(step, u, p))
  {}

  predicate Mentions(items: seq<Item>, u: Uid) {
    exists i :: 0 <= i < |items| && items[i].uid == u
  }

  // ---- What the statements make of a row ------------------------------------------------------

  /** What the sync of one item leaves of a row: a row that is new, or was staged or deleted, can be
      claimed for download at once and starts afresh; any other keeps its place in the pipeline. Only
      the metadata comes from the bridge. */
  ghost predicate Synced(before: Option<Photo>, item: Item, after: Photo) {
    && after.captureTime == item.captureTime && after.albums == item.albums
    && if before == None then
         after.status == New && after.retryCount == 0 && after.wasDeletedAt == None
         && after.processedAt == None && after.thumb == None
       else
         var p := before.value;
         && after.thumb == p.thumb && after.processedAt == p.processedAt
         && if p.status == PendingRemoval || p.status == Deleted
            then after.status == New && after.retryCount == 0 && after.wasDeletedAt == None
            else after.status == p.status && after.retryCount == p.retryCount && after.wasDeletedAt == p.wasDeletedAt
  }

  function PhotoAt(t: Table, u: Uid): Option<Photo> {
    if u in t then Some(t[u]) else None
  }

  lemma UpsertSyncs(t: Table, item: Item)
    ensures item.uid in Upserted(t, item) && Synced(PhotoAt(t, item.uid), item, Upserted(t, item)[item.uid])
    ensures forall u :: u != item.uid ==> PhotoAt(Upserted(t, item), u) == PhotoAt(t, u)
  {}

  lemma SyncedTwice(a: Option<Photo>, x: Item, b: Photo, y: Item, c: Photo)
    requires Synced(a, x, b) && Synced(Some(b), y, c)
    ensures Synced(a, y, c)
  {}

  /** The last item of a list that names a photo. */
  function LastItem(items: seq<Item>, u: Uid): Option<Item> {
    if items == [] then None
    else if LastItem(items[1..], u).Some? then LastItem(items[1..], u)
    else if items[0].uid == u then Some(items[0])
    else None
  }

  /** MAIN RESULT: after an upsert of any items every row they name is synced with the last of them,
      from what it was before; the others are as they were. */
  lemma {:induction false} UpsertAllSyncs(t: Table, items: seq<Item>, u: Uid)
    ensures match LastItem(items, u)
            case None => PhotoAt(UpsertAll(t, items), u) == PhotoAt(t, u)
            case Some(item) => u in UpsertAll(t, items) && Synced(PhotoAt(t, u), item, UpsertAll(t, items)[u])
    decreases |items|
  {
    hide Synced, Upserted;
    if items != [] {
      var next := Upserted(t, items[0]);
      UpsertSyncs(t, items[0]);
      UpsertAllSyncs(next, items[1..], u);
      if items[0].uid == u && LastItem(items[1..], u).Some? {
        SyncedTwice(PhotoAt(t, u), items[0], next[u], LastItem(items[1..], u).value, UpsertAll(t, items)[u]);
      }
    }
  }

  /** Staging turns exactly the active rows among the given ones into staged ones of this time. */
  lemma StageStages(t: Table, uids: set<Uid>, now: int)
    ensures Staged(t, uids, now).Keys == t.Keys
    ensures forall u :: u in t ==>
      Staged(t, uids, now)[u]
        == if u in uids && t[u].status != PendingRemoval && t[u].status != Deleted
           then t[u].(status := PendingRemoval, processedAt := Some(now)) else t[u]
  {}

  /** Confirming deletes exactly the rows staged at least the grace ago. */
  lemma ConfirmDeletes(t: Table, grace: int, now: int)
    ensures Confirmed(t, grace, now).Keys == t.Keys
    ensures forall u :: u in t ==>
      var p, q := t[u], Confirmed(t, grace, now)[u];
      if p.status == PendingRemoval && p.processedAt.Some? && now - p.processedAt.value >= grace then
        && q.status == Deleted && q.wasDeletedAt == Some(if p.wasDeletedAt.Some? then p.wasDeletedAt.value else now)
        && q == p.(status := q.status, wasDeletedAt := q.wasDeletedAt)
      else
        q == p
  {}

  function PipedEach(t: Table, steps: seq<PipelineStep>): Table
  {
    if steps == [] then t else PipedEach(Piped(t, steps[0]), steps[1..])
  }

  /** The way of a photo through the pipeline: claimed, processed and done with its thumbnail ... */
  lemma DownloadedAndDone(t: Table, u: Uid, thumb: string, now: int)
    requires u in t && t[u].status == New
    ensures var steps := [ClaimForDownload({u}), ClaimForProcessing(u), SetDone(u, thumb, now)];
      u in PipedEach(t, steps)
      && PipedEach(t, steps)[u] == t[u].(status := Done, thumb := Some(thumb), processedAt := Some(now))
  {
    hide PipedEach, RowAfter;
    ThreeSteps(t, ClaimForDownload({u}), ClaimForProcessing(u), SetDone(u, thumb, now));
    DownloadedRow(t[u], u, thumb, now);
  }

  lemma DownloadedRow(p: Photo, u: Uid, thumb: string, now: int)
    requires p.status == New
    ensures RowAfter(SetDone(u, thumb, now), u, RowAfter(ClaimForProcessing(u), u, RowAfter(ClaimForDownload({u}), u, p)))
         == p.(status := Done, thumb := Some(thumb), processedAt := Some(now))
  {}

  /** ... or fetched in full once more, and done then. */
  lemma FetchedInFull(t: Table, u: Uid, thumb: string, now: int)
    requires u in t
    ensures var steps := [SetFull(u), ClaimForFull(u), FullToDone(u, thumb, now)];
      u in PipedEach(t, steps)
      && PipedEach(t, steps)[u] == t[u].(status := Done, thumb := Some(thumb), processedAt := Some(now))
  {
    hide PipedEach, RowAfter;
    ThreeSteps(t, SetFull(u), ClaimForFull(u), FullToDone(u, thumb, now));
    FetchedRow(t[u], u, thumb, now);
  }

  lemma FetchedRow(p: Photo, u: Uid, thumb: string, now: int)
    ensures RowAfter(FullToDone(u, thumb, now), u, RowAfter(ClaimForFull(u), u, RowAfter(SetFull(u), u, p)))
         == p.(status := Done, thumb := Some(thumb), processedAt := Some(now))
  {}

  /** What a claim takes comes back: released, or after a restart of the indexer. */
  lemma ClaimsComeBack(t: Table, u: Uid)
    requires u in t
    ensures t[u].status == New ==> PhotoAt(PipedEach(t, [ClaimForDownload({u}), ReleaseClaims({u})]), u) == Some(t[u])
    ensures t[u].status == Downloading ==> PhotoAt(PipedEach(t, [ClaimForProcessing(u), Restart]), u) == Some(t[u])
    ensures t[u].status == Full ==> PhotoAt(PipedEach(t, [ClaimForFull(u), Restart]), u) == Some(t[u])
  {
    hide PipedEach, RowAfter;
    TwoSteps(t, ClaimForDownload({u}), ReleaseClaims({u}));
    TwoSteps(t, ClaimForProcessing(u), Restart);
    TwoSteps(t, ClaimForFull(u), Restart);
    ClaimAndBack(t[u], u);
  }

  /** A claim takes exactly the photos that wait for it, and a photo taken waits no longer: a second
      claim in a row finds nothing. */
  lemma ClaimsTake(u: Uid, p: Photo, uids: set<Uid>, uid: Uid)
    ensures var step := ClaimForDownload(uids);
      var q := RowAfter(step, u, p);
      && q == (if u in uids && p.status == New then p.(status := Downloading) else p)
      && RowAfter(step, u, q) == q
    ensures var step := ClaimForProcessing(uid);
      var q := RowAfter(step, u, p);
      && q == (if u == uid && p.status == Downloading then p.(status := Processing) else p)
      && RowAfter(step, u, q) == q
    ensures var step := ClaimForFull(uid);
      var q := RowAfter(step, u, p);
      && q == (if u == uid && p.status == Full then p.(status := Fullres) else p)
      && RowAfter(step, u, q) == q
  {}

  /** Giving claims back, and finishing, touch no other rows: those claimed and not given back, or of
      other photos. */
  lemma OthersKept(u: Uid, p: Photo, uids: set<Uid>, uid: Uid, thumb: string, now: int)
    ensures u !in uids || p.status != Downloading ==> RowAfter(ReleaseClaims(uids), u, p) == p
    ensures p.status != Processing && p.status != Fullres ==> RowAfter(Restart, u, p) == p
    ensures u != uid ==>
      && RowAfter(SetDone(uid, thumb, now), u, p) == p && RowAfter(SetFull(uid), u, p) == p
      && RowAfter(FullToDone(uid, thumb, now), u, p) == p
  {}

  lemma ClaimAndBack(p: Photo, u: Uid)
    ensures p.status == New ==> RowAfter(ReleaseClaims({u}), u, RowAfter(ClaimForDownload({u}), u, p)) == p
    ensures p.status == Downloading ==> RowAfter(Restart, u, RowAfter(ClaimForProcessing(u), u, p)) == p
    ensures p.status == Full ==> RowAfter(Restart, u, RowAfter(ClaimForFull(u), u, p)) == p
  {}

  lemma ThreeSteps(t: Table, a: PipelineStep, b: PipelineStep, c: PipelineStep)
    ensures PipedEach(t, [a, b, c]) == Piped(Piped(Piped(t, a), b), c)
  {
    hide Piped;
    TwoSteps(Piped(t, a), b, c);
    assert [a, b, c][1..] == [b, c];
  }

  lemma TwoSteps(t: Table, a: PipelineStep, b: PipelineStep)
    ensures PipedEach(t, [a, b]) == Piped(Piped(t, a), b)
  {
    var none: seq<PipelineStep> := [];
    assert [a, b][1..] == [b] && [b][1..] == none;
    assert PipedEach(Piped(Piped(t, a), b), none) == Piped(Piped(t, a), b);
  }

  /** Backing off, failing, backfilling, purging and resetting change what their names say of exactly
      the rows they are for. */
  lemma OtherSteps(u: Uid, p: Photo, uids: set<Uid>, uid: Uid, now: int, cutoff: int, maxRetry: int)
    ensures RowAfter(FullToDownloading(uid), u, p) == if u == uid then p.(status := Downloading) else p
    ensures RowAfter(FullBackOff(uid, now), u, p) == if u == uid then p.(status := Full, processedAt := Some(now)) else p
    ensures RowAfter(SetError(uids), u, p) == if u in uids then p.(status := Error) else p
    ensures RowAfter(PurgeMedia(uids), u, p) == if u in uids then p.(thumb := None) else p
    ensures RowAfter(BackfillFull(uids), u, p)
         == if u in uids && p.status == Done && (p.thumb == None || p.thumb == Some("")) then p.(status := Full) else p
    ensures var q := RowAfter(ResetStuck(cutoff, maxRetry), u, p);
      if p.status == Full && p.processedAt.Some? && p.processedAt.value <= cutoff
      then q.retryCount == p.retryCount + 1 && q.status == (if q.retryCount <= maxRetry then New else Error)
      else q == p
  {}

  /** A failed photo is taken up again while its retries are below five, and only then. */
  lemma ErrorsRetried(t: Table)
    ensures RetriedErrors(t).Keys == t.Keys
    ensures forall u :: u in t ==>
      RetriedErrors(t)[u] == if t[u].status == Error && t[u].retryCount < 5 then t[u].(status := New) else t[u]
  {}

  /** After an upsert every mentioned row exists and is active; the others are as before. */
  lemma {:induction false} UpsertReclaims(t: Table, items: seq<Item>, u: Uid)
    ensures Mentions(items, u) ==> u in UpsertAll(t, items) && Active(UpsertAll(t, items)[u])
    ensures u in t && Active(t[u]) ==> u in UpsertAll(t, items) && Active(UpsertAll(t, items)[u])
    ensures !Mentions(items, u) ==> (u in UpsertAll(t, items) <==> u in t)
    ensures !Mentions(items, u) && u in t ==> UpsertAll(t, items)[u] == t[u]
    decreases |items|
  {
    if items != [] {
      var next := Upserted(t, items[0]);
      UpsertReclaims(next, items[1..], u);
      assert items[0].uid == u ==> u in next && Active(next[u]);
      assert Mentions(items[1..], u) ==> Mentions(items, u) by {
        if i :| 0 <= i < |items[1..]| && items[1..][i].uid == u { assert items[i + 1].uid == u; }
      }
      if items[0].uid != u && Mentions(items, u) {
        var i :| 0 <= i < |items| && items[i].uid == u;
        assert items[1..][i - 1].uid == u;
      }
    }
  }
}
