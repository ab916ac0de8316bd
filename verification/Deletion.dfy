/** The two-phase deletion protocol of the full scan. */
module Deletion {
  // A scan fetches a listing, diffs it against the table, stages what is missing, confirms what has
  // been staged for the grace period, and upserts what is new, while the pipeline's transactions
  // fall between its own. Main result: whatever the interleaving, a row that is deleted was missing
  // from every completed scan's listing since it was staged, for at least the grace period, and a
  // listed row ends its scan neither staged nor deleted.

  import opened Wrappers
  import opened Photos

  datatype Phase =
    | Idle
    | Listed(remote: set<Uid>)
    | Diffed(remote: set<Uid>, added: set<Uid>, gone: set<Uid>)
    | Marked(remote: set<Uid>, added: set<Uid>)
    | Upserting(remote: set<Uid>, todo: set<Uid>, skipped: set<Uid>)

  /** When and in which scan a row was last staged. */
  datatype Staging = Staging(scan: nat, time: int)

  datatype Confirmation = Confirmation(scan: nat, time: int, grace: int)

  /** A finished scan: its listing, the listed rows the bridge gave no metadata for, and whether it
      ran to its end. */
  datatype Scan = Scan(remote: set<Uid>, skipped: set<Uid>, completed: bool)

  /** The table and the scan in progress, with the history the statements are about. */
  datatype System = System(
    photos: Table,
    phase: Phase,
    scans: seq<Scan>,
    staged: map<Uid, Staging>,
    confirmed: map<Uid, Confirmation>)

  function Start(): System {
    System(map[], Idle, [], map[], map[])
  }

  datatype Event =
    | Fetch(remote: set<Uid>)
    | Diff(threshold: real)
    | Mark(now: int)
    | Confirm(now: int, grace: int)
    | UpsertBatch(batch: set<Uid>, items: seq<Item>)
    | Finish
    | Abort
    | Pipeline(step: PipelineStep)
    | LimitedSync(items: seq<Item>)

  function Uids(items: seq<Item>): set<Uid> {
    set i | 0 <= i < |items| :: items[i].uid
  }

  /** The history with the entry `x` for each of `uids`. */
  function Noted<T>(history: map<Uid, T>, uids: set<Uid>, x: T): map<Uid, T> {
    map u | u in history.Keys + uids :: if u in uids then x else history[u]
  }

  /** The listing is so short that it must have been cut off. */
  predicate TooShort(remote: set<Uid>, active: set<Uid>, threshold: real) {
    |remote| as real < (1.0 - threshold) * |active| as real
  }

  predicate Enabled(s: System, e: Event) {
    match e
    case Fetch(_) => s.phase.Idle?
    case Diff(_) => s.phase.Listed?
    case Mark(_) => s.phase.Diffed?
    case Confirm(_, _) => s.phase.Marked?
    case UpsertBatch(batch, items) => s.phase.Upserting? && batch <= s.phase.todo && Uids(items) <= batch
    case Finish => s.phase.Upserting? && s.phase.todo == {}
    case Abort => !s.phase.Idle?
    case Pipeline(_) => true
    case LimitedSync(_) => s.phase.Idle?
  }

  function RemoteOf(p: Phase): set<Uid> {
    if p.Idle? then {} else p.remote
  }

  /** One transaction, or the end of a scan. An empty listing is refused before the diff. */
  function Apply(s: System, e: Event): System
    requires Enabled(s, e)
  {
    match e
    case Fetch(remote) => if remote == {} then s else s.(phase := Listed(remote))
    case Diff(threshold) =>
      var active := ActiveUids(s.photos);
      var remote := s.phase.remote;
      if TooShort(remote, active, threshold) then s.(phase := Idle)
      else s.(phase := Diffed(remote, remote - active, active - remote))
    case Mark(now) =>
      s.(photos := Staged(s.photos, s.phase.gone, now),
         staged := Noted(s.staged, ActiveUids(s.photos) * s.phase.gone, Staging(|s.scans|, now)),
         phase := Marked(s.phase.remote, s.phase.added))
    case Confirm(now, grace) =>
      s.(photos := Confirmed(s.photos, grace, now),
         confirmed := Noted(s.confirmed, OverdueUids(s.photos, now - grace), Confirmation(|s.scans|, now, grace)),
         phase := Upserting(s.phase.remote, s.phase.added, {}))
    case UpsertBatch(batch, items) =>
      s.(photos := UpsertAll(s.photos, items),
         phase := Upserting(s.phase.remote, s.phase.todo - batch, s.phase.skipped + (batch - Uids(items))))
    case Finish =>
      s.(photos := RetriedErrors(s.photos),
         scans := s.scans + [Scan(s.phase.remote, s.phase.skipped, true)],
         phase := Idle)
    case Abort => s.(scans := s.scans + [Scan(RemoteOf(s.phase), {}, false)], phase := Idle)
    case Pipeline(step) => s.(photos := Piped(s.photos, step))
    case LimitedSync(items) => s.(photos := UpsertAll(s.photos, items))
  }

  ghost predicate Run(s: System, events: seq<Event>)
    decreases |events|
  {
    events == [] || (Enabled(s, events[0]) && Run(Apply(s, events[0]), events[1..]))
  }

  ghost function Final(s: System, events: seq<Event>): System
    requires Run(s, events)
    decreases |events|
  {
    if events == [] then s else Final(Apply(s, events[0]), events[1..])
  }

  // ---- The statements -------------------------------------------------------------------------

  /** The scan ran to its end and its listing held u, with metadata if that was asked for. */
  predicate Saw(scan: Scan, u: Uid) {
    scan.completed && u in scan.remote && u !in scan.skipped
  }

  ghost predicate UnseenSince(s: System, u: Uid, first: nat) {
    forall j :: first <= j < |s.scans| ==> !Saw(s.scans[j], u)
  }

  /** A staged row carries its stage time and no completed scan has seen it since. */
  ghost predicate StagedRight(s: System, u: Uid) {
    && u in s.staged && s.staged[u].scan <= |s.scans|
    && UnseenSince(s, u, s.staged[u].scan)
    && (u in s.photos && s.photos[u].status.PendingRemoval? ==> s.photos[u].processedAt == Some(s.staged[u].time))
  }

  /** A deleted row was confirmed after its staging, at least the grace period later. */
  ghost predicate DeletedRight(s: System, u: Uid) {
    && u in s.confirmed && u in s.staged
    && s.staged[u].scan <= s.confirmed[u].scan <= |s.scans|
    && s.confirmed[u].time - s.staged[u].time >= s.confirmed[u].grace
  }

  ghost predicate RowRight(s: System, u: Uid) {
    u in s.photos && !Active(s.photos[u]) ==>
      StagedRight(s, u) && (s.photos[u].status.Deleted? ==> DeletedRight(s, u))
  }

  predicate ActiveIn(t: Table, u: Uid) {
    u in t && Active(t[u])
  }

  /** The listed rows that this scan has already dealt with are active. */
  ghost predicate ScanRight(s: System) {
    match s.phase
    case Diffed(remote, added, gone) =>
      && (forall u :: u in remote && u !in added ==> ActiveIn(s.photos, u))
      && (forall u :: u in gone ==> u !in remote && ActiveIn(s.photos, u))
    case Marked(remote, added) =>
      forall u :: u in remote && u !in added ==> ActiveIn(s.photos, u)
    case Upserting(remote, todo, skipped) =>
      forall u :: u in remote && u !in todo && u !in skipped ==> ActiveIn(s.photos, u)
    case _ => true
  }

  ghost predicate Inv(s: System) {
    ScanRight(s) && forall u :: RowRight(s, u)
  }

  // ---- Every step keeps them ------------------------------------------------------------------

  lemma PipelineRow(s: System, step: PipelineStep, u: Uid)
    requires RowRight(s, u)
    ensures RowRight(s.(photos := Piped(s.photos, step)), u)
    ensures ActiveIn(s.photos, u) ==> ActiveIn(Piped(s.photos, step), u)
  {
    hide RowAfter;
    if u in s.photos { PipelineNeverStages(step, u, s.photos[u]); }
  }

  lemma UpsertRow(s: System, items: seq<Item>, phase: Phase, u: Uid)
    requires RowRight(s, u)
    ensures RowRight(s.(photos := UpsertAll(s.photos, items), phase := phase), u)
    ensures ActiveIn(s.photos, u) || u in Uids(items) ==> ActiveIn(UpsertAll(s.photos, items), u)
  {
    hide UpsertAll;
    UpsertReclaims(s.photos, items, u);
  }

  lemma MarkRow(s: System, now: int, u: Uid)
    requires s.phase.Diffed? && RowRight(s, u)
    ensures RowRight(Apply(s, Mark(now)), u)
    ensures ActiveIn(s.photos, u) && u !in s.phase.gone ==> ActiveIn(Apply(s, Mark(now)).photos, u)
  {}

  lemma ConfirmRow(s: System, now: int, grace: int, u: Uid)
    requires s.phase.Marked? && RowRight(s, u)
    ensures RowRight(Apply(s, Confirm(now, grace)), u)
    ensures ActiveIn(s.photos, u) ==> ActiveIn(Apply(s, Confirm(now, grace)).photos, u)
  {}

  lemma FinishRow(s: System, u: Uid)
    requires Enabled(s, Finish) && RowRight(s, u) && ScanRight(s)
    ensures RowRight(Apply(s, Finish), u)
    ensures ActiveIn(s.photos, u) ==> ActiveIn(Apply(s, Finish).photos, u)
  {}

  lemma AbortRow(s: System, u: Uid)
    requires Enabled(s, Abort) && RowRight(s, u)
    ensures RowRight(Apply(s, Abort), u)
  {}

  lemma RowsKept(s: System, e: Event)
    requires Inv(s) && Enabled(s, e)
    ensures forall u :: RowRight(Apply(s, e), u)
  {
    hide RowRight, Piped, UpsertAll;
    forall u ensures RowRight(Apply(s, e), u) {
      assert RowRight(s, u);
      match e
      case Mark(now) => MarkRow(s, now, u);
      case Confirm(now, grace) => ConfirmRow(s, now, grace, u);
      case UpsertBatch(_, items) => UpsertRow(s, items, Apply(s, e).phase, u);
      case Finish => FinishRow(s, u);
      case Abort => AbortRow(s, u);
      case Pipeline(step) => PipelineRow(s, step, u);
      case LimitedSync(items) => UpsertRow(s, items, s.phase, u);
      case Fetch(_) => PhaseOnly(s, Apply(s, e).phase, u);
      case Diff(_) => PhaseOnly(s, Apply(s, e).phase, u);
    }
  }

  lemma PhaseOnly(s: System, phase: Phase, u: Uid)
    requires RowRight(s, u)
    ensures RowRight(s.(phase := phase), u)
  {}

  lemma ScanKept(s: System, e: Event)
    requires Inv(s) && Enabled(s, e)
    ensures ScanRight(Apply(s, e))
  {
    hide RowRight, Piped, UpsertAll, Staged, Confirmed, RetriedErrors;
    var next := Apply(s, e);
    forall u: Uid ensures ActiveIn(s.photos, u) && !(e.Mark? && u in s.phase.gone) ==> ActiveIn(next.photos, u) {
      assert RowRight(s, u);
      match e
      case Mark(now) => MarkRow(s, now, u);
      case Confirm(now, grace) => ConfirmRow(s, now, grace, u);
      case UpsertBatch(_, items) => UpsertRow(s, items, next.phase, u);
      case Finish => FinishRow(s, u);
      case Pipeline(step) => PipelineRow(s, step, u);
      case LimitedSync(items) => UpsertRow(s, items, s.phase, u);
      case _ =>
    }
    if e.UpsertBatch? {
      forall u | u in Uids(e.items) ensures ActiveIn(next.photos, u) {
        assert RowRight(s, u);
        UpsertRow(s, e.items, next.phase, u);
      }
    }
  }

  lemma StepKeeps(s: System, e: Event)
    requires Inv(s) && Enabled(s, e)
    ensures Inv(Apply(s, e))
  {
    hide RowRight, ScanRight, Apply;
    RowsKept(s, e);
    ScanKept(s, e);
  }

  lemma {:induction false} RunKeeps(s: System, events: seq<Event>)
    requires Inv(s) && Run(s, events)
    ensures Inv(Final(s, events))
    decreases |events|
  {
    hide Inv, Apply, Enabled;
    if events != [] {
      StepKeeps(s, events[0]);
      RunKeeps(Apply(s, events[0]), events[1..]);
    }
  }

  // ---- Main results ---------------------------------------------------------------------------

  lemma StartRight()
    ensures Inv(Start())
  {}

  /** MAIN RESULT: in every reachable state, each deleted row was staged by some scan and confirmed
      by it or a later one at a reading at least that scan's grace later, and no scan that has run to
      its end since the staging had the row in its listing. */
  lemma DeletedWereMissing(events: seq<Event>, u: Uid)
    requires Run(Start(), events)
    ensures var s := Final(Start(), events);
      u in s.photos && s.photos[u].status.Deleted? ==>
        && DeletedRight(s, u) && UnseenSince(s, u, s.staged[u].scan)
  {
    hide Run, Final, ScanRight, DeletedRight, UnseenSince;
    StartRight();
    RunKeeps(Start(), events);
    assert RowRight(Final(Start(), events), u);
  }

  /** MAIN RESULT: at the end of every completed scan each row of its listing, save those the bridge
      gave no metadata for, is neither staged nor deleted. */
  lemma ListedRowsAreActive(events: seq<Event>, u: Uid)
    requires Run(Start(), events) && Enabled(Final(Start(), events), Finish)
    ensures var s := Final(Start(), events);
      u in s.phase.remote && u !in s.phase.skipped ==> ActiveIn(Apply(s, Finish).photos, u)
  {
    hide Run, Final, RowRight;
    StartRight();
    RunKeeps(Start(), events);
    var s := Final(Start(), events);
    assert RowRight(s, u);
    FinishRow(s, u);
  }

  /** The history says what happened: a row's stage entry changes exactly when a scan whose listing
      lacks it turns it from active to staged, at that reading. */
  lemma StagingRecorded(s: System, e: Event, u: Uid)
    requires Inv(s) && Enabled(s, e)
    ensures var next := Apply(s, e);
      (ActiveIn(s.photos, u) && u in next.photos && !Active(next.photos[u])) ==>
        && e.Mark? && u !in s.phase.remote && next.photos[u].status.PendingRemoval?
        && u in next.staged && next.staged[u] == Staging(|s.scans|, e.now)
    ensures var next := Apply(s, e);
      !(ActiveIn(s.photos, u) && u in next.photos && !Active(next.photos[u])) ==>
        (u in next.staged <==> u in s.staged) && (u in s.staged ==> next.staged[u] == s.staged[u])
  {
    hide RowRight, RowAfter, UpsertAll;
    assert RowRight(s, u);
    match e
    case Pipeline(step) => PipelineRow(s, step, u);
    case UpsertBatch(_, items) => UpsertRow(s, items, Apply(s, e).phase, u);
    case LimitedSync(items) => UpsertRow(s, items, s.phase, u);
    case Confirm(now, grace) => ConfirmRow(s, now, grace, u);
    case Finish => FinishRow(s, u);
    case _ =>
  }

  predicate DeletedIn(t: Table, u: Uid) {
    u in t && t[u].status.Deleted?
  }

  /** Likewise a row's confirmation entry changes exactly when a scan turns it from staged to
      deleted. */
  lemma ConfirmationRecorded(s: System, e: Event, u: Uid)
    requires Inv(s) && Enabled(s, e)
    ensures var next := Apply(s, e);
      DeletedIn(next.photos, u) && !DeletedIn(s.photos, u) ==>
        && e.Confirm? && s.photos[u].status.PendingRemoval?
        && u in next.confirmed && next.confirmed[u] == Confirmation(|s.scans|, e.now, e.grace)
    ensures var next := Apply(s, e);
      !(DeletedIn(next.photos, u) && !DeletedIn(s.photos, u)) ==>
        (u in next.confirmed <==> u in s.confirmed) && (u in s.confirmed ==> next.confirmed[u] == s.confirmed[u])
  {
    hide RowRight, RowAfter, UpsertAll;
    assert RowRight(s, u);
    match e
    case Pipeline(step) => if u in s.photos { PipelineNeverStages(step, u, s.photos[u]); }
    case UpsertBatch(_, items) => UpsertReclaims(s.photos, items, u);
    case LimitedSync(items) => UpsertReclaims(s.photos, items, u);
    case _ =>
  }

  /** A scan that is not interrupted stages every row its listing lacks, refuses an empty listing, and
      leaves the table alone when it stops at the threshold. */
  lemma MissingIsStaged(s: System, remote: set<Uid>, threshold: real, now: int, u: Uid)
    requires s.phase.Idle?
    ensures var listed := Apply(s, Fetch(remote));
      if remote == {} then listed == s
      else
        && Enabled(listed, Diff(threshold))
        && var found := Apply(listed, Diff(threshold));
        && found.photos == s.photos
        && (found.phase.Idle? <==> |remote| as real < (1.0 - threshold) * |ActiveUids(s.photos)| as real)
        && (!found.phase.Idle? ==>
              && Enabled(found, Mark(now))
              && var marked := Apply(found, Mark(now)).photos;
              && marked.Keys == s.photos.Keys
              && (u in s.photos ==>
                    marked[u] == if u !in remote && s.photos[u].status != PendingRemoval && s.photos[u].status != Deleted
                                 then s.photos[u].(status := PendingRemoval, processedAt := Some(now)) else s.photos[u])
              && (u in found.phase.added <==>
                    u in remote && (u in s.photos ==> s.photos[u].status == PendingRemoval || s.photos[u].status == Deleted)))
  {
    hide Noted;
  }

  // ---- What a whole scan does to a row --------------------------------------------------------

  /** The rows that came with the batches of one scan, in order. */
  function AllItems(batches: seq<Event>): seq<Item>
    decreases |batches|
  {
    if batches == [] then []
    else (if batches[0].UpsertBatch? then batches[0].items else []) + AllItems(batches[1..])
  }

  /** The batches split the uids still to upsert, and each brings metadata for some of its own. */
  ghost predicate Batched(todo: set<Uid>, batches: seq<Event>)
    decreases |batches|
  {
    if batches == [] then todo == {}
    else
      && batches[0].UpsertBatch? && batches[0].batch <= todo
      && (forall i :: 0 <= i < |batches[0].items| ==> batches[0].items[i].uid in batches[0].batch)
      && Batched(todo - batches[0].batch, batches[1..])
  }

  lemma UpsertAllJoin(t: Table, a: seq<Item>, b: seq<Item>)
    ensures UpsertAll(t, a + b) == UpsertAll(UpsertAll(t, a), b)
    decreases |a|
  {
    hide Upserted;
    if a == [] {
      assert a + b == b;
    } else {
      assert (a + b)[1..] == a[1..] + b;
      UpsertAllJoin(Upserted(t, a[0]), a[1..], b);
    }
  }

  lemma LastItemJoin(a: seq<Item>, b: seq<Item>, u: Uid)
    ensures LastItem(a + b, u) == if LastItem(b, u).Some? then LastItem(b, u) else LastItem(a, u)
    decreases |a|
  {
    if a == [] {
      assert a + b == b;
    } else {
      assert (a + b)[1..] == a[1..] + b;
      LastItemJoin(a[1..], b, u);
    }
  }

  lemma LastItemMeans(items: seq<Item>, u: Uid)
    ensures LastItem(items, u).Some? <==> u in Uids(items)
    ensures LastItem(items, u).Some? ==> LastItem(items, u).value.uid == u
    decreases |items|
  {
    if items != [] {
      LastItemMeans(items[1..], u);
      if u in Uids(items[1..]) {
        var i :| 0 <= i < |items[1..]| && items[1..][i].uid == u;
        assert items[i + 1].uid == u;
      }
      if u in Uids(items) {
        var i :| 0 <= i < |items| && items[i].uid == u;
        assert i > 0 ==> items[1..][i - 1].uid == u;
      }
    }
  }

  lemma {:induction false} ItemsWithin(todo: set<Uid>, batches: seq<Event>, u: Uid)
    requires Batched(todo, batches) && u !in todo
    ensures LastItem(AllItems(batches), u) == None
    decreases |batches|
  {
    hide LastItem;
    if batches == [] {
      assert AllItems(batches) == [];
      LastItemMeans([], u);
    } else {
      LastItemMeans(batches[0].items, u);
      ItemsWithin(todo - batches[0].batch, batches[1..], u);
      LastItemJoin(batches[0].items, AllItems(batches[1..]), u);
    }
  }

  /** The scan record that the batches of this scan end in. */
  ghost predicate Recorded(scan: Scan, remote: set<Uid>, skipped: set<Uid>, todo: set<Uid>, batches: seq<Event>) {
    && scan.completed && scan.remote == remote
    && forall u :: u in scan.skipped <==> u in skipped || (u in todo && LastItem(AllItems(batches), u) == None)
  }

  lemma BatchStep(s: System, e: Event, rest: seq<Event>)
    requires s.phase.Upserting? && Batched(s.phase.todo, [e] + rest)
    ensures Enabled(s, e) && var next := Apply(s, e);
      && next.phase.Upserting? && next.phase.remote == s.phase.remote && next.phase.todo == s.phase.todo - e.batch
      && next.scans == s.scans && next.photos == UpsertAll(s.photos, e.items)
      && Batched(next.phase.todo, rest)
      && forall u :: u in next.phase.skipped <==> u in s.phase.skipped || (u in e.batch && u !in Uids(e.items))
  {
    hide UpsertAll;
    assert ([e] + rest)[1..] == rest;
    forall u | u in Uids(e.items) ensures u in e.batch {}
  }

  lemma RecordedOn(scan: Scan, remote: set<Uid>, skipped: set<Uid>, skipped': set<Uid>, todo: set<Uid>,
                   e: Event, rest: seq<Event>)
    requires Batched(todo, [e] + rest)
    requires forall u :: u in skipped' <==> u in skipped || (u in e.batch && u !in Uids(e.items))
    requires Recorded(scan, remote, skipped', todo - e.batch, rest)
    ensures Recorded(scan, remote, skipped, todo, [e] + rest)
  {
    hide LastItem, Uids;
    var batches := [e] + rest;
    assert batches[1..] == rest && AllItems(batches) == e.items + AllItems(rest);
    forall u ensures u in scan.skipped <==> u in skipped || (u in todo && LastItem(AllItems(batches), u) == None) {
      LastItemJoin(e.items, AllItems(rest), u);
      LastItemMeans(e.items, u);
      if u in e.batch { ItemsWithin(todo - e.batch, rest, u); }
      OwnItems(e, todo, rest, u);
    }
  }

  lemma OwnItems(e: Event, todo: set<Uid>, rest: seq<Event>, u: Uid)
    requires Batched(todo, [e] + rest)
    ensures u in Uids(e.items) ==> u in e.batch
    ensures e.batch <= todo && Batched(todo - e.batch, rest)
  {
    assert ([e] + rest)[1..] == rest;
  }

  lemma {:induction false} BatchesRun(s: System, batches: seq<Event>)
    requires s.phase.Upserting? && Batched(s.phase.todo, batches)
    ensures Run(s, batches + [Finish]) && var end := Final(s, batches + [Finish]);
      && end.phase.Idle? && end.photos == RetriedErrors(UpsertAll(s.photos, AllItems(batches)))
      && |end.scans| == |s.scans| + 1 && end.scans[..|s.scans|] == s.scans
      && Recorded(end.scans[|s.scans|], s.phase.remote, s.phase.skipped, s.phase.todo, batches)
    decreases |batches|
  {
    hide Batched, UpsertAll, RetriedErrors, Recorded;
    if batches == [] {
      LastBatch(s);
      assert batches + [Finish] == [Finish];
    } else {
      hide Apply, Enabled;
      var e, rest := batches[0], batches[1..];
      assert batches == [e] + rest;
      BatchStep(s, e, rest);
      var next := Apply(s, e);
      BatchesRun(next, rest);
      RunStep(s, e, next, rest + [Finish], Final(next, rest + [Finish]));
      assert [e] + (rest + [Finish]) == batches + [Finish];
      ItemsOf(e, s.phase.todo, rest);
      UpsertAllJoin(s.photos, e.items, AllItems(rest));
      RecordedOn(Final(next, rest + [Finish]).scans[|s.scans|], s.phase.remote, s.phase.skipped, next.phase.skipped,
                 s.phase.todo, e, rest);
    }
  }

  lemma ItemsOf(e: Event, todo: set<Uid>, rest: seq<Event>)
    requires Batched(todo, [e] + rest)
    ensures e.UpsertBatch? && AllItems([e] + rest) == e.items + AllItems(rest)
  {
    assert ([e] + rest)[1..] == rest;
  }

  lemma LastBatch(s: System)
    requires s.phase.Upserting? && Batched(s.phase.todo, [])
    ensures Run(s, [Finish]) && var end := Final(s, [Finish]);
      && end.phase.Idle? && end.photos == RetriedErrors(UpsertAll(s.photos, AllItems([])))
      && end.scans[..|s.scans|] == s.scans && |end.scans| == |s.scans| + 1
      && Recorded(end.scans[|s.scans|], s.phase.remote, s.phase.skipped, s.phase.todo, [])
  {
    hide RetriedErrors;
    assert AllItems([]) == [] && UpsertAll(s.photos, []) == s.photos;
    var none: seq<Event> := [];
    assert [Finish][1..] == none;
    assert Run(Apply(s, Finish), none) && Final(Apply(s, Finish), none) == Apply(s, Finish);
  }

  /** What a scan makes of a row that its listing holds or lacks, with metadata for it or without: an
      active row it lacks is staged, one staged for the grace is deleted, one with metadata is synced,
      and an error that has been retried less than five times is tried again. */
  ghost predicate ScanDid(before: Option<Photo>, listed: bool, item: Option<Item>,
                          staging: int, confirming: int, grace: int, after: Option<Photo>)
  {
    match before
    case None => if item == None then after == None else after.Some? && Synced(None, item.value, after.value)
    case Some(p) =>
      var staged := if !listed && p.status != PendingRemoval && p.status != Deleted
                    then p.(status := PendingRemoval, processedAt := Some(staging)) else p;
      var deletedAt := if staged.wasDeletedAt.Some? then staged.wasDeletedAt else Some(confirming);
      var confirmed := if staged.status == PendingRemoval && staged.processedAt.Some?
                          && confirming - staged.processedAt.value >= grace
                       then staged.(status := Deleted, wasDeletedAt := deletedAt) else staged;
      match item
      case Some(i) => after.Some? && Synced(Some(confirmed), i, after.value)
      case None =>
        after == Some(if confirmed.status == Error && confirmed.retryCount < 5 then confirmed.(status := New) else confirmed)
  }

  /** MAIN RESULT: a scan that is not interrupted, whatever batches it makes of the uids new to it,
      does this to every row, and records as skipped the new ones it got no metadata for. */
  lemma WholeScan(s: System, remote: set<Uid>, threshold: real, staging: int, confirming: int, grace: int,
                  batches: seq<Event>, u: Uid)
    requires s.phase.Idle? && remote != {} && |remote| as real >= (1.0 - threshold) * |ActiveUids(s.photos)| as real
    requires Batched(remote - ActiveUids(s.photos), batches)
    ensures var events := [Fetch(remote)] + ([Diff(threshold)] + ([Mark(staging)] + ([Confirm(confirming, grace)]
                            + (batches + [Finish]))));
      Run(s, events) && var end := Final(s, events);
      && end.phase.Idle? && |end.scans| == |s.scans| + 1 && end.scans[..|s.scans|] == s.scans
      && Recorded(end.scans[|s.scans|], remote, {}, remote - ActiveUids(s.photos), batches)
      && ScanDid(PhotoAt(s.photos, u), u in remote, LastItem(AllItems(batches), u), staging, confirming, grace,
                 PhotoAt(end.photos, u))
  {
    hide Batched, UpsertAll, RetriedErrors, Recorded, ScanDid, LastItem, Run, Final, ActiveUids;
    var s3, s4 := ToUpserting(s, remote, threshold, staging, confirming, grace);
    hide Apply, Enabled, Staged, Confirmed;
    BatchesRun(s4, batches);
    var end, last := Final(s4, batches + [Finish]), batches + [Finish];
    var s1 := s.(phase := Listed(remote));
    var s2 := Apply(s1, Diff(threshold));
    RunStep(s3, Confirm(confirming, grace), s4, last, end);
    RunStep(s2, Mark(staging), s3, [Confirm(confirming, grace)] + last, end);
    RunStep(s1, Diff(threshold), s2, [Mark(staging)] + ([Confirm(confirming, grace)] + last), end);
    RunStep(s, Fetch(remote), s1, [Diff(threshold)] + ([Mark(staging)] + ([Confirm(confirming, grace)] + last)), end);
    if u !in remote - ActiveUids(s.photos) { ItemsWithin(remote - ActiveUids(s.photos), batches, u); }
    RowScanned(s.photos, remote, AllItems(batches), staging, confirming, grace, u);
  }

  lemma ToUpserting(s: System, remote: set<Uid>, threshold: real, staging: int, confirming: int, grace: int)
    returns (s3: System, s4: System)
    requires s.phase.Idle? && remote != {} && |remote| as real >= (1.0 - threshold) * |ActiveUids(s.photos)| as real
    ensures Enabled(s, Fetch(remote)) && Apply(s, Fetch(remote)) == s.(phase := Listed(remote))
    ensures var s1 := s.(phase := Listed(remote));
      && Enabled(s1, Diff(threshold))
      && var s2 := Apply(s1, Diff(threshold));
      && Enabled(s2, Mark(staging)) && Apply(s2, Mark(staging)) == s3
    ensures Enabled(s3, Confirm(confirming, grace)) && Apply(s3, Confirm(confirming, grace)) == s4
    ensures s4.phase == Upserting(remote, remote - ActiveUids(s.photos), {}) && s4.scans == s.scans
    ensures s4.photos == Confirmed(Staged(s.photos, ActiveUids(s.photos) - remote, staging), grace, confirming)
  {
    hide Noted, ActiveUids, Staged, Confirmed, OverdueUids;
    s3 := Apply(Apply(s.(phase := Listed(remote)), Diff(threshold)), Mark(staging));
    s4 := Apply(s3, Confirm(confirming, grace));
  }

  lemma RowScanned(photos: Table, remote: set<Uid>, items: seq<Item>, staging: int, confirming: int, grace: int, u: Uid)
    requires u !in remote - ActiveUids(photos) ==> LastItem(items, u) == None
    ensures var confirmed := Confirmed(Staged(photos, ActiveUids(photos) - remote, staging), grace, confirming);
      ScanDid(PhotoAt(photos, u), u in remote, LastItem(items, u), staging, confirming, grace,
              PhotoAt(RetriedErrors(UpsertAll(confirmed, items)), u))
  {
    hide UpsertAll, LastItem, Staged, Confirmed, RetriedErrors;
    var staged := Staged(photos, ActiveUids(photos) - remote, staging);
    var confirmed := Confirmed(staged, grace, confirming);
    StageStages(photos, ActiveUids(photos) - remote, staging);
    ConfirmDeletes(staged, grace, confirming);
    UpsertAllSyncs(confirmed, items, u);
    ErrorsRetried(UpsertAll(confirmed, items));
  }

  // ---- The deletion threshold -----------------------------------------------------------------

  lemma SplitCount(a: set<Uid>, b: set<Uid>)
    ensures |a| == |a * b| + |a - b|
  {
    assert a == (a * b) + (a - b);
  }

  lemma ShareOf(threshold: real, n: real)
    ensures (1.0 - threshold) * n == n - threshold * n
  {}

  /** A listing passes the threshold if and only if the rows it would stage are at most that share of
      the active rows plus the number of uids it adds. */
  lemma ThresholdBounds(remote: set<Uid>, active: set<Uid>, threshold: real)
    ensures !TooShort(remote, active, threshold)
       <==> |active - remote| as real <= threshold * |active| as real + |remote - active| as real
  {
    SplitCount(remote, active);
    SplitCount(active, remote);
    assert remote * active == active * remote;
    ShareOf(threshold, |active| as real);
  }

  /** A listing that is merely cut off adds nothing, so it stages at most that share. */
  lemma TruncatedListing(s: System, threshold: real)
    requires Enabled(s, Diff(threshold)) && s.phase.remote <= ActiveUids(s.photos)
    ensures var next := Apply(s, Diff(threshold));
      next.phase.Diffed? ==> |next.phase.gone| as real <= threshold * |ActiveUids(s.photos)| as real
  {
    hide ActiveUids, TooShort;
    ThresholdBounds(s.phase.remote, ActiveUids(s.photos), threshold);
    assert s.phase.remote - ActiveUids(s.photos) == {};
  }

  /** New uids count against the threshold, so a listing of nothing but other photos stages the whole
      library, whatever it holds, exactly when it is not shorter than the threshold asks. */
  lemma ThresholdAloneDoesNotBound(s: System, threshold: real)
    requires Enabled(s, Diff(threshold)) && s.phase.remote !! ActiveUids(s.photos)
    ensures var next, active := Apply(s, Diff(threshold)), ActiveUids(s.photos);
      (next.phase.Diffed? && next.phase.gone == active)
      <==> |s.phase.remote| as real >= (1.0 - threshold) * |active| as real
    ensures threshold >= 0.0 && |s.phase.remote| >= |ActiveUids(s.photos)| ==>
      Apply(s, Diff(threshold)).phase == Diffed(s.phase.remote, s.phase.remote, ActiveUids(s.photos))
  {
    hide ActiveUids;
    var remote, active := s.phase.remote, ActiveUids(s.photos);
    assert active - remote == active && remote - active == remote;
    ShareOf(threshold, |active| as real);
    if threshold >= 0.0 { assert threshold * |active| as real >= 0.0; }
  }

  /** What a scan stages is exactly what it found missing, even with the pipeline at work between. */
  lemma MarkStagesGone(s: System, now: int)
    requires Inv(s) && Enabled(s, Mark(now))
    ensures forall u :: u in s.phase.gone <==>
      ActiveIn(s.photos, u) && ActiveIn(Apply(s, Mark(now)).photos, u) == false
  {
    forall u: Uid ensures u in s.phase.gone <==>
      ActiveIn(s.photos, u) && !ActiveIn(Apply(s, Mark(now)).photos, u)
    {}
  }

  // ---- The grace period -----------------------------------------------------------------------

  function MaxOf(a: int, b: int): int {
    if a >= b then a else b
  }

  /** Measured in full-scan intervals, so that scans requested in quick succession cannot confirm. */
  function GraceSeconds(graceCycles: int, syncInterval: int, fullInterval: int): (grace: int)
    ensures grace >= 1 && grace >= syncInterval && grace >= fullInterval
    ensures fullInterval >= 0 ==> grace >= graceCycles * fullInterval
    ensures exists c, i :: c in {1, graceCycles} && i in {1, syncInterval, fullInterval} && grace == Product(c, i)
  {
    var cadence := MaxOf(MaxOf(1, syncInterval), fullInterval);
    var cycles := MaxOf(1, graceCycles);
    ProductGrows(cycles, cadence, graceCycles, fullInterval);
    assert cycles in {1, graceCycles} && cadence in {1, syncInterval, fullInterval};
    assert cycles * cadence == Product(cycles, cadence);
    cycles * cadence
  }

  function Product(a: int, b: int): int {
    a * b
  }

  /** The grace is the least that covers the cycles and both intervals: no product of one of them
      with a positive interval is larger, and it is such a product itself. */
  lemma GraceIsLeast(graceCycles: int, syncInterval: int, fullInterval: int, cycles: int, interval: int)
    requires cycles in {1, graceCycles} && interval in {1, syncInterval, fullInterval} && interval >= 1
    ensures Product(cycles, interval) <= GraceSeconds(graceCycles, syncInterval, fullInterval)
  {
    var most := MaxOf(MaxOf(1, syncInterval), fullInterval);
    ProductMonotone(cycles, MaxOf(1, graceCycles), interval, most);
  }

  lemma ProductMonotone(a: int, c: int, b: int, d: int)
    requires a <= c && 1 <= c && 1 <= b <= d
    ensures Product(a, b) <= c * d
  {
    assert a * b <= c * b;
    assert c * b <= c * d;
  }

  lemma ProductGrows(a: int, b: int, c: int, d: int)
    requires a >= 1 && b >= 1 && a >= c && b >= d
    ensures a * b >= b
    ensures d >= 0 ==> a * b >= c * d
  {
    assert (a - 1) * b >= 0;
    if d >= 0 {
      assert a * (b - d) >= 0;
      assert (a - c) * d >= 0;
    }
  }

  // ---- Why the scan must run to its end -------------------------------------------------------

  lemma RunStep(s: System, e: Event, next: System, rest: seq<Event>, last: System)
    requires Enabled(s, e) && Apply(s, e) == next && Run(next, rest) && Final(next, rest) == last
    ensures Run(s, [e] + rest) && Final(s, [e] + rest) == last
  {
    hide Apply, Enabled;
    assert ([e] + rest)[1..] == rest;
  }

  function Row(status: Status, at: Option<int>, deletedAt: Option<int>): Photo {
    Photo(status, None, [], None, at, deletedAt, 0)
  }

  predicate Steps(s: System, e: Event, next: System) {
    Enabled(s, e) && Apply(s, e) == next
  }

  function Inserted(): System {
    Start().(photos := map[1 := Row(New, None, None)])
  }

  function Missing(): System {
    Inserted().(phase := Diffed({2}, {2}, {1}))
  }

  function StagedOne(): System {
    System(map[1 := Row(PendingRemoval, Some(0), None)], Marked({2}, {2}), [], map[1 := Staging(0, 0)], map[])
  }

  function BetweenScans(): System {
    StagedOne().(phase := Idle, scans := [Scan({2}, {}, false)])
  }

  function Reappeared(): System {
    BetweenScans().(phase := Diffed({1}, {1}, {}))
  }

  function DeletedOne(): System {
    System(map[1 := Row(Deleted, Some(0), Some(100))], Upserting({1}, {1}, {}), [Scan({2}, {}, false)],
           map[1 := Staging(0, 0)], map[1 := Confirmation(1, 100, 10)])
  }

  function Aborted(): System {
    DeletedOne().(phase := Idle, scans := [Scan({2}, {}, false), Scan({1}, {}, false)])
  }

  /** Wherever a scan aborts in a run, a listed row that it leaves staged or deleted was one of those
      it had still to upsert, or one without metadata. */
  lemma AbortLeavesPending(events: seq<Event>, u: Uid)
    requires Run(Start(), events) && Enabled(Final(Start(), events), Abort)
    ensures var s := Final(Start(), events);
      u in s.photos && u in RemoteOf(s.phase) && !ActiveIn(Apply(s, Abort).photos, u) ==>
        match s.phase
        case Diffed(_, added, _) => u in added
        case Marked(_, added) => u in added
        case Upserting(_, todo, skipped) => u in todo || u in skipped
        case _ => true
  {
    hide Run, Final, RowRight;
    StartRight();
    RunKeeps(Start(), events);
  }

  /** A scan that aborts between confirming and upserting deletes exactly the listed rows, like all
      others, that are past the grace: confirmation comes before the upsert that reclaims. */
  lemma AbortAfterConfirm(s: System, now: int, grace: int, u: Uid)
    requires s.phase.Marked?
    ensures var confirmed := Apply(s, Confirm(now, grace));
      && Enabled(confirmed, Abort)
      && (DeletedIn(Apply(confirmed, Abort).photos, u)
          <==> DeletedIn(s.photos, u) || (u in s.photos && Overdue(s.photos[u], now - grace)))
  {}

  /** It does happen: a run from the empty table in which an aborted scan leaves a row deleted that its
      listing held. */
  lemma AbortedScanDeletesListed()
    ensures exists events :: Run(Start(), events) && Final(Start(), events) == Aborted()
    ensures 1 in Aborted().photos && Aborted().photos[1].status.Deleted?
    ensures Aborted().scans[1].remote == {1} && !Aborted().scans[1].completed
  {
    hide Apply, Enabled, Inserted, Missing, StagedOne, BetweenScans, Reappeared, Steps;
    assert Run(Aborted(), []) && Final(Aborted(), []) == Aborted();
    InsertOne();
    FirstScan();
    SecondScan();
    var events := Chained(DeletedOne(), Abort, Aborted(), [], Aborted());
    events := Chained(Reappeared().(phase := Marked({1}, {1})), Confirm(100, 10), DeletedOne(), events, Aborted());
    events := Chained(Reappeared(), Mark(100), Reappeared().(phase := Marked({1}, {1})), events, Aborted());
    events := Chained(BetweenScans().(phase := Listed({1})), Diff(0.5), Reappeared(), events, Aborted());
    events := Chained(BetweenScans(), Fetch({1}), BetweenScans().(phase := Listed({1})), events, Aborted());
    events := Chained(StagedOne(), Abort, BetweenScans(), events, Aborted());
    events := Chained(Missing(), Mark(0), StagedOne(), events, Aborted());
    events := Chained(Inserted().(phase := Listed({2})), Diff(0.5), Missing(), events, Aborted());
    events := Chained(Inserted(), Fetch({2}), Inserted().(phase := Listed({2})), events, Aborted());
    events := Chained(Start(), LimitedSync([Item(1, None, [])]), Inserted(), events, Aborted());
  }

  lemma Chained(s: System, e: Event, next: System, rest: seq<Event>, last: System) returns (events: seq<Event>)
    requires Steps(s, e, next) && Run(next, rest) && Final(next, rest) == last
    ensures Run(s, events) && Final(s, events) == last
  {
    hide Apply, Enabled;
    events := [e] + rest;
    RunStep(s, e, next, rest, last);
  }

  lemma InsertOne()
    ensures Steps(Start(), LimitedSync([Item(1, None, [])]), Inserted())
  {
    var item := Item(1, None, []);
    assert UpsertAll(map[], [item]) == UpsertAll(Upserted(map[], item), []);
  }

  lemma FirstScan()
    ensures Steps(Inserted(), Fetch({2}), Inserted().(phase := Listed({2})))
    ensures Steps(Inserted().(phase := Listed({2})), Diff(0.5), Missing())
    ensures Steps(Missing(), Mark(0), StagedOne())
    ensures Steps(StagedOne(), Abort, BetweenScans())
  {
    hide Noted, Staged;
    assert ActiveUids(Inserted().photos) == {1};
    assert {2} - {1} == {2} && {1} - {2} == {1} == {1} * {1};
    StageOne();
  }

  lemma StageOne()
    ensures Staged(Inserted().photos, {1}, 0) == StagedOne().photos
    ensures Noted(map[], {1}, Staging(0, 0)) == map[1 := Staging(0, 0)]
  {}

  lemma SecondScan()
    ensures Steps(BetweenScans(), Fetch({1}), BetweenScans().(phase := Listed({1})))
    ensures Steps(BetweenScans().(phase := Listed({1})), Diff(0.5), Reappeared())
    ensures Steps(Reappeared(), Mark(100), Reappeared().(phase := Marked({1}, {1})))
    ensures Steps(Reappeared().(phase := Marked({1}, {1})), Confirm(100, 10), DeletedOne())
    ensures Steps(DeletedOne(), Abort, Aborted())
  {
    hide Noted, Staged, Confirmed, OverdueUids;
    var none: set<Uid> := {};
    assert ActiveUids(BetweenScans().photos) == none;
    assert {1} - none == {1} && none - {1} == none == none * none;
    StageNone();
    ConfirmOne();
  }

  lemma StageNone()
    ensures Staged(BetweenScans().photos, {}, 100) == BetweenScans().photos
    ensures Noted(BetweenScans().staged, {}, Staging(1, 100)) == BetweenScans().staged
  {}

  lemma ConfirmOne()
    ensures Confirmed(BetweenScans().photos, 10, 100) == DeletedOne().photos
    ensures OverdueUids(BetweenScans().photos, 90) == {1}
    ensures Noted(map[], {1}, Confirmation(1, 100, 10)) == map[1 := Confirmation(1, 100, 10)]
  {}
}
