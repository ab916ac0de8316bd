/** The bridge's outbound rate limiter, a token bucket with a queue of parked callers. */
module TokenBuckets {
  // It has fractional refill, one shared wake timer, a first-in first-out queue, a pause asked for
  // by the server, and close. The clock is real-valued and every reading of it is a parameter, so it
  // may repeat or step back. Main results: tokens granted in any time window are bounded by how far
  // the clock goes, with the exact condition for the bound by the window's length; a parked caller is granted by a fixed deadline, in
  // queue order, and no token is granted during a pause.

  import opened Wrappers

  const MAX_PARKED_WAITERS: nat := 100

  /** `timer` is the time at which the pending wake is due. */
  datatype State = State(
    rate: real,
    capacity: real,
    tokens: real,
    lastRefill: real,
    resumeAt: real,
    waiters: seq<nat>,
    timer: Option<real>,
    closed: bool)

  datatype Outcome = Unlimited | Granted | Parked | QueueFull | Refused

  function Max(a: real, b: real): real {
    if a >= b then a else b
  }

  function Min(a: real, b: real): real {
    if a <= b then a else b
  }

  function Ceil(x: real): int {
    -((-x).Floor)
  }

  function Initial(ratePerSec: real, burst: Option<real>, now: real): State {
    if ratePerSec <= 0.0 then State(0.0, 0.0, 0.0, 0.0, 0.0, [], None, false) else
      var capacity := if burst.Some? then burst.value else Max(1.0, Ceil(ratePerSec * 2.0) as real);
      State(ratePerSec / 1000.0, capacity, capacity, now, 0.0, [], None, false)
  }

  function Refilled(s: State, now: real): State {
    if s.rate <= 0.0 || now <= s.lastRefill then s
    else s.(tokens := Min(s.capacity, s.tokens + (now - s.lastRefill) * s.rate), lastRefill := now)
  }

  function WakeAt(s: State, now: real): real
    requires s.rate > 0.0
  {
    Max(now + (1.0 - s.tokens) / s.rate, s.resumeAt)
  }

  function Scheduled(s: State, now: real): State
    requires s.rate > 0.0
  {
    if s.timer.Some? then s else
      var r := Refilled(s, now);
      r.(timer := Some(now + Max(1.0, WakeAt(r, now) - now)))
  }

  predicate Ready(s: State, now: real) {
    now >= s.resumeAt && s.tokens >= 1.0
  }

  function Acquired(s: State, id: nat, now: real, later: real): (State, Outcome) {
    if s.rate <= 0.0 then (s, Unlimited)
    else if s.closed then (s, Refused)
    else
      var r := Refilled(s, now);
      if r.waiters == [] && Ready(r, now) then (r.(tokens := r.tokens - 1.0), Granted)
      else if |r.waiters| >= MAX_PARKED_WAITERS then (r, QueueFull)
      else (Scheduled(r.(waiters := r.waiters + [id]), later), Parked)
  }

  function Woken(s: State, now: real, later: real): (State, Option<nat>)
    requires s.rate > 0.0
  {
    var r := Refilled(s.(timer := None), now);
    if r.waiters != [] && Ready(r, now) then
      var g := r.(tokens := r.tokens - 1.0, waiters := r.waiters[1..]);
      (if g.waiters != [] then Scheduled(g, later) else g, Some(r.waiters[0]))
    else
      (if r.waiters != [] then Scheduled(r, later) else r, None)
  }

  function Backoff(s: State, seconds: real): real {
    Max(Max(0.0, seconds * 1000.0), if s.rate > 0.0 then 1.0 / s.rate else 0.0)
  }

  function Noted(s: State, seconds: real, now: real, later: real): State
    requires s.waiters != [] ==> s.rate > 0.0
  {
    var p := s.(resumeAt := Max(s.resumeAt, now + Backoff(s, seconds)));
    if p.waiters != [] then Scheduled(p.(timer := None), later) else p
  }

  function Closed(s: State): State {
    s.(closed := true, timer := None, waiters := [])
  }

  /** What every step keeps. In particular a timer is pending exactly when someone is parked. */
  ghost predicate Inv(s: State) {
    && s.rate >= 0.0
    && (s.rate > 0.0 ==> s.tokens <= s.capacity && (s.capacity >= 0.0 ==> s.tokens >= 0.0))
    && (s.timer.Some? <==> s.waiters != [])
    && (s.waiters != [] ==> s.rate > 0.0 && !s.closed)
    && |s.waiters| <= MAX_PARKED_WAITERS
  }

  class TokenBucket {
    var ratePerMs: real
    const capacity: real
    var tokens: real
    var lastRefill: real
    var resumeAt: real
    var waiters: seq<nat>
    var timer: Option<real>
    var closed: bool

    ghost function Model(): State
      reads this
    {
      State(ratePerMs, capacity, tokens, lastRefill, resumeAt, waiters, timer, closed)
    }

    constructor (ratePerSec: real, burst: Option<real>, now: real)
      ensures Model() == Initial(ratePerSec, burst, now) && Inv(Model())
    {
      resumeAt, waiters, timer, closed := 0.0, [], None, false;
      if ratePerSec <= 0.0 {
        ratePerMs, capacity, tokens, lastRefill := 0.0, 0.0, 0.0, 0.0;
      } else {
        ratePerMs := ratePerSec / 1000.0;
        var c := if burst.Some? then burst.value else Max(1.0, Ceil(ratePerSec * 2.0) as real);
        capacity := c;
        tokens := c;
        lastRefill := now;
      }
    }

    predicate IsEnabled()
      reads this
    {
      ratePerMs > 0.0
    }

    method Refill(now: real)
      modifies this`tokens, this`lastRefill
      ensures Model() == Refilled(old(Model()), now)
    {
      if !IsEnabled() { return; }
      var elapsed := now - lastRefill;
      if elapsed <= 0.0 { return; }
      tokens := Min(capacity, tokens + elapsed * ratePerMs);
      lastRefill := now;
    }

    method ScheduleWake(now: real)
      requires IsEnabled()
      modifies this`tokens, this`lastRefill, this`timer
      ensures Model() == Scheduled(old(Model()), now)
    {
      if timer.Some? { return; }
      Refill(now);
      var wakeAt := Max(now + (1.0 - tokens) / ratePerMs, resumeAt);
      timer := Some(now + Max(1.0, wakeAt - now));
    }

    method RescheduleWake(now: real)
      requires IsEnabled()
      modifies this`tokens, this`lastRefill, this`timer
      ensures Model() == Scheduled(old(Model()).(timer := None), now)
    {
      if timer.Some? {
        timer := None;
      }
      ScheduleWake(now);
    }

    /** The pending timer fires. Returns the caller that is let through, if any. */
    method WakeHead(now: real, later: real) returns (resolved: Option<nat>)
      requires Inv(Model()) && timer.Some?
      modifies this`tokens, this`lastRefill, this`timer, this`waiters
      ensures (Model(), resolved) == Woken(old(Model()), now, later)
      ensures Inv(Model())
    {
      WokenKeeps(Model(), now, later);
      resolved := None;
      timer := None;
      Refill(now);
      if |waiters| > 0 && now >= resumeAt && tokens >= 1.0 {
        tokens := tokens - 1.0;
        resolved := Some(waiters[0]);
        waiters := waiters[1..];
      }
      if |waiters| > 0 { ScheduleWake(later); }
    }

    /** `id` stands for the promise of this call. */
    method Acquire(id: nat, now: real, later: real) returns (outcome: Outcome)
      requires Inv(Model())
      modifies this`tokens, this`lastRefill, this`timer, this`waiters
      ensures (Model(), outcome) == Acquired(old(Model()), id, now, later)
      ensures Inv(Model())
    {
      AcquiredKeeps(Model(), id, now, later);
      if !IsEnabled() { return Unlimited; }
      if closed { return Refused; }
      Refill(now);
      if |waiters| == 0 && now >= resumeAt && tokens >= 1.0 {
        tokens := tokens - 1.0;
        return Granted;
      }
      if |waiters| >= MAX_PARKED_WAITERS { return QueueFull; }
      waiters := waiters + [id];
      ScheduleWake(later);
      return Parked;
    }

    /** Returns the callers whose promises are rejected. */
    method Close() returns (rejected: seq<nat>)
      requires Inv(Model())
      modifies this`closed, this`timer, this`waiters
      ensures Model() == Closed(old(Model())) && rejected == old(waiters)
      ensures Inv(Model())
    {
      closed := true;
      timer := None;
      rejected := waiters;
      waiters := [];
    }

    method NoteRetryAfter(retryAfterSeconds: real, now: real, later: real)
      requires Inv(Model())
      modifies this`tokens, this`lastRefill, this`timer, this`resumeAt
      ensures Model() == Noted(old(Model()), retryAfterSeconds, now, later)
      ensures Inv(Model())
    {
      NotedKeeps(Model(), retryAfterSeconds, now, later);
      var ms := Max(0.0, retryAfterSeconds * 1000.0);
      var minMs := if IsEnabled() then 1.0 / ratePerMs else 0.0;
      var backoff := Max(ms, minMs);
      resumeAt := Max(resumeAt, now + backoff);
      if |waiters| > 0 { RescheduleWake(later); }
    }
  }

  // ---- What every step keeps ------------------------------------------------------------------

  lemma ProductSign(x: real, y: real)
    requires x >= 0.0 && y >= 0.0
    ensures x * y >= 0.0
  {}

  /** The part of the invariant that a refill must keep. */
  ghost predicate InBounds(s: State) {
    s.tokens <= s.capacity && (s.capacity >= 0.0 ==> s.tokens >= 0.0)
  }

  lemma RefilledKeeps(s: State, now: real)
    requires s.rate > 0.0 && InBounds(s)
    ensures var r := Refilled(s, now);
      && InBounds(r) && r.lastRefill == Max(s.lastRefill, now)
      && r == s.(tokens := r.tokens, lastRefill := r.lastRefill)
      && (s.capacity >= 0.0 ==> r.tokens >= s.tokens)
  {
    if now > s.lastRefill {
      var gain := (now - s.lastRefill) * s.rate;
      ProductSign(now - s.lastRefill, s.rate);
      assert Refilled(s, now).tokens == Min(s.capacity, s.tokens + gain);
    }
  }

  lemma ScheduledKeeps(s: State, now: real)
    requires s.rate > 0.0 && InBounds(s)
    ensures var r := Scheduled(s, now);
      && InBounds(r) && r.timer.Some?
      && r == s.(tokens := r.tokens, lastRefill := r.lastRefill, timer := r.timer)
  {
    RefilledKeeps(s, now);
  }

  lemma AcquiredKeeps(s: State, id: nat, now: real, later: real)
    requires Inv(s)
    ensures Inv(Acquired(s, id, now, later).0)
  {
    hide Refilled, Scheduled;
    if s.rate > 0.0 && !s.closed {
      RefilledKeeps(s, now);
      var r := Refilled(s, now);
      ScheduledKeeps(r.(waiters := r.waiters + [id]), later);
    }
  }

  lemma WokenKeeps(s: State, now: real, later: real)
    requires Inv(s) && s.timer.Some?
    ensures Inv(Woken(s, now, later).0)
  {
    hide Refilled, Scheduled;
    RefilledKeeps(s.(timer := None), now);
    var r := Refilled(s.(timer := None), now);
    if r.waiters != [] && Ready(r, now) {
      ScheduledKeeps(r.(tokens := r.tokens - 1.0, waiters := r.waiters[1..]), later);
    } else {
      ScheduledKeeps(r, later);
    }
  }

  lemma NotedKeeps(s: State, seconds: real, now: real, later: real)
    requires Inv(s)
    ensures Inv(Noted(s, seconds, now, later))
  {
    hide Scheduled;
    if s.waiters != [] {
      ScheduledKeeps(s.(resumeAt := Max(s.resumeAt, now + Backoff(s, seconds)), timer := None), later);
    }
  }

  // ---- Runs -----------------------------------------------------------------------------------

  datatype Event =
    | Acquire(id: nat, now: real, later: real)
    | Wake(now: real, later: real)
    | NoteRetryAfter(seconds: real, now: real, later: real)
    | Close

  /** A wake happens only while its timer is pending. */
  predicate Possible(s: State, e: Event) {
    && (e.Wake? ==> s.timer.Some? && s.rate > 0.0)
    && (e.NoteRetryAfter? && s.waiters != [] ==> s.rate > 0.0)
  }

  function Step(s: State, e: Event): State
    requires Possible(s, e)
  {
    match e
    case Acquire(id, now, later) => Acquired(s, id, now, later).0
    case Wake(now, later) => Woken(s, now, later).0
    case NoteRetryAfter(seconds, now, later) => Noted(s, seconds, now, later)
    case Close => Closed(s)
  }

  /** The event takes a token, at the reading `e.now`. */
  predicate Grants(s: State, e: Event)
    requires Possible(s, e)
  {
    match e
    case Acquire(id, now, later) => Acquired(s, id, now, later).1.Granted?
    case Wake(now, later) => Woken(s, now, later).1.Some?
    case _ => false
  }

  lemma StepKeeps(s: State, e: Event)
    requires Inv(s) && Possible(s, e)
    ensures Inv(Step(s, e))
    ensures Step(s, e).rate == s.rate && Step(s, e).capacity == s.capacity
  {
    match e
    case Acquire(id, now, later) => AcquiredKeeps(s, id, now, later);
    case Wake(now, later) => WokenKeeps(s, now, later);
    case NoteRetryAfter(seconds, now, later) => NotedKeeps(s, seconds, now, later);
    case Close =>
  }

  ghost predicate Run(s: State, events: seq<Event>)
    decreases |events|
  {
    events == [] || (Possible(s, events[0]) && Run(Step(s, events[0]), events[1..]))
  }

  ghost function Final(s: State, events: seq<Event>): State
    requires Run(s, events)
    decreases |events|
  {
    if events == [] then s else Final(Step(s, events[0]), events[1..])
  }

  lemma {:induction false} RunKeeps(s: State, events: seq<Event>)
    requires Inv(s) && Run(s, events)
    ensures Inv(Final(s, events))
    ensures Final(s, events).rate == s.rate && Final(s, events).capacity == s.capacity
    decreases |events|
  {
    hide Inv, Step;
    if events != [] {
      StepKeeps(s, events[0]);
      RunKeeps(Step(s, events[0]), events[1..]);
    }
  }

  // ---- A new bucket, and what a call gets ------------------------------------------------------

  /** A new bucket is open, idle and full. */
  lemma NewBucket(ratePerSec: real, burst: Option<real>, now: real)
    ensures var s := Initial(ratePerSec, burst, now);
      && s.waiters == [] && s.timer == None && !s.closed && s.resumeAt == 0.0
      && (ratePerSec <= 0.0 ==> s.rate == 0.0 && s.capacity == 0.0 && s.tokens == 0.0 && s.lastRefill == 0.0)
      && (ratePerSec > 0.0 ==>
            && s.rate * 1000.0 == ratePerSec && s.lastRefill == now && s.tokens == s.capacity
            && (burst.Some? ==> s.capacity == burst.value))
  {}

  lemma CeilIs(x: real)
    ensures Ceil(x) as real >= x && (Ceil(x) - 1) as real < x
  {}

  /** Without a given burst it holds two seconds' worth, rounded up to whole tokens, and at least one:
      no whole number that is as much is smaller. */
  lemma DefaultBurst(ratePerSec: real, now: real, k: int)
    requires ratePerSec > 0.0 && k >= 1 && k as real >= 2.0 * ratePerSec
    ensures var s := Initial(ratePerSec, None, now);
      s.capacity >= 1.0 && s.capacity >= 2.0 * ratePerSec && s.capacity <= k as real
  {
    hide Ceil;
    var n := Ceil(ratePerSec * 2.0);
    CeilIs(ratePerSec * 2.0);
    assert (n - 1) as real < k as real;
    assert n <= k;
  }

  /** Tokens at a reading. */
  function TokensAt(s: State, now: real): real {
    if now <= s.lastRefill || s.tokens + (now - s.lastRefill) * s.rate <= s.capacity
    then s.tokens + (if now > s.lastRefill then (now - s.lastRefill) * s.rate else 0.0)
    else s.capacity
  }

  /** MAIN RESULT: a call gets its token at once exactly if the bucket is open, nobody is parked, no
      pause is on and a token is there; otherwise it is parked, unless a hundred are already. A
      disabled bucket lets everyone through, a closed one nobody. */
  lemma CallOutcome(s: State, id: nat, now: real, later: real)
    requires Inv(s)
    ensures var outcome := Acquired(s, id, now, later).1;
      && (outcome == Unlimited <==> s.rate <= 0.0)
      && (outcome == Refused <==> s.rate > 0.0 && s.closed)
      && (outcome == Granted <==>
            s.rate > 0.0 && !s.closed && s.waiters == [] && now >= s.resumeAt && TokensAt(s, now) >= 1.0)
      && (outcome == QueueFull <==> s.rate > 0.0 && !s.closed && |s.waiters| >= 100)
  {
    hide Refilled, Scheduled, TokensAt;
    RefilledTokens(s, now);
  }

  lemma RefilledTokens(s: State, now: real)
    ensures var r := Refilled(s, now);
      && (s.rate > 0.0 ==> r.tokens == TokensAt(s, now))
      && r.waiters == s.waiters && r.resumeAt == s.resumeAt && r.closed == s.closed
  {}

  /** A wake lets the head through exactly if no pause is on and a token is there. */
  lemma WakeOutcome(s: State, now: real, later: real)
    requires Inv(s) && s.timer.Some?
    ensures Woken(s, now, later).1
         == if now >= s.resumeAt && TokensAt(s, now) >= 1.0 then Some(s.waiters[0]) else None
  {
    hide Refilled, Scheduled, TokensAt;
    RefilledTokens(s.(timer := None), now);
    SameTokens(s, now);
  }

  lemma SameTokens(s: State, now: real)
    ensures TokensAt(s.(timer := None), now) == TokensAt(s, now)
  {}

  /** Once closed, a bucket stays closed: no run lets anyone through, parks or wakes anyone. */
  lemma {:induction false} ClosedForGood(s: State, events: seq<Event>)
    requires Inv(s) && s.rate > 0.0 && s.closed && Run(s, events)
    ensures Final(s, events).closed && Final(s, events).waiters == [] && Final(s, events).timer == None
    ensures forall i :: 0 <= i < |events| ==> !events[i].Wake?
    decreases |events|
  {
    hide Refilled, Scheduled;
    if events != [] {
      var next := Step(s, events[0]);
      StepKeeps(s, events[0]);
      ClosedForGood(next, events[1..]);
      forall i | 0 <= i < |events| ensures !events[i].Wake? {
        if i > 0 { assert events[i] == events[1..][i - 1]; }
      }
    }
  }

  /** A wake is due at the earliest time that is at least 1 ms ahead, past the pause, and at which a
      token is there. */
  lemma ScheduledIsEarliest(s: State, now: real, x: real)
    requires s.rate > 0.0 && InBounds(s) && s.timer == None && s.lastRefill <= now
    requires x >= now + 1.0 && x >= s.resumeAt && TokensAt(Refilled(s, now), x) >= 1.0
    ensures var due := Scheduled(s, now).timer;
      due.Some? && now + 1.0 <= due.value && s.resumeAt <= due.value && due.value <= x
  {
    hide Refilled, TokensAt, WakeAt;
    RefilledKeeps(s, now);
    var r := Refilled(s, now);
    var need := (1.0 - r.tokens) / s.rate;
    EnoughTime(r, x, need);
    WakeIs(r, now, need);
  }

  lemma WakeIs(r: State, now: real, need: real)
    requires r.rate > 0.0 && need == (1.0 - r.tokens) / r.rate
    ensures WakeAt(r, now) == if now + need >= r.resumeAt then now + need else r.resumeAt
  {}

  lemma EnoughTime(r: State, x: real, need: real)
    requires r.rate > 0.0 && x > r.lastRefill && TokensAt(r, x) >= 1.0 && need == (1.0 - r.tokens) / r.rate
    ensures x >= r.lastRefill + need
  {
    DivideBack(1.0 - r.tokens, r.rate);
    var elapsed := x - r.lastRefill;
    assert r.tokens + elapsed * r.rate >= 1.0;
    if elapsed < need { TooEarly(elapsed, need, r.rate); }
  }

  lemma DivideBack(x: real, rate: real)
    requires rate > 0.0
    ensures (x / rate) * rate == x
  {}

  lemma TooEarly(x: real, y: real, rate: real)
    requires x < y && rate > 0.0
    ensures x * rate < y * rate
  {}

  lemma ClosedIsClosed(s: State)
    ensures Closed(s).closed && Closed(s).waiters == [] && Closed(s).timer == None && Closed(s).rate == s.rate
  {}

  // ---- Pauses ---------------------------------------------------------------------------------

  /** The pause is no longer than it must be: any time that is not before the pause already on, the
      seconds asked for, and the time of one refill, is past it. */
  lemma PauseIsLeast(s: State, seconds: real, now: real, later: real, x: real)
    requires Inv(s)
    requires x >= s.resumeAt && x >= now && x >= now + seconds * 1000.0 && (s.rate > 0.0 ==> x >= now + 1.0 / s.rate)
    ensures Noted(s, seconds, now, later).resumeAt <= x
  {
    hide Refilled;
    if s.waiters != [] {
      ScheduledKeeps(s.(resumeAt := Max(s.resumeAt, now + Backoff(s, seconds)), timer := None), later);
    }
  }

  /** The end of all pauses asked for in a run, `end` being that of the one already on. */
  function LatestPause(rate: real, end: real, events: seq<Event>): real
    requires rate > 0.0
    decreases |events|
  {
    if events == [] then end
    else if !events[0].NoteRetryAfter? then LatestPause(rate, end, events[1..])
    else
      var e := events[0];
      var refill := e.now + 1.0 / rate;
      var asked := e.now + e.seconds * 1000.0;
      var until := if asked >= refill then asked else refill;
      LatestPause(rate, if until >= end then until else end, events[1..])
  }

  /** Only these make a bucket wait: over any run the pause ends where the latest of them does. */
  lemma {:induction false} PausesAre(s: State, events: seq<Event>)
    requires Inv(s) && s.rate > 0.0 && Run(s, events)
    ensures Final(s, events).resumeAt == LatestPause(s.rate, s.resumeAt, events)
    decreases |events|
  {
    hide Inv, Step, Refilled, Scheduled, Possible;
    if events != [] {
      StepKeeps(s, events[0]);
      PauseAfter(s, events[0]);
      PausesAre(Step(s, events[0]), events[1..]);
    }
  }

  lemma PauseAfter(s: State, e: Event)
    requires Inv(s) && s.rate > 0.0 && Possible(s, e)
    ensures !e.NoteRetryAfter? ==> Step(s, e).resumeAt == s.resumeAt
    ensures e.NoteRetryAfter? ==>
      var refill := e.now + 1.0 / s.rate;
      var asked := e.now + e.seconds * 1000.0;
      var until := if asked >= refill then asked else refill;
      Step(s, e).resumeAt == if until >= s.resumeAt then until else s.resumeAt
  {
    hide Refilled;
    if e.NoteRetryAfter? && s.waiters != [] {
      ScheduledKeeps(s.(resumeAt := Max(s.resumeAt, e.now + Backoff(s, e.seconds)), timer := None), e.later);
    }
    assert 1.0 / s.rate > 0.0;
    match e
    case Acquire(id, now, later) => if !s.closed { AcquireSamePause(s, id, now, later); }
    case Wake(now, later) => WakeSamePause(s, now, later);
    case _ =>
  }

  lemma AcquireSamePause(s: State, id: nat, now: real, later: real)
    ensures Acquired(s, id, now, later).0.resumeAt == s.resumeAt
  {
    hide WakeAt;
  }

  lemma WakeSamePause(s: State, now: real, later: real)
    requires s.rate > 0.0
    ensures Woken(s, now, later).0.resumeAt == s.resumeAt
  {
    hide WakeAt;
  }

  /** No token is granted at a reading before `resumeAt`, and `resumeAt` never moves back. */
  lemma PauseRespected(s: State, e: Event)
    requires Inv(s) && Possible(s, e)
    ensures Grants(s, e) ==> e.now >= s.resumeAt
    ensures Step(s, e).resumeAt >= s.resumeAt
    ensures e.NoteRetryAfter? ==> Step(s, e).resumeAt >= e.now + Max(e.seconds * 1000.0, 0.0)
    ensures e.NoteRetryAfter? && s.rate > 0.0 ==> Step(s, e).resumeAt >= e.now + 1.0 / s.rate
  {}

  /** Over a whole run: every grant after a pause was asked for comes at a reading at or after its
      end, whatever the clock does in between. */
  ghost predicate GrantsNotBefore(s: State, events: seq<Event>, time: real)
    requires Run(s, events)
    decreases |events|
  {
    events != [] ==>
      && (Grants(s, events[0]) ==> events[0].now >= time)
      && GrantsNotBefore(Step(s, events[0]), events[1..], time)
  }

  lemma {:induction false} NoGrantDuringPause(s: State, events: seq<Event>, time: real)
    requires Inv(s) && Run(s, events) && time <= s.resumeAt
    ensures GrantsNotBefore(s, events, time)
    decreases |events|
  {
    hide Inv, Step, Grants, Possible;
    if events != [] {
      PauseRespected(s, events[0]);
      StepKeeps(s, events[0]);
      NoGrantDuringPause(Step(s, events[0]), events[1..], time);
    }
  }

  // ---- Tokens granted in a time window --------------------------------------------------------

  /** One clock reading at which the bucket refills, and whether a token is taken there. */
  datatype Tick = Tick(reading: real, takes: bool)

  function NoTicks(): seq<Tick> { [] }

  /** The readings of one event that refill the bucket. */
  function Ticks(s: State, e: Event): seq<Tick>
    requires Possible(s, e)
  {
    match e
    case Acquire(id, now, later) =>
      var outcome := Acquired(s, id, now, later).1;
      var first := [Tick(now, outcome.Granted?)];
      if outcome.Unlimited? || outcome.Refused? then NoTicks()
      else first + (if outcome.Parked? && s.timer.None? then [Tick(later, false)] else NoTicks())
    case Wake(now, later) =>
      [Tick(now, Grants(s, e))] + (if Step(s, e).waiters != [] then [Tick(later, false)] else NoTicks())
    case NoteRetryAfter(seconds, now, later) =>
      if s.waiters != [] then [Tick(later, false)] else NoTicks()
    case Close => NoTicks()
  }

  ghost function AllTicks(s: State, events: seq<Event>): seq<Tick>
    requires Run(s, events)
    decreases |events|
  {
    if events == [] then NoTicks() else Ticks(s, events[0]) + AllTicks(Step(s, events[0]), events[1..])
  }

  /** What the bucket's tokens and last refill become at a tick. */
  function Ticked(s: State, t: Tick): State {
    var r := Refilled(s, t.reading);
    if t.takes then r.(tokens := r.tokens - 1.0) else r
  }

  /** Every tick that takes a token finds one. */
  ghost predicate Honest(s: State, ticks: seq<Tick>)
    decreases |ticks|
  {
    ticks != [] ==>
      && (ticks[0].takes ==> Refilled(s, ticks[0].reading).tokens >= 1.0)
      && Honest(Ticked(s, ticks[0]), ticks[1..])
  }

  /** The fields the ticks act on. */
  predicate SameAccount(s: State, s': State) {
    s.rate == s'.rate && s.capacity == s'.capacity && s.tokens == s'.tokens && s.lastRefill == s'.lastRefill
  }

  ghost function AfterTicks(s: State, ticks: seq<Tick>): State
    decreases |ticks|
  {
    if ticks == [] then s else AfterTicks(Ticked(s, ticks[0]), ticks[1..])
  }

  lemma TwoTicks(s: State, a: Tick, b: Tick)
    ensures AfterTicks(s, [a]) == Ticked(s, a)
    ensures AfterTicks(s, [a] + [b]) == Ticked(Ticked(s, a), b)
    ensures Honest(s, [a]) == (a.takes ==> Refilled(s, a.reading).tokens >= 1.0)
    ensures Honest(s, [a] + [b]) == (Honest(s, [a]) && Honest(Ticked(s, a), [b]))
  {
    hide Refilled, Ticked;
    assert ([a] + [b])[1..] == [b];
    assert [a][1..] == NoTicks() && [b][1..] == NoTicks();
    assert Honest(Ticked(s, a), NoTicks());
    assert AfterTicks(Ticked(s, a), [b]) == Ticked(Ticked(s, a), b);
  }

  lemma RefillSameAccount(s: State, s': State, now: real)
    requires SameAccount(s, s')
    ensures SameAccount(Refilled(s, now), Refilled(s', now))
    ensures Refilled(s, now).timer == s.timer && Refilled(s, now).waiters == s.waiters
    ensures Refilled(s, now).resumeAt == s.resumeAt
  {}

  lemma ScheduleIsTick(s: State, s': State, now: real)
    requires s.rate > 0.0 && s.timer.None? && SameAccount(s, s')
    ensures SameAccount(Scheduled(s, now), Ticked(s', Tick(now, false)))
  {
    hide Refilled, WakeAt;
    RefillSameAccount(s, s', now);
  }

  /** The ticks of an event account for all it does to the tokens. */
  lemma TicksAccount(s: State, e: Event)
    requires Inv(s) && Possible(s, e)
    ensures Honest(s, Ticks(s, e)) && SameAccount(Step(s, e), AfterTicks(s, Ticks(s, e)))
  {
    hide Refilled, Scheduled, Honest, AfterTicks, Ticked;
    match e
    case Acquire(id, now, later) => AcquireAccount(s, id, now, later);
    case Wake(now, later) => WakeAccount(s, now, later);
    case NoteRetryAfter(seconds, now, later) =>
      NoTick(s);
      if s.waiters != [] {
        TwoTicks(s, Tick(later, false), Tick(later, false));
        ScheduleIsTick(s.(resumeAt := Max(s.resumeAt, now + Backoff(s, seconds)), timer := None), s, later);
      }
    case Close => NoTick(s);
  }

  lemma NoTick(s: State)
    ensures Honest(s, NoTicks()) && AfterTicks(s, NoTicks()) == s
  {}

  lemma AcquireAccount(s: State, id: nat, now: real, later: real)
    requires Inv(s)
    ensures var e := Acquire(id, now, later);
      Honest(s, Ticks(s, e)) && SameAccount(Step(s, e), AfterTicks(s, Ticks(s, e)))
  {
    hide Refilled, Scheduled, Honest, AfterTicks, Ticked;
    NoTick(s);
    if s.rate > 0.0 && !s.closed {
      var e := Acquire(id, now, later);
      var outcome := Acquired(s, id, now, later).1;
      var a, b := Tick(now, outcome.Granted?), Tick(later, false);
      TwoTicks(s, a, b);
      TwoTicks(Ticked(s, a), b, b);
      TickIs(s, a);
      RefilledKeeps(s, now);
      var r := Refilled(s, now);
      assert [a] + NoTicks() == [a];
      if outcome.Parked? {
        var parked := r.(waiters := r.waiters + [id]);
        if s.timer.None? {
          ScheduleIsTick(parked, Ticked(s, a), later);
        } else {
          ScheduleNoop(parked, later);
        }
      }
    }
  }

  lemma TickIs(s: State, t: Tick)
    ensures t.takes ==> Ticked(s, t) == Refilled(s, t.reading).(tokens := Refilled(s, t.reading).tokens - 1.0)
    ensures !t.takes ==> Ticked(s, t) == Refilled(s, t.reading)
  {}

  lemma ScheduleNoop(s: State, now: real)
    requires s.rate > 0.0 && s.timer.Some?
    ensures Scheduled(s, now) == s
  {}

  lemma WakeAccount(s: State, now: real, later: real)
    requires Inv(s) && s.timer.Some?
    ensures var e := Wake(now, later);
      Honest(s, Ticks(s, e)) && SameAccount(Step(s, e), AfterTicks(s, Ticks(s, e)))
  {
    hide Refilled, Scheduled, Honest, AfterTicks, Ticked;
    var e := Wake(now, later);
    var a, b := Tick(now, Grants(s, e)), Tick(later, false);
    TwoTicks(s, a, b);
    TwoTicks(Ticked(s, a), b, b);
    TickIs(s, a);
    RefilledKeeps(s, now);
    RefillSameAccount(s.(timer := None), s, now);
    RefilledKeeps(s.(timer := None), now);
    var r := Refilled(s.(timer := None), now);
    assert [a] + NoTicks() == [a];
    if Ready(r, now) {
      var g := r.(tokens := r.tokens - 1.0, waiters := r.waiters[1..]);
      assert SameAccount(g, Ticked(s, a));
      if g.waiters != [] {
        ScheduleIsTick(g, Ticked(s, a), later);
        ScheduledKeeps(g, later);
      }
    } else {
      assert SameAccount(r, Ticked(s, a));
      ScheduleIsTick(r, Ticked(s, a), later);
      ScheduledKeeps(r, later);
    }
  }

  lemma {:induction false} HonestSameAccount(s: State, s': State, ticks: seq<Tick>)
    requires SameAccount(s, s') && Honest(s, ticks)
    ensures Honest(s', ticks)
    decreases |ticks|
  {
    hide Refilled;
    if ticks != [] {
      RefillSameAccount(s, s', ticks[0].reading);
      HonestSameAccount(Ticked(s, ticks[0]), Ticked(s', ticks[0]), ticks[1..]);
    }
  }

  lemma {:induction false} HonestJoin(s: State, xs: seq<Tick>, ys: seq<Tick>)
    requires Honest(s, xs) && Honest(AfterTicks(s, xs), ys)
    ensures Honest(s, xs + ys)
    decreases |xs|
  {
    hide Refilled, Ticked;
    if xs == [] {
      assert xs + ys == ys;
    } else {
      assert (xs + ys)[1..] == xs[1..] + ys;
      HonestJoin(Ticked(s, xs[0]), xs[1..], ys);
    }
  }

  lemma {:induction false} RunIsHonest(s: State, events: seq<Event>)
    requires Inv(s) && Run(s, events)
    ensures Honest(s, AllTicks(s, events))
    decreases |events|
  {
    hide Inv, Step, Possible, Ticks, Honest, AfterTicks, SameAccount;
    if events == [] {
      NoTick(s);
    } else {
      var next, first := Step(s, events[0]), Ticks(s, events[0]);
      StepKeeps(s, events[0]);
      RunIsHonest(next, events[1..]);
      TicksAccount(s, events[0]);
      AccountSymmetric(next, AfterTicks(s, first));
      HonestSameAccount(next, AfterTicks(s, first), AllTicks(next, events[1..]));
      HonestJoin(s, first, AllTicks(next, events[1..]));
    }
  }

  lemma AccountSymmetric(s: State, s': State)
    ensures SameAccount(s, s') == SameAccount(s', s)
  {}

  predicate Inside(reading: real, from: real, to: real) {
    from <= reading <= to
  }

  /** Tokens granted at readings in the window. */
  ghost function GrantedIn(s: State, events: seq<Event>, from: real, to: real): nat
    requires Run(s, events)
    decreases |events|
  {
    if events == [] then 0 else
      (if Grants(s, events[0]) && Inside(events[0].now, from, to) then 1 else 0)
        + GrantedIn(Step(s, events[0]), events[1..], from, to)
  }

  function TakenIn(ticks: seq<Tick>, from: real, to: real): nat
    decreases |ticks|
  {
    if ticks == [] then 0 else
      (if ticks[0].takes && Inside(ticks[0].reading, from, to) then 1 else 0) + TakenIn(ticks[1..], from, to)
  }

  /** How often the clock comes into the window, except that coming back without having been read
      past both the window and every earlier reading does not count. `within` tells whether an entry
      already counts, `high` is the latest reading so far. */
  function Visits(within: bool, high: real, ticks: seq<Tick>, from: real, to: real): nat
    decreases |ticks|
  {
    if ticks == [] then 0 else
      var t := ticks[0].reading;
      var now := Inside(t, from, to);
      (if now && !within then 1 else 0)
        + Visits(now || (within && t <= Max(to, high)), Max(high, t), ticks[1..], from, to)
  }

  lemma {:induction false} TakenJoin(xs: seq<Tick>, ys: seq<Tick>, from: real, to: real)
    ensures TakenIn(xs + ys, from, to) == TakenIn(xs, from, to) + TakenIn(ys, from, to)
    decreases |xs|
  {
    if xs == [] {
      assert xs + ys == ys;
    } else {
      assert (xs + ys)[1..] == xs[1..] + ys;
      TakenJoin(xs[1..], ys, from, to);
    }
  }

  lemma TakenAtMostTwo(a: Tick, b: Tick, from: real, to: real)
    requires !b.takes
    ensures TakenIn([a], from, to) == if a.takes && Inside(a.reading, from, to) then 1 else 0
    ensures TakenIn([a] + [b], from, to) == TakenIn([a], from, to)
  {
    assert [a][1..] == NoTicks() && [b][1..] == NoTicks();
    assert ([a] + [b])[1..] == [b];
  }

  lemma TakenByEvent(s: State, e: Event, from: real, to: real)
    requires Possible(s, e)
    ensures TakenIn(Ticks(s, e), from, to) == if Grants(s, e) && Inside(e.now, from, to) then 1 else 0
  {
    hide Acquired, Woken, Noted, TakenIn, Inside;
    assert TakenIn(NoTicks(), from, to) == 0 by { TakenNone(from, to); }
    match e
    case Acquire(id, now, later) =>
      var a := Tick(now, Acquired(s, id, now, later).1.Granted?);
      TakenAtMostTwo(a, Tick(later, false), from, to);
      assert [a] + NoTicks() == [a];
    case Wake(now, later) =>
      var a := Tick(now, Grants(s, e));
      TakenAtMostTwo(a, Tick(later, false), from, to);
      assert [a] + NoTicks() == [a];
    case NoteRetryAfter(seconds, now, later) =>
      TakenAtMostTwo(Tick(later, false), Tick(later, false), from, to);
    case Close =>
  }

  lemma TakenNone(from: real, to: real)
    ensures TakenIn(NoTicks(), from, to) == 0
  {}

  lemma {:induction false} TakenIsGranted(s: State, events: seq<Event>, from: real, to: real)
    requires Run(s, events)
    ensures TakenIn(AllTicks(s, events), from, to) == GrantedIn(s, events, from, to)
    decreases |events|
  {
    hide Step, Possible, Grants, Ticks, TakenIn, Inside;
    if events == [] {
      TakenNone(from, to);
    } else {
      TakenByEvent(s, events[0], from, to);
      TakenIsGranted(Step(s, events[0]), events[1..], from, to);
      TakenJoin(Ticks(s, events[0]), AllTicks(Step(s, events[0]), events[1..]), from, to);
    }
  }

  /** What one stay in the window can grant. */
  function Allowance(s: State, from: real, to: real): real {
    s.capacity + s.rate * (to - from)
  }

  /** What can still be granted in the current stay. */
  function Left(s: State, to: real): real {
    s.tokens + s.rate * Max(0.0, to - s.lastRefill)
  }

  function Times(n: nat, x: real): real {
    n as real * x
  }

  lemma TimesStep(n: nat, x: real)
    requires x >= 0.0
    ensures Times(n + 1, x) == Times(n, x) + x && Times(n, x) >= 0.0
  {
    assert (n + 1) as real == n as real + 1.0;
    assert (n as real + 1.0) * x == n as real * x + x;
    ProductSign(n as real, x);
  }

  lemma ProductStep(rate: real, x: real, y: real)
    requires rate >= 0.0 && x <= y
    ensures rate * x <= rate * y && rate * y == rate * x + rate * (y - x)
  {
    assert rate * (y - x) >= 0.0;
  }

  /** A tick inside the window during a stay lowers what is left by what it takes. */
  lemma LeftDuringStay(s: State, t: Tick, from: real, to: real)
    requires s.rate > 0.0 && InBounds(s) && s.capacity >= 0.0 && from <= s.lastRefill
    requires Inside(t.reading, from, to)
    ensures Left(Ticked(s, t), to) <= Left(s, to) - if t.takes then 1.0 else 0.0
  {
    if t.reading > s.lastRefill {
      ProductStep(s.rate, to - t.reading, to - s.lastRefill);
      assert s.rate * (t.reading - s.lastRefill) == (t.reading - s.lastRefill) * s.rate;
    }
  }

  lemma LeftAtMost(s: State, tokens: real, from: real, to: real)
    requires s.rate > 0.0 && from <= to && from <= s.lastRefill && s.tokens <= tokens
    ensures Left(s, to) <= tokens + s.rate * (to - from)
  {
    ProductStep(s.rate, Max(0.0, to - s.lastRefill), to - from);
  }

  /** The first tick of a stay leaves at most the allowance. */
  lemma LeftOnArrival(s: State, t: Tick, from: real, to: real)
    requires s.rate > 0.0 && InBounds(s) && s.capacity >= 0.0
    requires Inside(t.reading, from, to)
    ensures from <= Ticked(s, t).lastRefill
    ensures Left(Ticked(s, t), to) <= Allowance(s, from, to) - if t.takes then 1.0 else 0.0
  {
    hide Refilled;
    hide Left;
    RefilledKeeps(s, t.reading);
    LeftAtMost(Ticked(s, t), s.capacity - if t.takes then 1.0 else 0.0, from, to);
  }

  lemma LeftNonNegative(s: State, to: real)
    requires s.rate > 0.0 && s.tokens >= 0.0
    ensures Left(s, to) >= 0.0
  {
    ProductSign(s.rate, Max(0.0, to - s.lastRefill));
  }

  lemma TickedKeeps(s: State, t: Tick)
    requires s.rate > 0.0 && InBounds(s) && s.capacity >= 0.0
    requires t.takes ==> Refilled(s, t.reading).tokens >= 1.0
    ensures InBounds(Ticked(s, t)) && Ticked(s, t).rate == s.rate && Ticked(s, t).capacity == s.capacity
    ensures Ticked(s, t).lastRefill == Max(s.lastRefill, t.reading)
  {
    hide Refilled;
    RefilledKeeps(s, t.reading);
  }

  /** A tick below the window, or at an earlier reading than the last refill, adds nothing. */
  lemma LeftWhileAway(s: State, t: Tick, from: real, to: real)
    requires s.rate > 0.0 && from <= s.lastRefill
    requires !Inside(t.reading, from, to) && t.reading <= Max(to, s.lastRefill)
    ensures Left(Ticked(s, t), to) <= Left(s, to)
  {}

  lemma {:induction false} TakenBound(within: bool, s: State, ticks: seq<Tick>, from: real, to: real)
    requires s.rate > 0.0 && InBounds(s) && s.capacity >= 0.0 && Honest(s, ticks) && from <= to
    requires within ==> from <= s.lastRefill
    ensures TakenIn(ticks, from, to) as real
         <= Times(Visits(within, s.lastRefill, ticks, from, to), Allowance(s, from, to)) + if within then Left(s, to) else 0.0
    decreases |ticks|
  {
    hide Inside, Ticked, Left, Times, Refilled;
    var allowance := Allowance(s, from, to);
    ProductSign(s.rate, to - from);
    TimesStep(0, allowance);
    LeftNonNegative(s, to);
    if ticks != [] {
      var t, now := ticks[0], Inside(ticks[0].reading, from, to);
      var next := Ticked(s, t);
      TickedKeeps(s, t);
      if now {
        LeftOnArrival(s, t, from, to);
        if within { LeftDuringStay(s, t, from, to); }
      }
      var stays := now || (within && t.reading <= Max(to, s.lastRefill));
      if stays && !now { LeftWhileAway(s, t, from, to); }
      TakenBound(stays, next, ticks[1..], from, to);
      var visits := Visits(stays, next.lastRefill, ticks[1..], from, to);
      assert Allowance(next, from, to) == allowance;
      TimesStep(visits, allowance);
      if now && within {
        assert TakenIn(ticks, from, to) as real <= Times(visits, allowance) + Left(s, to);
      } else if now {
        assert Visits(within, s.lastRefill, ticks, from, to) == visits + 1;
      } else {
        assert TakenIn(ticks, from, to) == TakenIn(ticks[1..], from, to);
      }
    }
  }

  /** In any run, whatever the clock does, the tokens granted at readings in [from, to] are at most
      capacity + rate * (to - from) for each time the clock comes into that window, where coming back
      counts only if the clock was read past the window and past its latest reading in between. */
  lemma VisitsBound(s: State, events: seq<Event>, from: real, to: real)
    requires Inv(s) && s.rate > 0.0 && s.capacity >= 0.0 && Run(s, events) && from <= to
    ensures GrantedIn(s, events, from, to) as real
         <= Times(Visits(false, s.lastRefill, AllTicks(s, events), from, to), Allowance(s, from, to))
  {
    hide Allowance, Times, Visits, TakenIn;
    RunIsHonest(s, events);
    TakenIsGranted(s, events, from, to);
    TakenBound(false, s, AllTicks(s, events), from, to);
  }

  // ---- The same by how far the clock goes -----------------------------------------------------

  predicate TakesInside(t: Tick, from: real, to: real) {
    t.takes && Inside(t.reading, from, to)
  }

  /** The latest reading, `high` included, up to the last token taken in the window. */
  function Reached(high: real, ticks: seq<Tick>, from: real, to: real): (top: real)
    ensures top >= high
    decreases |ticks|
  {
    if TakenIn(ticks, from, to) == 0 then high
    else Reached(Max(high, ticks[0].reading), ticks[1..], from, to)
  }

  function Gain(rate: real, x: real): real {
    rate * x
  }

  /** A tick gains at most what the clock went forward. */
  lemma TickGains(s: State, t: Tick)
    requires s.rate > 0.0 && InBounds(s)
    ensures var next := Ticked(s, t);
      && next.lastRefill == Max(s.lastRefill, t.reading)
      && next.tokens <= s.tokens + Gain(s.rate, next.lastRefill - s.lastRefill) - (if t.takes then 1.0 else 0.0)
      && next.tokens <= s.capacity - (if t.takes then 1.0 else 0.0)
  {}

  lemma {:induction false} TakenSince(s: State, ticks: seq<Tick>, from: real, to: real)
    requires s.rate > 0.0 && InBounds(s) && s.capacity >= 0.0 && Honest(s, ticks)
    ensures TakenIn(ticks, from, to) as real
         <= s.tokens + Gain(s.rate, Reached(s.lastRefill, ticks, from, to) - s.lastRefill)
    decreases |ticks|
  {
    hide Ticked, Refilled, Inside, Gain, InBounds;
    var taken, reach := TakenIn(ticks, from, to), Reached(s.lastRefill, ticks, from, to);
    if taken > 0 {
      var t, rest := ticks[0], ticks[1..];
      var next := Ticked(s, t);
      TickedKeeps(s, t);
      TickGains(s, t);
      TakenSince(next, rest, from, to);
      assert reach == Reached(next.lastRefill, rest, from, to);
      SumOfGains(s.rate, s.lastRefill, next.lastRefill, reach);
      AddOne(taken, TakenIn(rest, from, to), t.takes);
    } else {
      SumOfGains(s.rate, 0.0, 0.0, 0.0);
      TokensNonNegative(s);
    }
  }

  lemma AddOne(taken: nat, rest: nat, takes: bool)
    requires taken == rest || (takes && taken == 1 + rest)
    ensures taken as real <= rest as real + (if takes then 1.0 else 0.0)
  {}

  lemma SumOfGains(rate: real, a: real, b: real, c: real)
    ensures Gain(rate, c - a) == Gain(rate, b - a) + Gain(rate, c - b)
    ensures Gain(rate, 0.0) == 0.0
  {}

  lemma TokensNonNegative(s: State)
    requires InBounds(s) && s.capacity >= 0.0
    ensures s.tokens >= 0.0
  {}

  /** No reading between two tokens taken in the window is later than the first by more than `most`. */
  ghost predicate StaysClose(ticks: seq<Tick>, from: real, to: real, most: real) {
    forall i, j, k :: 0 <= i <= j <= k < |ticks| && TakesInside(ticks[i], from, to) && TakesInside(ticks[k], from, to)
      ==> ticks[j].reading - ticks[i].reading <= most
  }

  lemma {:induction false} TakenPositive(ticks: seq<Tick>, from: real, to: real) returns (k: nat)
    requires TakenIn(ticks, from, to) > 0
    ensures k < |ticks| && TakesInside(ticks[k], from, to)
    decreases |ticks|
  {
    if TakesInside(ticks[0], from, to) { k := 0; } else {
      k := TakenPositive(ticks[1..], from, to);
      k := k + 1;
    }
  }

  lemma {:induction false} ReachedBelow(high: real, ticks: seq<Tick>, from: real, to: real, top: real)
    requires high <= top
    requires forall j, k :: 0 <= j <= k < |ticks| && TakesInside(ticks[k], from, to) ==> ticks[j].reading <= top
    ensures Reached(high, ticks, from, to) <= top
    decreases |ticks|
  {
    hide TakesInside, TakenIn;
    if TakenIn(ticks, from, to) > 0 {
      var k := TakenPositive(ticks, from, to);
      assert ticks[0].reading <= top;
      forall j, k | 0 <= j <= k < |ticks[1..]| && TakesInside(ticks[1..][k], from, to)
        ensures ticks[1..][j].reading <= top
      {
        assert ticks[1..][k] == ticks[k + 1] && ticks[1..][j] == ticks[j + 1];
      }
      ReachedBelow(Max(high, ticks[0].reading), ticks[1..], from, to, top);
    }
  }

  lemma GainMonotone(rate: real, x: real, y: real)
    requires rate >= 0.0 && x <= y
    ensures Gain(rate, x) <= Gain(rate, y) && (x >= 0.0 ==> Gain(rate, x) >= 0.0)
  {
    ProductStep(rate, x, y);
    if x >= 0.0 { ProductSign(rate, x); }
  }

  /** From the first token taken in the window on: a full bucket, and what the clock adds. */
  lemma TakenFromFirst(s: State, ticks: seq<Tick>, from: real, to: real)
    requires s.rate > 0.0 && InBounds(s) && s.capacity >= 0.0 && Honest(s, ticks)
    requires ticks != [] && TakesInside(ticks[0], from, to)
    ensures var high := Max(s.lastRefill, ticks[0].reading);
      TakenIn(ticks, from, to) as real <= s.capacity + Gain(s.rate, Reached(high, ticks[1..], from, to) - high)
  {
    hide Ticked, Refilled, Reached, InBounds, Inside, Gain;
    var next, rest := Ticked(s, ticks[0]), ticks[1..];
    TickedKeeps(s, ticks[0]);
    TickGains(s, ticks[0]);
    TakenSince(next, rest, from, to);
    AddOne(TakenIn(ticks, from, to), TakenIn(rest, from, to), true);
  }

  lemma {:induction false} TakenByReach(s: State, ticks: seq<Tick>, from: real, to: real)
    requires s.rate > 0.0 && InBounds(s) && s.capacity >= 0.0 && Honest(s, ticks)
    ensures TakenIn(ticks, from, to) as real
         <= s.capacity + Gain(s.rate, Max(0.0, Reached(s.lastRefill, ticks, from, to) - Max(from, s.lastRefill)))
    decreases |ticks|
  {
    hide Ticked, Refilled, InBounds, Gain;
    var reach := Reached(s.lastRefill, ticks, from, to);
    var beyond := Max(0.0, reach - Max(from, s.lastRefill));
    if TakenIn(ticks, from, to) == 0 {
      GainMonotone(s.rate, beyond, beyond);
    } else {
      var t, rest := ticks[0], ticks[1..];
      var high := Max(s.lastRefill, t.reading);
      assert reach == Reached(high, rest, from, to);
      if TakesInside(t, from, to) {
        TakenFromFirst(s, ticks, from, to);
        GainMonotone(s.rate, reach - high, beyond);
      } else {
        TickedKeeps(s, t);
        TakenByReach(Ticked(s, t), rest, from, to);
        GainMonotone(s.rate, Max(0.0, reach - Max(from, high)), beyond);
      }
    }
  }

  lemma StaysCloseRest(ticks: seq<Tick>, from: real, to: real, most: real)
    requires ticks != [] && StaysClose(ticks, from, to, most)
    ensures StaysClose(ticks[1..], from, to, most)
  {
    hide TakesInside;
    var rest := ticks[1..];
    forall i, j, k | 0 <= i <= j <= k < |rest| && TakesInside(rest[i], from, to) && TakesInside(rest[k], from, to)
      ensures rest[j].reading - rest[i].reading <= most
    {
      assert rest[i] == ticks[i + 1] && rest[j] == ticks[j + 1] && rest[k] == ticks[k + 1];
    }
  }

  lemma {:induction false} TakenByStray(s: State, ticks: seq<Tick>, from: real, to: real, most: real)
    requires s.rate > 0.0 && InBounds(s) && s.capacity >= 0.0 && Honest(s, ticks)
    requires most >= 0.0 && StaysClose(ticks, from, to, most)
    ensures TakenIn(ticks, from, to) as real <= s.capacity + Gain(s.rate, most)
    decreases |ticks|
  {
    hide Ticked, Refilled, StaysClose, Reached, InBounds, Gain;
    if TakenIn(ticks, from, to) == 0 {
      GainMonotone(s.rate, 0.0, most);
    } else if TakesInside(ticks[0], from, to) {
      var high := Max(s.lastRefill, ticks[0].reading);
      TakenFromFirst(s, ticks, from, to);
      StaysCloseFromFirst(ticks, from, to, most);
      ReachedBelow(high, ticks[1..], from, to, high + most);
      GainMonotone(s.rate, Reached(high, ticks[1..], from, to) - high, most);
    } else {
      TickedKeeps(s, ticks[0]);
      StaysCloseRest(ticks, from, to, most);
      TakenByStray(Ticked(s, ticks[0]), ticks[1..], from, to, most);
    }
  }

  lemma StaysCloseFromFirst(ticks: seq<Tick>, from: real, to: real, most: real)
    requires ticks != [] && TakesInside(ticks[0], from, to) && StaysClose(ticks, from, to, most)
    ensures forall j, k :: 0 <= j <= k < |ticks[1..]| && TakesInside(ticks[1..][k], from, to)
              ==> ticks[1..][j].reading <= ticks[0].reading + most
  {
    hide TakesInside;
    forall j, k | 0 <= j <= k < |ticks[1..]| && TakesInside(ticks[1..][k], from, to)
      ensures ticks[1..][j].reading <= ticks[0].reading + most
    {
      assert ticks[1..][k] == ticks[k + 1] && ticks[1..][j] == ticks[j + 1];
    }
  }

  lemma TimesZero(x: real)
    ensures Times(0, x) == 0.0
  {}

  lemma InvBounds(s: State)
    requires Inv(s) && s.rate > 0.0
    ensures InBounds(s)
  {}

  /** MAIN RESULT: in any run, whatever the clock does, the tokens granted at readings from `from`
      to `to` are at most capacity + rate * (top - from), where `top` is the latest reading up to the
      last of these grants. Time before the last refill adds nothing. */
  lemma WindowBound(s: State, events: seq<Event>, from: real, to: real)
    requires Inv(s) && s.rate > 0.0 && s.capacity >= 0.0 && Run(s, events)
    ensures var top := Reached(s.lastRefill, AllTicks(s, events), from, to);
      GrantedIn(s, events, from, to) as real <= s.capacity + s.rate * Max(0.0, top - Max(from, s.lastRefill))
  {
    hide Inv, Run, GrantedIn, AllTicks, Honest, TakenIn, Reached;
    InvBounds(s);
    RunIsHonest(s, events);
    TakenIsGranted(s, events, from, to);
    TakenByReach(s, AllTicks(s, events), from, to);
  }

  /** MAIN RESULT: a window grants at most capacity + rate * (to - from) in any run in which the
      clock, between two grants of the window, is never read later than the first of them by more than
      the length of the window. Steps back as such do no harm. ReturnBreaks shows that nothing weaker
      about the readings will do. */
  lemma NoReturnBound(s: State, events: seq<Event>, from: real, to: real)
    requires Inv(s) && s.rate > 0.0 && s.capacity >= 0.0 && Run(s, events) && from <= to
    requires StaysClose(AllTicks(s, events), from, to, to - from)
    ensures GrantedIn(s, events, from, to) as real <= s.capacity + s.rate * (to - from)
  {
    hide Inv, Run, GrantedIn, AllTicks, Honest, TakenIn, StaysClose;
    InvBounds(s);
    RunIsHonest(s, events);
    TakenIsGranted(s, events, from, to);
    TakenByStray(s, AllTicks(s, events), from, to, to - from);
  }

  /** In particular when no reading past the window comes before its last grant, */
  lemma NeverPast(ticks: seq<Tick>, from: real, to: real)
    requires forall j, k :: 0 <= j <= k < |ticks| && TakesInside(ticks[k], from, to) ==> ticks[j].reading <= to
    ensures StaysClose(ticks, from, to, to - from)
  {}

  /** and when the readings never step back. */
  ghost predicate Forward(ticks: seq<Tick>) {
    forall i, j :: 0 <= i < j < |ticks| ==> ticks[i].reading <= ticks[j].reading
  }

  lemma ForwardWindowBound(s: State, events: seq<Event>, from: real, to: real)
    requires Inv(s) && s.rate > 0.0 && s.capacity >= 0.0 && Run(s, events) && from <= to
    requires Forward(AllTicks(s, events))
    ensures GrantedIn(s, events, from, to) as real <= s.capacity + s.rate * (to - from)
  {
    hide Inv, Run, GrantedIn, AllTicks, StaysClose;
    NeverPast(AllTicks(s, events), from, to);
    NoReturnBound(s, events, from, to);
  }

  /** `count` calls at one reading. */
  function Calls(count: nat, reading: real): (events: seq<Event>)
    ensures |events| == count
  {
    seq(count, _ => Acquire(0, reading, reading))
  }

  lemma CallGranted(s: State, reading: real, rest: seq<Event>, from: real, to: real)
    requires s.rate > 0.0 && !s.closed && s.waiters == [] && reading >= s.resumeAt
    requires Refilled(s, reading).tokens >= 1.0
    requires Run(Refilled(s, reading).(tokens := Refilled(s, reading).tokens - 1.0), rest)
    ensures var next := Refilled(s, reading).(tokens := Refilled(s, reading).tokens - 1.0);
      && Run(s, [Acquire(0, reading, reading)] + rest)
      && GrantedIn(s, [Acquire(0, reading, reading)] + rest, from, to)
           == (if Inside(reading, from, to) then 1 else 0) + GrantedIn(next, rest, from, to)
  {
    var e := Acquire(0, reading, reading);
    assert ([e] + rest)[0] == e && ([e] + rest)[1..] == rest;
    assert Step(s, e) == Refilled(s, reading).(tokens := Refilled(s, reading).tokens - 1.0);
  }

  /** Calls at a reading that is no later than the last refill take their tokens one by one. */
  lemma {:induction false} CallsGranted(s: State, count: nat, reading: real, rest: seq<Event>, from: real, to: real)
    requires s.rate > 0.0 && !s.closed && s.waiters == [] && s.resumeAt <= reading <= s.lastRefill
    requires s.tokens >= count as real && Inside(reading, from, to)
    requires Run(s.(tokens := s.tokens - count as real), rest)
    ensures Run(s, Calls(count, reading) + rest)
    ensures GrantedIn(s, Calls(count, reading) + rest, from, to)
         == count + GrantedIn(s.(tokens := s.tokens - count as real), rest, from, to)
    decreases count
  {
    hide Run, GrantedIn, Inside;
    if count == 0 {
      assert Calls(0, reading) + rest == rest;
    } else {
      var next := s.(tokens := s.tokens - 1.0);
      assert next.(tokens := next.tokens - (count - 1) as real) == s.(tokens := s.tokens - count as real);
      CallsGranted(next, count - 1, reading, rest, from, to);
      CallGranted(s, reading, Calls(count - 1, reading) + rest, from, to);
      assert Calls(count, reading) + rest == [Acquire(0, reading, reading)] + (Calls(count - 1, reading) + rest);
    }
  }

  /** Calls at a drain the bucket, one at b is let through, and those at c take what b refilled. */
  lemma ThreeReadings(s: State, a: real, b: real, c: real, burst: nat, last: nat, from: real, to: real)
    requires s.rate > 0.0 && !s.closed && s.waiters == [] && s.lastRefill == a
    requires s.tokens == s.capacity == burst as real
    requires s.resumeAt <= Min(a, c) && Inside(a, from, to) && Inside(c, from, to) && to < b
    requires last as real + 1.0 <= (b - a) * s.rate <= burst as real
    ensures var events := Calls(burst, a) + ([Acquire(0, b, b)] + Calls(last, c));
            Run(s, events) && GrantedIn(s, events, from, to) == burst + last
  {
    hide Run, GrantedIn;
    var empty: seq<Event> := [];
    var drained := s.(tokens := 0.0);
    var after := drained.(tokens := (b - a) * s.rate - 1.0, lastRefill := b);
    NoEvents(after.(tokens := after.tokens - last as real), from, to);
    CallsGranted(after, last, c, empty, from, to);
    assert Calls(last, c) + empty == Calls(last, c);
    assert Refilled(drained, b) == drained.(tokens := (b - a) * s.rate, lastRefill := b);
    CallGranted(drained, b, Calls(last, c), from, to);
    CallsGranted(s, burst, a, [Acquire(0, b, b)] + Calls(last, c), from, to);
  }

  /** A rate at which the excess is worth two tokens. */
  lemma ChooseRate(window: real, span: real) returns (ratePerSec: real, burst: nat, last: nat)
    requires 0.0 <= window < span
    ensures var rate := ratePerSec / 1000.0;
      && rate > 0.0
      && last as real + 1.0 <= span * rate <= burst as real
      && (burst + last) as real > burst as real + rate * window
  {
    ratePerSec := 2000.0 / (span - window);
    var rate := ratePerSec / 1000.0;
    assert rate * (span - window) == 2.0;
    ProductSign(rate, window);
    assert rate * span == rate * window + rate * (span - window);
    last := (rate * span).Floor - 1;
    burst := (rate * span).Floor + 1;
  }

  /** MAIN RESULT: the condition of NoReturnBound is exact. Whenever a clock is read at `a`, then at
      `b`, then at `c`, with a and c in the window and b later than a by more than its length, some new
      bucket grants more than capacity + rate * (to - from) in the window to calls at a, b and c. */
  lemma ReturnBreaks(a: real, b: real, c: real, from: real, to: real)
    returns (ratePerSec: real, burst: nat, last: nat)
    requires 0.0 <= from && Inside(a, from, to) && Inside(c, from, to) && b - a > to - from
    ensures ratePerSec > 0.0
    ensures var s := Initial(ratePerSec, Some(burst as real), a);
            var events := Calls(burst, a) + ([Acquire(0, b, b)] + Calls(last, c));
            && Inv(s) && s.rate > 0.0 && s.capacity == burst as real && Run(s, events)
            && GrantedIn(s, events, from, to) as real > s.capacity + s.rate * (to - from)
  {
    hide Run, GrantedIn;
    ratePerSec, burst, last := ChooseRate(to - from, b - a);
    ThreeReadings(Initial(ratePerSec, Some(burst as real), a), a, b, c, burst, last, from, to);
  }

  /** MAIN RESULT: a new bucket lets exactly as many calls through at once as it holds whole tokens. */
  lemma BurstIsWholeTokens(ratePerSec: real, burst: real, created: real, count: nat)
    requires ratePerSec > 0.0 && created >= 0.0 && count as real <= burst < (count + 1) as real
    ensures var s := Initial(ratePerSec, Some(burst), created);
      && Run(s, Calls(count + 1, created))
      && GrantedIn(s, Calls(count + 1, created), created, created) == count
  {
    hide Run, GrantedIn;
    var s := Initial(ratePerSec, Some(burst), created);
    var drained := s.(tokens := s.tokens - count as real);
    var one := [Acquire(0, created, created)];
    OneRefused(drained, created);
    CallsGranted(s, count, created, one, created, created);
    assert Calls(count + 1, created) == Calls(count, created) + one;
  }

  lemma OneRefused(s: State, reading: real)
    requires s.rate > 0.0 && !s.closed && s.lastRefill == reading && s.tokens < 1.0 && s.waiters == []
    ensures var one := [Acquire(0, reading, reading)]; Run(s, one) && GrantedIn(s, one, reading, reading) == 0
  {
    var e := Acquire(0, reading, reading);
    var none: seq<Event> := [];
    assert [e][1..] == none;
    assert Run(Step(s, e), none) && GrantedIn(Step(s, e), none, reading, reading) == 0;
  }

  lemma NoEvents(s: State, from: real, to: real)
    ensures Run(s, []) && GrantedIn(s, [], from, to) == 0
  {}

  // ---- Queue order ----------------------------------------------------------------------------

  function NoIds(): seq<nat> { [] }

  /** The callers that leave the queue at an event: let through by a wake, or rejected by close. */
  function Leaves(s: State, e: Event): seq<nat>
    requires Possible(s, e)
  {
    match e
    case Wake(now, later) => if Grants(s, e) then [Woken(s, now, later).1.value] else NoIds()
    case Close => s.waiters
    case _ => NoIds()
  }

  function Parks(s: State, e: Event): seq<nat>
    requires Possible(s, e)
  {
    if e.Acquire? && Acquired(s, e.id, e.now, e.later).1.Parked? then [e.id] else NoIds()
  }

  ghost function AllLeave(s: State, events: seq<Event>): seq<nat>
    requires Run(s, events)
    decreases |events|
  {
    if events == [] then NoIds() else Leaves(s, events[0]) + AllLeave(Step(s, events[0]), events[1..])
  }

  ghost function AllPark(s: State, events: seq<Event>): seq<nat>
    requires Run(s, events)
    decreases |events|
  {
    if events == [] then NoIds() else Parks(s, events[0]) + AllPark(Step(s, events[0]), events[1..])
  }

  lemma QueueStep(s: State, e: Event)
    requires Inv(s) && Possible(s, e)
    ensures Leaves(s, e) + Step(s, e).waiters == s.waiters + Parks(s, e)
  {
    hide Refilled;
    match e
    case Acquire(id, now, later) => AcquireQueue(s, id, now, later);
    case Wake(now, later) => WakeQueue(s, now, later);
    case NoteRetryAfter(seconds, now, later) =>
      NoteQueue(s, seconds, now, later);
      assert NoIds() + s.waiters == s.waiters == s.waiters + NoIds();
    case Close =>
  }

  lemma AcquireQueue(s: State, id: nat, now: real, later: real)
    requires Inv(s)
    ensures var (next, outcome) := Acquired(s, id, now, later);
      NoIds() + next.waiters == s.waiters + (if outcome.Parked? then [id] else NoIds())
  {
    hide Refilled, Scheduled;
    if s.rate > 0.0 {
      RefilledKeeps(s, now);
      var r := Refilled(s, now);
      ScheduledKeeps(r.(waiters := r.waiters + [id]), later);
    }
    assert s.waiters + NoIds() == s.waiters;
  }

  lemma NoteQueue(s: State, seconds: real, now: real, later: real)
    requires Inv(s)
    ensures Noted(s, seconds, now, later).waiters == s.waiters
  {
    hide Refilled, Scheduled, Backoff;
    if s.waiters != [] {
      ScheduledKeeps(s.(resumeAt := Max(s.resumeAt, now + Backoff(s, seconds)), timer := None), later);
    }
  }

  lemma WakeQueue(s: State, now: real, later: real)
    requires Inv(s) && s.timer.Some?
    ensures var (next, resolved) := Woken(s, now, later);
      (if resolved.Some? then [resolved.value] else NoIds()) + next.waiters == s.waiters
  {
    hide Refilled, Scheduled;
    var idle := s.(timer := None);
    RefilledKeeps(idle, now);
    var r := Refilled(idle, now);
    if Ready(r, now) {
      ScheduledKeeps(r.(tokens := r.tokens - 1.0, waiters := r.waiters[1..]), later);
      assert [s.waiters[0]] + s.waiters[1..] == s.waiters;
    } else {
      ScheduledKeeps(r, later);
      assert NoIds() + s.waiters == s.waiters;
    }
  }

  lemma SwapMiddle(a: seq<nat>, b: seq<nat>, c: seq<nat>, d: seq<nat>, e: seq<nat>)
    requires a + b == c + d
    ensures (a + (b + e)) == c + (d + e)
  {
    assert a + (b + e) == (a + b) + e;
    assert c + (d + e) == (c + d) + e;
  }

  /** MAIN RESULT: callers leave the queue in the order they were parked, each exactly once, and the
      rest are still in it: over any run, those who left followed by those still waiting are those
      who waited at the start followed by those parked since. */
  lemma {:induction false} FirstInFirstOut(s: State, events: seq<Event>)
    requires Inv(s) && Run(s, events)
    ensures AllLeave(s, events) + Final(s, events).waiters == s.waiters + AllPark(s, events)
    decreases |events|
  {
    hide Inv, Step, Possible, Leaves, Parks;
    if events != [] {
      var e, rest := events[0], events[1..];
      var next := Step(s, e);
      StepKeeps(s, e);
      QueueStep(s, e);
      FirstInFirstOut(next, rest);
      SwapMiddle(Leaves(s, e), next.waiters, s.waiters, Parks(s, e), AllPark(next, rest));
      assert AllLeave(s, events) + Final(s, events).waiters
          == Leaves(s, e) + (AllLeave(next, rest) + Final(next, rest).waiters);
    }
  }

  // ---- Progress -------------------------------------------------------------------------------

  /** Refilling on the way changes nothing: only the last reading counts. */
  lemma RefillTwice(s: State, a: real, b: real)
    requires s.rate > 0.0 && InBounds(s) && s.lastRefill <= a <= b
    ensures Refilled(Refilled(s, a), b) == Refilled(s, b)
  {
    var x, y := (a - s.lastRefill) * s.rate, (b - a) * s.rate;
    ProductSign(a - s.lastRefill, s.rate);
    ProductSign(b - a, s.rate);
    assert (b - s.lastRefill) * s.rate == x + y;
  }

  function Delay(s: State): real
    requires s.rate > 0.0
  {
    Max(1.0, 1.0 / s.rate)
  }

  /** A pending wake is due no earlier than the pause ends, finds a token when it fires, and is not
      more than one delay away. */
  ghost predicate Prompt(s: State, time: real) {
    && s.rate > 0.0 && s.capacity >= 1.0 && s.lastRefill <= time
    && (s.timer.Some? ==>
      && time <= s.timer.value && s.resumeAt <= s.timer.value
      && s.timer.value <= Max(time, s.resumeAt) + Delay(s)
      && Refilled(s, s.timer.value).tokens >= 1.0)
  }

  /** The last reading up to the end of an event: the second one only counts where the code makes it. */
  function TimeOf(s: State, time: real, e: Event): real
    requires Possible(s, e)
  {
    match e
    case Acquire(id, now, later) =>
      if s.timer.None? && Acquired(s, id, now, later).1.Parked? then later else now
    case Wake(now, later) => if Step(s, e).waiters != [] then later else now
    case NoteRetryAfter(seconds, now, later) => if s.waiters != [] then later else now
    case Close => time
  }

  /** The clock moves forward, also within an event, no event overtakes a due wake, and wakes fire
      when they are due. */
  predicate OnTime(s: State, time: real, e: Event) {
    && Possible(s, e)
    && (!e.Close? ==> time <= e.now <= e.later)
    && (s.timer.Some? && !e.Close? ==> e.now <= s.timer.value)
    && (e.Wake? ==> e.now == s.timer.value)
  }

  ghost predicate OnTimeRun(s: State, time: real, events: seq<Event>)
    decreases |events|
  {
    events == [] ||
    (OnTime(s, time, events[0]) && OnTimeRun(Step(s, events[0]), TimeOf(s, time, events[0]), events[1..]))
  }

  lemma Quotients(x: real, rate: real)
    requires rate > 0.0 && x <= 1.0
    ensures (x / rate) * rate == x && x / rate <= 1.0 / rate
  {}

  lemma ScheduledPrompt(s: State, now: real)
    requires s.rate > 0.0 && s.capacity >= 1.0 && InBounds(s) && s.lastRefill <= now && s.timer.None?
    ensures Prompt(Scheduled(s, now), now)
  {
    hide Refilled;
    var r := Refilled(s, now);
    RefilledKeeps(s, now);
    var need := (1.0 - r.tokens) / s.rate;
    Quotients(1.0 - r.tokens, s.rate);
    var due := now + Max(1.0, WakeAt(r, now) - now);
    var after := Scheduled(s, now);
    assert after == r.(timer := Some(due)) && due >= now + need && due >= now + 1.0;
    RefilledAt(after, due, need);
  }

  lemma RefilledAt(s: State, due: real, need: real)
    requires s.rate > 0.0 && s.capacity >= 1.0 && due > s.lastRefill && due >= s.lastRefill + need
    requires need * s.rate == 1.0 - s.tokens
    ensures Refilled(s, due).tokens >= 1.0
  {
    var elapsed := due - s.lastRefill;
    ProductMonotone(need, elapsed, s.rate);
    assert Refilled(s, due).tokens == Min(s.capacity, s.tokens + elapsed * s.rate);
  }

  lemma ProductMonotone(x: real, y: real, rate: real)
    requires x <= y && rate > 0.0
    ensures x * rate <= y * rate
  {}

  /** Every on-time step keeps wakes prompt; a wake lets the head through. */
  lemma AcquirePrompt(s: State, time: real, e: Event)
    requires Inv(s) && Prompt(s, time) && OnTime(s, time, e) && e.Acquire?
    ensures Prompt(Step(s, e), TimeOf(s, time, e))
    ensures s.timer.Some? ==> Step(s, e).timer == s.timer
  {
    hide Refilled, Scheduled;
    if !s.closed {
      RefilledKeeps(s, e.now);
      RefillSameAccount(s, s, e.now);
      var r := Refilled(s, e.now);
      var parked := r.(waiters := r.waiters + [e.id]);
      if s.timer.Some? {
        ScheduleNoop(parked, e.later);
        RefillTwice(s, e.now, s.timer.value);
        RefillSameAccount(parked, r, s.timer.value);
      } else if Acquired(s, e.id, e.now, e.later).1.Parked? {
        ScheduledPrompt(parked, e.later);
      }
    }
  }

  lemma WakePrompt(s: State, time: real, e: Event)
    requires Inv(s) && Prompt(s, time) && OnTime(s, time, e) && e.Wake?
    ensures Grants(s, e) && Step(s, e).waiters == s.waiters[1..] && Step(s, e).resumeAt == s.resumeAt
    ensures Woken(s, e.now, e.later).1 == Some(s.waiters[0])
    ensures Prompt(Step(s, e), TimeOf(s, time, e))
  {
    hide Refilled, Scheduled, Woken;
    var idle := s.(timer := None);
    RefillSameAccount(idle, s, e.now);
    RefilledKeeps(idle, e.now);
    var r := Refilled(idle, e.now);
    var g := r.(tokens := r.tokens - 1.0, waiters := r.waiters[1..]);
    WokenReady(s, e.now, e.later);
    if g.waiters != [] {
      ScheduledPrompt(g, e.later);
      ScheduledKeeps(g, e.later);
    }
  }

  lemma WokenReady(s: State, now: real, later: real)
    requires s.rate > 0.0
    requires var r := Refilled(s.(timer := None), now); r.waiters != [] && Ready(r, now) && r.rate == s.rate
    ensures var r := Refilled(s.(timer := None), now);
      var g := r.(tokens := r.tokens - 1.0, waiters := r.waiters[1..]);
      Woken(s, now, later) == (if g.waiters != [] then Scheduled(g, later) else g, Some(r.waiters[0]))
  {
    hide Refilled, Scheduled;
  }

  lemma NotePrompt(s: State, time: real, e: Event)
    requires Inv(s) && Prompt(s, time) && OnTime(s, time, e) && e.NoteRetryAfter?
    ensures Prompt(Step(s, e), TimeOf(s, time, e))
  {
    hide Refilled, Backoff, Scheduled;
    var p := s.(resumeAt := Max(s.resumeAt, e.now + Backoff(s, e.seconds)));
    if s.waiters != [] { ScheduledPrompt(p.(timer := None), e.later); }
  }

  lemma StepPrompt(s: State, time: real, e: Event)
    requires Inv(s) && Prompt(s, time) && OnTime(s, time, e)
    ensures Prompt(Step(s, e), TimeOf(s, time, e))
  {
    hide Prompt, Step, Inv, Acquired;
    match e
    case Acquire(_, _, _) => AcquirePrompt(s, time, e);
    case Wake(_, _) => WakePrompt(s, time, e);
    case NoteRetryAfter(_, _, _) => NotePrompt(s, time, e);
    case Close => ClosePrompt(s, time);
  }

  lemma ClosePrompt(s: State, time: real)
    requires Prompt(s, time)
    ensures Prompt(Step(s, Close), time)
  {}

  ghost function EndOf(s: State, time: real, events: seq<Event>): real
    requires OnTimeRun(s, time, events)
    decreases |events|
  {
    if events == [] then time else EndOf(Step(s, events[0]), TimeOf(s, time, events[0]), events[1..])
  }

  /** Wakes stay prompt in every on-time run, pauses and close included. */
  lemma {:induction false} RunPrompt(s: State, time: real, events: seq<Event>)
    requires Inv(s) && Prompt(s, time) && OnTimeRun(s, time, events)
    ensures Run(s, events) && Prompt(Final(s, events), EndOf(s, time, events))
    decreases |events|
  {
    hide Prompt, Step, Inv, TimeOf;
    if events != [] {
      StepPrompt(s, time, events[0]);
      StepKeeps(s, events[0]);
      RunPrompt(Step(s, events[0]), TimeOf(s, time, events[0]), events[1..]);
    }
  }

  lemma FreshIsPrompt(ratePerSec: real, burst: Option<real>, now: real)
    requires ratePerSec > 0.0 && (burst.Some? ==> burst.value >= 1.0)
    ensures Prompt(Initial(ratePerSec, burst, now), now) && Inv(Initial(ratePerSec, burst, now))
  {}

  datatype Grant = Grant(id: nat, time: real)

  function NoGrants(): seq<Grant> { [] }

  /** The parked callers let through, and when. */
  ghost function Resolved(s: State, events: seq<Event>): seq<Grant>
    requires Run(s, events)
    decreases |events|
  {
    if events == [] then NoGrants() else
      (if events[0].Wake? && Grants(s, events[0])
       then [Grant(Woken(s, events[0].now, events[0].later).1.value, events[0].now)] else NoGrants())
        + Resolved(Step(s, events[0]), events[1..])
  }

  predicate NoPause(events: seq<Event>) {
    forall i :: 0 <= i < |events| ==> events[i].Acquire? || events[i].Wake?
  }

  /** The time that passes within wakes, between their two readings. */
  function Drift(events: seq<Event>): real
    decreases |events|
  {
    if events == [] then 0.0 else (if events[0].Wake? then events[0].later - events[0].now else 0.0) + Drift(events[1..])
  }

  /** The caller at queue index i is let through by `due + i * delay`, and the drift: either it has
      been, or that time has not come. */
  ghost predicate ServedBy(grants: seq<Grant>, i: nat, id: nat, deadline: real, end: real) {
    if i < |grants| then grants[i].id == id && grants[i].time <= deadline else end <= deadline
  }

  lemma {:induction false} DriftNonNegative(s: State, time: real, events: seq<Event>)
    requires OnTimeRun(s, time, events)
    ensures Drift(events) >= 0.0
    decreases |events|
  {
    hide Step, TimeOf;
    if events != [] { DriftNonNegative(Step(s, events[0]), TimeOf(s, time, events[0]), events[1..]); }
  }

  lemma {:induction false} QueueServed(s: State, time: real, events: seq<Event>, i: nat)
    requires Inv(s) && Prompt(s, time) && OnTimeRun(s, time, events) && NoPause(events)
    requires i < |s.waiters|
    ensures Run(s, events)
    ensures ServedBy(Resolved(s, events), i, s.waiters[i], s.timer.value + Times(i, Delay(s)) + Drift(events),
                     EndOf(s, time, events))
    decreases |events|, 0
  {
    hide Step, Acquired, Woken, Refilled, Times, Delay, TimeOf, ServedBy, Prompt, Inv, OnTime, Drift, Resolved, Possible;
    RunPrompt(s, time, events);
    TimerPending(s);
    if events == [] {
      NothingServed(s, time, i);
      assert Resolved(s, events) == NoGrants() by { NothingResolved(s); }
    } else {
      var e, rest := events[0], events[1..];
      assert [e] + rest == events;
      OnTimeFirst(s, time, e, rest);
      if e.Acquire? {
        AcquireServes(s, time, e, rest, i);
      } else {
        WakeServes(s, time, e, rest, i);
      }
    }
  }

  lemma OnTimeFirst(s: State, time: real, e: Event, rest: seq<Event>)
    requires OnTimeRun(s, time, [e] + rest)
    ensures OnTime(s, time, e) && OnTimeRun(Step(s, e), TimeOf(s, time, e), rest)
    ensures EndOf(s, time, [e] + rest) == EndOf(Step(s, e), TimeOf(s, time, e), rest)
  {
    hide Step, TimeOf;
    assert ([e] + rest)[0] == e && ([e] + rest)[1..] == rest;
  }

  lemma NothingResolved(s: State)
    ensures Resolved(s, []) == NoGrants()
  {}

  /** A newcomer changes nothing for those before it. */
  lemma AcquireServes(s: State, time: real, e: Event, rest: seq<Event>, i: nat)
    requires Inv(s) && Prompt(s, time) && OnTime(s, time, e) && e.Acquire? && i < |s.waiters|
    requires OnTimeRun(Step(s, e), TimeOf(s, time, e), rest) && NoPause(rest)
    requires Run(s, [e] + rest) && s.timer.Some?
    ensures ServedBy(Resolved(s, [e] + rest), i, s.waiters[i],
                     s.timer.value + Times(i, Delay(s)) + Drift([e] + rest), EndOf(Step(s, e), TimeOf(s, time, e), rest))
    decreases |rest|, 1
  {
    hide Step, Acquired, Woken, Refilled, Times, Delay, TimeOf, ServedBy, Prompt, Inv, OnTime, Drift, Resolved, Parks, Leaves;
    var next := Step(s, e);
    AcquirePrompt(s, time, e);
    StepKeeps(s, e);
    QueueStep(s, e);
    AcquireLeaves(s, e);
    assert next.waiters == s.waiters + Parks(s, e);
    QueueServed(next, TimeOf(s, time, e), rest, i);
    SameDelay(s, next) by { PromptRate(s, time); }
    AcquireResolves(s, e, rest);
  }

  lemma AcquireLeaves(s: State, e: Event)
    requires Possible(s, e) && e.Acquire?
    ensures Leaves(s, e) == NoIds() && forall ids: seq<nat> :: NoIds() + ids == ids
  {}

  lemma AcquireResolves(s: State, e: Event, rest: seq<Event>)
    requires Run(s, [e] + rest) && e.Acquire?
    ensures Run(Step(s, e), rest) && Resolved(s, [e] + rest) == Resolved(Step(s, e), rest)
    ensures Drift([e] + rest) == Drift(rest)
  {
    hide Step, Grants;
    assert ([e] + rest)[0] == e && ([e] + rest)[1..] == rest;
  }

  lemma TimerPending(s: State)
    requires Inv(s) && s.waiters != []
    ensures s.timer.Some? && s.rate > 0.0
  {}

  lemma NothingServed(s: State, time: real, i: nat)
    requires Inv(s) && Prompt(s, time) && i < |s.waiters|
    ensures ServedBy(NoGrants(), i, s.waiters[i], s.timer.value + Times(i, Delay(s)) + Drift([]), time)
  {
    hide Times, Delay, Refilled;
    TimesStep(i, Delay(s)) by { DelayPositive(s); }
  }

  /** The head's wake: the head is served now, and those behind move up by one delay. */
  lemma WakeServes(s: State, time: real, e: Event, rest: seq<Event>, i: nat)
    requires Inv(s) && Prompt(s, time) && OnTime(s, time, e) && e.Wake? && i < |s.waiters|
    requires OnTimeRun(Step(s, e), TimeOf(s, time, e), rest) && NoPause(rest)
    requires Run(s, [e] + rest)
    ensures ServedBy(Resolved(s, [e] + rest), i, s.waiters[i],
                     s.timer.value + Times(i, Delay(s)) + Drift([e] + rest), EndOf(Step(s, e), TimeOf(s, time, e), rest))
    decreases |rest|, 1
  {
    hide Step, Acquired, Woken, Refilled, Times, Delay, TimeOf, Prompt, Inv, Grants, Resolved;
    var next, end := Step(s, e), TimeOf(s, time, e);
    WakePrompt(s, time, e);
    StepKeeps(s, e);
    PromptRate(s, time);
    ResolvedWake(s, e, rest);
    var more := Resolved(next, rest);
    assert ([e] + rest)[1..] == rest;
    DriftNonNegative(next, end, rest);
    assert Drift([e] + rest) == e.later - e.now + Drift(rest);
    if i > 0 {
      QueueServed(next, end, rest, i - 1);
      SameDelay(s, next);
      TimesStep(i - 1, Delay(s)) by { DelayPositive(s); }
      NextDue(s, time, e);
      assert i < |[Grant(s.waiters[0], e.now)] + more| ==>
        ([Grant(s.waiters[0], e.now)] + more)[i] == more[i - 1];
    } else {
      TimesZero(Delay(s));
    }
  }

  lemma ResolvedWake(s: State, e: Event, rest: seq<Event>)
    requires Run(s, [e] + rest) && e.Wake? && Grants(s, e) && Woken(s, e.now, e.later).1 == Some(s.waiters[0])
    requires s.waiters != []
    ensures Run(Step(s, e), rest)
    ensures Resolved(s, [e] + rest) == [Grant(s.waiters[0], e.now)] + Resolved(Step(s, e), rest)
  {
    hide Step, Woken, Grants;
    assert ([e] + rest)[0] == e && ([e] + rest)[1..] == rest;
  }

  lemma DelayPositive(s: State)
    requires s.rate > 0.0
    ensures Delay(s) >= 1.0
  {}

  lemma SameDelay(s: State, s': State)
    requires s.rate > 0.0 && s'.rate == s.rate
    ensures Delay(s') == Delay(s)
  {}

  lemma NextDue(s: State, time: real, e: Event)
    requires Inv(s) && Prompt(s, time) && OnTime(s, time, e) && e.Wake?
    requires Step(s, e).resumeAt == s.resumeAt && Step(s, e).rate == s.rate && Step(s, e).waiters != []
    requires Prompt(Step(s, e), TimeOf(s, time, e)) && Inv(Step(s, e))
    ensures Step(s, e).timer.Some? && Step(s, e).timer.value <= s.timer.value + Delay(s) + (e.later - e.now)
  {
    hide Step, Refilled, Woken;
  }

  /** MAIN RESULT: a caller parked as number k in the queue is let through by
      max(time, resumeAt) + k * max(1, 1/rate), where `time` is the reading its wake is scheduled from,
      plus what passes within the wakes; given a capacity of at least one token, wakes that fire when
      due, and no further pause or close. */
  lemma ParkedCallerGranted(s: State, time: real, e: Event, events: seq<Event>)
    requires Inv(s) && Prompt(s, time) && NoPause(events) && e.Acquire?
    requires OnTimeRun(s, time, [e] + events)
    requires Acquired(s, e.id, e.now, e.later).1.Parked?
    ensures var next, parked := Step(s, e), TimeOf(s, time, e);
      && Run(next, events) && next.waiters == s.waiters + [e.id] && OnTimeRun(next, parked, events)
      && ServedBy(Resolved(next, events), |s.waiters|, e.id,
                  Max(parked, s.resumeAt) + Times(|next.waiters|, Delay(s)) + Drift(events),
                  EndOf(next, parked, events))
  {
    hide Acquired, Refilled, Times, Prompt, OnTime, Inv, TimeOf;
    assert ([e] + events)[1..] == events && ([e] + events)[0] == e;
    var next, parked := Step(s, e), TimeOf(s, time, e);
    StepKeeps(s, e);
    AcquirePrompt(s, time, e);
    QueueStep(s, e);
    assert next.waiters == s.waiters + [e.id];
    QueueServed(next, parked, events, |s.waiters|);
    SameDelay(s, next) by { PromptRate(s, time); }
    TimesStep(|s.waiters|, Delay(s)) by { PromptRate(s, time); DelayPositive(s); }
    FirstDue(next, parked);
    AcquireSamePause(s, e.id, e.now, e.later);
  }

  lemma {:induction false} OnTimeSplit(s: State, time: real, before: seq<Event>, after: seq<Event>)
    requires OnTimeRun(s, time, before + after) && Inv(s) && Prompt(s, time)
    ensures OnTimeRun(s, time, before) && Run(s, before)
    ensures OnTimeRun(Final(s, before), EndOf(s, time, before), after)
    decreases |before|
  {
    hide Step, TimeOf, Prompt, Inv;
    if before == [] {
      assert before + after == after;
    } else {
      assert (before + after)[1..] == before[1..] + after;
      StepPrompt(s, time, before[0]);
      StepKeeps(s, before[0]);
      OnTimeSplit(Step(s, before[0]), TimeOf(s, time, before[0]), before[1..], after);
    }
  }

  /** MAIN RESULT: the same from the constructor on, for a caller that parks after any on-time run,
      pauses included. */
  lemma QueuedSinceConstruction(ratePerSec: real, burst: Option<real>, created: real, before: seq<Event>,
                                e: Event, events: seq<Event>)
    requires ratePerSec > 0.0 && (burst.Some? ==> burst.value >= 1.0)
    requires OnTimeRun(Initial(ratePerSec, burst, created), created, before + ([e] + events))
    requires NoPause(events) && e.Acquire? && Run(Initial(ratePerSec, burst, created), before)
    requires Acquired(Final(Initial(ratePerSec, burst, created), before), e.id, e.now, e.later).1.Parked?
    ensures var start := Initial(ratePerSec, burst, created);
      var s := Final(start, before);
      && Possible(s, e) && OnTimeRun(start, created, before)
      && var next, parked := Step(s, e), TimeOf(s, EndOf(start, created, before), e);
      && Run(next, events) && next.waiters == s.waiters + [e.id] && OnTimeRun(next, parked, events)
      && ServedBy(Resolved(next, events), |s.waiters|, e.id,
                  Max(parked, LatestPause(ratePerSec / 1000.0, 0.0, before))
                    + Times(|next.waiters|, Max(1.0, 1000.0 / ratePerSec)) + Drift(events),
                  EndOf(next, parked, events))
  {
    hide Acquired, Times, Prompt, Inv, TimeOf, Step, ServedBy, Possible, Resolved;
    var s0 := Initial(ratePerSec, burst, created);
    FreshIsPrompt(ratePerSec, burst, created);
    OnTimeSplit(s0, created, before, [e] + events);
    RunPrompt(s0, created, before);
    RunKeeps(s0, before);
    ParkedCallerGranted(Final(s0, before), EndOf(s0, created, before), e, events);
    DelayOf(ratePerSec, burst, created, Final(s0, before));
    RateOf(ratePerSec, burst, created);
    PausesAre(s0, before);
  }

  lemma RateOf(ratePerSec: real, burst: Option<real>, created: real)
    requires ratePerSec > 0.0
    ensures Initial(ratePerSec, burst, created).rate == ratePerSec / 1000.0 > 0.0
    ensures Initial(ratePerSec, burst, created).resumeAt == 0.0
  {}

  lemma DelayOf(ratePerSec: real, burst: Option<real>, created: real, s: State)
    requires ratePerSec > 0.0 && s.rate == Initial(ratePerSec, burst, created).rate
    ensures s.rate > 0.0 && Delay(s) == Max(1.0, 1000.0 / ratePerSec)
  {}

  lemma PromptRate(s: State, time: real)
    requires Prompt(s, time)
    ensures s.rate > 0.0
  {}

  lemma FirstDue(s: State, now: real)
    requires Prompt(s, now) && Inv(s) && s.waiters != []
    ensures s.timer.Some? && s.timer.value <= Max(now, s.resumeAt) + Delay(s)
  {}


  /** Capacity of at least one is needed: below it, no event of any run takes a token. */
  lemma {:induction false} SmallBucketNeverGrants(s: State, events: seq<Event>, from: real, to: real)
    requires Inv(s) && s.rate > 0.0 && s.capacity < 1.0 && Run(s, events)
    ensures GrantedIn(s, events, from, to) == 0
    decreases |events|
  {
    hide Refilled, Step;
    if events != [] {
      var e := events[0];
      StepKeeps(s, e);
      if e.Acquire? { RefilledKeeps(s, e.now); }
      if e.Wake? { RefilledKeeps(s.(timer := None), e.now); }
      SmallBucketNeverGrants(Step(s, e), events[1..], from, to);
    }
  }
}
