/** The bridge's parallel block download: fetched in any order, written in order. */
module BlockDownload {
  // Blocks are fetched concurrently and finish or fail in any order, and at most ten are held.
  // Whatever the other downloads do while one await is pending is a nondeterministic choice here.
  // Main result: the stream has always received exactly blocks 1 to nextBlockIndex - 1 in order, and
  // success means all of them.

  import opened Sets

  const MAX_CONCURRENT_DOWNLOAD_BLOCKS: nat := 10

  type Bytes = seq<nat>

  /** An entry of the map: its promise is pending, rejected, or resolved with the data stored. */
  datatype Download = Pending | Failed | Done(data: Bytes)

  datatype Listed = Content(index: int) | Thumbnail | ManifestSignature

  datatype Result = Success | Failure | MissingBlocks | BadManifest

  function Indices(listing: seq<Listed>): seq<int> {
    if listing == [] then [] else
      var last := listing[|listing| - 1];
      Indices(listing[..|listing| - 1]) + (if last.Content? then [last.index] else [])
  }

  ghost predicate IsUpTo(s: set<int>, n: nat) {
    forall i :: i in s <==> 1 <= i <= n
  }

  /** The listed blocks are 1, 2, 3, ... in this order. */
  predicate InOrder(indices: seq<int>) {
    forall k :: 0 <= k < |indices| ==> indices[k] == k + 1
  }

  function Unfinished(ongoing: map<int, Download>): set<int> {
    set i | i in ongoing && !ongoing[i].Done?
  }

  /** What may happen while something is awaited: pending downloads may settle. */
  ghost predicate Settles(before: map<int, Download>, after: map<int, Download>, content: int -> Bytes, reliable: bool) {
    && after.Keys == before.Keys
    && forall i :: i in before ==>
         && (!before[i].Pending? ==> after[i] == before[i])
         && (after[i].Done? && before[i].Pending? ==> after[i].data == content(i))
         && (reliable && after[i].Failed? ==> before[i].Failed?)
  }

  ghost predicate Range(keys: set<int>, from: int, to: int) {
    forall i :: i in keys <==> from <= i < to
  }

  lemma RangeDrop(keys: set<int>, from: int, to: int)
    requires from < to && Range(keys, from, to)
    ensures to - 1 in keys && Range(keys - {to - 1}, from, to - 1) && |keys| == |keys - {to - 1}| + 1
  {
    assert to - 1 in keys;
    assert keys == (keys - {to - 1}) + {to - 1};
  }

  lemma {:induction false} RangeSize(keys: set<int>, from: int, to: int)
    requires from <= to && Range(keys, from, to)
    ensures |keys| == to - from
    decreases keys
  {
    if from == to {
      NoInts(keys);
    } else {
      RangeDrop(keys, from, to);
      RangeSize(keys - {to - 1}, from, to - 1);
    }
  }

  /** What is held: the listed blocks that have not been written, and those written were listed. */
  ghost predicate Held(ongoing: map<int, Download>, listed: set<int>, next: nat) {
    && (forall i :: i in ongoing <==> i in listed && !(1 <= i < next))
    && (forall i :: 1 <= i < next ==> i in listed)
  }

  /** One listed block was added, and then blocks next to next' - 1 were written. */
  ghost predicate Added(ongoing: map<int, Download>, next: nat, index: int, ongoing': map<int, Download>, next': nat) {
    && next <= next'
    && (forall i :: i in ongoing' <==> (i in ongoing || i == index) && !(next <= i < next'))
    && (forall i :: next <= i < next' ==> i in ongoing || i == index)
  }

  lemma AddedAfter(ongoing: map<int, Download>, next: nat, index: int, ready: map<int, Download>,
                   ongoing': map<int, Download>, next': nat)
    requires ready.Keys == ongoing.Keys + {index} && Flushed(ready, next, ongoing', next')
    ensures Added(ongoing, next, index, ongoing', next')
  {
    forall i ensures i in ready <==> i in ongoing || i == index { assert i in ready.Keys <==> i in ongoing.Keys + {index}; }
    forall i | next <= i < next' ensures i in ongoing || i == index { assert i in ready; }
  }

  lemma HeldNext(ongoing: map<int, Download>, listed: set<int>, next: nat, index: int, ongoing': map<int, Download>, next': nat)
    requires Held(ongoing, listed, next) && 1 <= next && index !in listed
    requires Added(ongoing, next, index, ongoing', next')
    ensures Held(ongoing', listed + {index}, next') && 1 <= next'
  {
    forall i ensures i in ongoing' <==> i in listed + {index} && !(1 <= i < next') {
      assert i in ongoing <==> i in listed && !(1 <= i < next);
    }
    forall i | 1 <= i < next' ensures i in listed + {index} {
      if i >= next { assert i in ongoing || i == index; }
    }
  }

  lemma HeldFlushed(ongoing: map<int, Download>, listed: set<int>, next: nat, ongoing': map<int, Download>, next': nat)
    requires Held(ongoing, listed, next) && 1 <= next && Flushed(ongoing, next, ongoing', next')
    ensures Held(ongoing', listed, next') && 1 <= next'
  {
    forall i | 1 <= i < next' ensures i in listed {
      if i >= next { assert i in ongoing; }
    }
  }

  /** In order, the held blocks are a contiguous run. */
  lemma HeldInOrder(ongoing: map<int, Download>, listed: set<int>, next: nat, k: nat)
    requires Held(ongoing, listed, next) && 1 <= next && IsUpTo(listed, k)
    ensures next <= k + 1 && |ongoing| == k + 1 - next
    ensures next in ongoing || next == k + 1
  {
    if next > 1 { assert next - 1 in listed; }
    forall i ensures i in ongoing.Keys <==> next <= i < k + 1 {
      assert i in ongoing <==> i in listed && !(1 <= i < next);
    }
    RangeSize(ongoing.Keys, next, k + 1);
    assert |ongoing| == |ongoing.Keys|;
  }

  /** With fewer than the limit held, one more block in order leaves fewer than the limit again. */
  lemma RoomKept(ongoing: map<int, Download>, listed: set<int>, next: nat, k: nat, ongoing': map<int, Download>, next': nat)
    requires Held(ongoing, listed, next) && 1 <= next && IsUpTo(listed, k) && Added(ongoing, next, k + 1, ongoing', next')
    requires |ongoing| < MAX_CONCURRENT_DOWNLOAD_BLOCKS
    requires |ongoing| + 1 >= MAX_CONCURRENT_DOWNLOAD_BLOCKS ==> next' > next
    ensures IsUpTo(listed + {k + 1}, k + 1) && |ongoing'| < MAX_CONCURRENT_DOWNLOAD_BLOCKS
  {
    hide Held;
    HeldInOrder(ongoing, listed, next, k);
    HeldNext(ongoing, listed, next, k + 1, ongoing', next');
    HeldInOrder(ongoing', listed + {k + 1}, next', k + 1);
  }

  /** Nothing held means that the listed blocks are exactly those written. */
  lemma NothingHeld(ongoing: map<int, Download>, listed: set<int>, next: nat)
    requires Held(ongoing, listed, next) && 1 <= next && next !in ongoing
    ensures ongoing == map[] ==> IsUpTo(listed, next - 1)
    ensures ongoing != map[] ==> forall n: nat :: !IsUpTo(listed, n)
  {
    if ongoing == map[] {
      forall i ensures i in listed <==> 1 <= i <= next - 1 { assert i !in ongoing; }
    } else {
      var i := HasKey(ongoing);
      forall n: nat ensures !IsUpTo(listed, n) {
        if IsUpTo(listed, n) { BeyondGap(ongoing, listed, next, i, n); }
      }
    }
  }

  lemma HasKey(m: map<int, Download>) returns (i: int)
    requires m != map[]
    ensures i in m
  {
    assert m.Keys != {} by {
      if m.Keys == {} { NoKeys(m); }
    }
    i := Pick(m.Keys);
  }

  lemma NoKeys(m: map<int, Download>)
    requires m.Keys == {}
    ensures m == map[]
  {}

  lemma BeyondGap(ongoing: map<int, Download>, listed: set<int>, next: nat, i: int, n: nat)
    requires Held(ongoing, listed, next) && 1 <= next && next !in ongoing && i in ongoing
    ensures !IsUpTo(listed, n)
  {
    assert i in listed && !(1 <= i < next);
    assert next !in listed;
  }

  lemma IndicesNext(listing: seq<Listed>, k: nat)
    requires k < |listing|
    ensures Indices(listing[..k + 1])
         == Indices(listing[..k]) + (if listing[k].Content? then [listing[k].index] else [])
  {
    assert listing[..k + 1][..k] == listing[..k];
  }

  lemma {:induction false} IndicesPrefix(listing: seq<Listed>, k: nat)
    requires k <= |listing|
    ensures Indices(listing[..k]) <= Indices(listing)
    decreases |listing| - k
  {
    if k < |listing| {
      IndicesNext(listing, k);
      IndicesPrefix(listing, k + 1);
    } else {
      assert listing[..k] == listing;
    }
  }

  /** The next content index is new, and the next number if the listing is in order. */
  lemma NextIndex(listing: seq<Listed>, k: nat)
    requires k < |listing| && listing[k].Content? && Distinct(Indices(listing))
    ensures var before := Indices(listing[..k]);
      && listing[k].index !in SetOf(before)
      && SetOf(Indices(listing[..k + 1])) == SetOf(before) + {listing[k].index}
      && |Indices(listing[..k + 1])| == |before| + 1
      && (InOrder(Indices(listing)) ==> listing[k].index == |before| + 1)
  {
    var before, index := Indices(listing[..k]), listing[k].index;
    IndicesNext(listing, k);
    IndicesPrefix(listing, k + 1);
    assert Indices(listing)[|before|] == index;
    forall i | 0 <= i < |before| ensures before[i] != index {
      assert Indices(listing)[i] == before[i];
    }
  }

  lemma SettlesTwice(a: map<int, Download>, b: map<int, Download>, c: map<int, Download>, content: int -> Bytes, reliable: bool)
    requires Settles(a, b, content, reliable) && Settles(b, c, content, reliable)
    ensures Settles(a, c, content, reliable)
  {}

  lemma SettlesShrinks(a: map<int, Download>, b: map<int, Download>, content: int -> Bytes, reliable: bool)
    requires Settles(a, b, content, reliable)
    ensures Unfinished(b) <= Unfinished(a)
  {
    forall i | i in Unfinished(b) ensures i in Unfinished(a) {
      assert i in a && (!a[i].Pending? ==> b[i] == a[i]);
    }
  }

  lemma StrictlyFewer(a: set<int>, b: set<int>, x: int)
    requires b <= a && x in a && x !in b
    ensures |b| < |a|
  {
    assert b <= a - {x};
    Smaller(b, a - {x});
  }

  lemma Smaller(a: set<int>, b: set<int>)
    requires a <= b
    ensures |a| <= |b|
  {
    assert b == a + (b - a);
  }

  /** From `before`, blocks first to next - 1 were flushed; the rest are still held, and those that
      were done still are. */
  ghost predicate Flushed(before: map<int, Download>, first: nat, after: map<int, Download>, next: nat) {
    && first <= next
    && (forall i :: i in after <==> i in before && !(first <= i < next))
    && (forall i :: first <= i < next ==> i in before)
    && (forall i :: i in after && before[i].Done? ==> after[i].Done?)
  }

  lemma FlushedNext(before: map<int, Download>, first: nat, mid: map<int, Download>, next: nat, after: map<int, Download>)
    requires Flushed(before, first, mid, next) && next in mid && after.Keys == mid.Keys - {next}
    requires forall i :: i in after && mid[i].Done? ==> after[i].Done?
    ensures Flushed(before, first, after, next + 1)
  {
    forall i ensures i in after <==> i in before && !(first <= i < next + 1) {
      assert i in after.Keys <==> i in mid.Keys && i != next;
    }
  }

  // ---- One block and its retry ----------------------------------------------------------------

  /** How one attempt at a block ends, and how many bytes it reported before that. After an expired
      token a new one is fetched, which may fail in turn. */
  datatype Attempt =
    | Loaded(bytes: nat)
    | TokenExpired(bytes: nat)
    | TokenLost(bytes: nat)
    | Broken(bytes: nat)
    | Stopped(bytes: nat)

  datatype BlockResult = Got | GaveUp | Aborted | StillTrying

  /** The attempts up to the first that ends the block: a success, an abort, a token that could not be
      renewed, or the second failure that is not an expired token. */
  function Ends(attempts: seq<Attempt>, retried: bool): BlockResult {
    if attempts == [] then StillTrying else
      match attempts[0]
      case Loaded(_) => Got
      case Stopped(_) => Aborted
      case TokenLost(_) => GaveUp
      case TokenExpired(_) => Ends(attempts[1..], retried)
      case Broken(_) => if retried then GaveUp else Ends(attempts[1..], true)
  }

  function Failures(attempts: seq<Attempt>): nat {
    if attempts == [] then 0 else (if attempts[0].Broken? then 1 else 0) + Failures(attempts[1..])
  }

  /** A block is retried once, and any number of times for an expired token: after attempts of these
      two kinds the next one decides by itself, unless two failures came before it. */
  lemma {:induction false} RetriedOnce(before: seq<Attempt>, last: Attempt, retried: bool)
    requires forall i :: 0 <= i < |before| ==> before[i].TokenExpired? || before[i].Broken?
    ensures var failures := Failures(before) + if retried then 1 else 0;
      Ends(before + [last], retried)
        == if failures > 1 then GaveUp
           else match last
             case Loaded(_) => Got
             case Stopped(_) => Aborted
             case TokenLost(_) => GaveUp
             case TokenExpired(_) => StillTrying
             case Broken(_) => if failures == 1 then GaveUp else StillTrying
    decreases |before|
  {
    if before == [] {
      assert before + [last] == [last];
      assert [last][1..] == [];
    } else {
      assert (before + [last])[1..] == before[1..] + [last];
      if !(retried && before[0].Broken?) {
        RetriedOnce(before[1..], last, retried || before[0].Broken?);
      }
    }
  }

  /** The bytes reported for the block in the end: those of the attempt that succeeded, or those of
      an aborted attempt, which are not taken back. */
  method DownloadBlockData(attempts: seq<Attempt>) returns (r: BlockResult, reported: nat)
    ensures r == Ends(attempts, false)
    ensures r.GaveUp? || r.StillTrying? ==> reported == 0
    ensures r.Got? ==> exists i :: 0 <= i < |attempts| && attempts[i] == Loaded(reported)
    ensures r.Aborted? ==> exists i :: 0 <= i < |attempts| && attempts[i] == Stopped(reported)
  {
    reported := 0;
    var retries := 0;
    var i := 0;
    while i < |attempts|
      invariant 0 <= i <= |attempts| && retries <= 1 && reported == 0
      invariant Ends(attempts, false) == Ends(attempts[i..], retries == 1)
    {
      var attempt := attempts[i];
      assert attempts[i..][1..] == attempts[i + 1..];
      i := i + 1;
      var blockProgress := attempt.bytes;
      reported := reported + attempt.bytes;
      if attempt.Loaded? {
        return Got, reported;
      }
      if attempt.Stopped? {
        return Aborted, reported;
      }
      if blockProgress != 0 {
        reported := reported - blockProgress;
      }
      if attempt.TokenExpired? {
        continue;
      }
      if attempt.TokenLost? {
        return GaveUp, reported;
      }
      if retries == 0 {
        retries := retries + 1;
        continue;
      }
      return GaveUp, reported;
    }
    return StillTrying, reported;
  }

  // ---- The downloader -------------------------------------------------------------------------

  class FileDownloader {
    /** What each block decrypts to. */
    const content: int -> Bytes
    /** True when no block download and no repeated write fails. */
    const reliable: bool
    var nextBlockIndex: nat
    var ongoing: map<int, Download>
    /** The bytes the stream has accepted. */
    var output: Bytes
    /** The most entries held at once, and whether a capacity wait had nothing to wait for. */
    ghost var peak: nat
    ghost var starved: bool

    function Blocks(n: nat): Bytes {
      if n == 0 then [] else Blocks(n - 1) + content(n)
    }

    ghost predicate Valid()
      reads this
    {
      && nextBlockIndex >= 1 && output == Blocks(nextBlockIndex - 1)
      && (forall i :: i in ongoing && ongoing[i].Done? ==> ongoing[i].data == content(i))
      && (reliable ==> forall i :: i in ongoing ==> !ongoing[i].Failed?)
    }

    constructor (content: int -> Bytes, reliable: bool)
      ensures Valid() && ongoing == map[] && nextBlockIndex == 1 && output == []
      ensures this.content == content && this.reliable == reliable && peak == 0 && !starved
    {
      this.content, this.reliable := content, reliable;
      nextBlockIndex, ongoing, output, peak, starved := 1, map[], [], 0, false;
    }

    predicate IsNextBlockDownloaded()
      reads this
    {
      nextBlockIndex in ongoing && ongoing[nextBlockIndex].Done?
    }

    // ---- Awaiting -----------------------------------------------------------------------------

    /** Some await: any pending downloads settle, each either way. */
    method Await()
      requires Valid()
      modifies this`ongoing
      ensures Valid() && Settles(old(ongoing), ongoing, content, reliable)
    {
      var todo := ongoing.Keys;
      while todo != {}
        invariant todo <= ongoing.Keys && Valid() && Settles(old(ongoing), ongoing, content, reliable)
        decreases todo
      {
        ghost var some := Pick(todo);
        var i :| i in todo;
        todo := todo - {i};
        if ongoing[i].Pending? {
          if * {
            ongoing := ongoing[i := Done(content(i))];
          } else if * {
            if !reliable { ongoing := ongoing[i := Failed]; }
          }
        }
      }
    }

    /** The race over the unfinished downloads: rejected if one of them has failed, otherwise it ends
        when one settles, and is rejected if that one failed. */
    method Race() returns (ok: bool)
      requires Valid() && Unfinished(ongoing) != {}
      modifies this`ongoing
      ensures Valid() && Settles(old(ongoing), ongoing, content, reliable)
      ensures ok ==> |Unfinished(ongoing)| < |Unfinished(old(ongoing))|
      ensures reliable ==> ok
    {
      var failed := set i | i in ongoing && ongoing[i].Failed?;
      if failed != {} {
        ghost var f := Pick(failed);
        return false;
      }
      ghost var some := Pick(Unfinished(ongoing));
      var i :| i in Unfinished(ongoing);
      NoneFailed(ongoing, i);
      ok := true;
      if * { ok := reliable; }
      ongoing := ongoing[i := if ok then Done(content(i)) else Failed];
      ghost var first := ongoing;
      assert Settles(old(ongoing), first, content, reliable);
      Await();
      SettlesTwice(old(ongoing), first, ongoing, content, reliable);
      SettlesShrinks(old(ongoing), ongoing, content, reliable);
      if ok { StrictlyFewer(Unfinished(old(ongoing)), Unfinished(ongoing), i); }
    }

    static lemma NoneFailed(ongoing: map<int, Download>, i: int)
      requires i in Unfinished(ongoing) && (set j | j in ongoing && ongoing[j].Failed?) == {}
      ensures ongoing[i].Pending?
    {
      var failed := set j | j in ongoing && ongoing[j].Failed?;
      assert i !in failed;
    }

    /** Waits for every download; rejected as soon as one has failed. */
    method All() returns (ok: bool)
      requires Valid()
      modifies this`ongoing
      ensures Valid() && Settles(old(ongoing), ongoing, content, reliable)
      ensures ok ==> forall i :: i in ongoing ==> ongoing[i].Done?
      ensures reliable ==> ok
    {
      while Unfinished(ongoing) != {}
        invariant Valid() && Settles(old(ongoing), ongoing, content, reliable)
        decreases |Unfinished(ongoing)|
      {
        ghost var before := ongoing;
        ok := Race();
        SettlesTwice(old(ongoing), before, ongoing, content, reliable);
        if !ok { return; }
      }
      ok := true;
      forall i | i in ongoing ensures ongoing[i].Done? { NotUnfinished(ongoing, i); }
    }

    static lemma NotUnfinished(ongoing: map<int, Download>, i: int)
      requires i in ongoing && Unfinished(ongoing) == {}
      ensures ongoing[i].Done?
    {
      assert i !in Unfinished(ongoing);
    }

    /** One write to the stream: all of the chunk or nothing, while downloads go on. */
    method Write(chunk: Bytes, again: bool) returns (ok: bool)
      requires Valid()
      modifies this`ongoing, this`output
      ensures output == if ok then old(output) + chunk else old(output)
      ensures Settles(old(ongoing), ongoing, content, reliable)
      ensures forall i :: i in ongoing && ongoing[i].Done? ==> ongoing[i].data == content(i)
      ensures reliable ==> forall i :: i in ongoing ==> !ongoing[i].Failed?
      ensures reliable && again ==> ok
    {
      Await();
      ok := true;
      if * { ok := reliable && again; }
      if ok { output := output + chunk; }
    }

    // ---- The download -------------------------------------------------------------------------

    /** Waits until the next block is there if the limit is reached. */
    method WaitForDownloadCapacity() returns (ok: bool)
      requires Valid()
      modifies this`ongoing, this`starved
      ensures Valid() && Settles(old(ongoing), ongoing, content, reliable)
      ensures ok && |ongoing| >= MAX_CONCURRENT_DOWNLOAD_BLOCKS && nextBlockIndex in ongoing ==> IsNextBlockDownloaded()
      ensures nextBlockIndex in ongoing ==> starved == old(starved)
      ensures |old(ongoing)| < 10 ==> ok && ongoing == old(ongoing)
      ensures reliable ==> ok
    {
      ok := true;
      if |ongoing| >= MAX_CONCURRENT_DOWNLOAD_BLOCKS {
        while !IsNextBlockDownloaded()
          invariant Valid() && Settles(old(ongoing), ongoing, content, reliable)
          invariant ok && starved == old(starved)
          decreases |Unfinished(ongoing)|
        {
          if Unfinished(ongoing) == {} {
            if nextBlockIndex in ongoing { NotUnfinished(ongoing, nextBlockIndex); }
            starved := true;
            break;
          }
          ghost var before := ongoing;
          ok := Race();
          SettlesTwice(old(ongoing), before, ongoing, content, reliable);
          if !ok { return; }
        }
      }
    }

    /** Writes the next block, trying twice at most, and moves on. */
    method WriteNext() returns (ok: bool)
      requires Valid() && IsNextBlockDownloaded()
      modifies this`ongoing, this`output, this`nextBlockIndex
      ensures Valid() && (reliable ==> ok)
      ensures nextBlockIndex == if ok then old(nextBlockIndex) + 1 else old(nextBlockIndex)
      ensures ongoing.Keys == if ok then old(ongoing.Keys) - {old(nextBlockIndex)} else old(ongoing.Keys)
      ensures forall i :: i in ongoing && old(ongoing)[i].Done? ==> ongoing[i].Done?
    {
      hide Settles;
      var decryptedBlock := ongoing[nextBlockIndex].data;
      ghost var before := ongoing;
      ok := Write(decryptedBlock, false);
      ghost var once := ongoing;
      KeepsDone(before, once, content, reliable);
      if !ok {
        ok := Write(decryptedBlock, true);
        KeepsDone(once, ongoing, content, reliable);
        if !ok { return; }
      }
      ongoing := ongoing - {nextBlockIndex};
      nextBlockIndex := nextBlockIndex + 1;
    }

    static lemma KeepsDone(a: map<int, Download>, b: map<int, Download>, content: int -> Bytes, reliable: bool)
      requires Settles(a, b, content, reliable)
      ensures a.Keys == b.Keys && forall i :: i in a && a[i].Done? ==> b[i] == a[i]
    {}

    /** Writes the blocks that are next in line. */
    method FlushCompletedBlocks() returns (ok: bool)
      requires Valid()
      modifies this`ongoing, this`output, this`nextBlockIndex
      ensures Valid() && (reliable ==> ok)
      ensures Flushed(old(ongoing), old(nextBlockIndex), ongoing, nextBlockIndex)
      ensures ok ==> !IsNextBlockDownloaded()
      ensures ok && old(IsNextBlockDownloaded()) ==> nextBlockIndex > old(nextBlockIndex)
    {
      hide Valid, Flushed;
      FlushedNone(ongoing, nextBlockIndex);
      while IsNextBlockDownloaded()
        invariant Valid() && nextBlockIndex >= old(nextBlockIndex)
        invariant Flushed(old(ongoing), old(nextBlockIndex), ongoing, nextBlockIndex)
        invariant nextBlockIndex == old(nextBlockIndex) ==> ongoing == old(ongoing)
        decreases ongoing.Keys
      {
        ghost var held := ongoing;
        ok := WriteNext();
        if !ok {
          FlushedSame(old(ongoing), old(nextBlockIndex), held, nextBlockIndex, ongoing);
          return;
        }
        FlushedNext(old(ongoing), old(nextBlockIndex), held, nextBlockIndex - 1, ongoing);
        assert nextBlockIndex - 1 in held.Keys;
      }
      ok := true;
    }

    static lemma FlushedNone(ongoing: map<int, Download>, next: nat)
      ensures Flushed(ongoing, next, ongoing, next)
    {}

    static lemma FlushedSame(before: map<int, Download>, first: nat, mid: map<int, Download>, next: nat, after: map<int, Download>)
      requires Flushed(before, first, mid, next) && after.Keys == mid.Keys
      requires forall i :: i in after && mid[i].Done? ==> after[i].Done?
      ensures Flushed(before, first, after, next)
    {
      forall i ensures i in after <==> i in mid {
        assert i in after.Keys <==> i in mid.Keys;
      }
    }

    /** Starts the download of a listed block, waits for room, and writes what is ready. */
    method AddBlock(index: int) returns (ok: bool)
      requires Valid() && index !in ongoing
      modifies this`ongoing, this`output, this`nextBlockIndex, this`peak, this`starved
      ensures Valid() && (reliable ==> ok)
      ensures ok ==> Added(old(ongoing), old(nextBlockIndex), index, ongoing, nextBlockIndex)
      ensures peak == if old(peak) > |old(ongoing)| + 1 then old(peak) else |old(ongoing)| + 1
      ensures old(nextBlockIndex) in old(ongoing) || old(nextBlockIndex) == index ==>
        starved == old(starved)
      ensures ok && |old(ongoing)| + 1 >= MAX_CONCURRENT_DOWNLOAD_BLOCKS
              && (old(nextBlockIndex) in old(ongoing) || old(nextBlockIndex) == index) ==>
        nextBlockIndex > old(nextBlockIndex)
    {
      hide Valid, Settles, Added, Flushed;
      StartBlock(index);
      ghost var listed := ongoing;
      ok := WaitForDownloadCapacity();
      if !ok { return; }
      ghost var ready := ongoing;
      SettlesKeys(listed, ready, content, reliable);
      ok := FlushCompletedBlocks();
      AddedAfter(old(ongoing), old(nextBlockIndex), index, ready, ongoing, nextBlockIndex);
    }

    method StartBlock(index: int)
      requires Valid() && index !in ongoing
      modifies this`ongoing, this`peak
      ensures Valid()
      ensures ongoing == old(ongoing)[index := Pending]
      ensures ongoing.Keys == old(ongoing.Keys) + {index} && |ongoing| == |old(ongoing)| + 1
      ensures peak == if old(peak) > |old(ongoing)| + 1 then old(peak) else |old(ongoing)| + 1
    {
      hide Blocks;
      OneMore(ongoing, index);
      ghost var before := ongoing;
      ongoing := ongoing[index := Pending];
      assert forall i :: i in ongoing ==> i == index || (i in before && ongoing[i] == before[i]);
      if |ongoing| > peak { peak := |ongoing|; }
    }

    static lemma OneMore(ongoing: map<int, Download>, index: int)
      requires index !in ongoing
      ensures ongoing[index := Pending].Keys == ongoing.Keys + {index} && |ongoing[index := Pending]| == |ongoing| + 1
    {
      assert |ongoing| == |ongoing.Keys|;
    }

    static lemma SettlesKeys(a: map<int, Download>, b: map<int, Download>, content: int -> Bytes, reliable: bool)
      requires Settles(a, b, content, reliable)
      ensures |a| == |b| && a.Keys == b.Keys
    {
      assert |a| == |a.Keys| && |b| == |b.Keys|;
    }

    /** The loop over the listing: starts every listed block, with room for it and the ready ones
        written on the way. */
    method ListBlocks(listing: seq<Listed>) returns (ok: bool)
      requires Valid() && ongoing == map[] && nextBlockIndex == 1 && peak == 0 && !starved
      requires Distinct(Indices(listing))
      modifies this`ongoing, this`output, this`nextBlockIndex, this`peak, this`starved
      ensures Valid() && (reliable ==> ok)
      ensures ok ==> Held(ongoing, SetOf(Indices(listing)), nextBlockIndex)
      ensures ok && InOrder(Indices(listing)) ==> IsUpTo(SetOf(Indices(listing)), |Indices(listing)|)
      ensures InOrder(Indices(listing)) ==> peak <= MAX_CONCURRENT_DOWNLOAD_BLOCKS && !starved
    {
      hide Valid, Held, Distinct, InOrder, IsUpTo, Indices, Flushed, Added, Settles, SetOf, Range;
      ghost var all := Indices(listing);
      ghost var seen: seq<int> := [];
      Nothing(ongoing, listing);
      NextPositive();
      var k := 0;
      while k < |listing|
        invariant 0 <= k <= |listing| && Valid() && seen == Indices(listing[..k])
        invariant Held(ongoing, SetOf(seen), nextBlockIndex)
        invariant InOrder(all) ==> IsUpTo(SetOf(seen), |seen|) && !starved && peak <= MAX_CONCURRENT_DOWNLOAD_BLOCKS
        invariant InOrder(all) ==> |ongoing| < MAX_CONCURRENT_DOWNLOAD_BLOCKS
      {
        IndicesNext(listing, k);
        if listing[k].Content? {
          NextIndex(listing, k);
          ok := ListBlock(listing[k].index, seen, InOrder(all));
          if !ok { return; }
        }
        assert seen + [] == seen;
        seen := Indices(listing[..k + 1]);
        k := k + 1;
      }
      assert listing[..k] == listing;
      ok := true;
    }

    /** One listed block, after those in `seen`. */
    method ListBlock(index: int, ghost seen: seq<int>, ghost inOrder: bool) returns (ok: bool)
      requires Valid() && index !in SetOf(seen) && Held(ongoing, SetOf(seen), nextBlockIndex)
      requires inOrder ==> index == |seen| + 1 && IsUpTo(SetOf(seen), |seen|) && !starved
      requires inOrder ==> peak <= MAX_CONCURRENT_DOWNLOAD_BLOCKS && |ongoing| < MAX_CONCURRENT_DOWNLOAD_BLOCKS
      modifies this`ongoing, this`output, this`nextBlockIndex, this`peak, this`starved
      ensures Valid() && (reliable ==> ok)
      ensures ok ==> Held(ongoing, SetOf(seen) + {index}, nextBlockIndex)
      ensures inOrder ==> peak <= MAX_CONCURRENT_DOWNLOAD_BLOCKS && !starved
      ensures inOrder && ok ==> |ongoing| < MAX_CONCURRENT_DOWNLOAD_BLOCKS && IsUpTo(SetOf(seen) + {index}, |seen| + 1)
    {
      hide Valid, Held, IsUpTo, Flushed, Added, Settles, SetOf, Range;
      NextPositive();
      NotHeld(ongoing, SetOf(seen), nextBlockIndex, index);
      ghost var held, next := ongoing, nextBlockIndex;
      if inOrder { HeldInOrder(held, SetOf(seen), next, |seen|); }
      ok := AddBlock(index);
      if !ok { return; }
      NextPositive();
      HeldNext(held, SetOf(seen), next, index, ongoing, nextBlockIndex);
      if inOrder { RoomKept(held, SetOf(seen), next, |seen|, ongoing, nextBlockIndex); }
    }

    lemma NextPositive()
      requires Valid()
      ensures nextBlockIndex >= 1
    {}

    /** Once everything is listed: waits for the rest and writes it. */
    method Finish(ghost listed: seq<int>, manifestOk: bool) returns (r: Result)
      requires Valid() && Held(ongoing, SetOf(listed), nextBlockIndex)
      modifies this`ongoing, this`output, this`nextBlockIndex
      ensures Valid()
      ensures r.Success? || r.BadManifest? ==> IsUpTo(SetOf(listed), nextBlockIndex - 1) && ongoing == map[]
      ensures r.MissingBlocks? ==> forall n: nat :: !IsUpTo(SetOf(listed), n)
      ensures reliable ==> !r.Failure?
      ensures r.Success? ==> manifestOk
      ensures r.BadManifest? ==> !manifestOk
    {
      hide Valid, Held, IsUpTo, Flushed, Settles, SetOf, Range;
      NextPositive();
      ghost var before := ongoing;
      var ok := All();
      if !ok {
        return Failure;
      }
      HeldSettled(before, SetOf(listed), nextBlockIndex, ongoing, content, reliable);
      ghost var ready, next := ongoing, nextBlockIndex;
      ok := FlushCompletedBlocks();
      if !ok {
        return Failure;
      }
      NextPositive();
      HeldFlushed(ready, SetOf(listed), next, ongoing, nextBlockIndex);
      NextGone(ready, next, ongoing, nextBlockIndex);
      NothingHeld(ongoing, SetOf(listed), nextBlockIndex);
      if |ongoing| > 0 {
        return MissingBlocks;
      }
      if !manifestOk {
        return BadManifest;
      }
      return Success;
    }

    /** MAIN RESULT: whatever completes or fails in whatever order, the stream has received blocks 1
        to nextBlockIndex - 1 in order and nothing else, and success means that these are all the
        listed blocks. Blocks listed in order can never end as missing, at most ten are held, and the
        wait for capacity always has something to wait for. */
    method DownloadToStream(listing: seq<Listed>, listingFails: bool, manifestOk: bool) returns (r: Result)
      requires Valid() && ongoing == map[] && nextBlockIndex == 1 && output == [] && peak == 0 && !starved
      requires Distinct(Indices(listing))
      modifies this`ongoing, this`output, this`nextBlockIndex, this`peak, this`starved
      ensures Valid()
      ensures r.Success? || r.BadManifest? ==> IsUpTo(SetOf(Indices(listing)), nextBlockIndex - 1) && ongoing == map[]
      ensures r.MissingBlocks? ==> forall n: nat :: !IsUpTo(SetOf(Indices(listing)), n)
      ensures InOrder(Indices(listing)) ==> !r.MissingBlocks? && peak <= 10 && !starved
      ensures reliable && !listingFails ==> !r.Failure?
      ensures r.Success? ==> manifestOk && !listingFails
      ensures r.BadManifest? ==> !manifestOk
    {
      hide Valid, Held, Distinct, InOrder, IsUpTo, Indices, Flushed, Added, Settles, SetOf, Range;
      var ok := ListBlocks(listing);
      if !ok || listingFails {
        return Failure;
      }
      r := Finish(Indices(listing), manifestOk);
    }

    static lemma Nothing(ongoing: map<int, Download>, listing: seq<Listed>)
      requires ongoing == map[]
      ensures Indices(listing[..0]) == [] && SetOf([]) == {} && Held(ongoing, {}, 1) && IsUpTo({}, 0)
    {}

    static lemma NotHeld(ongoing: map<int, Download>, listed: set<int>, next: nat, index: int)
      requires Held(ongoing, listed, next) && index !in listed
      ensures index !in ongoing
    {}

    static lemma HeldSettled(before: map<int, Download>, listed: set<int>, next: nat, after: map<int, Download>,
                             content: int -> Bytes, reliable: bool)
      requires Held(before, listed, next) && Settles(before, after, content, reliable)
      ensures Held(after, listed, next)
    {
      SettlesKeys(before, after, content, reliable);
      forall i ensures i in after <==> i in before { assert i in after.Keys <==> i in before.Keys; }
    }

    /** All were done and the next is not there to write, so it is not held at all. */
    static lemma NextGone(ready: map<int, Download>, first: nat, after: map<int, Download>, next: nat)
      requires (forall i :: i in ready ==> ready[i].Done?) && Flushed(ready, first, after, next)
      requires !(next in after && after[next].Done?)
      ensures next !in after
    {}
  }
}
