/** The memory-mapped sidecar files, published one by one and read one by one. */
module Sidecar {
  // A writer renames three files, matrix first and metadata last, and readers in other processes
  // open them, metadata first. Main results: under any interleaving and any crash between renames,
  // what a reader accepts has columns of equal length and a matrix and uid file no older than its
  // metadata; if no two generations have the same number of rows, it is one generation. The uid
  // column's fixed-width encoding gives the uids back exactly when they fit and do not end in a zero
  // byte.

  import opened Wrappers

  // ---- The uid column -------------------------------------------------------------------------

  type Byte = n: int | 0 <= n < 256

  /** A uid: how many characters it has, and its UTF-8 bytes. */
  datatype Uid = Uid(chars: nat, bytes: seq<Byte>)

  function MaxChars(uids: seq<Uid>): (m: nat)
    ensures forall i :: 0 <= i < |uids| ==> uids[i].chars <= m
    ensures m == 0 || exists i :: 0 <= i < |uids| && uids[i].chars == m
  {
    if uids == [] then 0 else
      var front, last := uids[..|uids| - 1], uids[|uids| - 1];
      var m := MaxChars(front);
      assert forall i :: 0 <= i < |front| ==> uids[i] == front[i];
      if last.chars > m then last.chars else m
  }

  function ZeroBytes(n: nat): (b: seq<Byte>)
    ensures |b| == n && forall i :: 0 <= i < n ==> b[i] == 0
  {
    seq(n, _ => 0)
  }

  /** The row loses its trailing zeros when it is decoded. */
  function Stripped(row: seq<Byte>): (r: seq<Byte>)
    ensures |r| <= |row| && r == row[..|r|]
    ensures r != [] ==> r[|r| - 1] != 0
    ensures forall i :: |r| <= i < |row| ==> row[i] == 0
  {
    if row != [] && row[|row| - 1] == 0 then Stripped(row[..|row| - 1]) else row
  }

  predicate Padded(bytes: seq<Byte>, row: seq<Byte>, width: nat) {
    |bytes| <= width && row == bytes + ZeroBytes(width - |bytes|)
  }

  /** Rows of one width, the most characters any uid has plus one; None if the bytes of a uid are
      more than that. */
  method EncodeUids(uids: seq<Uid>) returns (rows: Option<seq<seq<Byte>>>)
    ensures rows.Some? <==> forall i :: 0 <= i < |uids| ==> |uids[i].bytes| <= MaxChars(uids) + 1
    ensures rows.Some? ==> |rows.value| == |uids|
    ensures rows.Some? ==> forall i :: 0 <= i < |uids| ==> Padded(uids[i].bytes, rows.value[i], MaxChars(uids) + 1)
    ensures Encodes(uids, rows)
  {
    var width := MaxChars(uids) + 1;
    var out: seq<seq<Byte>> := [];
    var i := 0;
    while i < |uids|
      invariant 0 <= i <= |uids| && |out| == i
      invariant forall k :: 0 <= k < i ==> Padded(uids[k].bytes, out[k], width)
    {
      if |uids[i].bytes| > width { return None; }
      out := out + [uids[i].bytes + ZeroBytes(width - |uids[i].bytes|)];
      i := i + 1;
    }
    return Some(out);
  }

  /** A padded row decodes to the uid exactly when the uid does not end in a zero byte. */
  lemma RowDecodes(bytes: seq<Byte>, pad: nat)
    ensures Stripped(bytes + ZeroBytes(pad)) == bytes <==> (bytes == [] || bytes[|bytes| - 1] != 0)
  {
    hide Stripped;
    var row := bytes + ZeroBytes(pad);
    var r := Stripped(row);
    assert bytes != [] ==> row[|bytes| - 1] == bytes[|bytes| - 1];
    assert r != [] ==> r[|r| - 1] == row[|r| - 1];
    assert row[..|bytes|] == bytes;
  }

  /** Uids whose characters are all single bytes always fit. */
  lemma AsciiFits(uids: seq<Uid>)
    requires forall i :: 0 <= i < |uids| ==> |uids[i].bytes| == uids[i].chars
    ensures forall i :: 0 <= i < |uids| ==> |uids[i].bytes| <= MaxChars(uids) + 1
  {}

  /** What EncodeUids makes of a column. */
  ghost predicate Encodes(uids: seq<Uid>, rows: Option<seq<seq<Byte>>>) {
    && (rows.Some? <==> forall i :: 0 <= i < |uids| ==> |uids[i].bytes| <= MaxChars(uids) + 1)
    && (rows.Some? ==> |rows.value| == |uids|
                       && forall i :: 0 <= i < |uids| ==> Padded(uids[i].bytes, rows.value[i], MaxChars(uids) + 1))
  }

  /** So a column of such uids without zero bytes is always written, and reads back as it was. */
  lemma AsciiRoundTrip(uids: seq<Uid>, rows: Option<seq<seq<Byte>>>)
    requires Encodes(uids, rows)
    requires forall i :: 0 <= i < |uids| ==> |uids[i].bytes| == uids[i].chars && 0 !in uids[i].bytes
    ensures rows.Some? && |rows.value| == |uids|
    ensures forall i :: 0 <= i < |uids| ==> Stripped(rows.value[i]) == uids[i].bytes
  {
    hide Stripped, MaxChars;
    AsciiFits(uids);
    forall i | 0 <= i < |uids| ensures Stripped(rows.value[i]) == uids[i].bytes {
      var bytes := uids[i].bytes;
      RowDecodes(bytes, MaxChars(uids) + 1 - |bytes|);
      if bytes != [] { assert bytes[|bytes| - 1] in bytes; }
    }
  }

  // ---- Publishing -----------------------------------------------------------------------------

  /** What one generation writes: four columns over the same rows. */
  datatype Snapshot = Snapshot(ids: seq<int>, uids: seq<seq<Byte>>, personIds: seq<Option<int>>, mat: seq<seq<real>>)

  predicate Even(s: Snapshot) {
    |s.ids| == |s.uids| == |s.personIds| == |s.mat|
  }

  /** Which generation each file is from, if it is there at all. */
  datatype Disk = Disk(meta: Option<nat>, mat: Option<nat>, uids: Option<nat>)

  predicate AtMost(a: Option<nat>, b: Option<nat>) {
    a.Some? ==> b.Some? && a.value <= b.value
  }

  /** The files on disk, the generation being written, and how many of its renames are done. */
  datatype Publisher = Publisher(disk: Disk, gen: nat, renamed: nat)

  datatype Step = Rename | NewGeneration

  predicate Enabled(p: Publisher, s: Step) {
    s.Rename? ==> p.renamed < 3
  }

  /** A new generation begins after a finished one, or after a crash anywhere in one. */
  function Next(p: Publisher, s: Step): Publisher
    requires Enabled(p, s)
  {
    match s
    case Rename =>
      var g := Some(p.gen);
      var disk := if p.renamed == 0 then p.disk.(mat := g)
                  else if p.renamed == 1 then p.disk.(uids := g)
                  else p.disk.(meta := g);
      Publisher(disk, p.gen, p.renamed + 1)
    case NewGeneration => Publisher(p.disk, p.gen + 1, 0)
  }

  ghost predicate Inv(p: Publisher) {
    && AtMost(p.disk.meta, p.disk.uids) && AtMost(p.disk.uids, p.disk.mat)
    && AtMost(p.disk.mat, Some(p.gen)) && p.renamed <= 3
    && (p.renamed >= 1 ==> p.disk.mat == Some(p.gen))
    && (p.renamed >= 2 ==> p.disk.uids == Some(p.gen))
    && (p.renamed >= 3 ==> p.disk.meta == Some(p.gen))
  }

  /** Files only ever get newer. */
  predicate Evolves(a: Disk, b: Disk) {
    AtMost(a.meta, b.meta) && AtMost(a.mat, b.mat) && AtMost(a.uids, b.uids)
  }

  lemma StepKeeps(p: Publisher, s: Step)
    requires Inv(p) && Enabled(p, s)
    ensures Inv(Next(p, s)) && Evolves(p.disk, Next(p, s).disk)
  {}

  ghost predicate Run(p: Publisher, steps: seq<Step>)
    decreases |steps|
  {
    steps == [] || (Enabled(p, steps[0]) && Run(Next(p, steps[0]), steps[1..]))
  }

  /** The disk after the first k steps. */
  ghost function DiskAt(p: Publisher, steps: seq<Step>, k: nat): Disk
    requires Run(p, steps) && k <= |steps|
    decreases |steps|
  {
    if k == 0 then p.disk else DiskAt(Next(p, steps[0]), steps[1..], k - 1)
  }

  /** Metadata is never newer than the uid file, nor that than the matrix. */
  ghost predicate OrderedDisk(d: Disk) {
    AtMost(d.meta, d.uids) && AtMost(d.uids, d.mat)
  }

  lemma {:induction false} RunOrdered(p: Publisher, steps: seq<Step>, k: nat)
    requires Inv(p) && Run(p, steps) && k <= |steps|
    ensures OrderedDisk(DiskAt(p, steps, k)) && Evolves(p.disk, DiskAt(p, steps, k))
    decreases |steps|
  {
    hide Next;
    if k > 0 {
      StepKeeps(p, steps[0]);
      RunOrdered(Next(p, steps[0]), steps[1..], k - 1);
    }
  }

  lemma {:induction false} RunEvolves(p: Publisher, steps: seq<Step>, j: nat, k: nat)
    requires Inv(p) && Run(p, steps) && j <= k <= |steps|
    ensures Evolves(DiskAt(p, steps, j), DiskAt(p, steps, k))
    decreases |steps|
  {
    hide Next, Evolves, Inv;
    if j == 0 {
      RunOrdered(p, steps, k);
    } else {
      StepKeeps(p, steps[0]);
      RunEvolves(Next(p, steps[0]), steps[1..], j - 1, k - 1);
    }
  }

  // ---- Reading --------------------------------------------------------------------------------

  /** The generations a reader has in hand. */
  datatype Read = Read(meta: nat, mat: nat, uids: nat)

  /** One read whose opens meet the disk in these states: the metadata is read, then both other
      files must exist, then the matrix and the uid file are opened; unequal lengths are refused. */
  function Opened(gens: seq<Snapshot>, atMeta: Disk, atCheck: Disk, atMat: Disk, atUids: Disk): Option<Read> {
    if atMeta.meta.None? || atMeta.meta.value >= |gens| then None
    else if atCheck.mat.None? || atCheck.uids.None? then None
    else if atMat.mat.None? || atUids.uids.None? || atMat.mat.value >= |gens| || atUids.uids.value >= |gens| then None
    else
      var r := Read(atMeta.meta.value, atMat.mat.value, atUids.uids.value);
      var n := |gens[r.mat].mat|;
      if |gens[r.meta].ids| != n || |gens[r.meta].personIds| != n || |gens[r.uids].uids| != n then None else Some(r)
  }

  /** No two generations have the same number of rows. */
  ghost predicate DistinctSizes(gens: seq<Snapshot>) {
    forall a, b :: 0 <= a < b < |gens| ==> |gens[a].ids| != |gens[b].ids|
  }

  /** Four columns of equal length and nothing older than the metadata; one generation, if sizes are
      distinct. */
  ghost predicate Consistent(gens: seq<Snapshot>, r: Read) {
    && r.meta <= r.mat < |gens| && r.meta <= r.uids < |gens|
    && |gens[r.meta].ids| == |gens[r.meta].personIds| == |gens[r.mat].mat| == |gens[r.uids].uids|
    && (DistinctSizes(gens) ==> r.meta == r.mat == r.uids)
  }

  /** The disk states in which a read's four accesses happen, at increasing points of a run. */
  ghost predicate InOrder(p: Publisher, steps: seq<Step>, i: nat, j: nat, k: nat, l: nat) {
    Inv(p) && Run(p, steps) && i <= j <= k <= l <= |steps|
  }

  /** MAIN RESULT: whatever the writer does between the opens, crashes included, an accepted read is
      consistent. */
  lemma AcceptedRead(p: Publisher, steps: seq<Step>, gens: seq<Snapshot>, i: nat, j: nat, k: nat, l: nat)
    requires InOrder(p, steps, i, j, k, l) && forall g :: 0 <= g < |gens| ==> Even(gens[g])
    ensures var r := Opened(gens, DiskAt(p, steps, i), DiskAt(p, steps, j), DiskAt(p, steps, k), DiskAt(p, steps, l));
      r.Some? ==> Consistent(gens, r.value)
  {
    hide Inv, Run, DiskAt;
    RunOrdered(p, steps, i);
    RunEvolves(p, steps, i, k);
    RunEvolves(p, steps, i, l);
    var r := Opened(gens, DiskAt(p, steps, i), DiskAt(p, steps, j), DiskAt(p, steps, k), DiskAt(p, steps, l));
    if r.Some? {
      assert Even(gens[r.value.meta]) && Even(gens[r.value.mat]) && Even(gens[r.value.uids]);
    }
  }

  /** A reading process: what it has mapped, and when. */
  class FaceReader {
    const gens: seq<Snapshot>
    var mapped: Option<Read>
    var mappedAt: real

    ghost predicate Valid()
      reads this
    {
      && (forall g :: 0 <= g < |gens| ==> Even(gens[g]))
      && (mapped.Some? ==> Consistent(gens, mapped.value))
    }

    constructor (gens: seq<Snapshot>)
      requires forall g :: 0 <= g < |gens| ==> Even(gens[g])
      ensures Valid() && mapped == None && mappedAt == 0.0 && this.gens == gens
    {
      this.gens, mapped, mappedAt := gens, None, 0.0;
    }

    /** Serves what was mapped less than two minutes ago, otherwise opens the files again. */
    method ReadFaceSidecar(now: real, ghost p: Publisher, ghost steps: seq<Step>, ghost i: nat, ghost j: nat, ghost k: nat,
                           ghost l: nat, atMeta: Disk, atCheck: Disk, atMat: Disk, atUids: Disk) returns (r: Option<Read>)
      requires Valid() && InOrder(p, steps, i, j, k, l)
      requires atMeta == DiskAt(p, steps, i) && atCheck == DiskAt(p, steps, j)
      requires atMat == DiskAt(p, steps, k) && atUids == DiskAt(p, steps, l)
      modifies this`mapped, this`mappedAt
      ensures Valid() && r == mapped && (r.Some? ==> Consistent(gens, r.value))
      ensures r == if old(mapped).Some? && now - old(mappedAt) < 120.0 then old(mapped)
                   else Opened(gens, atMeta, atCheck, atMat, atUids)
      ensures mappedAt == if old(mapped).Some? && now - old(mappedAt) < 120.0 then old(mappedAt)
                          else if r.Some? then now else 0.0
    {
      hide Consistent, InOrder;
      if mapped.Some? && now - mappedAt < 120.0 {
        return mapped;
      }
      AcceptedRead(p, steps, gens, i, j, k, l);
      mapped, mappedAt := None, 0.0;
      if atMeta.meta.None? || atMeta.meta.value >= |gens| { return None; }
      if atCheck.mat.None? || atCheck.uids.None? { return None; }
      if atMat.mat.None? || atUids.uids.None? || atMat.mat.value >= |gens| || atUids.uids.value >= |gens| { return None; }
      var meta, mat, uids := gens[atMeta.meta.value], gens[atMat.mat.value].mat, gens[atUids.uids.value].uids;
      var n := |mat|;
      if |meta.ids| != n || |meta.personIds| != n || |uids| != n {
        return None;
      }
      mapped, mappedAt := Some(Read(atMeta.meta.value, atMat.mat.value, atUids.uids.value)), now;
      return mapped;
    }

    method Invalidate()
      requires Valid()
      modifies this`mapped, this`mappedAt
      ensures Valid() && mapped == None && mappedAt == 0.0
    {
      mapped, mappedAt := None, 0.0;
    }
  }

  /** A read that meets no rename accepts the generation that was published completely. */
  lemma QuietRead(p: Publisher, gens: seq<Snapshot>)
    requires Inv(p) && p.renamed == 3 && p.gen < |gens| && Even(gens[p.gen])
    ensures Opened(gens, p.disk, p.disk, p.disk, p.disk) == Some(Read(p.gen, p.gen, p.gen))
  {}

  /** What a writer that starts on an empty disk and skips generations can do. */
  function Start(): Publisher {
    Publisher(Disk(None, None, None), 0, 0)
  }

  ghost function After(p: Publisher, steps: seq<Step>): Publisher
    requires Run(p, steps)
    decreases |steps|
  {
    if steps == [] then p else After(Next(p, steps[0]), steps[1..])
  }

  lemma {:induction false} RunJoin(p: Publisher, xs: seq<Step>, ys: seq<Step>)
    requires Run(p, xs) && Run(After(p, xs), ys)
    ensures Run(p, xs + ys) && After(p, xs + ys) == After(After(p, xs), ys)
    ensures DiskAt(p, xs + ys, |xs|) == After(p, xs).disk
    ensures DiskAt(p, xs + ys, |xs + ys|) == After(After(p, xs), ys).disk
    decreases |xs|
  {
    hide Next, Enabled;
    if xs == [] {
      assert xs + ys == ys;
      DiskAtEnd(p, ys);
    } else {
      assert (xs + ys)[1..] == xs[1..] + ys;
      RunJoin(Next(p, xs[0]), xs[1..], ys);
    }
  }

  lemma {:induction false} DiskAtEnd(p: Publisher, steps: seq<Step>)
    requires Run(p, steps)
    ensures DiskAt(p, steps, |steps|) == After(p, steps).disk
    decreases |steps|
  {
    hide Next, Enabled;
    if steps != [] { DiskAtEnd(Next(p, steps[0]), steps[1..]); }
  }

  /** Generations given up before their first rename. */
  function Skips(n: nat): (steps: seq<Step>)
    ensures |steps| == n
  {
    seq(n, _ => NewGeneration)
  }

  lemma {:induction false} SkipsRun(p: Publisher, n: nat)
    ensures Run(p, Skips(n))
    ensures After(p, Skips(n)) == if n == 0 then p else Publisher(p.disk, p.gen + n, 0)
    decreases n
  {
    if n > 0 {
      assert Skips(n)[1..] == Skips(n - 1);
      SkipsRun(Next(p, NewGeneration), n - 1);
    }
  }

  lemma PublishRuns(p: Publisher)
    requires p.renamed == 0
    ensures Run(p, [Rename, Rename]) && After(p, [Rename, Rename]).disk == p.disk.(mat := Some(p.gen), uids := Some(p.gen))
    ensures Run(p, [Rename, Rename, Rename])
    ensures After(p, [Rename, Rename, Rename]) == Publisher(Disk(Some(p.gen), Some(p.gen), Some(p.gen)), p.gen, 3)
  {
    var one := Next(p, Rename);
    var two := Next(one, Rename);
    var three := Next(two, Rename);
    var none: seq<Step> := [];
    assert Run(two, none) && After(two, none) == two && Run(three, none) && After(three, none) == three;
    assert [Rename][1..] == none && [Rename, Rename][1..] == [Rename] && [Rename, Rename, Rename][1..] == [Rename, Rename];
    assert Run(one, [Rename]) && After(one, [Rename]) == two;
    assert Run(two, [Rename]) && After(two, [Rename]) == three;
    assert Run(one, [Rename, Rename]) && After(one, [Rename, Rename]) == three;
  }

  /** A run in which a reader accepts files of different generations. */
  ghost predicate Mixes(gens: seq<Snapshot>, steps: seq<Step>, i: nat, j: nat, k: nat, l: nat) {
    && InOrder(Start(), steps, i, j, k, l)
    && var r := Opened(gens, DiskAt(Start(), steps, i), DiskAt(Start(), steps, j), DiskAt(Start(), steps, k),
                       DiskAt(Start(), steps, l));
       r.Some? && !(r.value.meta == r.value.mat == r.value.uids)
  }

  /** Publish generation a, then b up to its second rename: metadata of a, matrix and uids of b. */
  lemma SameSizeRun(gens: seq<Snapshot>, a: nat, b: nat)
    requires a < b < |gens| && Even(gens[a]) && Even(gens[b]) && |gens[a].ids| == |gens[b].ids|
    ensures exists steps, i: nat, k: nat :: Mixes(gens, steps, i, i, k, k)
  {
    hide Next;
    var published := Publisher(Disk(Some(a), Some(a), Some(a)), a, 3);
    var first := Skips(a) + [Rename, Rename, Rename];
    SkipsRun(Start(), a);
    PublishRuns(Publisher(Start().disk, a, 0));
    RunJoin(Start(), Skips(a), [Rename, Rename, Rename]);
    var second := Skips(b - a) + [Rename, Rename];
    SkipsRun(published, b - a);
    PublishRuns(Publisher(published.disk, b, 0));
    RunJoin(published, Skips(b - a), [Rename, Rename]);
    RunJoin(Start(), first, second);
    assert Mixes(gens, first + second, |first|, |first|, |first + second|, |first + second|);
  }

  /** MAIN RESULT: different row counts are exactly what keeps reads to one generation: some run has
      an accepted read that mixes generations if and only if two of them have the same number of rows. */
  lemma SameSizeMixes(gens: seq<Snapshot>)
    requires forall g :: 0 <= g < |gens| ==> Even(gens[g])
    ensures (exists steps, i: nat, j: nat, k: nat, l: nat :: Mixes(gens, steps, i, j, k, l)) <==> !DistinctSizes(gens)
  {
    hide InOrder, DiskAt, Opened;
    if DistinctSizes(gens) {
      forall steps, i: nat, j: nat, k: nat, l: nat | InOrder(Start(), steps, i, j, k, l)
        ensures !Mixes(gens, steps, i, j, k, l)
      {
        AcceptedRead(Start(), steps, gens, i, j, k, l);
      }
    } else {
      var a, b :| 0 <= a < b < |gens| && |gens[a].ids| == |gens[b].ids|;
      SameSizeRun(gens, a, b);
      var steps, i: nat, k: nat :| Mixes(gens, steps, i, i, k, k);
    }
  }
}
