/** The incremental tracker against a full rescan, with every read of an observation a step of its own. Host
    writes are staged and then judged by the published $MFT ranges at any moment, also in the middle of an
    observation; flagged writes are observed later, in order. A read may return any bytes, such as those from
    before a write that was persisted and released while the read was under way. */
module Tracker {
  import opened Disk
  import opened Ranges
  import opened Runlist
  import opened MFTMap
  import opened MFTIndex
  import opened FileRanges
  import opened Ntfs

  // ---------- What a rescan would say of one record ----------

  /** The $MFT is contiguous from VCN 0 and every byte of it is mapped into the disk. */
  ghost predicate FullyMapped(g: Geometry, runs: seq<NTFSRun>, size: nat, diskSize: nat) {
    Contiguous(runs, 0) && Readable(g, runs, diskSize, 0, size)
  }

  ghost function WholeRecordCount(g: Geometry, size: nat): nat
    requires g.recordSize > 0
  {
    RecordIndex(g, size)
  }

  ghost function RecordBytes(env: Env, runs: seq<NTFSRun>, view: seq<byte>, id: nat): ReadResult {
    ReadRuns(env.g, runs, view, RecordStart(env.g, id), env.g.recordSize)
  }

  /** What record id's bytes decode to now. */
  ghost function DecodedNow(env: Env, runs: seq<NTFSRun>, view: seq<byte>, id: nat): Decoded {
    match RecordBytes(env, runs, view, id)
    case Unreadable => Undecodable
    case Bytes(data) => env.decode(id, data)
  }

  /** The remembered record already is what its bytes decode to; one that does not decode is kept. */
  ghost predicate Fresh(env: Env, runs: seq<NTFSRun>, records: map<nat, NTFSRecord>, view: seq<byte>, id: nat) {
    Apply(env, Lookup(records, id), DecodedNow(env, runs, view, id)) == Lookup(records, id)
  }

  /** Decoding the same bytes again changes nothing. */
  lemma ApplyTwice(env: Env, r: Option<NTFSRecord>, d: Decoded)
    ensures Apply(env, Apply(env, r, d), d) == Apply(env, r, d)
  {
  }

  /** Whole records lie below the size. */
  lemma WholeRecordsFit(g: Geometry, size: nat, id: nat)
    requires GoodGeometry(g) && id < WholeRecordCount(g, size)
    ensures RecordStart(g, id) + g.recordSize <= size
    ensures RecordStart(g, id + 1) == RecordStart(g, id) + g.recordSize
    ensures id < RecordCount(g, size)
  {
    var n := WholeRecordCount(g, size);
    RecordOf(g, size);
    RecordOrder(g, id, id + 1);
    if id + 1 < n {
      RecordOrder(g, id + 1, n);
    }
    CountCoversWhole(g, size);
  }

  /** The record count, which rounds up, is at least the number of whole records. */
  lemma CountCoversWhole(g: Geometry, size: nat)
    requires GoodGeometry(g)
    ensures WholeRecordCount(g, size) <= RecordCount(g, size)
  {
    if size > 0 {
      RecordOf(g, size);
      RecordOf(g, size + g.recordSize - 1);
      RecordsAscend(g, RecordIndex(g, size), size, RecordIndex(g, size + g.recordSize - 1), size + g.recordSize - 1);
    } else {
      RecordsCompare(g, 0, 0);
    }
  }

  /** A grown $MFT has at least as many records. */
  lemma CountGrows(g: Geometry, a: nat, b: nat)
    requires GoodGeometry(g) && a <= b
    ensures RecordCount(g, a) <= RecordCount(g, b)
    ensures WholeRecordCount(g, a) <= WholeRecordCount(g, b)
  {
    RecordOf(g, a);
    RecordOf(g, b);
    RecordsAscend(g, RecordIndex(g, a), a, RecordIndex(g, b), b);
    if a > 0 {
      var c, d := a + g.recordSize - 1, b + g.recordSize - 1;
      RecordOf(g, c);
      RecordOf(g, d);
      RecordsAscend(g, RecordIndex(g, c), c, RecordIndex(g, d), d);
    }
  }

  /** Reading one whole record through the program's checks is just reading its bytes. */
  lemma ReadWhole(env: Env, runs: seq<NTFSRun>, size: nat, view: seq<byte>, id: nat)
    requires GoodEnv(env) && id < WholeRecordCount(env.g, size)
    ensures ReadRecordFn(env, runs, size, view, id) == DecodedNow(env, runs, view, id)
  {
    hide ReadRuns, RecordIndex, RecordCount;
    WholeRecordsFit(env.g, size, id);
  }

  // ---------- The effect of a scan ----------

  lemma {:induction false} ScanBufferEffect(
    env: Env, records: map<nat, NTFSRecord>, buf: seq<byte>, i: nat, k: nat, id: nat)
    ensures Lookup(ScanBuffer(env, records, buf, i, k), id) ==
      if i <= id < i + k then Apply(env, Lookup(records, id), env.decode(id, Slice(env.g, buf, id - i)))
      else Lookup(records, id)
    decreases k
  {
    hide Slice, Apply;
    if k > 0 {
      ScanBufferEffect(env, records, buf, i, k - 1, id);
      ScanBufferEffect(env, records, buf, i, k - 1, i + k - 1);
    }
  }

  /** A record cut out of a chunk is the record read on its own. */
  lemma SliceIsRecord(env: Env, runs: seq<NTFSRun>, view: seq<byte>, i: nat, c: nat, k: nat)
    requires GoodEnv(env) && Contiguous(runs, 0) && k < c
    requires ReadRuns(env.g, runs, view, RecordStart(env.g, i), RecordStart(env.g, c)).Bytes?
    ensures var buf := ReadRuns(env.g, runs, view, RecordStart(env.g, i), RecordStart(env.g, c)).data;
      env.decode(i + k, Slice(env.g, buf, k)) == DecodedNow(env, runs, view, i + k)
  {
    hide ReadRuns, Physical, RecordStart;
    var g := env.g;
    RecordsCompare(g, i, c);
    RecordsCompare(g, i, k);
    RecordsCompare(g, k + 1, c);
    RecordsCompare(g, c, k + 1);
    RecordOrder(g, k, k + 1);
    RecordOrder(g, i + k, i + k + 1);
    var from, n := RecordStart(g, i), RecordStart(g, c);
    var at := RecordStart(g, i + k);
    ReadRunsIsBytewise(g, runs, view, from, n);
    ReadRunsIsBytewise(g, runs, view, at, g.recordSize);
    var buf := ReadRuns(g, runs, view, from, n).data;
    var one := ReadRuns(g, runs, view, at, g.recordSize);
    assert Readable(g, runs, |view|, at, g.recordSize);
    forall x | 0 <= x < g.recordSize ensures Slice(g, buf, k)[x] == one.data[x] {
      assert buf[(at + x) - from] == view[Physical(g, runs, at + x)];
      assert one.data[(at + x) - at] == view[Physical(g, runs, at + x)];
    }
    assert Slice(g, buf, k) == one.data;
  }

  /** On a fully mapped $MFT any chunk can be read, and looking at it does to each record in it what its own
      bytes say and touches no other. */
  lemma ChunkEffect(env: Env, runs: seq<NTFSRun>, size: nat, view: seq<byte>, records: map<nat, NTFSRecord>,
                    i: nat, c: nat, m: nat, id: nat)
    requires GoodEnv(env) && FullyMapped(env.g, runs, size, |view|) && i + c <= m <= WholeRecordCount(env.g, size)
    ensures var r := ReadLogical(env.g, runs, size, view, RecordStart(env.g, i), RecordStart(env.g, c));
      && r.Bytes?
      && Lookup(ScanBuffer(env, records, r.data, i, c), id) ==
         (if i <= id < i + c then Apply(env, Lookup(records, id), DecodedNow(env, runs, view, id))
          else Lookup(records, id))
  {
    hide ReadRuns, ScanBuffer, Apply, RecordStart, Physical, RecordIndex;
    var g := env.g;
    ChunkInSize(g, size, i, c, m);
    var from, n := RecordStart(g, i), RecordStart(g, c);
    ReadRunsIsBytewise(g, runs, view, from, n);
    assert Readable(g, runs, |view|, from, n);
    var buf := ReadRuns(g, runs, view, from, n).data;
    ScanBufferEffect(env, records, buf, i, c, id);
    if i <= id < i + c {
      SliceIsRecord(env, runs, view, i, c, id - i);
    }
  }

  /** On a fully mapped $MFT that nobody writes to meanwhile, a scan brings every whole record in its range up
      to date and touches no other. */
  lemma {:induction false} ScanEffect(env: Env, runs: seq<NTFSRun>, size: nat, view: seq<byte>,
                                      records: map<nat, NTFSRecord>, i: nat, m: nat, id: nat)
    requires GoodEnv(env) && FullyMapped(env.g, runs, size, |view|) && m <= WholeRecordCount(env.g, size)
    ensures ScanReadable(env, runs, size, _ => view, i, m)
    ensures Lookup(ScanRecords(env, runs, size, _ => view, records, i, m), id) ==
      if i <= id < m then Apply(env, Lookup(records, id), DecodedNow(env, runs, view, id)) else Lookup(records, id)
    decreases m - i
  {
    hide ScanRecords, ScanReadable, ScanBuffer, Apply, RecordStart, RecordIndex, DecodedNow, ReadLogical;
    ScanHead(env, runs, size, _ => view, records, i, m);
    if i < m {
      var c := ChunkRecords(env.g, i, m);
      ChunkNotEmpty(env.g, i, m);
      ChunkEffect(env, runs, size, view, records, i, c, m, id);
      var buf := ReadLogical(env.g, runs, size, view, RecordStart(env.g, i), RecordStart(env.g, c)).data;
      ScanEffect(env, runs, size, view, ScanBuffer(env, records, buf, i, c), i + c, m, id);
    }
  }

  lemma ChunkNotEmpty(g: Geometry, i: nat, m: nat)
    requires GoodGeometry(g) && g.recordSize <= 0x10_0000 && i < m
    ensures 0 < ChunkRecords(g, i, m) <= m - i
  {
    var q := 0x80_0000 / g.recordSize;
    assert 0x80_0000 == g.recordSize * q + 0x80_0000 % g.recordSize;
    assert q == 0 ==> g.recordSize * q == 0;
  }

  lemma ChunkInSize(g: Geometry, size: nat, i: nat, c: nat, m: nat)
    requires GoodGeometry(g) && i + c <= m <= WholeRecordCount(g, size)
    ensures RecordStart(g, i) + RecordStart(g, c) <= size
  {
    RecordsCompare(g, i, c);
    RecordsCompare(g, i + c, WholeRecordCount(g, size));
    RecordsCompare(g, WholeRecordCount(g, size), i + c);
    RecordOf(g, size);
  }

  // ---------- Writes and records ----------

  /** A record none of whose bytes was written decodes as before. */
  lemma UntouchedDecodesSame(env: Env, runs: seq<NTFSRun>, a: seq<byte>, b: seq<byte>, start: nat, end: nat, id: nat)
    requires GoodEnv(env) && Contiguous(runs, 0) && SameOutside(a, b, start, end)
    requires !TouchesRecord(env.g, runs, start, end, id)
    ensures DecodedNow(env, runs, a, id) == DecodedNow(env, runs, b, id)
  {
    hide ReadRuns, Physical;
    var g := env.g;
    RecordOrder(g, id, id + 1);
    forall l | RecordStart(g, id) <= l < RecordStart(g, id) + g.recordSize
      ensures var p := Physical(g, runs, l); 0 <= p < |a| ==> a[p] == b[p]
    {
      var p := Physical(g, runs, l);
      PhysicalIsTheMap(g, runs, l, p);
      TouchesRecordMeans(g, runs, start, end, id);
      assert InRecord(g, id, l);
    }
    SameBytesSameRead(g, runs, a, b, RecordStart(g, id), g.recordSize);
  }

  /** The new layout leaves every byte below the old size where it was. */
  ghost predicate KeepsMapping(g: Geometry, runs: seq<NTFSRun>, size: nat, runs': seq<NTFSRun>, size': nat) {
    size <= size' && forall l :: 0 <= l < size ==> Physical(g, runs', l) == Physical(g, runs, l)
  }

  lemma KeptRecordDecodesSame(env: Env, runs: seq<NTFSRun>, size: nat, runs': seq<NTFSRun>, size': nat,
                              view: seq<byte>, id: nat)
    requires GoodEnv(env) && Contiguous(runs, 0) && Contiguous(runs', 0)
    requires KeepsMapping(env.g, runs, size, runs', size') && id < WholeRecordCount(env.g, size)
    ensures DecodedNow(env, runs', view, id) == DecodedNow(env, runs, view, id)
  {
    hide ReadRuns, Physical;
    var g := env.g;
    WholeRecordsFit(g, size, id);
    var pos, n := RecordStart(g, id), g.recordSize;
    ReadRunsIsBytewise(g, runs, view, pos, n);
    ReadRunsIsBytewise(g, runs', view, pos, n);
    var a, b := ReadRuns(g, runs, view, pos, n), ReadRuns(g, runs', view, pos, n);
    assert Readable(g, runs', |view|, pos, n) <==> Readable(g, runs, |view|, pos, n);
    if a.Bytes? {
      forall x | 0 <= x < n ensures a.data[x] == b.data[x] {
        assert a.data[(pos + x) - pos] == view[Physical(g, runs, pos + x)];
        assert b.data[(pos + x) - pos] == view[Physical(g, runs', pos + x)];
      }
      assert a.data == b.data;
    }
  }

  lemma KeptRecordTouchedSame(g: Geometry, runs: seq<NTFSRun>, size: nat, runs': seq<NTFSRun>, size': nat,
                              start: nat, end: nat, id: nat)
    requires GoodGeometry(g) && Contiguous(runs, 0) && Contiguous(runs', 0)
    requires KeepsMapping(g, runs, size, runs', size') && id < WholeRecordCount(g, size)
    ensures TouchesRecord(g, runs', start, end, id) <==> TouchesRecord(g, runs, start, end, id)
  {
    WholeRecordsFit(g, size, id);
    TouchesRecordMeans(g, runs, start, end, id);
    TouchesRecordMeans(g, runs', start, end, id);
    forall l: nat, p: nat | InRecord(g, id, l) ensures MapsTo(g, runs, l, p) <==> MapsTo(g, runs', l, p) {
      PhysicalIsTheMap(g, runs, l, p);
      PhysicalIsTheMap(g, runs', l, p);
    }
  }

  // ---------- The world ----------

  datatype Layout = Layout(runs: seq<NTFSRun>, size: nat)

  /** How far the observation under way has come: record 0 is done and records up to next have been scanned,
      or the scan is done and ids are still to be refreshed. */
  datatype Phase = Idle | Scanning(ids: set<nat>, next: nat) | Refreshing(ids: set<nat>)

  datatype World = World(
    view: seq<byte>,               // the disk as the host sees it
    st: TrackState,                // the tracker's own state
    pub: Layout,                   // the layout the published $MFT ranges belong to
    pending: seq<ByteRange>,       // flagged writes not yet taken up, oldest first
    unjudged: Option<ByteRange>,   // a write already staged whose flag has not been looked up
    phase: Phase,
    missed: set<nat>               // records read too early or found too old, and not read again since
  )

  function LayoutOf(st: TrackState): Layout {
    Layout(st.runs, st.size)
  }

  ghost predicate Touched(env: Env, w: World, r: ByteRange, id: nat) {
    TouchesRecord(env.g, w.st.runs, r.start, r.end, id)
  }

  /** A write that has not been taken up yet touches the record. */
  ghost predicate Awaits(env: Env, w: World, id: nat) {
    || (exists r :: r in w.pending && Touched(env, w, r, id))
    || (w.unjudged.Some? && Touched(env, w, w.unjudged.value, id))
  }

  /** The observation under way still has to read the record. */
  ghost predicate InProgress(w: World, id: nat) {
    match w.phase
    case Idle => false
    case Scanning(ids, next) => id >= next || id in ids
    case Refreshing(ids) => id in ids
  }

  ghost predicate Flagged(env: Env, l: Layout, start: nat, end: nat) {
    exists x :: start <= x < end && MFTByte(env.g, l.runs, l.size, x)
  }

  /** The records of the $MFT's new, not yet published tail that have already been read. */
  ghost predicate ReadUnpublished(env: Env, w: World, id: nat)
    requires env.g.recordSize > 0
  {
    && WholeRecordCount(env.g, w.pub.size) <= id < WholeRecordCount(env.g, w.st.size)
    && (w.phase.Scanning? ==> id < w.phase.next)
  }

  /** What a write misses when it is judged by the ranges published now and rejected. */
  ghost function MissedBy(env: Env, w: World, r: ByteRange): set<nat>
    requires env.g.recordSize > 0
  {
    set id | 0 <= id < WholeRecordCount(env.g, w.st.size) && ReadUnpublished(env, w, id) && Touched(env, w, r, id)
  }

  /** seen, which a read returned, has other bytes for the record than the disk, and no write is due that would
      have the record read again. */
  ghost predicate StaleRead(env: Env, w: World, seen: seq<byte>, id: nat)
    requires env.g.recordSize > 0
  {
    && id < WholeRecordCount(env.g, w.st.size) && !Awaits(env, w, id)
    && RecordBytes(env, w.st.runs, seen, id) != RecordBytes(env, w.st.runs, w.view, id)
  }

  ghost function StaleReads(env: Env, w: World, seen: seq<byte>, from: nat, to: nat): set<nat>
    requires env.g.recordSize > 0
  {
    set id | from <= id < to && StaleRead(env, w, seen, id)
  }

  // ---------- Steps ----------

  /** What happens next, with the bytes that a read returns. */
  datatype Label =
    | Stage(start: nat, end: nat)
    | Judge
    | Begin(seen: seq<byte>, ids: set<nat>, extra: nat)
    | Scan(seen: seq<byte>)
    | EndScan
    | RefreshOne(seen: seq<byte>, id: nat)
    | Publish

  /** How many records the next chunk of the scan has. */
  ghost function NextChunk(env: Env, w: World): nat
    requires env.g.recordSize > 0 && w.phase.Scanning?
  {
    if w.phase.next < WholeRecordCount(env.g, w.st.size)
    then ChunkRecords(env.g, w.phase.next, WholeRecordCount(env.g, w.st.size)) else 0
  }

  /** The write to be taken up next touches record 0, so that record 0 is read at once. */
  ghost predicate ReadsZero(env: Env, w: World) {
    w.pending != [] && Touched(env, w, w.pending[0], 0)
  }

  /** The records missed by a step: those a rejected write touches although they have been read, and those of
      which a read returns other bytes than the disk holds. */
  ghost function MissedIn(env: Env, w: World, l: Label): set<nat>
    requires env.g.recordSize > 0
  {
    match l
    case Judge =>
      if w.unjudged.None? || Flagged(env, w.pub, w.unjudged.value.start, w.unjudged.value.end) then {}
      else MissedBy(env, w, w.unjudged.value)
    case Begin(seen, _, _) =>
      if ReadsZero(env, w) then StaleReads(env, w.(pending := w.pending[1..]), seen, 0, 1) else {}
    case Scan(seen) =>
      if w.phase.Scanning? then StaleReads(env, w, seen, w.phase.next, w.phase.next + NextChunk(env, w)) else {}
    case RefreshOne(seen, id) => StaleReads(env, w, seen, id, id + 1)
    case _ => {}
  }

  /** First half of an acknowledgement: the bytes are in the overlay and seen by every later read. */
  ghost predicate StageStep(w: World, start: nat, end: nat, w': World) {
    && start < end && w.unjudged.None? && SameOutside(w.view, w'.view, start, end)
    && w' == w.(view := w'.view, unjudged := Some(ByteRange(start, end)))
  }

  /** Second half: the write is flagged by the ranges published at that moment. */
  ghost predicate JudgeStep(env: Env, w: World, w': World)
    requires env.g.recordSize > 0
  {
    && w.unjudged.Some?
    && var r := w.unjudged.value;
       w' == if Flagged(env, w.pub, r.start, r.end) then w.(unjudged := None, pending := w.pending + [r])
             else w.(unjudged := None, missed := w.missed + MissedIn(env, w, Judge))
  }

  /** The oldest flagged write is taken up and record 0 read if it is touched. The layout found is fully
      mapped, and leaves what was already mapped where it was. */
  ghost predicate BeginStep(env: Env, w: World, seen: seq<byte>, ids: set<nat>, extra: nat, w': World)
    requires env.g.recordSize > 0
  {
    && |seen| == |w.view| && w.phase.Idle? && w.pending != [] && w.pending[0].start < w.pending[0].end
    && var r := w.pending[0];
       var st' := AfterZero(env, w.st, seen, r.start, r.end);
       && CountsExtra(env, w.st, seen, r.start, r.end, extra)
       && (forall id :: id in ids <==> Selected(env, w.st, r.start, r.end, extra, id))
       && FullyMapped(env.g, st'.runs, st'.size, |w.view|)
       && KeepsMapping(env.g, w.st.runs, w.st.size, st'.runs, st'.size)
       && w' == w.(st := st', pending := w.pending[1..],
                   phase := Scanning(ids, WholeRecordCount(env.g, w.st.size)),
                   missed := (if ReadsZero(env, w) then w.missed - {0} else w.missed)
                             + MissedIn(env, w, Begin(seen, ids, extra)))
  }

  /** One chunk of the new tail is read and looked at; one that cannot be read ends the scan. */
  ghost predicate ScanStep(env: Env, w: World, seen: seq<byte>, w': World)
    requires env.g.recordSize > 0
  {
    && |seen| == |w.view| && w.phase.Scanning? && NextChunk(env, w) > 0
    && var i, c := w.phase.next, NextChunk(env, w);
       match ReadLogical(env.g, w.st.runs, w.st.size, seen, RecordStart(env.g, i), RecordStart(env.g, c))
       case Unreadable => w' == w.(phase := Refreshing(w.phase.ids))
       case Bytes(buf) =>
         w' == w.(st := w.st.(records := ScanBuffer(env, w.st.records, buf, i, c)),
                  phase := Scanning(w.phase.ids, i + c), missed := w.missed + MissedIn(env, w, Scan(seen)))
  }

  ghost predicate EndScanStep(env: Env, w: World, w': World)
    requires env.g.recordSize > 0
  {
    w.phase.Scanning? && NextChunk(env, w) == 0 && w' == w.(phase := Refreshing(w.phase.ids))
  }

  /** One selected record is read and refreshed, in any order. */
  ghost predicate RefreshStep(env: Env, w: World, seen: seq<byte>, id: nat, w': World)
    requires env.g.recordSize > 0
  {
    && |seen| == |w.view| && w.phase.Refreshing? && id in w.phase.ids
    && w' == w.(st := w.st.(records := Store(w.st.records, id, Refreshed(env, w.st, seen, true, id))),
                phase := Refreshing(w.phase.ids - {id}),
                missed := w.missed - {id} + MissedIn(env, w, RefreshOne(seen, id)))
  }

  ghost predicate PublishStep(w: World, w': World) {
    w.phase == Refreshing({}) && w' == w.(pub := LayoutOf(w.st), phase := Idle)
  }

  ghost predicate TrackerStep(env: Env, w: World, l: Label, w': World)
    requires env.g.recordSize > 0
  {
    match l
    case Stage(start, end) => StageStep(w, start, end, w')
    case Judge => JudgeStep(env, w, w')
    case Begin(seen, ids, extra) => BeginStep(env, w, seen, ids, extra, w')
    case Scan(seen) => ScanStep(env, w, seen, w')
    case EndScan => EndScanStep(env, w, w')
    case RefreshOne(seen, id) => RefreshStep(env, w, seen, id, w')
    case Publish => PublishStep(w, w')
  }

  // ---------- The invariant ----------

  /** Record 0, if it decodes, describes this layout. */
  ghost predicate LayoutSays(env: Env, l: Layout, view: seq<byte>) {
    var d := DecodedNow(env, l.runs, view, 0);
    d.Record? ==> NewLayout(l.runs, l.size, d) == (l.runs, l.size)
  }

  ghost predicate Mapping(env: Env, w: World)
    requires env.g.recordSize > 0
  {
    && FullyMapped(env.g, w.st.runs, w.st.size, |w.view|) && Contiguous(w.pub.runs, 0)
    && KeepsMapping(env.g, w.pub.runs, w.pub.size, w.st.runs, w.st.size)
    && (w.phase.Idle? || WholeRecordCount(env.g, w.pub.size) == 0 ==> w.pub == LayoutOf(w.st))
    && (w.phase.Scanning? ==>
          WholeRecordCount(env.g, w.pub.size) <= w.phase.next <= WholeRecordCount(env.g, w.st.size))
    && (!w.phase.Idle? ==> 0 !in w.phase.ids)
  }

  /** A whole record differs from its bytes only while a write or the observation under way is still to be
      read into it, or when it was missed. */
  ghost predicate StaleOnlyIfDue(env: Env, w: World)
    requires env.g.recordSize > 0
  {
    forall id: nat ::
      id < WholeRecordCount(env.g, w.st.size) && !Awaits(env, w, id) && !InProgress(w, id) && id !in w.missed ==>
        Fresh(env, w.st.runs, w.st.records, w.view, id)
  }

  /** The tracker's layout is record 0's, unless a write that touches record 0 has not been taken up or record 0
      was missed. */
  ghost predicate LayoutDue(env: Env, w: World)
    requires env.g.recordSize > 0
  {
    WholeRecordCount(env.g, w.st.size) > 0 && !Awaits(env, w, 0) && 0 !in w.missed ==>
      LayoutSays(env, LayoutOf(w.st), w.view)
  }

  ghost predicate TrackerInv(env: Env, w: World) {
    && GoodEnv(env) && Mapping(env, w)
    && (forall id :: id in w.st.records ==> id < RecordCount(env.g, w.st.size))
    && StaleOnlyIfDue(env, w) && LayoutDue(env, w)
  }

  // ---------- Every step keeps it ----------

  /** A rejected write touches no whole record of the published $MFT. */
  lemma UnflaggedTouchesNothing(env: Env, l: Layout, start: nat, end: nat, id: nat)
    requires GoodEnv(env) && Contiguous(l.runs, 0)
    requires !Flagged(env, l, start, end) && id < WholeRecordCount(env.g, l.size)
    ensures !TouchesRecord(env.g, l.runs, start, end, id)
  {
    var g := env.g;
    TouchesRecordMeans(g, l.runs, start, end, id);
    if TouchesRecord(g, l.runs, start, end, id) {
      var x: nat, p: nat :| InRecord(g, id, x) && start <= p < end && MapsTo(g, l.runs, x, p);
      WholeRecordsFit(g, l.size, id);
      PhysicalIsTheMap(g, l.runs, x, p);
      assert OccupiesAt(g, l.runs, l.size, x, p);
      RangesAreOccupied(g, l.runs, l.size, p);
    }
  }

  /** What a rejected write does touch is still to be scanned, or is missed. */
  lemma RejectedTouches(env: Env, w: World, r: ByteRange, id: nat)
    requires TrackerInv(env, w) && !Flagged(env, w.pub, r.start, r.end)
    requires id < WholeRecordCount(env.g, w.st.size) && Touched(env, w, r, id)
    ensures id > 0
    ensures (w.phase.Scanning? && id >= w.phase.next) || id in MissedBy(env, w, r)
  {
    hide TouchesRecord, WholeRecordCount, Fresh, StaleOnlyIfDue, LayoutDue;
    if id < WholeRecordCount(env.g, w.pub.size) {
      UnflaggedTouchesNothing(env, w.pub, r.start, r.end, id);
      KeptRecordTouchedSame(env.g, w.pub.runs, w.pub.size, w.st.runs, w.st.size, r.start, r.end, id);
      assert false;
    }
  }

  lemma StageKeeps(env: Env, w: World, start: nat, end: nat, w': World)
    requires TrackerInv(env, w) && StageStep(w, start, end, w')
    ensures TrackerInv(env, w')
  {
    hide Fresh, TouchesRecord, DecodedNow, Lookup, Apply;
    forall id: nat | !Awaits(env, w', id)
      ensures !Awaits(env, w, id) && DecodedNow(env, w.st.runs, w'.view, id) == DecodedNow(env, w.st.runs, w.view, id)
    {
      UntouchedDecodesSame(env, w.st.runs, w.view, w'.view, start, end, id);
    }
    forall id: nat | id < WholeRecordCount(env.g, w.st.size) && !Awaits(env, w', id) && !InProgress(w', id)
        && id !in w'.missed
      ensures Fresh(env, w'.st.runs, w'.st.records, w'.view, id)
    {
      FreshSameDecode(env, w.st.runs, w.st.runs, w.st.records, w.st.records, w.view, w'.view, id);
    }
  }

  lemma JudgeKeeps(env: Env, w: World, w': World)
    requires TrackerInv(env, w) && JudgeStep(env, w, w')
    ensures TrackerInv(env, w')
  {
    hide Fresh, TouchesRecord, DecodedNow, Lookup, Apply, MissedBy, Flagged;
    var r := w.unjudged.value;
    if Flagged(env, w.pub, r.start, r.end) {
      assert r in w'.pending && forall q :: q in w.pending ==> q in w'.pending;
    }
    forall id: nat | id < WholeRecordCount(env.g, w.st.size) && !Awaits(env, w', id)
      ensures Awaits(env, w, id) ==> id > 0 && (InProgress(w', id) || id in w'.missed)
    {
      if Awaits(env, w, id) {
        RejectedTouches(env, w, r, id);
      }
    }
  }

  /** A read that is not stale finds what the disk holds. */
  lemma GoodRead(env: Env, w: World, seen: seq<byte>, from: nat, to: nat, id: nat)
    requires env.g.recordSize > 0 && from <= id < to && id < WholeRecordCount(env.g, w.st.size)
    requires !Awaits(env, w, id) && id !in StaleReads(env, w, seen, from, to)
    ensures DecodedNow(env, w.st.runs, seen, id) == DecodedNow(env, w.st.runs, w.view, id)
  {
    hide RecordBytes;
    assert !StaleRead(env, w, seen, id);
  }

  lemma BeginKeeps(env: Env, w: World, seen: seq<byte>, ids: set<nat>, extra: nat, w': World)
    requires TrackerInv(env, w) && BeginStep(env, w, seen, ids, extra, w')
    ensures TrackerInv(env, w')
  {
    hide Fresh, TouchesRecord, DecodedNow, Lookup, Apply, CountsExtra, RecordCount, WholeRecordCount, LayoutSays;
    hide AfterZero;
    hide MissedIn;
    var r := w.pending[0];
    CountGrows(env.g, w.st.size, w'.st.size);
    forall id: nat | id < WholeRecordCount(env.g, w'.st.size) && !Awaits(env, w', id) && !InProgress(w', id)
        && id !in w'.missed
      ensures Fresh(env, w'.st.runs, w'.st.records, w'.view, id)
    {
      BegunFresh(env, w, seen, ids, extra, w', id);
    }
    forall id | id in w'.st.records ensures id < RecordCount(env.g, w'.st.size) {
      ZeroEffect(env, w.st, seen, r.start, r.end, id);
      LookupSome(w'.st.records, id);
      LookupSome(w.st.records, id);
      ApplyNothing(env, w.st, seen);
    }
    LayoutAfterBegin(env, w, seen, ids, extra, w');
  }

  lemma LookupSome(records: map<nat, NTFSRecord>, id: nat)
    ensures id in records <==> Lookup(records, id).Some?
  {
  }

  /** Where there is no record 0 to read, refreshing it changes nothing. */
  lemma ApplyNothing(env: Env, st: TrackState, view: seq<byte>)
    requires GoodEnv(env)
    ensures RecordCount(env.g, st.size) == 0 ==>
      Apply(env, Lookup(st.records, 0), ReadRecordFn(env, st.runs, st.size, view, 0)) == Lookup(st.records, 0)
  {
    NoRecordZero(env, st, view);
  }

  /** Record 0, when it was read well and nothing is due to it, was found as the disk has it. */
  lemma ZeroReadWell(env: Env, w: World, seen: seq<byte>, ids: set<nat>, extra: nat, w': World)
    requires TrackerInv(env, w) && BeginStep(env, w, seen, ids, extra, w') && ReadsZero(env, w)
    requires WholeRecordCount(env.g, w.st.size) > 0 && 0 !in w'.missed && !Awaits(env, w', 0)
    ensures DecodedNow(env, w.st.runs, seen, 0) == DecodedNow(env, w.st.runs, w.view, 0)
  {
    hide TouchesRecord, DecodedNow, CountsExtra, WholeRecordCount, AfterZero, StaleReads;
    var v := w.(pending := w.pending[1..]);
    assert !Awaits(env, v, 0) by {
      StillAwaits(env, w, seen, ids, extra, w', 0);
    }
    GoodRead(env, v, seen, 0, 1, 0);
  }

  lemma BegunFresh(env: Env, w: World, seen: seq<byte>, ids: set<nat>, extra: nat, w': World, id: nat)
    requires TrackerInv(env, w) && BeginStep(env, w, seen, ids, extra, w')
    requires id < WholeRecordCount(env.g, w'.st.size) && !Awaits(env, w', id) && !InProgress(w', id) && id !in w'.missed
    ensures Fresh(env, w'.st.runs, w'.st.records, w'.view, id)
  {
    hide Fresh, TouchesRecord, DecodedNow, Lookup, Apply, CountsExtra, RecordCount, WholeRecordCount, LayoutDue;
    hide AfterZero;
    hide MissedIn;
    var r := w.pending[0];
    KeptRecordDecodesSame(env, w.st.runs, w.st.size, w'.st.runs, w'.st.size, w.view, id);
    ZeroEffect(env, w.st, seen, r.start, r.end, id);
    if id == 0 && Touched(env, w, r, 0) {
      ReadWhole(env, w.st.runs, w.st.size, seen, 0);
      ZeroReadWell(env, w, seen, ids, extra, w');
      FreshOnceApplied(env, w'.st.runs, w'.st.records, w.view, 0, Lookup(w.st.records, 0));
    } else {
      StillAwaits(env, w, seen, ids, extra, w', id);
      FreshSameDecode(env, w.st.runs, w'.st.runs, w.st.records, w'.st.records, w.view, w.view, id);
    }
  }

  /** A record that awaits nothing once the oldest write has been taken up awaited at most that write before. */
  lemma StillAwaits(env: Env, w: World, seen: seq<byte>, ids: set<nat>, extra: nat, w': World, id: nat)
    requires TrackerInv(env, w) && BeginStep(env, w, seen, ids, extra, w')
    requires id < WholeRecordCount(env.g, w.st.size) && !Awaits(env, w', id)
    ensures !Awaits(env, w.(pending := w.pending[1..]), id)
    ensures !Touched(env, w, w.pending[0], id) ==> !Awaits(env, w, id)
  {
    hide TouchesRecord, StaleOnlyIfDue, LayoutDue, CountsExtra, AfterZero, MissedIn;
    forall r | r in w.pending[1..] || w.unjudged == Some(r) ensures !Touched(env, w, r, id) {
      KeptRecordTouchedSame(env.g, w.st.runs, w.st.size, w'.st.runs, w'.st.size, r.start, r.end, id);
    }
    assert w.pending == [w.pending[0]] + w.pending[1..];
  }

  /** Reading the layout off record 0 twice is reading it once. */
  lemma NewLayoutTwice(runs: seq<NTFSRun>, size: nat, d: Decoded)
    requires d.Record?
    ensures var l := NewLayout(runs, size, d); NewLayout(l.0, l.1, d) == l
  {
  }

  lemma LayoutAfterBegin(env: Env, w: World, seen: seq<byte>, ids: set<nat>, extra: nat, w': World)
    requires TrackerInv(env, w) && BeginStep(env, w, seen, ids, extra, w')
    ensures LayoutDue(env, w')
    ensures WholeRecordCount(env.g, w.st.size) == 0 ==> LayoutOf(w'.st) == LayoutOf(w.st)
  {
    hide TouchesRecord, DecodedNow, Lookup, Apply, CountsExtra, NewLayout, WholeRecordCount, RecordCount;
    hide StaleOnlyIfDue;
    hide ReadRecordFn, MissedIn;
    var r := w.pending[0];
    var d := ReadRecordFn(env, w.st.runs, w.st.size, seen, 0);
    NoWholeRecordZero(env, w.st, seen);
    if WholeRecordCount(env.g, w.st.size) > 0 && !Awaits(env, w', 0) && 0 !in w'.missed {
      ReadWhole(env, w.st.runs, w.st.size, seen, 0);
      KeptRecordDecodesSame(env, w.st.runs, w.st.size, w'.st.runs, w'.st.size, w.view, 0);
      if Touched(env, w, r, 0) {
        ZeroReadWell(env, w, seen, ids, extra, w');
        if d.Record? {
          NewLayoutTwice(w.st.runs, w.st.size, d);
        }
      } else {
        StillAwaits(env, w, seen, ids, extra, w', 0);
      }
    }
  }

  /** An $MFT without a whole record has no record 0 that decodes. */
  lemma NoWholeRecordZero(env: Env, st: TrackState, view: seq<byte>)
    requires GoodEnv(env)
    ensures WholeRecordCount(env.g, st.size) == 0 ==> ReadRecordFn(env, st.runs, st.size, view, 0).Undecodable?
  {
    hide ReadRuns;
    RecordOf(env.g, st.size);
    RecordsCompare(env.g, 0, 1);
  }

  lemma ScanKeeps(env: Env, w: World, seen: seq<byte>, w': World)
    requires TrackerInv(env, w) && ScanStep(env, w, seen, w')
    ensures TrackerInv(env, w')
  {
    hide Fresh, TouchesRecord, DecodedNow, Lookup, Apply, ScanBuffer, ReadLogical, RecordStart, WholeRecordCount;
    hide RecordCount, LayoutSays, StaleReads;
    var n := WholeRecordCount(env.g, w.st.size);
    var i, c := w.phase.next, NextChunk(env, w);
    ChunkNotEmpty(env.g, i, n);
    CountCoversWhole(env.g, w.st.size);
    forall id: nat
      ensures id < n && !Awaits(env, w', id) && !InProgress(w', id) && id !in w'.missed ==>
        Fresh(env, w'.st.runs, w'.st.records, w'.view, id)
      ensures w'.phase.Scanning? && (id in w'.st.records ==> id < RecordCount(env.g, w'.st.size))
    {
      ChunkEffect(env, w.st.runs, w.st.size, seen, w.st.records, i, c, n, id);
      LookupSome(w.st.records, id);
      LookupSome(w'.st.records, id);
      assert Awaits(env, w', id) == Awaits(env, w, id);
      if i <= id < i + c {
        if id !in w'.missed && !Awaits(env, w, id) {
          GoodRead(env, w, seen, i, i + c, id);
          FreshOnceApplied(env, w'.st.runs, w'.st.records, w.view, id, Lookup(w.st.records, id));
        }
      } else if Fresh(env, w.st.runs, w.st.records, w.view, id) {
        FreshSameDecode(env, w.st.runs, w'.st.runs, w.st.records, w'.st.records, w.view, w.view, id);
      }
    }
    assert Awaits(env, w', 0) == Awaits(env, w, 0);
  }

  lemma EndScanKeeps(env: Env, w: World, w': World)
    requires TrackerInv(env, w) && EndScanStep(env, w, w')
    ensures TrackerInv(env, w')
  {
    hide Fresh, TouchesRecord, DecodedNow, Lookup, Apply, WholeRecordCount;
    if w.phase.next < WholeRecordCount(env.g, w.st.size) {
      ChunkNotEmpty(env.g, w.phase.next, WholeRecordCount(env.g, w.st.size));
    }
    assert forall id :: Awaits(env, w', id) == Awaits(env, w, id);
  }

  lemma RefreshKeeps(env: Env, w: World, seen: seq<byte>, id: nat, w': World)
    requires TrackerInv(env, w) && RefreshStep(env, w, seen, id, w')
    ensures TrackerInv(env, w')
  {
    hide Fresh, TouchesRecord, DecodedNow, Lookup, Apply, WholeRecordCount, RecordCount, ReadRecordFn, LayoutSays;
    hide StaleReads;
    var n := WholeRecordCount(env.g, w.st.size);
    forall i: nat
      ensures i < n && !Awaits(env, w', i) && !InProgress(w', i) && i !in w'.missed ==>
        Fresh(env, w'.st.runs, w'.st.records, w'.view, i)
      ensures i in w'.st.records ==> i < RecordCount(env.g, w'.st.size)
    {
      LookupSome(w.st.records, i);
      LookupSome(w'.st.records, i);
      assert Awaits(env, w', i) == Awaits(env, w, i);
      if i == id {
        if i < n && !Awaits(env, w, i) && i !in w'.missed {
          WholeRecordsFit(env.g, w.st.size, i);
          ReadWhole(env, w.st.runs, w.st.size, seen, i);
          GoodRead(env, w, seen, i, i + 1, i);
          FreshOnceApplied(env, w'.st.runs, w'.st.records, w.view, i, Lookup(w.st.records, i));
        }
      } else if Fresh(env, w.st.runs, w.st.records, w.view, i) {
        FreshSameDecode(env, w.st.runs, w'.st.runs, w.st.records, w'.st.records, w.view, w.view, i);
      }
    }
    assert Awaits(env, w', 0) == Awaits(env, w, 0);
  }

  lemma PublishKeeps(env: Env, w: World, w': World)
    requires TrackerInv(env, w) && PublishStep(w, w')
    ensures TrackerInv(env, w')
  {
    hide Fresh, TouchesRecord, DecodedNow, Lookup, Apply, WholeRecordCount;
    assert forall id :: Awaits(env, w', id) == Awaits(env, w, id);
  }

  /** Freshness only depends on the record and on what its bytes decode to. */
  lemma FreshSameDecode(env: Env, runs: seq<NTFSRun>, runs': seq<NTFSRun>, records: map<nat, NTFSRecord>,
                        records': map<nat, NTFSRecord>, a: seq<byte>, b: seq<byte>, id: nat)
    requires Fresh(env, runs, records, a, id) && Lookup(records, id) == Lookup(records', id)
    requires DecodedNow(env, runs, a, id) == DecodedNow(env, runs', b, id)
    ensures Fresh(env, runs', records', b, id)
  {
  }

  lemma FreshOnceApplied(env: Env, runs: seq<NTFSRun>, records: map<nat, NTFSRecord>, view: seq<byte>, id: nat,
                         r: Option<NTFSRecord>)
    requires Lookup(records, id) == Apply(env, r, DecodedNow(env, runs, view, id))
    ensures Fresh(env, runs, records, view, id)
  {
    ApplyTwice(env, r, DecodedNow(env, runs, view, id));
  }

  /** What refreshing record 0 leaves in the map. */
  lemma ZeroEffect(env: Env, st: TrackState, view: seq<byte>, start: nat, end: nat, id: nat)
    requires GoodEnv(env)
    ensures var z := AfterZero(env, st, view, start, end);
      Lookup(z.records, id) ==
        if id == 0 && TouchesRecord(env.g, st.runs, start, end, 0)
        then Apply(env, Lookup(st.records, 0), ReadRecordFn(env, st.runs, st.size, view, 0))
        else Lookup(st.records, id)
  {
  }

  lemma NoRecordZero(env: Env, st: TrackState, view: seq<byte>)
    requires GoodEnv(env)
    ensures RecordCount(env.g, st.size) == 0 ==> ReadRecordFn(env, st.runs, st.size, view, 0).Undecodable?
  {
  }

  // ---------- Runs ----------

  ghost predicate TrackerRun(env: Env, ws: seq<World>, ls: seq<Label>)
    requires env.g.recordSize > 0
  {
    |ws| == |ls| + 1 && forall i :: 0 <= i < |ls| ==> TrackerStep(env, ws[i], ls[i], ws[i + 1])
  }

  lemma StepKeeps(env: Env, w: World, l: Label, w': World)
    requires TrackerInv(env, w) && TrackerStep(env, w, l, w')
    ensures TrackerInv(env, w')
  {
    hide StageStep, JudgeStep, BeginStep, ScanStep, EndScanStep, RefreshStep, PublishStep, Mapping, StaleOnlyIfDue;
    hide LayoutDue;
    match l
    case Stage(start, end) => StageKeeps(env, w, start, end, w');
    case Judge => JudgeKeeps(env, w, w');
    case Begin(seen, ids, extra) => BeginKeeps(env, w, seen, ids, extra, w');
    case Scan(seen) => ScanKeeps(env, w, seen, w');
    case EndScan => EndScanKeeps(env, w, w');
    case RefreshOne(seen, id) => RefreshKeeps(env, w, seen, id, w');
    case Publish => PublishKeeps(env, w, w');
  }

  lemma {:induction false} RunKeeps(env: Env, ws: seq<World>, ls: seq<Label>)
    requires GoodEnv(env) && TrackerRun(env, ws, ls) && TrackerInv(env, ws[0])
    ensures TrackerInv(env, ws[|ls|])
    decreases |ls|
  {
    hide TrackerInv, TrackerStep;
    if ls != [] {
      var n := |ls| - 1;
      RunKeeps(env, ws[..n + 1], ls[..n]);
      StepKeeps(env, ws[n], ls[n], ws[n + 1]);
    }
  }

  ghost function Started(env: Env, runs: seq<NTFSRun>, size: nat, view: seq<byte>): World
    requires env.g.recordSize > 0
  {
    var records := ScanRecords(env, runs, size, _ => view, map[], 0, WholeRecordCount(env.g, size));
    World(view, TrackState(runs, size, records), Layout(runs, size), [], None, Idle, {})
  }

  /** NewNTFS starts the tracker up to date: after the first scan, with the layout record 0 gives, no record
      differs from its bytes. */
  lemma FirstScanFresh(env: Env, runs: seq<NTFSRun>, size: nat, view: seq<byte>)
    requires GoodEnv(env) && FullyMapped(env.g, runs, size, |view|) && LayoutSays(env, Layout(runs, size), view)
    ensures ScanReadable(env, runs, size, _ => view, 0, WholeRecordCount(env.g, size))
    ensures TrackerInv(env, Started(env, runs, size, view))
  {
    hide ScanRecords, ScanReadable, DecodedNow, Apply, RecordCount, WholeRecordCount, Fresh, LayoutSays;
    var n := WholeRecordCount(env.g, size);
    var records := ScanRecords(env, runs, size, _ => view, map[], 0, n);
    CountCoversWhole(env.g, size);
    ScanEffect(env, runs, size, view, map[], 0, n, 0);
    forall id: nat ensures id < n ==> Fresh(env, runs, records, view, id)
      ensures id in records ==> id < n
    {
      ScanEffect(env, runs, size, view, map[], 0, n, id);
      if id < n {
        FreshOnceApplied(env, runs, records, view, id, None);
      }
    }
  }

  // ---------- Agreement ----------

  /** Starting over from record 0: its layout, and a scan of every record. */
  ghost function Rescan(env: Env, st: TrackState, view: seq<byte>): TrackState
    requires env.g.recordSize > 0
  {
    var d := ReadRecordFn(env, st.runs, st.size, view, 0);
    var l := if d.Record? then NewLayout(st.runs, st.size, d) else (st.runs, st.size);
    TrackState(l.0, l.1, ScanRecords(env, l.0, l.1, _ => view, st.records, 0, WholeRecordCount(env.g, l.1)))
  }

  /** Every write has been judged and every flagged one observed. */
  ghost predicate AtRest(w: World) {
    w.pending == [] && w.unjudged.None? && w.phase.Idle?
  }

  /** What the tracker holds of record id, and for record 0 of the layout, is what the disk says. */
  ghost predicate Agrees(env: Env, w: World, id: nat) {
    && Fresh(env, w.st.runs, w.st.records, w.view, id)
    && (id == 0 ==> LayoutSays(env, LayoutOf(w.st), w.view))
  }

  ghost predicate MissedAgree(env: Env, w: World)
    requires env.g.recordSize > 0
  {
    forall id :: id in w.missed && id < WholeRecordCount(env.g, w.st.size) ==> Agrees(env, w, id)
  }

  /** In every run, whatever is written between the reads of an observation and whatever these return: once all
      is at rest, rescanning the whole $MFT from record 0 changes nothing exactly when the missed records happen
      to agree with the disk. */
  lemma IncrementalEqualsRescan(
    env: Env, ws: seq<World>, ls: seq<Label>, data: seq<ByteRange>, rescanned: seq<ByteRange>)
    requires GoodEnv(env) && TrackerRun(env, ws, ls) && TrackerInv(env, ws[0]) && AtRest(ws[|ls|])
    ensures var w := ws[|ls|];
      && (Rescan(env, w.st, w.view) == w.st <==> MissedAgree(env, w))
      && (MissedAgree(env, w) ==>
            IsDataRanges(data, w.st.records) && IsDataRanges(rescanned, Rescan(env, w.st, w.view).records) ==>
              data == rescanned)
  {
    hide IsDataRanges, TrackerStep, TrackerInv, Rescan, MissedAgree;
    RunKeeps(env, ws, ls);
    var w := ws[|ls|];
    RescanAtRest(env, w);
    if MissedAgree(env, w) && IsDataRanges(data, w.st.records)
      && IsDataRanges(rescanned, Rescan(env, w.st, w.view).records)
    {
      DataRangesUnique(data, rescanned, w.st.records);
    }
  }

  lemma RescanAtRest(env: Env, w: World)
    requires TrackerInv(env, w) && AtRest(w)
    ensures Rescan(env, w.st, w.view) == w.st <==> MissedAgree(env, w)
  {
    hide Fresh, DecodedNow, ScanRecords, Apply, WholeRecordCount, ReadRecordFn, NewLayout, TouchesRecord;
    assert forall id :: !Awaits(env, w, id);
    var n := WholeRecordCount(env.g, w.st.size);
    NoWholeRecordZero(env, w.st, w.view);
    if n > 0 {
      ReadWhole(env, w.st.runs, w.st.size, w.view, 0);
    }
    if n > 0 && !LayoutSays(env, LayoutOf(w.st), w.view) {
      assert 0 in w.missed && !Agrees(env, w, 0);
    } else {
      var full := ScanRecords(env, w.st.runs, w.st.size, _ => w.view, w.st.records, 0, n);
      assert Rescan(env, w.st, w.view) == w.st.(records := full);
      forall id: nat
        ensures Lookup(full, id) == Lookup(w.st.records, id) <==>
          (id < n ==> Fresh(env, w.st.runs, w.st.records, w.view, id))
      {
        ScanEffect(env, w.st.runs, w.st.size, w.view, w.st.records, 0, n, id);
        FreshMeans(env, w.st.runs, w.st.records, w.view, id);
      }
      if MissedAgree(env, w) {
        SameLookupsSameMap(full, w.st.records);
      }
    }
  }

  /** No step misses a record: no rejected write touches a record of the new tail between its scan and its
      publication, and every read returns what the disk holds of the records that no write is due to. */
  ghost predicate NoneMissed(env: Env, ws: seq<World>, ls: seq<Label>)
    requires env.g.recordSize > 0 && |ws| == |ls| + 1
  {
    forall i :: 0 <= i < |ls| ==> MissedIn(env, ws[i], ls[i]) == {}
  }

  lemma {:induction false} NothingMissed(env: Env, ws: seq<World>, ls: seq<Label>)
    requires GoodEnv(env) && TrackerRun(env, ws, ls) && ws[0].missed == {} && NoneMissed(env, ws, ls)
    ensures ws[|ls|].missed == {}
    decreases |ls|
  {
    hide MissedIn, Flagged, AfterZero, CountsExtra, Selected, FullyMapped, KeepsMapping, ScanBuffer, ReadLogical;
    hide Refreshed, NextChunk;
    if ls != [] {
      var n := |ls| - 1;
      NothingMissed(env, ws[..n + 1], ls[..n]);
      assert TrackerStep(env, ws[n], ls[n], ws[n + 1]) && MissedIn(env, ws[n], ls[n]) == {};
    }
  }

  /** So in every run in which no step misses a record, a rescan at rest changes nothing. */
  lemma CarefulRunsAgree(env: Env, ws: seq<World>, ls: seq<Label>)
    requires GoodEnv(env) && TrackerRun(env, ws, ls) && TrackerInv(env, ws[0]) && AtRest(ws[|ls|])
    requires ws[0].missed == {} && NoneMissed(env, ws, ls)
    ensures Rescan(env, ws[|ls|].st, ws[|ls|].view) == ws[|ls|].st
  {
    hide NoneMissed, TrackerRun, TrackerInv, Rescan;
    NothingMissed(env, ws, ls);
    IncrementalEqualsRescan(env, ws, ls, [], []);
  }

  lemma FreshMeans(env: Env, runs: seq<NTFSRun>, records: map<nat, NTFSRecord>, view: seq<byte>, id: nat)
    ensures Fresh(env, runs, records, view, id)
      <==> Apply(env, Lookup(records, id), DecodedNow(env, runs, view, id)) == Lookup(records, id)
  {
  }

  lemma SameLookupsSameMap(a: map<nat, NTFSRecord>, b: map<nat, NTFSRecord>)
    requires forall id: nat :: Lookup(a, id) == Lookup(b, id)
    ensures a == b
  {
    forall id: nat ensures id in a <==> id in b
      ensures id in a ==> a[id] == b[id]
    {
      assert Lookup(a, id) == Lookup(b, id);
    }
  }
}
