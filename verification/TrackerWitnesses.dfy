/** Runs that show where the tracker stops short of a rescan: a write that falls between the scan of a new
    $MFT tail and its publication is missed, a read that returns the bytes from before the very write it is to
    find is not repeated, and a record that moves inside the $MFT is refreshed in the wrong place. The runs
    hold for every decoder that takes the records they name for what they are said to be. */
module TrackerWitnesses {
  import opened Disk
  import opened Ranges
  import opened Runlist
  import opened MFTMap
  import opened MFTIndex
  import opened FileRanges
  import opened Ntfs
  import opened Tracker

  /** Eight clusters of 512 bytes, and records of the same size. */
  const GEOMETRY := Geometry(0, 4096, 512, 8, 512)

  /** As record 0 the bytes say that the $MFT has these runs and this size. */
  ghost predicate Names(env: Env, data: seq<byte>, runs: seq<NTFSRun>, size: nat) {
    var d := env.decode(0, data);
    d.Record? && FirstPlainData(d.attrs).Some? && NewLayout([], 0, d) == (runs, size)
  }

  /** Records of 512 bytes lie at multiples of 512. */
  lemma Records(id: nat)
    ensures RecordStart(GEOMETRY, id) == 512 * id && RecordIndex(GEOMETRY, 512 * id) == id
    ensures RecordCount(GEOMETRY, 512 * id) == id
    ensures forall l: nat :: InRecord(GEOMETRY, id, l) <==> 512 * id <= l < 512 * id + 512
  {
  }

  /** What is read of a record that lies in one piece. */
  lemma ReadPiece(runs: seq<NTFSRun>, view: seq<byte>, id: nat, at: nat)
    requires Contiguous(runs, 0) && at + 512 <= |view|
    requires forall l :: 512 * id <= l < 512 * id + 512 ==> Physical(GEOMETRY, runs, l) == at + l - 512 * id
    ensures ReadRuns(GEOMETRY, runs, view, RecordStart(GEOMETRY, id), 512) == Bytes(view[at..at + 512])
  {
    hide ReadRuns, Physical;
    Records(id);
    var pos := 512 * id;
    ReadRunsIsBytewise(GEOMETRY, runs, view, pos, 512);
    var r := ReadRuns(GEOMETRY, runs, view, pos, 512);
    assert Readable(GEOMETRY, runs, |view|, pos, 512);
    forall i | 0 <= i < 512 ensures r.data[i] == view[at..at + 512][i] {
      assert r.data[(pos + i) - pos] == view[Physical(GEOMETRY, runs, pos + i)];
    }
    assert r.data == view[at..at + 512];
  }

  // ---------- An $MFT of n records from cluster 4 on ----------

  function Run(n: nat): seq<NTFSRun> {
    [NTFSRun(0, n, 4, false)]
  }

  lemma RunMaps(n: nat, l: nat)
    requires n > 0
    ensures Contiguous(Run(n), 0)
    ensures Physical(GEOMETRY, Run(n), l) == if l < 512 * n then 2048 + l else -1
  {
    assert Run(n)[1..] == [];
  }

  lemma RunIsMapped(n: nat, diskSize: nat)
    requires n > 0 && 2048 + 512 * n <= diskSize
    ensures FullyMapped(GEOMETRY, Run(n), 512 * n, diskSize)
    ensures WholeRecordCount(GEOMETRY, 512 * n) == n
  {
    Records(n);
    RunMaps(n, 0);
    forall l: nat | l < 512 * n ensures 0 <= Physical(GEOMETRY, Run(n), l) < diskSize {
      RunMaps(n, l);
    }
  }

  lemma RunReads(env: Env, n: nat, view: seq<byte>, id: nat)
    requires env.g == GEOMETRY && id < n && 2048 + 512 * n <= |view|
    ensures var at := 2048 + 512 * id;
      && ReadRuns(GEOMETRY, Run(n), view, RecordStart(GEOMETRY, id), 512) == Bytes(view[at..at + 512])
      && DecodedNow(env, Run(n), view, id) == env.decode(id, view[at..at + 512])
  {
    hide ReadRuns, Physical;
    RunMaps(n, 0);
    forall l: nat | 512 * id <= l < 512 * id + 512 ensures Physical(GEOMETRY, Run(n), l) == 2048 + l {
      RunMaps(n, l);
    }
    ReadPiece(Run(n), view, id, 2048 + 512 * id);
  }

  lemma RunReadsZero(env: Env, n: nat, view: seq<byte>)
    requires env.g == GEOMETRY && 0 < n && 2048 + 512 * n <= |view|
    ensures ReadRecordFn(env, Run(n), 512 * n, view, 0) == env.decode(0, view[2048..2560])
  {
    hide ReadRuns, DecodedNow;
    Records(0);
    Records(n);
    RunReads(env, n, view, 0);
  }

  /** A write of the id-th cluster of the $MFT touches record id and no other. */
  lemma ClusterTouches(n: nat, k: nat, id: nat)
    requires k < n
    ensures TouchesRecord(GEOMETRY, Run(n), 2048 + 512 * k, 2560 + 512 * k, id) <==> id == k
  {
    var start, end := 2048 + 512 * k, 2560 + 512 * k;
    RunMaps(n, 0);
    Records(id);
    TouchesRecordMeans(GEOMETRY, Run(n), start, end, id);
    forall l: nat, p: nat ensures MapsTo(GEOMETRY, Run(n), l, p) <==> p == 2048 + l && l < 512 * n {
      RunMaps(n, l);
      PhysicalIsTheMap(GEOMETRY, Run(n), l, p);
    }
    if id == k {
      assert InRecord(GEOMETRY, id, 512 * k) && MapsTo(GEOMETRY, Run(n), 512 * k, start);
    }
  }

  lemma RunBytesAre(n: nat, x: nat)
    requires n > 0
    ensures MFTByte(GEOMETRY, Run(n), 512 * n, x) <==> 2048 <= x < 2048 + 512 * n
  {
    RunMaps(n, 0);
    RangesAreOccupied(GEOMETRY, Run(n), 512 * n, x);
    if 2048 <= x < 2048 + 512 * n {
      RunMaps(n, x - 2048);
      assert OccupiesAt(GEOMETRY, Run(n), 512 * n, x - 2048, x);
    }
    forall l: nat | OccupiesAt(GEOMETRY, Run(n), 512 * n, l, x) ensures x == 2048 + l {
      RunMaps(n, l);
    }
  }

  /** It is flagged when the published $MFT reaches that far. */
  lemma ClusterFlagged(env: Env, n: nat, k: nat)
    requires env.g == GEOMETRY && 0 < n
    ensures Flagged(env, Layout(Run(n), 512 * n), 2048 + 512 * k, 2560 + 512 * k) <==> k < n
  {
    hide MFTByte;
    var start, end := 2048 + 512 * k, 2560 + 512 * k;
    forall x: nat ensures MFTByte(GEOMETRY, Run(n), 512 * n, x) <==> 2048 <= x < 2048 + 512 * n {
      RunBytesAre(n, x);
    }
    if k < n {
      assert start <= start < end && MFTByte(env.g, Run(n), 512 * n, start);
    }
  }

  // ---------- The disks of the first two runs ----------

  /** Four clusters in front of the $MFT, record 0 naming one record and naming two, record 1 blank and in use,
      and the rest of the disk. */
  datatype Parts = Parts(
    boot: seq<byte>, one: seq<byte>, two: seq<byte>, blank: seq<byte>, used: seq<byte>, rest: seq<byte>)

  ghost predicate Decodes(env: Env, p: Parts) {
    && GoodEnv(env) && env.g == GEOMETRY
    && |p.boot| == 2048 && |p.one| == |p.two| == |p.blank| == |p.used| == 512 && |p.rest| == 1024
    && Names(env, p.one, Run(1), 512) && Names(env, p.two, Run(2), 1024)
    && env.decode(1, p.blank).Undecodable?
    && env.decode(1, p.used).Record? && env.decode(1, p.used).info.inUse
  }

  ghost function DiskOf(p: Parts, zero: seq<byte>, first: seq<byte>): (view: seq<byte>)
    requires |p.boot| == 2048 && |zero| == |first| == 512 && |p.rest| == 1024
    ensures |view| == 4096 && view[2048..2560] == zero && view[2560..3072] == first
  {
    var view := p.boot + zero + first + p.rest;
    assert view[2048..2560] == zero && view[2560..3072] == first;
    view
  }

  lemma DisksDiffer(p: Parts, zero: seq<byte>, first: seq<byte>, zero': seq<byte>, first': seq<byte>)
    requires |p.boot| == 2048 && |zero| == |first| == |zero'| == |first'| == 512 && |p.rest| == 1024
    ensures first == first' ==> SameOutside(DiskOf(p, zero, first), DiskOf(p, zero', first'), 2048, 2560)
    ensures zero == zero' ==> SameOutside(DiskOf(p, zero, first), DiskOf(p, zero', first'), 2560, 3072)
  {
  }

  /** The tracker of the first n records, just started. */
  lemma StartIsGood(env: Env, p: Parts, n: nat, zero: seq<byte>)
    requires Decodes(env, p) && 1 <= n <= 2
    requires |zero| == 512 && Names(env, zero, Run(n), 512 * n)
    ensures TrackerInv(env, Started(env, Run(n), 512 * n, DiskOf(p, zero, p.blank)))
    ensures 1 !in Started(env, Run(n), 512 * n, DiskOf(p, zero, p.blank)).st.records
  {
    hide ScanRecords, ScanReadable, FullyMapped, DecodedNow, DiskOf;
    var view := DiskOf(p, zero, p.blank);
    RunIsMapped(n, 4096);
    RunReads(env, n, view, 0);
    FirstScanFresh(env, Run(n), 512 * n, view);
    var records := Started(env, Run(n), 512 * n, view).st.records;
    ScanEffect(env, Run(n), 512 * n, view, map[], 0, n, 1);
    if n == 2 {
      RunReads(env, n, view, 1);
    }
    LookupSome(records, 1);
  }

  /** At rest over two records, of which the tracker lacks the second although it is in use. */
  lemma RescanFinds(env: Env, p: Parts, w: World)
    requires Decodes(env, p) && w.view == DiskOf(p, p.two, p.used)
    requires LayoutOf(w.st) == Layout(Run(2), 1024) && 1 !in w.st.records
    ensures 1 in Rescan(env, w.st, w.view).records && Rescan(env, w.st, w.view) != w.st
  {
    hide ScanRecords, ScanReadable, ReadRuns, DecodedNow, FullyMapped, ReadRecordFn, DiskOf;
    RunIsMapped(2, 4096);
    RunReadsZero(env, 2, w.view);
    RunReads(env, 2, w.view, 1);
    ScanEffect(env, Run(2), 1024, w.view, w.st.records, 0, 2, 1);
    LookupSome(w.st.records, 1);
    LookupSome(Rescan(env, w.st, w.view).records, 1);
  }

  // ---------- A write between scan and publication ----------

  ghost function A0(env: Env, p: Parts): World
    requires Decodes(env, p)
  {
    Started(env, Run(1), 512, DiskOf(p, p.one, p.blank))
  }

  /** Write A replaces record 0 and is flagged. */
  ghost function A2(env: Env, p: Parts): World
    requires Decodes(env, p)
  {
    A0(env, p).(view := DiskOf(p, p.two, p.blank), pending := [ByteRange(2048, 2560)])
  }

  /** It is taken up, and record 0 read. */
  ghost function A3(env: Env, p: Parts): World
    requires Decodes(env, p)
  {
    var w := A2(env, p);
    w.(st := AfterZero(env, w.st, w.view, 2048, 2560), pending := [], phase := Scanning({}, 1))
  }

  /** The new tail has been scanned. */
  ghost function A4(env: Env, p: Parts): World
    requires Decodes(env, p)
  {
    var w := A3(env, p);
    w.(st := w.st.(records := ScanBuffer(env, w.st.records, p.blank, 1, 1)), phase := Scanning({}, 2))
  }

  /** Write B puts record 1 on the disk and is rejected. */
  ghost function A6(env: Env, p: Parts): World
    requires Decodes(env, p)
  {
    var w := A4(env, p).(view := DiskOf(p, p.two, p.used), unjudged := Some(ByteRange(2560, 3072)));
    w.(unjudged := None, missed := w.missed + MissedIn(env, w, Judge))
  }

  ghost function A8(env: Env, p: Parts): World
    requires Decodes(env, p)
  {
    A6(env, p).(pub := LayoutOf(A6(env, p).st), phase := Idle)
  }

  /** A read returns what the disk holds, so nothing is stale. */
  lemma NoneStale(env: Env, w: World, from: nat, to: nat)
    requires env.g.recordSize > 0
    ensures StaleReads(env, w, w.view, from, to) == {}
  {
  }

  /** Record 0 is read and the $MFT found to have two records. */
  lemma BeginsA(env: Env, p: Parts)
    requires Decodes(env, p)
    ensures BeginStep(env, A2(env, p), A2(env, p).view, {}, 1, A3(env, p))
    ensures LayoutOf(A3(env, p).st) == Layout(Run(2), 1024)
    ensures Lookup(A3(env, p).st.records, 1) == Lookup(A0(env, p).st.records, 1)
  {
    hide ReadRuns, DecodedNow, Physical, ScanRecords, DiskOf, TouchesRecord;
    var w := A2(env, p);
    RunReadsZero(env, 1, w.view);
    forall id: nat
      ensures TouchesRecord(GEOMETRY, Run(1), 2048, 2560, id) <==> id == 0
      ensures TouchesRecord(GEOMETRY, Run(2), 2048, 2560, id) <==> id == 0
    {
      ClusterTouches(1, 0, id);
      ClusterTouches(2, 0, id);
    }
    assert LayoutOf(A3(env, p).st) == Layout(Run(2), 1024);
    var one: set<nat> := {0};
    assert |one| == 1 && AreTouched(GEOMETRY, Run(2), 2048, 2560, one);
    NoneStale(env, w.(pending := []), 0, 1);
    assert w.pending[1..] == [];
    RunIsMapped(1, 4096);
    RunIsMapped(2, 4096);
    forall l: nat | l < 512 ensures Physical(GEOMETRY, Run(2), l) == Physical(GEOMETRY, Run(1), l) {
      RunMaps(1, l);
      RunMaps(2, l);
    }
    hide StaleReads, ReadRecordFn;
  }

  lemma BlankChunk(env: Env, records: map<nat, NTFSRecord>, buf: seq<byte>)
    requires env.g == GEOMETRY && |buf| == 512 && env.decode(1, buf).Undecodable?
    ensures Lookup(ScanBuffer(env, records, buf, 1, 1), 1) == Lookup(records, 1)
  {
    assert Slice(GEOMETRY, buf, 0) == buf;
    assert ScanBuffer(env, records, buf, 1, 0) == records;
  }

  lemma TailReads(env: Env, view: seq<byte>)
    requires env.g == GEOMETRY && |view| == 4096
    ensures ChunkRecords(GEOMETRY, 1, 2) == 1
    ensures ReadLogical(GEOMETRY, Run(2), 1024, view, RecordStart(GEOMETRY, 1), RecordStart(GEOMETRY, 1))
      == Bytes(view[2560..3072])
  {
    hide ReadRuns, DecodedNow;
    Records(1);
    RunReads(env, 2, view, 1);
  }

  lemma OneChunk(env: Env, w: World, buf: seq<byte>, w': World)
    requires env.g == GEOMETRY && w.phase == Scanning({}, 1) && WholeRecordCount(GEOMETRY, w.st.size) == 2
    requires ChunkRecords(GEOMETRY, 1, 2) == 1
    requires ReadLogical(GEOMETRY, w.st.runs, w.st.size, w.view, RecordStart(GEOMETRY, 1), RecordStart(GEOMETRY, 1))
      == Bytes(buf)
    requires w' == w.(st := w.st.(records := ScanBuffer(env, w.st.records, buf, 1, 1)), phase := Scanning({}, 2))
    ensures ScanStep(env, w, w.view, w')
  {
    hide ScanBuffer, WholeRecordCount, ReadLogical, ChunkRecords, RecordStart, StaleReads;
    NoneStale(env, w, 1, 2);
  }

  /** The new tail is read while it is still blank. */
  lemma ScansBlank(env: Env, p: Parts)
    requires Decodes(env, p) && LayoutOf(A3(env, p).st) == Layout(Run(2), 1024)
    ensures ScanStep(env, A3(env, p), A3(env, p).view, A4(env, p))
    ensures Lookup(A4(env, p).st.records, 1) == Lookup(A3(env, p).st.records, 1)
  {
    RunIsMapped(2, 4096);
    TailReads(env, A3(env, p).view);
    BlankChunk(env, A3(env, p).st.records, p.blank);
    hide AfterZero, ScanRecords, FullyMapped, ScanBuffer, DiskOf, WholeRecordCount, ReadLogical, ChunkRecords, Started;
    hide RecordStart, ScanStep;
    OneChunk(env, A3(env, p), p.blank, A4(env, p));
  }

  /** Write A to record 0 grows the $MFT and is being observed; its new tail, record 1, has been scanned and
      found blank; write B puts record 1 on the disk, is judged by the ranges still published, and is rejected;
      then the new ranges are published. Nothing is waiting any more, but a rescan finds record 1. */
  lemma WriteBetweenScanAndPublish(env: Env, p: Parts) returns (ws: seq<World>, ls: seq<Label>)
    requires Decodes(env, p)
    ensures TrackerRun(env, ws, ls) && ws[0] == Started(env, Run(1), 512, DiskOf(p, p.one, p.blank))
    ensures TrackerInv(env, ws[0]) && AtRest(ws[|ls|]) && ws[|ls|].view == DiskOf(p, p.two, p.used)
    ensures forall i :: 0 <= i < |ls| && ls[i].Begin? ==> ls[i].seen == ws[i].view
    ensures forall i :: 0 <= i < |ls| && ls[i].Scan? ==> ls[i].seen == ws[i].view
    ensures var w := ws[|ls|];
      1 !in w.st.records && 1 in Rescan(env, w.st, w.view).records && Rescan(env, w.st, w.view) != w.st
  {
    hide DiskOf;
    StartIsGood(env, p, 1, p.one);
    BeginsA(env, p);
    ScansBlank(env, p);
    LookupSome(A0(env, p).st.records, 1);
    LookupSome(A8(env, p).st.records, 1);
    RescanFinds(env, p, A8(env, p));
    ws, ls := RejectedRun(env, p);
  }

  lemma RejectedRun(env: Env, p: Parts) returns (ws: seq<World>, ls: seq<Label>)
    requires Decodes(env, p)
    requires BeginStep(env, A2(env, p), A2(env, p).view, {}, 1, A3(env, p))
    requires ScanStep(env, A3(env, p), A3(env, p).view, A4(env, p))
    requires LayoutOf(A3(env, p).st) == Layout(Run(2), 1024)
    ensures TrackerRun(env, ws, ls) && ws[0] == A0(env, p) && ws[|ls|] == A8(env, p)
    ensures forall i :: 0 <= i < |ls| && (ls[i].Begin? || ls[i].Scan?) ==> ls[i].seen == ws[i].view
    ensures forall i :: 0 <= i < |ls| ==> !ls[i].RefreshOne?
  {
    hide BeginStep, ScanStep, Flagged, AfterZero, ScanBuffer, MissedIn, ScanRecords, DiskOf, WholeRecordCount;
    hide RefreshStep, Names;
    RunIsMapped(2, 4096);
    ClusterFlagged(env, 1, 0);
    ClusterFlagged(env, 1, 1);
    DisksDiffer(p, p.one, p.blank, p.two, p.blank);
    DisksDiffer(p, p.two, p.blank, p.two, p.used);
    var a0, a2, a3, a4, a6, a8 := A0(env, p), A2(env, p), A3(env, p), A4(env, p), A6(env, p), A8(env, p);
    var a1 := a0.(view := a2.view, unjudged := Some(ByteRange(2048, 2560)));
    var a5 := a4.(view := a6.view, unjudged := Some(ByteRange(2560, 3072)));
    var a7 := a6.(phase := Refreshing({}));
    ws := [a0, a1, a2, a3, a4, a5, a6, a7, a8];
    ls := [Stage(2048, 2560), Judge, Begin(a2.view, {}, 1), Scan(a3.view), Stage(2560, 3072), Judge, EndScan, Publish];
    assert TrackerStep(env, a0, ls[0], a1);
    assert a0.pending + [ByteRange(2048, 2560)] == a2.pending;
    assert TrackerStep(env, a1, ls[1], a2);
    assert TrackerStep(env, a2, ls[2], a3);
    assert TrackerStep(env, a3, ls[3], a4);
    assert TrackerStep(env, a4, ls[4], a5);
    assert TrackerStep(env, a5, ls[5], a6);
    assert TrackerStep(env, a6, ls[6], a7);
    assert TrackerStep(env, a7, ls[7], a8);
  }

  // ---------- A read from before the write it is to find ----------

  ghost function B0(env: Env, p: Parts): World
    requires Decodes(env, p)
  {
    Started(env, Run(2), 1024, DiskOf(p, p.two, p.blank))
  }

  ghost function B2(env: Env, p: Parts): World
    requires Decodes(env, p)
  {
    B0(env, p).(view := DiskOf(p, p.two, p.used), pending := [ByteRange(2560, 3072)])
  }

  ghost function B3(env: Env, p: Parts): World
    requires Decodes(env, p)
  {
    B2(env, p).(pending := [], phase := Scanning({1}, 2))
  }

  /** The refresh of record 1 finds it as it was before the write. */
  ghost function B5(env: Env, p: Parts): World
    requires Decodes(env, p)
  {
    var w := B3(env, p).(phase := Refreshing({1}));
    var seen := DiskOf(p, p.two, p.blank);
    w.(st := w.st.(records := Store(w.st.records, 1, Refreshed(env, w.st, seen, true, 1))), phase := Refreshing({}),
       missed := w.missed - {1} + MissedIn(env, w, RefreshOne(seen, 1)))
  }

  ghost function B6(env: Env, p: Parts): World
    requires Decodes(env, p)
  {
    B5(env, p).(pub := LayoutOf(B5(env, p).st), phase := Idle)
  }

  lemma BeginsB(env: Env, p: Parts)
    requires Decodes(env, p)
    ensures BeginStep(env, B2(env, p), B2(env, p).view, {1}, 0, B3(env, p))
    ensures WholeRecordCount(GEOMETRY, 1024) == 2
  {
    hide ScanRecords, DiskOf, TouchesRecord, FullyMapped, Physical;
    forall id: nat ensures TouchesRecord(GEOMETRY, Run(2), 2560, 3072, id) <==> id == 1 {
      ClusterTouches(2, 1, id);
    }
    RunIsMapped(2, 4096);
    assert B2(env, p).pending[1..] == [];
  }

  lemma FindsBlank(env: Env, p: Parts)
    requires Decodes(env, p)
    ensures Lookup(B5(env, p).st.records, 1) == Lookup(B0(env, p).st.records, 1)
  {
    hide ScanRecords, ReadRuns, DecodedNow, ReadRecordFn, DiskOf;
    var seen := DiskOf(p, p.two, p.blank);
    RunIsMapped(2, 4096);
    RunReads(env, 2, seen, 1);
    ReadWhole(env, Run(2), 1024, seen, 1);
    Records(2);
  }

  /** The write that fills record 1 is flagged and observed, but the read that is to find it returns the bytes
      from before it. Nothing is waiting any more, and a rescan finds record 1. Witnesses.ObservedReadGoesStale
      is such a read. */
  lemma ReadFromBeforeTheWrite(env: Env, p: Parts) returns (ws: seq<World>, ls: seq<Label>)
    requires Decodes(env, p)
    ensures TrackerRun(env, ws, ls) && ws[0] == Started(env, Run(2), 1024, DiskOf(p, p.two, p.blank))
    ensures TrackerInv(env, ws[0]) && AtRest(ws[|ls|]) && ws[|ls|].view == DiskOf(p, p.two, p.used)
    ensures forall i :: 0 <= i < |ls| && ls[i].RefreshOne? ==> ls[i].seen == DiskOf(p, p.two, p.blank)
    ensures var w := ws[|ls|];
      1 !in w.st.records && 1 in Rescan(env, w.st, w.view).records && Rescan(env, w.st, w.view) != w.st
  {
    hide DiskOf;
    StartIsGood(env, p, 2, p.two);
    BeginsB(env, p);
    FindsBlank(env, p);
    LookupSome(B0(env, p).st.records, 1);
    LookupSome(B6(env, p).st.records, 1);
    RescanFinds(env, p, B6(env, p));
    ws, ls := StaleRun(env, p);
  }

  lemma StaleRun(env: Env, p: Parts) returns (ws: seq<World>, ls: seq<Label>)
    requires Decodes(env, p) && BeginStep(env, B2(env, p), B2(env, p).view, {1}, 0, B3(env, p))
    requires WholeRecordCount(GEOMETRY, 1024) == 2
    ensures TrackerRun(env, ws, ls) && ws[0] == B0(env, p) && ws[|ls|] == B6(env, p)
    ensures forall i :: 0 <= i < |ls| && ls[i].RefreshOne? ==> ls[i].seen == DiskOf(p, p.two, p.blank)
  {
    hide BeginStep, Flagged, MissedIn, ScanRecords, DiskOf, WholeRecordCount, Refreshed, Names, ScanStep;
    ClusterFlagged(env, 2, 1);
    DisksDiffer(p, p.two, p.blank, p.two, p.used);
    var b0, b2, b3, b5, b6 := B0(env, p), B2(env, p), B3(env, p), B5(env, p), B6(env, p);
    var b1 := b0.(view := b2.view, unjudged := Some(ByteRange(2560, 3072)));
    var b4 := b3.(phase := Refreshing({1}));
    var seen := DiskOf(p, p.two, p.blank);
    ws := [b0, b1, b2, b3, b4, b5, b6];
    ls := [Stage(2560, 3072), Judge, Begin(b2.view, {1}, 0), EndScan, RefreshOne(seen, 1), Publish];
    assert TrackerStep(env, b0, ls[0], b1);
    assert b0.pending + [ByteRange(2560, 3072)] == b2.pending;
    assert TrackerStep(env, b1, ls[1], b2);
    assert TrackerStep(env, b2, ls[2], b3);
    assert TrackerStep(env, b3, ls[3], b4);
    assert {1 as nat} - {1} == {};
    assert TrackerStep(env, b4, ls[4], b5);
    assert TrackerStep(env, b5, ls[5], b6);
  }

  // ---------- A record that moves ----------

  /** Three records from cluster 4 on; record 2 lies in the last cluster first and in the one behind record 0
      later. */
  function OldPlace(): seq<NTFSRun> {
    [NTFSRun(0, 1, 4, false), NTFSRun(1, 2, 6, false)]
  }

  function NewPlace(): seq<NTFSRun> {
    [NTFSRun(0, 1, 4, false), NTFSRun(1, 1, 6, false), NTFSRun(2, 1, 5, false)]
  }

  lemma PlacesAreContiguous()
    ensures Contiguous(OldPlace(), 0) && Contiguous(NewPlace(), 0)
  {
    var old1 := [NTFSRun(1, 2, 6, false)];
    assert OldPlace()[1..] == old1 && old1[1..] == [];
    var new1, new2 := [NTFSRun(1, 1, 6, false), NTFSRun(2, 1, 5, false)], [NTFSRun(2, 1, 5, false)];
    assert NewPlace()[1..] == new1 && new1[1..] == new2 && new2[1..] == [];
    assert Contiguous([], 3) && Contiguous(new2, 2) && Contiguous(new1, 1) && Contiguous(old1, 1);
  }

  /** A run's place in bytes. */
  lemma InBytes(vcn: nat, n: nat, lcn: nat)
    ensures var run := NTFSRun(vcn, n, lcn, false);
      && RunStart(GEOMETRY, run) == 512 * vcn && RunBytes(GEOMETRY, run) == 512 * n
      && Mapped(run) && RunPhysical(GEOMETRY, run) == 512 * lcn
  {
  }

  lemma OldMaps(l: nat)
    ensures Contiguous(OldPlace(), 0)
    ensures Physical(GEOMETRY, OldPlace(), l) == if l < 512 then 2048 + l else if l < 1536 then 2560 + l else -1
  {
    hide FirstRun, Contiguous, RunStart, RunBytes, RunPhysical, Mapped;
    PlacesAreContiguous();
    InBytes(0, 1, 4);
    InBytes(1, 2, 6);
    FirstRunIs(GEOMETRY, OldPlace(), l, if l < 512 then 0 else if l < 1536 then 1 else 2);
  }

  lemma NewMaps(l: nat)
    ensures Contiguous(NewPlace(), 0)
    ensures Physical(GEOMETRY, NewPlace(), l)
      == if l < 512 then 2048 + l else if l < 1024 then 2560 + l else if l < 1536 then 1536 + l else -1
  {
    hide FirstRun, Contiguous, RunStart, RunBytes, RunPhysical, Mapped;
    PlacesAreContiguous();
    InBytes(0, 1, 4);
    InBytes(1, 1, 6);
    InBytes(2, 1, 5);
    FirstRunIs(GEOMETRY, NewPlace(), l, if l < 512 then 0 else if l < 1024 then 1 else if l < 1536 then 2 else 3);
  }

  /** A write to clusters 4 and 5 touches record 0 in the old layout, and records 0 and 2 in the new. */
  lemma MoveTouches(id: nat)
    ensures TouchesRecord(GEOMETRY, OldPlace(), 2048, 3072, id) <==> id == 0
    ensures TouchesRecord(GEOMETRY, NewPlace(), 2048, 3072, id) <==> id == 0 || id == 2
  {
    OldMaps(0);
    NewMaps(0);
    Records(id);
    TouchesRecordMeans(GEOMETRY, OldPlace(), 2048, 3072, id);
    TouchesRecordMeans(GEOMETRY, NewPlace(), 2048, 3072, id);
    forall l: nat, p: nat
      ensures MapsTo(GEOMETRY, OldPlace(), l, p) <==> p == Physical(GEOMETRY, OldPlace(), l)
      ensures MapsTo(GEOMETRY, NewPlace(), l, p) <==> p == Physical(GEOMETRY, NewPlace(), l)
    {
      PhysicalIsTheMap(GEOMETRY, OldPlace(), l, p);
      PhysicalIsTheMap(GEOMETRY, NewPlace(), l, p);
    }
    hide Physical, MapsTo;
    forall l: nat
      ensures 2048 <= Physical(GEOMETRY, OldPlace(), l) < 3072 <==> l < 512
      ensures 2048 <= Physical(GEOMETRY, NewPlace(), l) < 3072 <==> l < 512 || 1024 <= l < 1536
    {
      OldMaps(l);
      NewMaps(l);
    }
    var l := 512 * id;
    assert InRecord(GEOMETRY, id, l);
    if id == 0 || id == 2 {
      var p: nat := Physical(GEOMETRY, NewPlace(), l);
      assert MapsTo(GEOMETRY, NewPlace(), l, p);
    }
    if id == 0 {
      var p: nat := Physical(GEOMETRY, OldPlace(), l);
      assert MapsTo(GEOMETRY, OldPlace(), l, p);
    }
  }

  lemma TwoTouched(n: nat)
    requires NumbersTouched(GEOMETRY, NewPlace(), 2048, 3072, n)
    ensures n == 2
  {
    hide TouchesRecord;
    var ids: set<nat> :| |ids| == n && AreTouched(GEOMETRY, NewPlace(), 2048, 3072, ids);
    forall id: nat ensures TouchesRecord(GEOMETRY, NewPlace(), 2048, 3072, id) <==> id == 0 || id == 2 {
      MoveTouches(id);
    }
    var both: set<nat> := {0, 2};
    assert ids == both;
  }

  /** One write to clusters 4 and 5 says in record 0 that record 2 now lies there, and puts it there with other
      contents. Both layouts then count two touched records, so records 0 and 1 are refreshed, and record 2
      stays what it was before, whatever else the disk holds. */
  lemma MovedRecordStaysStale(
    env: Env, st: TrackState, before: seq<byte>, after: seq<byte>, extra: nat, t: TrackState)
    requires GoodEnv(env) && env.g == GEOMETRY && |before| == 4096 && SameOutside(before, after, 2048, 3072)
    requires Names(env, after[2048..2560], NewPlace(), 1536)
    requires st.runs == OldPlace() && st.size == 1536
    requires var r := Lookup(st.records, 2);
      Apply(env, r, env.decode(2, before[3584..4096])) == r != Apply(env, r, env.decode(2, after[2560..3072]))
    requires Observed(env, st, Views(after, _ => after, _ => after), 2048, 3072, extra, t)
    ensures Fresh(env, st.runs, st.records, before, 2)
    ensures t.runs == NewPlace() && TouchesRecord(GEOMETRY, t.runs, 2048, 3072, 2)
    ensures !Fresh(env, t.runs, t.records, after, 2)
  {
    hide ReadRuns, DecodedNow, Physical, NumbersTouched, TouchesRecord, Apply, Lookup;
    MovedReads(env, before, after);
    MoveTouches(0);
    MoveTouches(2);
    Records(3);
    Records(0);
    assert ReadRecordFn(env, st.runs, st.size, after, 0) == env.decode(0, after[2048..2560]);
    assert AfterZero(env, st, after, 2048, 3072).runs == NewPlace();
    TwoTouched(extra);
    assert !Selected(env, st, 2048, 3072, extra, 2);
    assert Lookup(t.records, 2) == ObservedRecord(env, st, Views(after, _ => after, _ => after), 2048, 3072, extra, 2);
    ZeroEffect(env, st, after, 2048, 3072, 2);
    assert Lookup(t.records, 2) == Lookup(st.records, 2);
  }

  lemma MovedReads(env: Env, before: seq<byte>, after: seq<byte>)
    requires env.g == GEOMETRY && |before| == |after| == 4096
    ensures ReadRuns(GEOMETRY, OldPlace(), after, 0, 512) == Bytes(after[2048..2560])
    ensures DecodedNow(env, OldPlace(), before, 2) == env.decode(2, before[3584..4096])
    ensures DecodedNow(env, NewPlace(), after, 2) == env.decode(2, after[2560..3072])
  {
    hide ReadRuns, Physical;
    forall l: nat
      ensures l < 512 ==> Physical(GEOMETRY, OldPlace(), l) == 2048 + l
      ensures 1024 <= l < 1536 ==> Physical(GEOMETRY, OldPlace(), l) == 2560 + l
      ensures 1024 <= l < 1536 ==> Physical(GEOMETRY, NewPlace(), l) == 1536 + l
    {
      OldMaps(l);
      NewMaps(l);
    }
    OldMaps(0);
    NewMaps(0);
    Records(0);
    ReadPiece(OldPlace(), after, 0, 2048);
    ReadPiece(OldPlace(), before, 2, 3584);
    ReadPiece(NewPlace(), after, 2, 2560);
  }
}
