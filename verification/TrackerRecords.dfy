/** What the tracker remembers, told by the bytes of the $MFT alone: at rest, after a run that missed nothing, a
    record is remembered if and only if its bytes decode to one in use. */
module TrackerRecords {
  import opened Disk
  import opened Ranges
  import opened Runlist
  import opened MFTMap
  import opened MFTIndex
  import opened FileRanges
  import opened Ntfs
  import opened Tracker

  // ---------- One record ----------

  /** What is held of record id is what d says: nothing of a record not in use, and otherwise the record with the
      ranges of its attributes. */
  ghost predicate HeldAs(g: Geometry, records: map<nat, NTFSRecord>, id: nat, d: Decoded)
    requires d.Record?
  {
    && (id in records <==> d.info.inUse)
    && (id in records ==> records[id] == d.info.(dataRanges := DataRangesOf(g, d.info, d.attrs)))
  }

  lemma FreshIsHeld(env: Env, runs: seq<NTFSRun>, records: map<nat, NTFSRecord>, view: seq<byte>, id: nat)
    requires DecodedNow(env, runs, view, id).Record?
    ensures Fresh(env, runs, records, view, id) <==> HeldAs(env.g, records, id, DecodedNow(env, runs, view, id))
  {
    hide DataRangesOf, RecordBytes;
  }

  // ---------- The $MFT's own layout ----------

  ghost predicate FirstPlainAt(attrs: seq<NTFSAttribute>, i: nat) {
    i < |attrs| && PlainData(attrs[i]) && forall j :: 0 <= j < i ==> !PlainData(attrs[j])
  }

  /** The layout is the one in the first plain $DATA attribute: its runs, and its real size or, where that is 0,
      its allocated size. */
  ghost predicate LaidOutAs(attrs: seq<NTFSAttribute>, l: Layout) {
    forall i: nat :: FirstPlainAt(attrs, i) ==>
      && l.runs == attrs[i].runs
      && (attrs[i].realSize > 0 ==> l.size == attrs[i].realSize)
      && (attrs[i].realSize == 0 ==> l.size == attrs[i].allocatedSize)
  }

  lemma {:induction false} FirstPlainIs(attrs: seq<NTFSAttribute>)
    ensures FirstPlainData(attrs).None? ==> forall i :: 0 <= i < |attrs| ==> !PlainData(attrs[i])
    ensures FirstPlainData(attrs).Some? ==>
      exists i: nat :: FirstPlainAt(attrs, i) && attrs[i] == FirstPlainData(attrs).value
  {
    hide PlainData;
    if attrs != [] {
      var rest := attrs[1..];
      FirstPlainIs(rest);
      assert forall i :: 1 <= i < |attrs| ==> attrs[i] == rest[i - 1];
      if PlainData(attrs[0]) {
        assert FirstPlainAt(attrs, 0);
      } else if FirstPlainData(attrs).Some? {
        var i: nat :| FirstPlainAt(rest, i) && rest[i] == FirstPlainData(rest).value;
        assert forall j :: 0 <= j < i + 1 ==> !PlainData(attrs[j]) by {
          assert forall j :: 1 <= j < i + 1 ==> attrs[j] == rest[j - 1];
        }
        assert FirstPlainAt(attrs, i + 1);
      }
    }
  }

  lemma LayoutSaysMeans(env: Env, l: Layout, view: seq<byte>)
    ensures LayoutSays(env, l, view) <==>
      (DecodedNow(env, l.runs, view, 0).Record? ==> LaidOutAs(DecodedNow(env, l.runs, view, 0).attrs, l))
  {
    hide PlainData, RecordBytes;
    var d := DecodedNow(env, l.runs, view, 0);
    if d.Record? {
      FirstPlainIs(d.attrs);
      if FirstPlainData(d.attrs).Some? {
        var i: nat :| FirstPlainAt(d.attrs, i) && d.attrs[i] == FirstPlainData(d.attrs).value;
        assert forall j: nat :: FirstPlainAt(d.attrs, j) ==> j == i;
      } else {
        assert forall j: nat :: !FirstPlainAt(d.attrs, j);
      }
    }
  }

  // ---------- One step ----------

  /** What the bytes that the step read of record id decode to; undecodable, too, if it reads none of it. */
  ghost function ReadBy(env: Env, w: World, l: Label, id: nat): Decoded
    requires env.g.recordSize > 0
  {
    match l
    case Begin(seen, _, _) =>
      if id == 0 && ReadsZero(env, w) then ReadRecordFn(env, w.st.runs, w.st.size, seen, 0) else Undecodable
    case Scan(seen) =>
      if w.phase.Scanning? && w.phase.next <= id < w.phase.next + NextChunk(env, w)
      then ScannedAs(env, w, seen, id) else Undecodable
    case RefreshOne(seen, i) =>
      if i == id then ReadRecordFn(env, w.st.runs, w.st.size, seen, id) else Undecodable
    case _ => Undecodable
  }

  /** What record id's part of the next chunk decodes to. */
  ghost function ScannedAs(env: Env, w: World, seen: seq<byte>, id: nat): Decoded
    requires env.g.recordSize > 0 && w.phase.Scanning? && w.phase.next <= id
  {
    var i, c := w.phase.next, NextChunk(env, w);
    match ReadLogical(env.g, w.st.runs, w.st.size, seen, RecordStart(env.g, i), RecordStart(env.g, c))
    case Unreadable => Undecodable
    case Bytes(buf) => env.decode(id, Slice(env.g, buf, id - i))
  }

  /** The step forgets record id because it starts past the end of the $MFT. */
  ghost predicate Drops(env: Env, w: World, l: Label, id: nat) {
    l.RefreshOne? && l.id == id && id * env.g.recordSize >= w.st.size
  }

  /** Every step does one of three things to a record: it forgets one past the end, it makes of one it read
      what that read decoded to, or it leaves it as it was. */
  ghost predicate Remembers(env: Env, w: World, l: Label, w': World, id: nat)
    requires env.g.recordSize > 0
  {
    var d := ReadBy(env, w, l, id);
    && (Drops(env, w, l, id) ==> id !in w'.st.records)
    && (!Drops(env, w, l, id) && d.Record? ==> HeldAs(env.g, w'.st.records, id, d))
    && (!Drops(env, w, l, id) && d.Undecodable? ==> Lookup(w'.st.records, id) == Lookup(w.st.records, id))
  }

  lemma AppliedIsHeld(env: Env, records: map<nat, NTFSRecord>, r: Option<NTFSRecord>, id: nat, d: Decoded)
    requires Lookup(records, id) == Apply(env, r, d)
    ensures d.Record? ==> HeldAs(env.g, records, id, d)
    ensures d.Undecodable? ==> Lookup(records, id) == r
  {
    hide DataRangesOf;
  }

  lemma StepRemembers(env: Env, w: World, l: Label, w': World, id: nat)
    requires GoodEnv(env) && TrackerStep(env, w, l, w')
    ensures Remembers(env, w, l, w', id)
  {
    hide Apply, HeldAs, ReadRecordFn, ScanBuffer, ReadLogical, CountsExtra, Selected, FullyMapped, KeepsMapping;
    hide AfterZero, MissedIn, TouchesRecord, Flagged, RecordCount, RecordStart, NextChunk, Slice;
    CountMeans(env.g, w.st.size, id);
    match l
    case Begin(seen, _, _) =>
      ZeroEffect(env, w.st, seen, w.pending[0].start, w.pending[0].end, id);
      if id == 0 && ReadsZero(env, w) {
        AppliedIsHeld(env, w'.st.records, Lookup(w.st.records, 0), 0, ReadBy(env, w, l, 0));
      }
    case Scan(seen) =>
      var i, c := w.phase.next, NextChunk(env, w);
      var r := ReadLogical(env.g, w.st.runs, w.st.size, seen, RecordStart(env.g, i), RecordStart(env.g, c));
      if r.Bytes? {
        ScanBufferEffect(env, w.st.records, r.data, i, c, id);
        if i <= id < i + c {
          AppliedIsHeld(env, w'.st.records, Lookup(w.st.records, id), id, ReadBy(env, w, l, id));
        }
      }
    case RefreshOne(seen, i) =>
      if i == id && id < RecordCount(env.g, w.st.size) {
        AppliedIsHeld(env, w'.st.records, Lookup(w.st.records, id), id, ReadBy(env, w, l, id));
      }
    case _ =>
  }

  // ---------- Runs ----------

  /** In every run a record is held as the last read that decoded it, or last forgot it, left it; without any,
      as at the start. An undecodable read changes nothing. */
  lemma {:induction false} HeldAsLastRead(env: Env, ws: seq<World>, ls: seq<Label>, id: nat) returns (k: nat)
    requires GoodEnv(env) && TrackerRun(env, ws, ls)
    ensures k <= |ls| && Lookup(ws[|ls|].st.records, id) == Lookup(ws[k].st.records, id)
    ensures forall i :: k <= i < |ls| ==>
      !Drops(env, ws[i], ls[i], id) && ReadBy(env, ws[i], ls[i], id).Undecodable?
    ensures k > 0 ==>
      && (Drops(env, ws[k - 1], ls[k - 1], id) || ReadBy(env, ws[k - 1], ls[k - 1], id).Record?)
      && Remembers(env, ws[k - 1], ls[k - 1], ws[k], id)
    decreases |ls|
  {
    hide TrackerStep, Drops, ReadBy, HeldAs;
    k := 0;
    if ls != [] {
      var n := |ls| - 1;
      assert TrackerStep(env, ws[n], ls[n], ws[n + 1]);
      StepRemembers(env, ws[n], ls[n], ws[n + 1], id);
      if Drops(env, ws[n], ls[n], id) || ReadBy(env, ws[n], ls[n], id).Record? {
        k := n + 1;
      } else {
        k := HeldAsLastRead(env, ws[..n + 1], ls[..n], id);
      }
    }
  }

  /** Every remembered record is a whole one and in use. */
  ghost predicate OnlyUsed(env: Env, w: World)
    requires env.g.recordSize > 0
  {
    forall id :: id in w.st.records ==> id < WholeRecordCount(env.g, w.st.size) && w.st.records[id].inUse
  }

  /** What a step reads of a record that decodes is all of it. */
  lemma ReadIsWhole(env: Env, w: World, l: Label, id: nat)
    requires GoodEnv(env) && ReadBy(env, w, l, id).Record?
    ensures id < WholeRecordCount(env.g, w.st.size)
  {
    hide ReadRuns, RecordCount, ReadsZero, ScannedAs;
    if !l.Scan? {
      RecordsCompare(env.g, id + 1, WholeRecordCount(env.g, w.st.size));
      RecordsCompare(env.g, WholeRecordCount(env.g, w.st.size), id + 1);
      RecordOrder(env.g, id, id + 1);
      RecordOf(env.g, w.st.size);
      RecordsAscend(env.g, id + 1, RecordStart(env.g, id + 1), WholeRecordCount(env.g, w.st.size), w.st.size);
    }
  }

  lemma StepOnlyUsed(env: Env, w: World, l: Label, w': World)
    requires TrackerInv(env, w) && TrackerStep(env, w, l, w') && OnlyUsed(env, w)
    ensures OnlyUsed(env, w')
  {
    hide TrackerInv, TrackerStep, Drops, ReadBy, WholeRecordCount;
    SizeGrows(env, w, l, w');
    forall id | id in w'.st.records
      ensures id < WholeRecordCount(env.g, w'.st.size) && w'.st.records[id].inUse
    {
      StepRemembers(env, w, l, w', id);
      if ReadBy(env, w, l, id).Record? {
        ReadIsWhole(env, w, l, id);
      }
    }
  }

  lemma SizeGrows(env: Env, w: World, l: Label, w': World)
    requires TrackerInv(env, w) && TrackerStep(env, w, l, w')
    ensures GoodEnv(env) && WholeRecordCount(env.g, w.st.size) <= WholeRecordCount(env.g, w'.st.size)
  {
    hide AfterZero, CountsExtra, Selected, FullyMapped, MissedIn, ScanBuffer, ReadLogical, Refreshed, Flagged;
    hide NextChunk, StaleOnlyIfDue, LayoutDue, WholeRecordCount;
    if l.Begin? {
      CountGrows(env.g, w.st.size, w'.st.size);
    }
  }

  /** A run from the moment NewNTFS has scanned an $MFT that record 0, if it decodes, describes. */
  ghost predicate RunFromStart(env: Env, ws: seq<World>, ls: seq<Label>) {
    && GoodEnv(env) && TrackerRun(env, ws, ls)
    && var w := ws[0];
       && w == Started(env, w.st.runs, w.st.size, w.view)
       && FullyMapped(env.g, w.st.runs, w.st.size, |w.view|)
       && var d := DecodedNow(env, w.st.runs, w.view, 0);
          d.Record? ==> LaidOutAs(d.attrs, LayoutOf(w.st))
  }

  lemma StartIsGood(env: Env, ws: seq<World>, ls: seq<Label>)
    requires RunFromStart(env, ws, ls)
    ensures TrackerInv(env, ws[0]) && OnlyUsed(env, ws[0]) && ws[0].missed == {}
  {
    var w := ws[0];
    hide TrackerInv, TrackerRun, ScanRecords, FullyMapped, DecodedNow, LaidOutAs, LayoutSays, WholeRecordCount;
    LayoutSaysMeans(env, LayoutOf(w.st), w.view);
    FirstScanFresh(env, w.st.runs, w.st.size, w.view);
    var n := WholeRecordCount(env.g, w.st.size);
    forall id | id in w.st.records ensures id < n && w.st.records[id].inUse {
      ScanEffect(env, w.st.runs, w.st.size, w.view, map[], 0, n, id);
    }
  }

  /** No reachable map holds a record that was not in use when it was read. */
  lemma {:induction false} RunOnlyUsed(env: Env, ws: seq<World>, ls: seq<Label>)
    requires RunFromStart(env, ws, ls)
    ensures TrackerInv(env, ws[|ls|]) && OnlyUsed(env, ws[|ls|])
    decreases |ls|
  {
    hide TrackerInv, TrackerStep, OnlyUsed, Started, FullyMapped, DecodedNow, LaidOutAs;
    StartIsGood(env, ws, ls);
    if ls != [] {
      var n := |ls| - 1;
      RunOnlyUsed(env, ws[..n + 1], ls[..n]);
      assert TrackerStep(env, ws[n], ls[n], ws[n + 1]);
      StepOnlyUsed(env, ws[n], ls[n], ws[n + 1]);
      StepKeeps(env, ws[n], ls[n], ws[n + 1]);
    }
  }

  // ---------- At rest ----------

  /** In every run, once all is at rest: a whole record that was not missed and whose bytes decode is remembered
      if and only if they decode to one in use, and then as that record with the ranges of its attributes. If it
      is record 0, the $MFT's layout is the one it gives. */
  lemma RecordsAtRest(env: Env, ws: seq<World>, ls: seq<Label>, id: nat)
    requires RunFromStart(env, ws, ls) && AtRest(ws[|ls|])
    requires id < WholeRecordCount(env.g, ws[|ls|].st.size) && id !in ws[|ls|].missed
    ensures var w := ws[|ls|];
      var d := DecodedNow(env, w.st.runs, w.view, id);
      d.Record? ==> HeldAs(env.g, w.st.records, id, d) && (id == 0 ==> LaidOutAs(d.attrs, LayoutOf(w.st)))
  {
    var w := ws[|ls|];
    hide RunFromStart, Mapping, Fresh, HeldAs, DecodedNow, LaidOutAs, LayoutSays, TouchesRecord, WholeRecordCount;
    RunOnlyUsed(env, ws, ls);
    assert !Awaits(env, w, id);
    LayoutSaysMeans(env, LayoutOf(w.st), w.view);
    if DecodedNow(env, w.st.runs, w.view, id).Record? {
      FreshIsHeld(env, w.st.runs, w.st.records, w.view, id);
    }
  }

  /** The bytes of record id say that it is in use and owns byte x. */
  ghost predicate OwnsNow(env: Env, w: World, id: nat, x: int) {
    var d := DecodedNow(env, w.st.runs, w.view, id);
    d.Record? && d.info.inUse && RecordOwns(env.g, d.info, d.attrs, x)
  }

  /** The bytes of record id say that it is the base record of an ordinary file in use. */
  ghost predicate BaseNow(env: Env, w: World, id: nat) {
    var d := DecodedNow(env, w.st.runs, w.view, id);
    d.Record? && d.info.inUse && d.info.baseID == id && !d.info.isDir && id >= 16
  }

  /** On the disk, a record in use of an ordinary file in use owns byte x. */
  ghost predicate FileOwns(env: Env, w: World, x: int)
    requires env.g.recordSize > 0
  {
    exists id: nat :: id < WholeRecordCount(env.g, w.st.size) && OwnsNow(env, w, id, x) && BaseIsFile(env, w, id)
  }

  ghost predicate BaseIsFile(env: Env, w: World, id: nat)
    requires env.g.recordSize > 0
  {
    var d := DecodedNow(env, w.st.runs, w.view, id);
    d.Record? && d.info.baseID < WholeRecordCount(env.g, w.st.size) && BaseNow(env, w, d.info.baseID)
  }

  /** No record that no longer decodes is still remembered, and no product wraps in those that do. */
  ghost predicate Readily(env: Env, w: World)
    requires env.g.recordSize > 0
  {
    forall id :: 0 <= id < WholeRecordCount(env.g, w.st.size) ==>
      var d := DecodedNow(env, w.st.runs, w.view, id);
      (d.Undecodable? ==> id !in w.st.records) && (d.Record? ==> ProductsFit(env.g, d.attrs))
  }

  /** So the data ranges the tracker offers at rest, after a run that missed nothing, hold exactly the bytes that
      the disk's own file records say are owned. */
  lemma DataRangesAtRest(env: Env, ws: seq<World>, ls: seq<Label>, data: seq<ByteRange>)
    requires RunFromStart(env, ws, ls) && AtRest(ws[|ls|]) && NoneMissed(env, ws, ls)
    requires IsDataRanges(data, ws[|ls|].st.records) && Readily(env, ws[|ls|])
    ensures forall x :: Holds(data, x) <==> FileOwns(env, ws[|ls|], x)
  {
    var w := ws[|ls|];
    hide Started, TrackerRun, NoneMissed, Holds, Canonical, DecodedNow, HeldAs, FileByte, FileOwns, LaidOutAs;
    hide AtRest, FullyMapped;
    StartIsGood(env, ws, ls);
    NothingMissed(env, ws, ls);
    RunOnlyUsed(env, ws, ls);
    hide TrackerInv;
    forall id: nat | id < WholeRecordCount(env.g, w.st.size)
      ensures HeldNow(env, w, id)
    {
      RecordsAtRest(env, ws, ls, id);
    }
    forall x ensures FileByte(w.st.records, x) <==> FileOwns(env, w, x) {
      OwnedIsClaimed(env, w, x);
    }
  }

  /** What is held of record id is what its bytes say. */
  ghost predicate HeldNow(env: Env, w: World, id: nat) {
    var d := DecodedNow(env, w.st.runs, w.view, id);
    d.Record? ==> HeldAs(env.g, w.st.records, id, d)
  }

  lemma OwnedIsClaimed(env: Env, w: World, x: int)
    requires GoodEnv(env) && OnlyUsed(env, w) && Readily(env, w)
    requires forall id: nat :: id < WholeRecordCount(env.g, w.st.size) ==> HeldNow(env, w, id)
    ensures FileByte(w.st.records, x) <==> FileOwns(env, w, x)
  {
    hide DecodedNow, WholeRecordCount, Holds, RecordOwns, ProductsFit, DataRangesOf, HeldNow;
    forall id: nat | id < WholeRecordCount(env.g, w.st.size)
      ensures HeldNow(env, w, id)
      ensures BaseNow(env, w, id) <==> ActiveFile(w.st.records, id)
      ensures OwnsNow(env, w, id, x) <==> id in w.st.records && Holds(w.st.records[id].dataRanges, x)
      ensures id in w.st.records ==>
        (BaseIsFile(env, w, id) <==> ActiveFile(w.st.records, w.st.records[id].baseID))
    {
      OneOwned(env, w, id, x);
    }
    if FileOwns(env, w, x) {
      var id: nat :| id < WholeRecordCount(env.g, w.st.size) && OwnsNow(env, w, id, x) && BaseIsFile(env, w, id);
      assert id in w.st.records;
    }
    if FileByte(w.st.records, x) {
      var id :| id in w.st.records && ActiveFile(w.st.records, w.st.records[id].baseID)
        && Holds(w.st.records[id].dataRanges, x);
      assert OwnsNow(env, w, id, x) && BaseIsFile(env, w, id);
    }
  }

  lemma OneOwned(env: Env, w: World, id: nat, x: int)
    requires GoodEnv(env) && OnlyUsed(env, w) && Readily(env, w)
    requires forall i: nat :: i < WholeRecordCount(env.g, w.st.size) ==> HeldNow(env, w, i)
    requires id < WholeRecordCount(env.g, w.st.size)
    ensures BaseNow(env, w, id) <==> ActiveFile(w.st.records, id)
    ensures OwnsNow(env, w, id, x) <==> id in w.st.records && Holds(w.st.records[id].dataRanges, x)
    ensures id in w.st.records ==>
      (BaseIsFile(env, w, id) <==> ActiveFile(w.st.records, w.st.records[id].baseID))
  {
    hide DecodedNow, WholeRecordCount, Holds, RecordOwns, ProductsFit, DataRangesOf;
    var d := DecodedNow(env, w.st.runs, w.view, id);
    if d.Record? {
      assert HeldNow(env, w, id);
      DataRangesMean(env.g, d.info, d.attrs);
      var base := d.info.baseID;
      if base < WholeRecordCount(env.g, w.st.size) {
        assert HeldNow(env, w, base);
      }
    }
  }

  // ---------- What a scan can read ----------

  /** Reading on through contiguous runs succeeds exactly when both halves do. */
  lemma ReadableTogether(g: Geometry, runs: seq<NTFSRun>, diskSize: nat, i: nat, c: nat, m: nat)
    requires GoodGeometry(g) && i + c <= m
    ensures Readable(g, runs, diskSize, RecordStart(g, i), RecordStart(g, m - i)) <==>
      && Readable(g, runs, diskSize, RecordStart(g, i), RecordStart(g, c))
      && Readable(g, runs, diskSize, RecordStart(g, i + c), RecordStart(g, m - i - c))
  {
    hide Physical;
    RecordsCompare(g, i, c);
    RecordsCompare(g, c, m - i - c);
    hide RecordStart;
  }

  /** NewNTFS can scan an $MFT of contiguous runs exactly when every byte of its whole records is mapped and on
      the disk. */
  lemma {:induction false} ScanReadableIff(env: Env, runs: seq<NTFSRun>, size: nat, view: seq<byte>, i: nat, m: nat)
    requires GoodEnv(env) && Contiguous(runs, 0) && i <= m <= WholeRecordCount(env.g, size)
    ensures ScanReadable(env, runs, size, _ => view, i, m)
      <==> Readable(env.g, runs, |view|, RecordStart(env.g, i), RecordStart(env.g, m - i))
    decreases m - i
  {
    hide ScanReadable, ReadRuns, Readable, WholeRecordCount, RecordStart, ChunkRecords;
    ScanHead(env, runs, size, _ => view, map[], i, m);
    if i < m {
      var c := ChunkRecords(env.g, i, m);
      ChunkNotEmpty(env.g, i, m);
      ChunkInSize(env.g, size, i, c, m);
      ReadRunsIsBytewise(env.g, runs, view, RecordStart(env.g, i), RecordStart(env.g, c));
      ReadableTogether(env.g, runs, |view|, i, c, m);
      ScanReadableIff(env, runs, size, view, i + c, m);
    } else {
      NothingToRead(env.g, runs, |view|, i);
    }
  }

  lemma NothingToRead(g: Geometry, runs: seq<NTFSRun>, diskSize: nat, i: nat)
    requires GoodGeometry(g)
    ensures Readable(g, runs, diskSize, RecordStart(g, i), RecordStart(g, 0))
  {
    RecordsCompare(g, 0, 0);
  }
}
