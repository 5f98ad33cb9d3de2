/** Which physical bytes ordinary files own: the data ranges of one record, and their union over all
    records, in ntfs.go. */
module FileRanges {
  import opened Ranges
  import opened Runlist
  import opened MFTMap

  const DATA_ATTRIBUTE := 0x80
  const FIRST_USER_RECORD := 16

  datatype NTFSAttribute = NTFSAttribute(
    kind: nat, named: bool, nonResident: bool,
    compressed: bool, encrypted: bool, sparse: bool,
    allocatedSize: nat, realSize: nat,
    runs: seq<NTFSRun>)

  datatype NTFSRecord = NTFSRecord(id: nat, baseID: nat, inUse: bool, isDir: bool, dataRanges: seq<ByteRange>)

  /** The unnamed, nonresident $DATA attribute of a plain file. */
  predicate PlainData(a: NTFSAttribute) {
    a.kind == DATA_ATTRIBUTE && !a.named && a.nonResident && !(a.compressed || a.encrypted || a.sparse)
  }

  // ---------- One record ----------

  /** The physical range of one run, cut at the file's real size; none when it does not lie in the
      partition. */
  function RunRange(g: Geometry, a: NTFSAttribute, run: NTFSRun): seq<ByteRange> {
    if run.sparse || run.lcn < 0 || run.lcn >= g.totalClusters then []
    else
      var logicalStart, length := MulU64(run.startVCN, g.clusterSize), MulU64(run.length, g.clusterSize);
      if logicalStart >= a.realSize then []
      else
        var bytes := MinU64(length, a.realSize - logicalStart);
        var physical := g.partOffset + run.lcn * g.clusterSize;
        if physical >= g.partOffset + g.partSize || bytes > g.partOffset + g.partSize - physical then []
        else [ByteRange(physical, physical + bytes)]
  }

  ghost function RunRanges(g: Geometry, a: NTFSAttribute, runs: seq<NTFSRun>): seq<ByteRange> {
    if runs == [] then [] else RunRanges(g, a, runs[..|runs| - 1]) + RunRange(g, a, runs[|runs| - 1])
  }

  ghost function AttributeRanges(g: Geometry, attrs: seq<NTFSAttribute>): seq<ByteRange> {
    if attrs == [] then []
    else
      var a := attrs[|attrs| - 1];
      AttributeRanges(g, attrs[..|attrs| - 1]) + if PlainData(a) then RunRanges(g, a, a.runs) else []
  }

  ghost function DataRangesOf(g: Geometry, info: NTFSRecord, attrs: seq<NTFSAttribute>): seq<ByteRange> {
    if info.baseID < FIRST_USER_RECORD || info.isDir then [] else AttributeRanges(g, attrs)
  }

  ghost predicate InPartition(g: Geometry, rs: seq<ByteRange>) {
    forall r :: r in rs ==> g.partOffset <= r.start <= r.end <= g.partOffset + g.partSize
  }

  /** No record claims bytes outside the partition, whatever its runs wrap to. */
  lemma {:induction false} AttributeRangesInPartition(g: Geometry, attrs: seq<NTFSAttribute>)
    ensures InPartition(g, AttributeRanges(g, attrs))
  {
    if attrs != [] {
      AttributeRangesInPartition(g, attrs[..|attrs| - 1]);
      RunRangesInPartition(g, attrs[|attrs| - 1], attrs[|attrs| - 1].runs);
    }
  }

  lemma {:induction false} RunRangesInPartition(g: Geometry, a: NTFSAttribute, runs: seq<NTFSRun>)
    ensures InPartition(g, RunRanges(g, a, runs))
  {
    if runs != [] {
      RunRangesInPartition(g, a, runs[..|runs| - 1]);
      RunRangeMeans(g, a, runs[|runs| - 1], 0);
    }
  }

  /** The products of the run's cluster numbers fit 64 bits. */
  ghost predicate LogicalFits(g: Geometry, run: NTFSRun) {
    RunStart(g, run) < 0x1_0000_0000_0000_0000 && RunBytes(g, run) < 0x1_0000_0000_0000_0000
  }

  /** The run starts at a cluster of the volume, and the part of it below the file's real size lies in the
      partition. */
  ghost predicate InVolume(g: Geometry, a: NTFSAttribute, run: NTFSRun) {
    && Mapped(run) && run.lcn < g.totalClusters
    && (RunStart(g, run) < a.realSize ==>
          RunPhysical(g, run) + MinU64(RunBytes(g, run), a.realSize - RunStart(g, run)) <= g.partOffset + g.partSize)
  }

  /** When nothing wraps, the range of a run in the volume is the image of the run's logical bytes below the
      file's real size, and any other run has none. */
  lemma RunRangeMeans(g: Geometry, a: NTFSAttribute, run: NTFSRun, x: int)
    ensures InPartition(g, RunRange(g, a, run))
    ensures LogicalFits(g, run) ==>
      (Holds(RunRange(g, a, run), x) <==>
        InVolume(g, a, run) && exists l: nat :: l < a.realSize && MapsVia(g, run, l, x))
  {
    if LogicalFits(g, run) {
      assert MulU64(run.startVCN, g.clusterSize) == RunStart(g, run);
      assert MulU64(run.length, g.clusterSize) == RunBytes(g, run);
      hide MulU64, RunStart, RunBytes;
      var rs := RunRange(g, a, run);
      if rs != [] && Covers(rs[0], x) {
        assert rs[0] in rs;
        assert MapsVia(g, run, RunStart(g, run) + (x - RunPhysical(g, run)), x);
      }
      if InVolume(g, a, run) {
        if l: nat :| l < a.realSize && MapsVia(g, run, l, x) {
          assert rs != [] && Covers(rs[0], x);
        }
      }
    }
  }

  // ---------- The bytes of a record ----------

  /** The run lies in the volume and maps a logical byte below the file's real size to byte x. */
  ghost predicate RunOwns(g: Geometry, a: NTFSAttribute, run: NTFSRun, x: int) {
    InVolume(g, a, run) && exists l: nat :: l < a.realSize && MapsVia(g, run, l, x)
  }

  /** Byte x belongs to the file's unnamed, nonresident $DATA that is stored as it is. */
  ghost predicate AttributeOwns(g: Geometry, a: NTFSAttribute, x: int) {
    && a.kind == 0x80 && !a.named && a.nonResident && !a.compressed && !a.encrypted && !a.sparse
    && exists run :: run in a.runs && RunOwns(g, a, run, x)
  }

  /** The record belongs to a file that is no directory and no system file, and byte x to a run of one of its
      plain $DATA attributes. */
  ghost predicate RecordOwns(g: Geometry, info: NTFSRecord, attrs: seq<NTFSAttribute>, x: int) {
    info.baseID >= 16 && !info.isDir && exists a :: a in attrs && AttributeOwns(g, a, x)
  }

  /** No product of a cluster number of the record's plain $DATA attributes wraps. */
  ghost predicate ProductsFit(g: Geometry, attrs: seq<NTFSAttribute>) {
    forall a, run :: a in attrs && PlainData(a) && run in a.runs ==> LogicalFits(g, run)
  }

  lemma {:induction false} RunRangesHold(g: Geometry, a: NTFSAttribute, runs: seq<NTFSRun>, x: int)
    requires forall run :: run in runs ==> LogicalFits(g, run)
    ensures Holds(RunRanges(g, a, runs), x) <==> exists run :: run in runs && RunOwns(g, a, run, x)
  {
    hide RunRange, Holds, LogicalFits, RunOwns;
    if runs == [] {
      NothingHeld();
    } else {
      var init, last := runs[..|runs| - 1], runs[|runs| - 1];
      RunRangesHold(g, a, init, x);
      RunRangeOwned(g, a, last, x);
      HoldsConcat(RunRanges(g, a, init), RunRange(g, a, last));
      assert forall run :: run in runs <==> run in init || run == last;
    }
  }

  lemma RunRangeOwned(g: Geometry, a: NTFSAttribute, run: NTFSRun, x: int)
    requires LogicalFits(g, run)
    ensures Holds(RunRange(g, a, run), x) <==> RunOwns(g, a, run, x)
  {
    hide RunRange, Holds, LogicalFits, InVolume, MapsVia;
    RunRangeMeans(g, a, run, x);
  }

  lemma {:induction false} AttributeRangesHold(g: Geometry, attrs: seq<NTFSAttribute>, x: int)
    requires ProductsFit(g, attrs)
    ensures Holds(AttributeRanges(g, attrs), x) <==> exists a :: a in attrs && AttributeOwns(g, a, x)
  {
    hide RunRanges, Holds, LogicalFits, RunOwns;
    if attrs == [] {
      NothingHeld();
    } else {
      var init, last := attrs[..|attrs| - 1], attrs[|attrs| - 1];
      AttributeRangesHold(g, init, x);
      if PlainData(last) {
        RunRangesHold(g, last, last.runs, x);
      } else {
        NothingHeld();
      }
      HoldsConcat(AttributeRanges(g, init), if PlainData(last) then RunRanges(g, last, last.runs) else []);
      assert forall a :: a in attrs <==> a in init || a == last;
    }
  }

  /** The ranges of a record hold exactly the bytes that some run of some plain $DATA attribute maps. */
  lemma DataRangesMean(g: Geometry, info: NTFSRecord, attrs: seq<NTFSAttribute>)
    ensures InPartition(g, DataRangesOf(g, info, attrs))
    ensures ProductsFit(g, attrs) ==>
      forall x :: Holds(DataRangesOf(g, info, attrs), x) <==> RecordOwns(g, info, attrs, x)
  {
    hide AttributeRanges, Holds, AttributeOwns, ProductsFit;
    AttributeRangesInPartition(g, attrs);
    if ProductsFit(g, attrs) {
      forall x ensures Holds(DataRangesOf(g, info, attrs), x) <==> RecordOwns(g, info, attrs, x) {
        AttributeRangesHold(g, attrs, x);
        NothingHeld();
      }
    }
  }

  method BuildDataRanges(g: Geometry, info: NTFSRecord, attrs: seq<NTFSAttribute>) returns (r: NTFSRecord)
    ensures r == info.(dataRanges := DataRangesOf(g, info, attrs))
    ensures InPartition(g, r.dataRanges)
    ensures ProductsFit(g, attrs) ==> forall x :: Holds(r.dataRanges, x) <==> RecordOwns(g, info, attrs, x)
  {
    hide RunRange, Holds;
    DataRangesMean(g, info, attrs);
    if info.baseID < FIRST_USER_RECORD || info.isDir {
      return info.(dataRanges := []);
    }
    var out: seq<ByteRange> := [];
    for i := 0 to |attrs|
      invariant out == AttributeRanges(g, attrs[..i])
    {
      var a := attrs[i];
      assert attrs[..i + 1][..i] == attrs[..i];
      if !PlainData(a) {
        continue;
      }
      ghost var earlier := out;
      for j := 0 to |a.runs|
        invariant out == earlier + RunRanges(g, a, a.runs[..j])
      {
        assert a.runs[..j + 1][..j] == a.runs[..j];
        out := out + RunRange(g, a, a.runs[j]);
      }
      assert a.runs[..|a.runs|] == a.runs;
    }
    assert attrs[..|attrs|] == attrs;
    return info.(dataRanges := out);
  }

  // ---------- All records ----------

  /** The record is the base record of an ordinary file in use. */
  predicate ActiveFile(records: map<nat, NTFSRecord>, id: nat) {
    && id in records && records[id].baseID == id
    && id >= FIRST_USER_RECORD && records[id].inUse && !records[id].isDir
  }

  /** Some record of an active file claims byte x. */
  ghost predicate FileByte(records: map<nat, NTFSRecord>, x: int) {
    exists id :: id in records && ActiveFile(records, records[id].baseID) && Holds(records[id].dataRanges, x)
  }

  /** rs is the canonical list of the bytes active files claim. There is only one, so the order in which
      the records are visited does not matter. */
  ghost predicate IsDataRanges(rs: seq<ByteRange>, records: map<nat, NTFSRecord>) {
    Canonical(rs) && forall x :: Holds(rs, x) <==> FileByte(records, x)
  }

  lemma DataRangesUnique(a: seq<ByteRange>, b: seq<ByteRange>, records: map<nat, NTFSRecord>)
    requires IsDataRanges(a, records) && IsDataRanges(b, records)
    ensures a == b
  {
    CanonicalUnique(a, b);
  }

  /** Every data range lies in the partition. */
  lemma DataRangesInPartition(g: Geometry, rs: seq<ByteRange>, records: map<nat, NTFSRecord>)
    requires IsDataRanges(rs, records)
    requires forall id :: id in records ==> InPartition(g, records[id].dataRanges)
    ensures InPartition(g, rs)
  {
    forall r | r in rs ensures g.partOffset <= r.start <= r.end <= g.partOffset + g.partSize {
      assert Covers(r, r.start) && Covers(r, r.end - 1);
      assert Holds(rs, r.start) && Holds(rs, r.end - 1);
      var id :| id in records && Holds(records[id].dataRanges, r.start);
      var id' :| id' in records && Holds(records[id'].dataRanges, r.end - 1);
    }
  }

  /** Collects the base records of active files, then the ranges of every record that belongs to one,
      each in whatever order the map yields its keys. */
  method CollectDataRanges(records: map<nat, NTFSRecord>) returns (ranges: seq<ByteRange>)
    ensures IsDataRanges(ranges, records)
  {
    hide Canonical, Holds;
    var activeFiles: set<nat> := {};
    var todo := records.Keys;
    while todo != {}
      invariant todo <= records.Keys
      invariant forall id :: id in activeFiles <==> id !in todo && ActiveFile(records, id)
      decreases |todo|
    {
      var id :| id in todo;
      todo := todo - {id};
      var info := records[id];
      if id != info.baseID || id < FIRST_USER_RECORD || !info.inUse || info.isDir {
        continue;
      }
      activeFiles := activeFiles + {id};
    }
    var data: seq<ByteRange> := [];
    todo := records.Keys;
    NothingHeld();
    while todo != {}
      invariant todo <= records.Keys
      invariant forall x :: Holds(data, x) <==> Claimed(records, records.Keys - todo, x)
      decreases |todo|
    {
      var id :| id in todo;
      ghost var before := records.Keys - todo;
      todo := todo - {id};
      assert records.Keys - todo == before + {id};
      ClaimedMore(records, before, id);
      var info := records[id];
      if info.baseID !in activeFiles {
        continue;
      }
      HoldsConcat(data, info.dataRanges);
      data := data + info.dataRanges;
    }
    assert records.Keys - todo == records.Keys;
    ranges := CoalesceByteRanges(data);
  }

  /** Byte x is claimed by one of the given records of active files. */
  ghost predicate Claimed(records: map<nat, NTFSRecord>, ids: set<nat>, x: int)
    requires ids <= records.Keys
  {
    exists id :: id in ids && ActiveFile(records, records[id].baseID) && Holds(records[id].dataRanges, x)
  }

  lemma ClaimedMore(records: map<nat, NTFSRecord>, ids: set<nat>, id: nat)
    requires ids <= records.Keys && id in records
    ensures forall x :: Claimed(records, ids + {id}, x) <==>
      (Claimed(records, ids, x) || (ActiveFile(records, records[id].baseID) && Holds(records[id].dataRanges, x)))
  {
    hide Holds;
  }

  lemma NothingHeld()
    ensures forall x :: !Holds([], x)
  {
  }
}
