/** ntfs.go: the tracker. Its records follow the $MFT incrementally, one observed write at a time. How a
    record's bytes decode (fixup, header and attributes) is a parameter. */
module Ntfs {
  import opened Disk
  import opened Ranges
  import opened Runlist
  import opened MFTMap
  import opened MFTIndex
  import opened FileRanges

  datatype Option<+T> = None | Some(value: T)

  datatype Decoded = Undecodable | Record(info: NTFSRecord, attrs: seq<NTFSAttribute>)

  datatype Env = Env(g: Geometry, decode: (nat, seq<byte>) -> Decoded)

  ghost predicate PositiveRuns(runs: seq<NTFSRun>) {
    forall run :: run in runs ==> run.length > 0
  }

  /** The byte offsets of an $MFT with these runs and this size fit 64 bits. */
  ghost predicate LayoutFits(g: Geometry, runs: seq<NTFSRun>, size: nat) {
    NoWrap(g, runs) && size + g.recordSize <= 0x1_0000_0000_0000_0000
  }

  /** Record sizes are those readBootSector accepts, no decoded run is empty (parseNTFSRunlist rejects
      those), and what record 0 says of the $MFT fits 64 bits. */
  ghost predicate GoodEnv(env: Env) {
    && GoodGeometry(env.g) && env.g.recordSize <= 0x10_0000
    && (forall id, data :: env.decode(id, data).Record? ==>
          forall a :: a in env.decode(id, data).attrs ==> PositiveRuns(a.runs))
    && (forall data :: env.decode(0, data).Record? ==>
          forall a :: a in env.decode(0, data).attrs && PlainData(a) ==>
            LayoutFits(env.g, a.runs, a.realSize) && LayoutFits(env.g, a.runs, a.allocatedSize))
  }

  /** The disk as each read of one observation finds it, for the host goes on writing meanwhile: the read of
      record 0, of the scan chunk that starts with a given record, and of each record refreshed last. */
  datatype Views = Views(zero: seq<byte>, chunk: nat -> seq<byte>, record: nat -> seq<byte>)

  datatype TrackState = TrackState(runs: seq<NTFSRun>, size: nat, records: map<nat, NTFSRecord>)

  // ---------- One record ----------

  function Lookup(records: map<nat, NTFSRecord>, id: nat): Option<NTFSRecord> {
    if id in records then Some(records[id]) else None
  }

  function Store(records: map<nat, NTFSRecord>, id: nat, r: Option<NTFSRecord>): (m: map<nat, NTFSRecord>)
    ensures forall i :: Lookup(m, i) == if i == id then r else Lookup(records, i)
  {
    if r.Some? then records[id := r.value] else records - {id}
  }

  /** What becomes of a remembered record when its bytes decode to d: an undecodable one is kept. */
  ghost function Apply(env: Env, old_: Option<NTFSRecord>, d: Decoded): Option<NTFSRecord> {
    if d.Undecodable? then old_
    else if !d.info.inUse then None
    else Some(d.info.(dataRanges := DataRangesOf(env.g, d.info, d.attrs)))
  }

  function RecordCount(g: Geometry, size: nat): nat
    requires g.recordSize > 0
  {
    if size == 0 then 0 else (size + g.recordSize - 1) / g.recordSize
  }

  function ReadRecordFn(env: Env, runs: seq<NTFSRun>, size: nat, view: seq<byte>, id: nat): Decoded
    requires env.g.recordSize > 0
  {
    if id >= RecordCount(env.g, size) then Undecodable
    else
      match ReadLogical(env.g, runs, size, view, RecordStart(env.g, id), env.g.recordSize)
      case Unreadable => Undecodable
      case Bytes(data) => env.decode(id, data)
  }

  function FirstPlainData(attrs: seq<NTFSAttribute>): Option<NTFSAttribute> {
    if attrs == [] then None
    else if PlainData(attrs[0]) then Some(attrs[0])
    else FirstPlainData(attrs[1..])
  }

  /** The $MFT's own runs and size after its record decoded to d. */
  function NewLayout(runs: seq<NTFSRun>, size: nat, d: Decoded): (seq<NTFSRun>, nat)
    requires d.Record?
  {
    match FirstPlainData(d.attrs)
    case None => (runs, size)
    case Some(a) => (a.runs, if a.realSize != 0 then a.realSize else a.allocatedSize)
  }

  /** refreshRecord. */
  ghost function Refresh(env: Env, st: TrackState, view: seq<byte>, id: nat): TrackState
    requires env.g.recordSize > 0
  {
    var d := ReadRecordFn(env, st.runs, st.size, view, id);
    if d.Undecodable? then st
    else
      var layout := if id == 0 then NewLayout(st.runs, st.size, d) else (st.runs, st.size);
      TrackState(layout.0, layout.1, Store(st.records, id, Apply(env, Lookup(st.records, id), d)))
  }

  // ---------- Scanning ----------

  /** The k-th record's bytes in a buffer of whole records. */
  ghost function Slice(g: Geometry, buf: seq<byte>, k: nat): seq<byte> {
    if RecordStart(g, k + 1) <= |buf| && RecordStart(g, k) <= RecordStart(g, k + 1)
    then buf[RecordStart(g, k)..RecordStart(g, k + 1)] else []
  }

  /** The records after the first k of a buffer that starts with record i have been looked at. */
  ghost function ScanBuffer(env: Env, records: map<nat, NTFSRecord>, buf: seq<byte>, i: nat, k: nat)
    : map<nat, NTFSRecord>
  {
    if k == 0 then records
    else
      var before := ScanBuffer(env, records, buf, i, k - 1);
      var id := i + k - 1;
      Store(before, id, Apply(env, Lookup(before, id), env.decode(id, Slice(env.g, buf, k - 1))))
  }

  /** How many records of the m - i left fit an 8 MiB chunk. */
  ghost function ChunkRecords(g: Geometry, i: nat, m: nat): nat
    requires g.recordSize > 0 && i <= m
  {
    MinU64(0x80_0000 / g.recordSize, m - i)
  }

  /** The read of the chunk that starts with record i, as the disk is then. */
  ghost function ReadChunk(env: Env, runs: seq<NTFSRun>, size: nat, views: nat -> seq<byte>, i: nat, c: nat)
    : ReadResult
  {
    ReadLogical(env.g, runs, size, views(i), RecordStart(env.g, i), RecordStart(env.g, c))
  }

  /** scanMFTLogicalRange over records i to m, chunk by chunk; a chunk that cannot be read ends the scan. */
  ghost function ScanRecords(env: Env, runs: seq<NTFSRun>, size: nat, views: nat -> seq<byte>,
                             records: map<nat, NTFSRecord>, i: nat, m: nat): map<nat, NTFSRecord>
    requires env.g.recordSize > 0
    decreases m - i
  {
    if i >= m then records
    else
      var c := ChunkRecords(env.g, i, m);
      if c == 0 then records
      else
        match ReadChunk(env, runs, size, views, i, c)
        case Unreadable => records
        case Bytes(buf) => ScanRecords(env, runs, size, views, ScanBuffer(env, records, buf, i, c), i + c, m)
  }

  /** Every chunk of the scan can be read. */
  ghost predicate ScanReadable(env: Env, runs: seq<NTFSRun>, size: nat, views: nat -> seq<byte>, i: nat, m: nat)
    requires env.g.recordSize > 0
    decreases m - i
  {
    i >= m ||
    (var c := ChunkRecords(env.g, i, m);
     c == 0 || (ReadChunk(env, runs, size, views, i, c).Bytes? && ScanReadable(env, runs, size, views, i + c, m)))
  }

  /** One unfolding of both. */
  lemma ScanHead(env: Env, runs: seq<NTFSRun>, size: nat, views: nat -> seq<byte>,
                 records: map<nat, NTFSRecord>, i: nat, m: nat)
    requires env.g.recordSize > 0
    ensures i >= m || ChunkRecords(env.g, i, m) == 0 ==>
      ScanRecords(env, runs, size, views, records, i, m) == records && ScanReadable(env, runs, size, views, i, m)
    ensures i < m && ChunkRecords(env.g, i, m) > 0 ==>
      var c := ChunkRecords(env.g, i, m);
      var r := ReadChunk(env, runs, size, views, i, c);
      && ScanRecords(env, runs, size, views, records, i, m) ==
         (if r.Unreadable? then records
          else ScanRecords(env, runs, size, views, ScanBuffer(env, records, r.data, i, c), i + c, m))
      && ScanReadable(env, runs, size, views, i, m) ==
         (r.Bytes? && ScanReadable(env, runs, size, views, i + c, m))
  {
    hide ScanBuffer;
  }

  /** Rounding an offset down to a whole record. */
  lemma WholeRecords(g: Geometry, l: nat)
    requires GoodGeometry(g)
    ensures RoundDown(g, l) == RecordStart(g, RecordIndex(g, l))
  {
    assert l == g.recordSize * (l / g.recordSize) + l % g.recordSize;
  }

  lemma RecordsCompare(g: Geometry, i: nat, m: nat)
    requires GoodGeometry(g)
    ensures RecordStart(g, i) < RecordStart(g, m) <==> i < m
    ensures RecordIndex(g, RecordStart(g, i)) == i
    ensures i <= m ==> RecordStart(g, m) - RecordStart(g, i) == RecordStart(g, m - i)
    ensures RecordStart(g, i) == 0 <==> i == 0
    ensures RecordStart(g, i + m) == RecordStart(g, i) + RecordStart(g, m)
  {
    if i < m {
      RecordOrder(g, i, m);
    } else {
      ScaleOrder(m, i, g.recordSize);
    }
    if i <= m {
      ScaleOrder(i, m - i, g.recordSize);
    }
    ScaleOrder(i, m, g.recordSize);
    RecordOf(g, RecordStart(g, i));
    RecordOrder(g, i, i + 1);
    var q := RecordIndex(g, RecordStart(g, i));
    RecordsAscend(g, q, RecordStart(g, i), i, RecordStart(g, i));
    RecordsAscend(g, i, RecordStart(g, i), q, RecordStart(g, i));
    if i > 0 {
      RecordOrder(g, 0, i);
    }
  }

  /** The chunk arithmetic on offsets cuts off a whole number of records. */
  lemma ChunkIsRecords(g: Geometry, i: nat, m: nat)
    requires GoodGeometry(g) && i <= m
    ensures var chunk := MinU64(0x80_0000, RecordStart(g, m) - RecordStart(g, i));
      && RecordStart(g, i) <= RecordStart(g, m)
      && RoundDown(g, chunk) == RecordStart(g, ChunkRecords(g, i, m)) && ChunkRecords(g, i, m) <= m - i
  {
    RecordsCompare(g, i, m);
    var n := m - i;
    var q := 0x80_0000 / g.recordSize;
    RecordsCompare(g, ChunkRecords(g, i, m), n);
    RecordsCompare(g, n, q);
    RecordsCompare(g, q, n);
    WholeRecords(g, 0x80_0000);
    WholeRecords(g, RecordStart(g, n));
    if n <= q {
      assert RecordStart(g, n) <= RecordStart(g, q) <= 0x80_0000;
    } else {
      RecordOrder(g, q, n);
      RecordOf(g, 0x80_0000);
      assert 0x80_0000 < RecordStart(g, q + 1) <= RecordStart(g, n);
    }
  }

  lemma {:induction false} ReadLength(g: Geometry, runs: seq<NTFSRun>, view: seq<byte>, pos: nat, n: nat)
    ensures ReadRuns(g, runs, view, pos, n).Bytes? ==> |ReadRuns(g, runs, view, pos, n).data| == n
    decreases n
  {
    hide ReadRuns;
    ReadHead(g, runs, view, pos, n);
    if n > 0 && FirstRun(g, runs, pos) < |runs| {
      var run := runs[FirstRun(g, runs, pos)];
      var within := pos - RunStart(g, run);
      var nbytes := if RunBytes(g, run) - within > n then n else RunBytes(g, run) - within;
      ReadLength(g, runs, view, pos + nbytes, n - nbytes);
    }
  }

  // ---------- Observing a write ----------

  /** After record 0 has been refreshed if it was touched. */
  ghost function AfterZero(env: Env, st: TrackState, view: seq<byte>, start: nat, end: nat): TrackState
    requires env.g.recordSize > 0
  {
    if TouchesRecord(env.g, st.runs, start, end, 0) then Refresh(env, st, view, 0) else st
  }

  /** After the new tail of a grown $MFT has been scanned, too. */
  ghost function AfterTail(env: Env, st: TrackState, views: Views, start: nat, end: nat): TrackState
    requires env.g.recordSize > 0
  {
    WithTail(env, AfterZero(env, st, views.zero, start, end), views.chunk, st.size)
  }

  /** The records past the size the $MFT had have been scanned. */
  ghost function WithTail(env: Env, z: TrackState, views: nat -> seq<byte>, oldSize: nat): TrackState
    requires env.g.recordSize > 0
  {
    if z.size > oldSize
    then z.(records := ScanRecords(env, z.runs, z.size, views, z.records,
                                   RecordIndex(env.g, oldSize), RecordIndex(env.g, z.size)))
    else z
  }

  /** The records refreshed last: those the write touched under the old layout, and, once record 0 has
      been refreshed, the first extra ones. */
  ghost predicate Selected(env: Env, st: TrackState, start: nat, end: nat, extra: nat, id: nat) {
    id != 0 && (TouchesRecord(env.g, st.runs, start, end, id) || id < extra)
  }

  ghost function ObservedRecord(env: Env, st: TrackState, views: Views, start: nat, end: nat, extra: nat, id: nat)
    : Option<NTFSRecord>
    requires env.g.recordSize > 0
  {
    var t := AfterTail(env, st, views, start, end);
    Refreshed(env, t, views.record(id), Selected(env, st, start, end, extra, id), id)
  }

  /** extra is the number of records the write touches under the layout found after record 0 was
      refreshed; without that refresh it is 0. */
  ghost predicate CountsExtra(env: Env, st: TrackState, view: seq<byte>, start: nat, end: nat, extra: nat)
    requires env.g.recordSize > 0
  {
    if TouchesRecord(env.g, st.runs, start, end, 0) && ReadRecordFn(env, st.runs, st.size, view, 0).Record?
    then NumbersTouched(env.g, AfterZero(env, st, view, start, end).runs, start, end, extra)
    else extra == 0
  }

  ghost predicate NumbersTouched(g: Geometry, runs: seq<NTFSRun>, start: nat, end: nat, n: nat) {
    exists ids :: |ids| == n && AreTouched(g, runs, start, end, ids)
  }

  ghost predicate AreTouched(g: Geometry, runs: seq<NTFSRun>, start: nat, end: nat, ids: set<nat>) {
    forall id :: id in ids <==> TouchesRecord(g, runs, start, end, id)
  }

  /** The tracker's state after ObserveMFTWrite. */
  ghost predicate Observed(env: Env, st: TrackState, views: Views, start: nat, end: nat, extra: nat, t: TrackState)
    requires env.g.recordSize > 0
  {
    && (t.runs, t.size) == (AfterTail(env, st, views, start, end).runs, AfterTail(env, st, views, start, end).size)
    && CountsExtra(env, st, views.zero, start, end, extra)
    && forall id :: Lookup(t.records, id) == ObservedRecord(env, st, views, start, end, extra, id)
  }

  /** Every remembered record is in use and claims no byte outside the partition. */
  ghost predicate GoodRecords(g: Geometry, records: map<nat, NTFSRecord>) {
    forall id :: id in records ==> records[id].inUse && InPartition(g, records[id].dataRanges)
  }

  lemma StoreKeepsGood(env: Env, records: map<nat, NTFSRecord>, id: nat, d: Decoded)
    requires GoodRecords(env.g, records)
    ensures GoodRecords(env.g, Store(records, id, Apply(env, Lookup(records, id), d)))
  {
    if d.Record? {
      AttributeRangesInPartition(env.g, d.attrs);
      hide AttributeRanges;
      assert InPartition(env.g, DataRangesOf(env.g, d.info, d.attrs));
    }
  }

  // ---------- The tracker as the program runs it ----------

  class NTFS {
    const env: Env

    var mftRuns: seq<NTFSRun>
    var mftSize: nat
    var records: map<nat, NTFSRecord>

    var dataRanges: seq<ByteRange>
    var mftRanges: seq<ByteRange>
    var dataSnapshot: seq<ByteRange>
    var mftSnapshot: seq<ByteRange>

    ghost function State(): TrackState
      reads this
    {
      TrackState(mftRuns, mftSize, records)
    }

    ghost predicate Loaded()
      reads this
    {
      && GoodEnv(env) && PositiveRuns(mftRuns) && LayoutFits(env.g, mftRuns, mftSize)
      && GoodRecords(env.g, records)
    }

    /** The list of $MFT ranges belongs to the layout. */
    ghost predicate MFTRangesCurrent()
      reads this
    {
      forall x :: Holds(mftRanges, x) <==> MFTByte(env.g, mftRuns, mftSize, x)
    }

    ghost predicate RangesCurrent()
      reads this
    {
      IsDataRanges(dataRanges, records) && Canonical(mftRanges) && MFTRangesCurrent()
    }

    /** Published and usable. The $MFT ranges need not be current: see NewNTFS. */
    ghost predicate Valid()
      reads this
    {
      && Loaded() && IsDataRanges(dataRanges, records) && Canonical(mftRanges)
      && dataSnapshot == dataRanges && mftSnapshot == mftRanges
    }

    /** Every byte offered as file data lies inside the partition. */
    method DataRanges() returns (ranges: seq<ByteRange>)
      requires Valid()
      ensures ranges == dataRanges && InPartition(env.g, ranges)
    {
      DataRangesInPartition(env.g, dataRanges, records);
      return dataSnapshot;
    }

    /** Before the first scan: the layout has been loaded from the boot sector and record 0. */
    constructor (env: Env, runs: seq<NTFSRun>, size: nat)
      requires GoodEnv(env) && PositiveRuns(runs) && LayoutFits(env.g, runs, size)
      ensures Loaded() && this.env == env && State() == TrackState(runs, size, map[])
      ensures dataRanges == mftRanges == dataSnapshot == mftSnapshot == []
    {
      this.env := env;
      mftRuns, mftSize := runs, size;
      records := map[];
      dataRanges, mftRanges, dataSnapshot, mftSnapshot := [], [], [], [];
    }

    /** Refuses an empty $MFT and one that cannot be scanned. Otherwise one scan fills the records, but an $MFT
        smaller than a record has nothing to scan, its range list is never built, and so no write to it is
        ever noticed. */
    static method NewNTFS(env: Env, runs: seq<NTFSRun>, size: nat, view: seq<byte>) returns (r: Option<NTFS>)
      requires GoodEnv(env) && PositiveRuns(runs) && LayoutFits(env.g, runs, size)
      ensures r.None? <==> size == 0 || !ScanReadable(env, runs, size, _ => view, 0, RecordIndex(env.g, size))
      ensures r.Some? ==>
        && fresh(r.value) && r.value.Valid() && r.value.env == env
        && r.value.State()
           == TrackState(runs, size, ScanRecords(env, runs, size, _ => view, map[], 0, RecordIndex(env.g, size)))
        && (r.value.MFTRangesCurrent() <==> env.g.recordSize <= size || forall x :: !MFTByte(env.g, runs, size, x))
        && (size < env.g.recordSize ==> r.value.mftSnapshot == [])
    {
      if size == 0 {
        return None;
      }
      hide ScanRecords, ScanReadable, MFTByte, Holds;
      var n := new NTFS(env, runs, size);
      var count := RecordCount(env.g, size);
      CountPositive(env.g, size);
      if count == 0 {
        return None;
      }
      var ok := n.ScanMFTLogicalRange(_ => view, 0, size);
      assert RecordIndex(env.g, 0) == 0;
      if !ok {
        return None;
      }
      n.PublishSnapshots();
      FirstScanRanges(env, runs, size, view);
      NothingHeld();
      return Some(n);
    }

    /** Whether the range contains a byte of the published list, so of the $MFT itself where that list is
        current. */
    method TouchesMFT(start: nat, end: nat) returns (touches: bool)
      requires Valid()
      ensures touches <==> exists x :: start <= x < end && Holds(mftSnapshot, x)
      ensures MFTRangesCurrent() ==>
        (touches <==> exists x :: start <= x < end && MFTByte(env.g, mftRuns, mftSize, x))
    {
      touches := RangesOverlapSnapshot(mftSnapshot, start, end);
    }

    method PublishSnapshots()
      modifies this`dataSnapshot, this`mftSnapshot
      ensures dataSnapshot == dataRanges && mftSnapshot == mftRanges
    {
      dataSnapshot := dataRanges;
      mftSnapshot := mftRanges;
    }

    method RebuildRanges()
      requires NoWrap(env.g, mftRuns)
      modifies this`dataRanges, this`mftRanges
      ensures RangesCurrent()
    {
      dataRanges := CollectDataRanges(records);
      mftRanges := BuildMFTRanges(env.g, mftRuns, mftSize);
    }

    method ReadRecord(view: seq<byte>, id: nat) returns (d: Decoded)
      requires Loaded()
      ensures d == ReadRecordFn(env, mftRuns, mftSize, view, id)
    {
      if id >= RecordCount(env.g, mftSize) {
        return Undecodable;
      }
      var r := ReadMFTLogical(env.g, mftRuns, mftSize, view, id * env.g.recordSize, env.g.recordSize);
      return if r.Unreadable? then Undecodable else env.decode(id, r.data);
    }

    /** Keeps, removes or replaces a record by what its bytes decode to. */
    method KeepRecord(id: nat, d: Decoded)
      requires GoodRecords(env.g, records)
      modifies this`records
      ensures GoodRecords(env.g, records)
      ensures d.Undecodable? ==> records == old(records)
      ensures d.Record? && !d.info.inUse ==> records == old(records) - {id}
      ensures d.Record? && d.info.inUse ==>
        records == old(records)[id := d.info.(dataRanges := DataRangesOf(env.g, d.info, d.attrs))]
      ensures records == Store(old(records), id, Apply(env, Lookup(old(records), id), d))
    {
      StoreKeepsGood(env, records, id, d);
      if d.Undecodable? {
        assert records == Store(records, id, Lookup(records, id));
        return;
      }
      if !d.info.inUse {
        records := records - {id};
        return;
      }
      var info := BuildDataRanges(env.g, d.info, d.attrs);
      records := records[id := info];
    }

    method RefreshRecord(view: seq<byte>, id: nat) returns (ok: bool)
      requires Loaded()
      modifies this`mftRuns, this`mftSize, this`records
      ensures Loaded()
      ensures State() == Refresh(env, old(State()), view, id)
      ensures ok <==> ReadRecordFn(env, old(mftRuns), old(mftSize), view, id).Record?
    {
      var d := ReadRecord(view, id);
      if d.Undecodable? {
        return false;
      }
      if id == 0 {
        var i := 0;
        assert d.attrs[0..] == d.attrs;
        while i < |d.attrs| && !PlainData(d.attrs[i])
          invariant 0 <= i <= |d.attrs|
          invariant FirstPlainData(d.attrs) == FirstPlainData(d.attrs[i..])
        {
          assert d.attrs[i..][1..] == d.attrs[i + 1..];
          i := i + 1;
        }
        if i < |d.attrs| {
          var a := d.attrs[i];
          assert a in d.attrs;
          mftRuns := a.runs;
          mftSize := a.realSize;
          if mftSize == 0 {
            mftSize := a.allocatedSize;
          }
        }
      }
      KeepRecord(id, d);
      return true;
    }

    /** One turn of the scan loop: reads a chunk of c records and looks at each. */
    method ScanTurn(view: seq<byte>, logical: nat, chunk: nat, ghost i: nat, ghost c: nat) returns (ok: bool)
      requires Loaded() && logical == RecordStart(env.g, i) && chunk == RecordStart(env.g, c)
      modifies this`records
      ensures Loaded()
      ensures var r := ReadLogical(env.g, mftRuns, mftSize, view, logical, chunk);
        && (ok <==> r.Bytes?)
        && records == if r.Bytes? then ScanBuffer(env, old(records), r.data, i, c) else old(records)
    {
      hide ScanBuffer, ReadRuns;
      RecordsCompare(env.g, i, c);
      RecordsCompare(env.g, c, i);
      var r := ReadMFTLogical(env.g, mftRuns, mftSize, view, logical, chunk);
      if r.Unreadable? {
        return false;
      }
      ReadLength(env.g, mftRuns, view, logical, chunk);
      ScanChunk(r.data, RecordIndex(env.g, logical), RecordIndex(env.g, chunk));
      return true;
    }

    /** Looks at every whole record between two logical offsets, a chunk of at most 8 MiB at a time; views says
        how the disk looks when the chunk starting with a given record is read. */
    method ScanMFTLogicalRange(views: nat -> seq<byte>, start: nat, end: nat) returns (ok: bool)
      requires Loaded()
      modifies this`records, this`dataRanges, this`mftRanges
      ensures records == ScanRecords(env, mftRuns, mftSize, views, old(records),
                                     RecordIndex(env.g, start), RecordIndex(env.g, end))
      ensures ok <==> ScanReadable(env, mftRuns, mftSize, views, RecordIndex(env.g, start), RecordIndex(env.g, end))
      ensures Loaded()
      ensures ok && RecordIndex(env.g, start) < RecordIndex(env.g, end) ==> RangesCurrent()
      ensures !ok || RecordIndex(env.g, start) >= RecordIndex(env.g, end) ==>
        dataRanges == old(dataRanges) && mftRanges == old(mftRanges)
    {
      hide ScanRecords, ScanReadable, ScanBuffer, ReadRuns, RecordStart, IsDataRanges, ChunkRecords, ReadLogical;
      hide RoundDown, RecordIndex;
      ghost var i, m := RecordIndex(env.g, start), RecordIndex(env.g, end);
      var from, to := RoundDown(env.g, start), RoundDown(env.g, end);
      WholeRecords(env.g, start);
      WholeRecords(env.g, end);
      RecordsCompare(env.g, i, m);
      ScanHead(env, mftRuns, mftSize, views, records, i, m);
      if to <= from {
        return true;
      }
      var logical := from;
      while logical < to
        invariant i <= m && logical == RecordStart(env.g, i) && to == RecordStart(env.g, m)
        invariant Loaded() && dataRanges == old(dataRanges) && mftRanges == old(mftRanges)
        invariant ScanRecords(env, mftRuns, mftSize, views, records, i, m)
          == ScanRecords(env, mftRuns, mftSize, views, old(records), RecordIndex(env.g, start), m)
        invariant ScanReadable(env, mftRuns, mftSize, views, i, m)
          <==> ScanReadable(env, mftRuns, mftSize, views, RecordIndex(env.g, start), m)
        decreases m - i
      {
        RecordsCompare(env.g, i, m);
        ScanHead(env, mftRuns, mftSize, views, records, i, m);
        ChunkIsRecords(env.g, i, m);
        var chunk := RoundDown(env.g, MinU64(0x80_0000, to - logical));
        RecordsCompare(env.g, ChunkRecords(env.g, i, m), 0);
        if chunk == 0 {
          break;
        }
        ghost var c := ChunkRecords(env.g, i, m);
        RecordsCompare(env.g, i, c);
        var read := ScanTurn(views(RecordIndex(env.g, logical)), logical, chunk, i, c);
        if !read {
          return false;
        }
        logical := logical + chunk;
        i := i + c;
      }
      RecordsCompare(env.g, i, m);
      ScanHead(env, mftRuns, mftSize, views, records, i, m);
      RebuildRanges();
      return true;
    }

    /** The inner loop of the scan: c whole records, the first of which is record i. */
    method ScanChunk(buf: seq<byte>, i: nat, c: nat)
      requires Loaded() && |buf| == RecordStart(env.g, c)
      modifies this`records
      ensures records == ScanBuffer(env, old(records), buf, i, c)
      ensures Loaded()
    {
      for k := 0 to c
        invariant Loaded()
        invariant records == ScanBuffer(env, old(records), buf, i, k)
      {
        RecordOrder(env.g, k, k + 1);
        ScaleOrder(k + 1, c, env.g.recordSize);
        KeepRecord(i + k, env.decode(i + k, buf[k * env.g.recordSize..(k + 1) * env.g.recordSize]));
      }
    }

    /** Brings the records up to date after a write to [start, end) and returns the data bytes that were
        not known before. When record 0 was refreshed, the records touched under the new layout are
        ranged over by their position in a list and not by their number, so the first extra records are
        refreshed instead of them. */
    method ObserveMFTWrite(views: Views, start: nat, end: nat) returns (newRanges: seq<ByteRange>, ghost extra: nat)
      requires Valid()
      modifies this
      ensures Valid()
      ensures end <= start ==>
        && newRanges == [] && State() == old(State())
        && dataRanges == old(dataRanges) && mftRanges == old(mftRanges)
      ensures start < end ==> Observed(env, old(State()), views, start, end, extra, State()) && MFTRangesCurrent()
      ensures Canonical(newRanges)
      ensures forall x :: Holds(newRanges, x) <==> Holds(dataRanges, x) && !Holds(old(dataRanges), x)
    {
      hide Holds, Canonical, WithTail, AfterZero, CountsExtra, Selected, Refreshed, MFTByte, GoodRecords;
      extra := 0;
      if end <= start {
        NothingCanonical();
        NothingHeld();
        return [], 0;
      }
      var oldData := dataRanges;
      var oldMFTSize := mftSize;
      var ids;
      ids, extra := RefreshTouched(views.zero, start, end);
      ScanTail(views.chunk, oldMFTSize);
      RefreshAll(views.record, ids);
      RebuildRanges();
      PublishSnapshots();
      CanonicalIsOrdered(dataRanges);
      CanonicalIsOrdered(oldData);
      newRanges := SubtractRanges(dataRanges, oldData);
    }

    /** The first half of ObserveMFTWrite: which records to refresh, and record 0 at once if it is one. */
    method RefreshTouched(view: seq<byte>, start: nat, end: nat) returns (ids: set<nat>, ghost extra: nat)
      requires Loaded() && start < end
      modifies this`mftRuns, this`mftSize, this`records
      ensures Loaded()
      ensures State() == AfterZero(env, old(State()), view, start, end)
      ensures CountsExtra(env, old(State()), view, start, end, extra)
      ensures forall id :: id in ids && id != 0 <==> Selected(env, old(State()), start, end, extra, id)
    {
      hide Refresh, GoodRecords;
      extra := 0;
      var touchesRecordZero;
      ids, touchesRecordZero := MFTRecordIDsForPhysicalRange(env.g, mftRuns, start, end);
      if touchesRecordZero {
        var ok := RefreshRecord(view, 0);
        if ok {
          var newIDs, newZero := MFTRecordIDsForPhysicalRange(env.g, mftRuns, start, end);
          extra := |newIDs|;
          assert AreTouched(env.g, mftRuns, start, end, newIDs);
          ids := AddIDs(ids, 0, |newIDs|);
          if newZero {
            touchesRecordZero := true;
          }
        }
      }
    }

    /** A grown $MFT has its new tail scanned. */
    method ScanTail(views: nat -> seq<byte>, oldMFTSize: nat)
      requires Loaded()
      modifies this`records, this`dataRanges, this`mftRanges
      ensures Loaded()
      ensures State() == WithTail(env, old(State()), views, oldMFTSize)
    {
      hide ScanRecords, GoodRecords;
      if mftSize > oldMFTSize {
        var scanStart := RoundDown(env.g, oldMFTSize);
        WholeRecords(env.g, oldMFTSize);
        RecordsCompare(env.g, RecordIndex(env.g, oldMFTSize), 0);
        var _ := ScanMFTLogicalRange(views, scanStart, mftSize);
      }
    }

    /** The last loop of ObserveMFTWrite, in whatever order the set yields the ids. */
    method RefreshAll(views: nat -> seq<byte>, ids: set<nat>)
      requires Loaded()
      modifies this`records, this`mftRuns, this`mftSize
      ensures Loaded() && mftRuns == old(mftRuns) && mftSize == old(mftSize)
      ensures forall id :: Lookup(records, id) == Refreshed(env, old(State()), views(id), id in ids && id != 0, id)
    {
      hide GoodRecords;
      var todo := ids;
      while todo != {}
        invariant todo <= ids
        invariant Loaded() && mftRuns == old(mftRuns) && mftSize == old(mftSize)
        invariant forall id ::
          Lookup(records, id) == Refreshed(env, old(State()), views(id), id in ids && id !in todo && id != 0, id)
        decreases |todo|
      {
        var id :| id in todo;
        todo := todo - {id};
        if id == 0 {
          continue;
        }
        RefreshListed(views(id), id);
      }
    }

    /** One turn of that loop. */
    method RefreshListed(view: seq<byte>, id: nat)
      requires Loaded() && id != 0
      modifies this`records, this`mftRuns, this`mftSize
      ensures Loaded() && mftRuns == old(mftRuns) && mftSize == old(mftSize)
      ensures forall i ::
        Lookup(records, i) == if i == id then Refreshed(env, old(State()), view, true, id) else Lookup(old(records), i)
    {
      if id >= RecordCount(env.g, mftSize) {
        records := records - {id};
        return;
      }
      var _ := RefreshRecord(view, id);
    }
  }

  /** What the last loop leaves of a record: refreshed if selected, dropped if it lies past the $MFT. */
  ghost function Refreshed(env: Env, t: TrackState, view: seq<byte>, selected: bool, id: nat): Option<NTFSRecord>
    requires env.g.recordSize > 0
  {
    if !selected then Lookup(t.records, id)
    else if id >= RecordCount(env.g, t.size) then None
    else Apply(env, Lookup(t.records, id), ReadRecordFn(env, t.runs, t.size, view, id))
  }

  lemma CanonicalIsOrdered(rs: seq<ByteRange>)
    requires Canonical(rs)
    ensures Ordered(rs)
  {
  }

  /** The records counted are those that start below the size. */
  lemma CountMeans(g: Geometry, size: nat, id: nat)
    requires GoodGeometry(g)
    ensures id < RecordCount(g, size) <==> id * g.recordSize < size
  {
    if size > 0 {
      var last := size + g.recordSize - 1;
      RecordOf(g, last);
      var n := RecordIndex(g, last);
      if id < n {
        RecordOrder(g, id, n);
      } else {
        ScaleOrder(n, id, g.recordSize);
      }
    }
  }

  lemma CountPositive(g: Geometry, size: nat)
    requires GoodGeometry(g) && size > 0
    ensures RecordCount(g, size) > 0
  {
    RecordsCompare(g, 1, 0);
    RecordOf(g, size + g.recordSize - 1);
    RecordsAscend(g, 1, g.recordSize, RecordIndex(g, size + g.recordSize - 1), size + g.recordSize - 1);
  }

  /** A scan of an $MFT smaller than a record finds nothing, and no list of ranges is right for it unless it
      occupies no byte. */
  lemma FirstScanRanges(env: Env, runs: seq<NTFSRun>, size: nat, view: seq<byte>)
    requires GoodEnv(env)
    ensures RecordIndex(env.g, size) > 0 <==> env.g.recordSize <= size
    ensures size < env.g.recordSize ==>
      && ScanRecords(env, runs, size, _ => view, map[], 0, RecordIndex(env.g, size)) == map[]
      && IsDataRanges([], map[]) && Canonical([])
  {
    RecordOf(env.g, size);
    RecordsCompare(env.g, 1, RecordIndex(env.g, size));
    RecordsCompare(env.g, RecordIndex(env.g, size), 0);
  }

  /** Half a record: byte 40960 is the $MFT's. */
  lemma HalfRecordByte(g: Geometry)
    requires g.partOffset == 0 && g.clusterSize == 4096
    ensures MFTByte(g, [NTFSRun(0, 1, 10, false)], 512, 40960)
  {
    var runs := [NTFSRun(0, 1, 10, false)];
    assert runs[1..] == [] && runs[0] == NTFSRun(0, 1, 10, false);
    assert RunBytes(g, runs[0]) == 4096 && RunPhysical(g, runs[0]) == 40960;
    var rs := PhysicalRanges(g, runs, 512);
    assert PhysicalRanges(g, [], 0) == [];
    assert rs == [ByteRange(40960, 41472)] + PhysicalRanges(g, runs[1..], 0);
    HoldsAt(rs, 0, 40960);
  }

  /** NewNTFS accepts that volume on every disk, and TouchesMFT then denies every write, those to the $MFT
      included. */
  method HalfRecordUnwatched(env: Env, view: seq<byte>, start: nat, end: nat) returns (accepted: bool, touches: bool)
    requires GoodEnv(env) && env.g.partOffset == 0 && env.g.clusterSize == 4096 && env.g.recordSize == 1024
    ensures accepted && !touches
    ensures MFTByte(env.g, [NTFSRun(0, 1, 10, false)], 512, 40960)
  {
    var runs := [NTFSRun(0, 1, 10, false)];
    HalfRecordByte(env.g);
    FirstScanRanges(env, runs, 512, view);
    ScanHead(env, runs, 512, _ => view, map[], 0, 0);
    var r := NTFS.NewNTFS(env, runs, 512, view);
    accepted := r.Some?;
    touches := false;
    if r.Some? {
      touches := r.value.TouchesMFT(start, end);
      NothingHeld();
    }
  }
}
