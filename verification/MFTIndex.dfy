/** The two inverses of the $MFT map in ntfs.go: which records a physical range touches, and which
    physical bytes the $MFT occupies at all. */
module MFTIndex {
  import opened Disk
  import opened Ranges
  import opened Runlist
  import opened MFTMap

  // ---------- Records ----------

  function RecordStart(g: Geometry, id: nat): nat {
    id * g.recordSize
  }

  /** An offset rounded down to a whole record. */
  function RoundDown(g: Geometry, l: nat): nat
    requires g.recordSize > 0
  {
    l - l % g.recordSize
  }

  function RecordIndex(g: Geometry, l: nat): nat
    requires g.recordSize > 0
  {
    l / g.recordSize
  }

  ghost predicate InRecord(g: Geometry, id: nat, l: nat) {
    RecordStart(g, id) <= l < RecordStart(g, id + 1)
  }

  lemma RecordOrder(g: Geometry, i: nat, j: nat)
    requires GoodGeometry(g) && i < j
    ensures RecordStart(g, i + 1) <= RecordStart(g, j)
    ensures RecordStart(g, i) < RecordStart(g, i + 1) == RecordStart(g, i) + g.recordSize
  {
    ScaleOrder(i + 1, j, g.recordSize);
    ScaleOrder(i, 1, g.recordSize);
  }

  /** Dividing by the record size finds the record. */
  lemma RecordOf(g: Geometry, l: nat)
    requires GoodGeometry(g)
    ensures InRecord(g, RecordIndex(g, l), l)
  {
    var q := l / g.recordSize;
    assert l == q * g.recordSize + l % g.recordSize;
    ScaleOrder(q, 1, g.recordSize);
  }

  /** A later byte is in no earlier record. */
  lemma RecordsAscend(g: Geometry, i: nat, a: nat, j: nat, b: nat)
    requires GoodGeometry(g) && InRecord(g, i, a) && InRecord(g, j, b) && a <= b
    ensures i <= j
  {
    if j < i {
      RecordOrder(g, j, i);
    }
  }

  // ---------- From physical ranges to records ----------

  /** Some byte of the range is a byte of record id. */
  ghost predicate RunTouches(g: Geometry, run: NTFSRun, start: nat, end: nat, id: nat) {
    exists l: nat :: Contains(g, run, l) && InRecord(g, id, l)
      && start <= RunPhysical(g, run) + (l - RunStart(g, run)) < end
  }

  ghost predicate TouchesRecord(g: Geometry, runs: seq<NTFSRun>, start: nat, end: nat, id: nat) {
    exists run :: run in runs && RunTouches(g, run, start, end, id)
  }

  /** A record is touched exactly when one of its logical bytes maps into the range. */
  lemma TouchesRecordMeans(g: Geometry, runs: seq<NTFSRun>, start: nat, end: nat, id: nat)
    ensures TouchesRecord(g, runs, start, end, id)
      <==> exists l: nat, p: nat :: InRecord(g, id, l) && start <= p < end && MapsTo(g, runs, l, p)
  {
    if TouchesRecord(g, runs, start, end, id) {
      var run :| run in runs && RunTouches(g, run, start, end, id);
      var l: nat :| Contains(g, run, l) && InRecord(g, id, l)
        && start <= RunPhysical(g, run) + (l - RunStart(g, run)) < end;
      assert MapsVia(g, run, l, RunPhysical(g, run) + (l - RunStart(g, run)));
      assert MapsTo(g, runs, l, RunPhysical(g, run) + (l - RunStart(g, run)));
    }
    if l: nat, p: nat :| InRecord(g, id, l) && start <= p < end && MapsTo(g, runs, l, p) {
      var run :| run in runs && MapsVia(g, run, l, p);
      assert RunTouches(g, run, start, end, id);
    }
  }

  /** The records between those of the first and the last byte of a run's overlap are those it touches. */
  lemma OverlapRecords(g: Geometry, run: NTFSRun, start: nat, end: nat, first: nat, last: nat, id: nat)
    requires GoodGeometry(g) && Mapped(run)
    requires var a := MaxU64(start, RunPhysical(g, run));
      var b := MinU64(end, RunPhysical(g, run) + RunBytes(g, run));
      && a < b
      && InRecord(g, first, RunStart(g, run) + (a - RunPhysical(g, run)))
      && InRecord(g, last, RunStart(g, run) + (b - RunPhysical(g, run)) - 1)
    ensures RunTouches(g, run, start, end, id) <==> first <= id <= last
  {
    hide RunStart, RunBytes, RunPhysical, RecordStart;
    var phys := RunPhysical(g, run);
    var a, b := MaxU64(start, phys), MinU64(end, phys + RunBytes(g, run));
    var la, lb := RunStart(g, run) + (a - phys), RunStart(g, run) + (b - phys);
    if RunTouches(g, run, start, end, id) {
      var l: nat :| Contains(g, run, l) && InRecord(g, id, l) && start <= phys + (l - RunStart(g, run)) < end;
      RecordsAscend(g, first, la, id, l);
      RecordsAscend(g, id, l, last, lb - 1);
    }
    if first <= id <= last {
      RecordOrder(g, id, id + 1);
      if id < last {
        RecordOrder(g, id, last);
      }
      var l := la;
      if first < id {
        RecordOrder(g, first, id);
        l := RecordStart(g, id);
      }
      assert Contains(g, run, l) && InRecord(g, id, l);
    }
  }

  /** Adds the ids from one bound up to another. */
  method AddIDs(ids: set<nat>, from: nat, to: nat) returns (more: set<nat>)
    requires from <= to
    ensures forall id :: id in more <==> id in ids || from <= id < to
  {
    more := ids;
    for id := from to to
      invariant forall i :: i in more <==> i in ids || from <= i < id
    {
      more := more + {id};
    }
  }

  method MFTRecordIDsForPhysicalRange(g: Geometry, mftRuns: seq<NTFSRun>, start: nat, end: nat)
    returns (ids: set<nat>, touchesZero: bool)
    requires GoodGeometry(g) && NoWrap(g, mftRuns) && start < end
    requires forall run :: run in mftRuns ==> run.length > 0
    ensures forall id :: id in ids <==> TouchesRecord(g, mftRuns, start, end, id)
    ensures touchesZero <==> 0 in ids
  {
    hide RunStart, RunBytes, RunPhysical, RunTouches, InRecord, Contains, RecordStart, RecordIndex;
    hide AddU64, LogicalStart64, Length64, PhysicalStart64, FitsU64;
    ids, touchesZero := {}, false;
    for k := 0 to |mftRuns|
      invariant forall id :: id in ids <==> TouchesRecord(g, mftRuns[..k], start, end, id)
      invariant touchesZero <==> 0 in ids
    {
      var run := mftRuns[k];
      assert mftRuns[..k + 1] == mftRuns[..k] + [run];
      TouchesOneMore(g, mftRuns[..k], run, start, end);
      if run.sparse || run.lcn < 0 {
        TouchesNothing(g, run, start, end);
        continue;
      }
      Unwrapped(g, run);
      var physStart := PhysicalStart64(g, run);
      var physEnd := AddU64(physStart, Length64(g, run));
      RunNotEmpty(g, run);
      if start >= physEnd || end <= physStart {
        TouchesNothing(g, run, start, end);
        continue;
      }
      var a, b := MaxU64(start, physStart), MinU64(end, physEnd);
      PhysicalInRun(g, run, a - physStart);
      PhysicalInRun(g, run, b - physStart);
      var logicalA := AddU64(LogicalStart64(g, run), a - physStart);
      var logicalB := AddU64(LogicalStart64(g, run), b - physStart);
      var first, last := RecordIndex(g, logicalA), RecordIndex(g, logicalB - 1);
      RecordOf(g, logicalA);
      RecordOf(g, logicalB - 1);
      RecordsAscend(g, first, logicalA, last, logicalB - 1);
      ids := AddIDs(ids, first, last + 1);
      if first == 0 {
        touchesZero := true;
      }
      forall i: nat ensures RunTouches(g, run, start, end, i) <==> first <= i <= last {
        OverlapRecords(g, run, start, end, first, last, i);
      }
    }
    assert mftRuns[..|mftRuns|] == mftRuns;
  }

  lemma RunNotEmpty(g: Geometry, run: NTFSRun)
    requires GoodGeometry(g) && run.length > 0
    ensures RunBytes(g, run) > 0
  {
    ScaleOrder(1, run.length, g.clusterSize);
  }

  lemma TouchesOneMore(g: Geometry, runs: seq<NTFSRun>, run: NTFSRun, start: nat, end: nat)
    ensures forall id :: TouchesRecord(g, runs + [run], start, end, id) <==>
      (TouchesRecord(g, runs, start, end, id) || RunTouches(g, run, start, end, id))
  {
    hide RunTouches;
    forall id | TouchesRecord(g, runs, start, end, id) ensures TouchesRecord(g, runs + [run], start, end, id) {
      var r :| r in runs && RunTouches(g, r, start, end, id);
      assert r in runs + [run];
    }
    assert run in runs + [run];
  }

  lemma TouchesNothing(g: Geometry, run: NTFSRun, start: nat, end: nat)
    requires !Mapped(run) || start >= RunPhysical(g, run) + RunBytes(g, run) || end <= RunPhysical(g, run)
    ensures forall id :: !RunTouches(g, run, start, end, id)
  {
  }

  // ---------- The physical bytes of the $MFT ----------

  /** The ranges of the first remaining bytes of the runs. */
  ghost function PhysicalRanges(g: Geometry, runs: seq<NTFSRun>, remaining: nat): seq<ByteRange> {
    if runs == [] || remaining == 0 then []
    else if RunBytes(g, runs[0]) == 0 then PhysicalRanges(g, runs[1..], remaining)
    else
      var nbytes := MinU64(RunBytes(g, runs[0]), remaining);
      (if Mapped(runs[0]) then [ByteRange(RunPhysical(g, runs[0]), RunPhysical(g, runs[0]) + nbytes)] else [])
        + PhysicalRanges(g, runs[1..], remaining - nbytes)
  }

  /** x is a byte of the $MFT as far as its runs and size tell. */
  ghost predicate MFTByte(g: Geometry, runs: seq<NTFSRun>, size: nat, x: int) {
    Holds(PhysicalRanges(g, runs, size), x)
  }

  method BuildMFTRanges(g: Geometry, mftRuns: seq<NTFSRun>, mftSize: nat) returns (ranges: seq<ByteRange>)
    requires NoWrap(g, mftRuns)
    ensures Canonical(ranges)
    ensures forall x :: Holds(ranges, x) <==> MFTByte(g, mftRuns, mftSize, x)
  {
    hide RunBytes, RunPhysical, Canonical, Holds, AddU64, LogicalStart64, Length64, PhysicalStart64, FitsU64;
    if mftSize == 0 {
      NothingCanonical();
      return [];
    }
    var out: seq<ByteRange> := [];
    var remaining: nat := mftSize;
    var k := 0;
    assert mftRuns[0..] == mftRuns;
    assert [] + PhysicalRanges(g, mftRuns, mftSize) == PhysicalRanges(g, mftRuns, mftSize);
    while k < |mftRuns| && remaining != 0
      invariant 0 <= k <= |mftRuns|
      invariant out + PhysicalRanges(g, mftRuns[k..], remaining) == PhysicalRanges(g, mftRuns, mftSize)
    {
      var run := mftRuns[k];
      assert mftRuns[k..][1..] == mftRuns[k + 1..];
      Unwrapped(g, run);
      var runBytes := Length64(g, run);
      k := k + 1;
      if runBytes == 0 {
        continue;
      }
      var nbytes := runBytes;
      if nbytes > remaining {
        nbytes := remaining;
      }
      ghost var rest := PhysicalRanges(g, mftRuns[k..], remaining - nbytes);
      if !run.sparse && run.lcn >= 0 {
        PhysicalInRun(g, run, nbytes);
        var start := PhysicalStart64(g, run);
        assert AddU64(start, nbytes) == start + nbytes;
        assert out + ([ByteRange(start, start + nbytes)] + rest) == (out + [ByteRange(start, start + nbytes)]) + rest;
        out := out + [ByteRange(start, AddU64(start, nbytes))];
      } else {
        assert [] + rest == rest;
      }
      remaining := remaining - nbytes;
    }
    assert out + [] == out;
    ranges := CoalesceByteRanges(out);
  }

  lemma NothingCanonical()
    ensures Canonical([])
  {
  }

  /** Logical byte l below size lies at physical byte x. */
  ghost predicate OccupiesAt(g: Geometry, runs: seq<NTFSRun>, size: nat, l: nat, x: int) {
    l < size && Physical(g, runs, l) == x
  }

  ghost predicate Occupies(g: Geometry, runs: seq<NTFSRun>, size: nat, x: int) {
    x >= 0 && exists l: nat :: OccupiesAt(g, runs, size, l, x)
  }

  /** Bytes [from, from + n) of runs that start at vcn: x is one of them. */
  ghost predicate OccupiesFrom(g: Geometry, runs: seq<NTFSRun>, from: nat, n: nat, x: int) {
    exists l: nat :: from <= l < from + n && MapsTo(g, runs, l, x)
  }

  lemma {:induction false} PhysicalRangesCover(g: Geometry, runs: seq<NTFSRun>, vcn: nat, n: nat, x: int)
    requires GoodGeometry(g) && Contiguous(runs, vcn)
    ensures Holds(PhysicalRanges(g, runs, n), x) <==> OccupiesFrom(g, runs, vcn * g.clusterSize, n, x)
    decreases |runs|
  {
    if runs != [] && n > 0 {
      var run, rest := runs[0], runs[1..];
      var from, bytes := vcn * g.clusterSize, RunBytes(g, run);
      ScaleOrder(vcn, run.length, g.clusterSize);
      ScaleOrder(1, run.length, g.clusterSize);
      var m := MinU64(bytes, n);
      PhysicalRangesCover(g, rest, vcn + run.length, n - m, x);
      var head := if Mapped(run) then [ByteRange(RunPhysical(g, run), RunPhysical(g, run) + m)] else [];
      assert PhysicalRanges(g, runs, n) == head + PhysicalRanges(g, rest, n - m);
      HoldsConcat(head, PhysicalRanges(g, rest, n - m));
      HeadOccupies(g, run, from, m, x);
      assert m < bytes ==> n - m == 0;
      SplitOccupies(g, runs, vcn, m, n, x);
    }
  }

  /** What the first run occupies. */
  lemma HeadOccupies(g: Geometry, run: NTFSRun, from: nat, m: nat, x: int)
    requires RunStart(g, run) == from && m <= RunBytes(g, run)
    ensures Holds(if Mapped(run) then [ByteRange(RunPhysical(g, run), RunPhysical(g, run) + m)] else [], x)
      <==> exists l: nat :: from <= l < from + m && MapsVia(g, run, l, x)
  {
    hide RunStart, RunBytes, RunPhysical;
    if Mapped(run) {
      var r := ByteRange(RunPhysical(g, run), RunPhysical(g, run) + m);
      if Covers(r, x) {
        assert r in [r];
        assert MapsVia(g, run, from + (x - RunPhysical(g, run)), x);
      }
    }
  }

  /** Only the first run maps bytes below the second's start, and only later ones the rest. */
  lemma SplitOccupies(g: Geometry, runs: seq<NTFSRun>, vcn: nat, m: nat, n: nat, x: int)
    requires GoodGeometry(g) && Contiguous(runs, vcn) && runs != [] && m <= n
    requires m == MinU64(RunBytes(g, runs[0]), n)
    ensures var from := vcn * g.clusterSize;
      OccupiesFrom(g, runs, from, n, x) <==>
        ((exists l: nat :: from <= l < from + m && MapsVia(g, runs[0], l, x))
         || OccupiesFrom(g, runs[1..], (vcn + runs[0].length) * g.clusterSize, n - m, x))
  {
    var from, next := vcn * g.clusterSize, (vcn + runs[0].length) * g.clusterSize;
    ScaleOrder(vcn, runs[0].length, g.clusterSize);
    assert next == from + RunBytes(g, runs[0]) && from == RunStart(g, runs[0]);
    if OccupiesFrom(g, runs, from, n, x) {
      var l: nat :| from <= l < from + n && MapsTo(g, runs, l, x);
      var run :| run in runs && MapsVia(g, run, l, x);
      var k :| 0 <= k < |runs| && runs[k] == run;
      if k > 0 {
        StartsAfter(g, runs[1..], vcn + runs[0].length, k - 1);
        assert run in runs[1..] && MapsTo(g, runs[1..], l, x);
      }
    }
    if l: nat :| from <= l < from + m && MapsVia(g, runs[0], l, x) {
      assert runs[0] in runs && MapsTo(g, runs, l, x);
    }
    if OccupiesFrom(g, runs[1..], next, n - m, x) {
      var l: nat :| next <= l < next + (n - m) && MapsTo(g, runs[1..], l, x);
      var run :| run in runs[1..] && MapsVia(g, run, l, x);
      assert run in runs && MapsTo(g, runs, l, x);
    }
  }

  /** Through contiguous runs from VCN 0, the ranges hold exactly the physical bytes that a read below
      the $MFT's size can reach. */
  lemma RangesAreOccupied(g: Geometry, runs: seq<NTFSRun>, size: nat, x: int)
    requires GoodGeometry(g) && Contiguous(runs, 0)
    ensures MFTByte(g, runs, size, x) <==> Occupies(g, runs, size, x)
  {
    PhysicalRangesCover(g, runs, 0, size, x);
    if OccupiesFrom(g, runs, 0, size, x) {
      var l: nat :| 0 <= l < size && MapsTo(g, runs, l, x);
      PhysicalIsTheMap(g, runs, l, x);
      assert OccupiesAt(g, runs, size, l, x);
    }
    if Occupies(g, runs, size, x) {
      var l: nat :| OccupiesAt(g, runs, size, l, x);
      PhysicalIsTheMap(g, runs, l, x);
    }
  }

  // ---------- Writes that miss the $MFT ----------

  /** The two disks differ at most in the range. */
  ghost predicate SameOutside(a: seq<byte>, b: seq<byte>, start: nat, end: nat) {
    |a| == |b| && forall x :: 0 <= x < |a| && !(start <= x < end) ==> a[x] == b[x]
  }

  /** A write that touches no occupied byte changes nothing that can be read below the $MFT's size. */
  lemma MissedWriteUnread(g: Geometry, runs: seq<NTFSRun>, size: nat, a: seq<byte>, b: seq<byte>, start: nat, end: nat,
                          logical: nat, n: nat)
    requires GoodGeometry(g) && Contiguous(runs, 0) && SameOutside(a, b, start, end)
    requires forall x :: start <= x < end ==> !Occupies(g, runs, size, x)
    ensures ReadLogical(g, runs, size, a, logical, n) == ReadLogical(g, runs, size, b, logical, n)
  {
    if logical <= size && n <= size - logical {
      forall l | logical <= l < logical + n ensures var p := Physical(g, runs, l); 0 <= p < |a| ==> a[p] == b[p] {
        var p := Physical(g, runs, l);
        assert OccupiesAt(g, runs, size, l, p);
        assert p >= 0 ==> Occupies(g, runs, size, p);
      }
      SameBytesSameRead(g, runs, a, b, logical, n);
    }
  }

  lemma SameBytesSameRead(g: Geometry, runs: seq<NTFSRun>, a: seq<byte>, b: seq<byte>, pos: nat, n: nat)
    requires GoodGeometry(g) && Contiguous(runs, 0) && |a| == |b|
    requires forall l :: pos <= l < pos + n ==> var p := Physical(g, runs, l); 0 <= p < |a| ==> a[p] == b[p]
    ensures ReadRuns(g, runs, a, pos, n) == ReadRuns(g, runs, b, pos, n)
  {
    hide ReadRuns, Physical;
    ReadRunsIsBytewise(g, runs, a, pos, n);
    ReadRunsIsBytewise(g, runs, b, pos, n);
    var ra, rb := ReadRuns(g, runs, a, pos, n), ReadRuns(g, runs, b, pos, n);
    if ra.Bytes? {
      forall i | 0 <= i < n ensures ra.data[i] == rb.data[i] {
        assert ra.data[(pos + i) - pos] == a[Physical(g, runs, pos + i)];
        assert rb.data[(pos + i) - pos] == b[Physical(g, runs, pos + i)];
      }
    }
  }
}
