/** The logical-to-physical map of the $MFT in ntfs.go: reading through it, inverting it, and the list of
    physical ranges it covers. Offsets are naturals; NoWrap is the bound within which the program's 64-bit
    products and sums are these naturals. */
module MFTMap {
  import opened Disk
  import opened Runlist

  datatype Geometry = Geometry(partOffset: nat, partSize: nat, clusterSize: nat, totalClusters: nat, recordSize: nat)

  ghost predicate GoodGeometry(g: Geometry) {
    g.clusterSize > 0 && g.recordSize > 0
  }

  // ---------- A run in bytes ----------

  function RunStart(g: Geometry, run: NTFSRun): nat {
    run.startVCN * g.clusterSize
  }

  function RunBytes(g: Geometry, run: NTFSRun): nat {
    run.length * g.clusterSize
  }

  predicate Mapped(run: NTFSRun) {
    !run.sparse && run.lcn >= 0
  }

  function RunPhysical(g: Geometry, run: NTFSRun): nat
    requires Mapped(run)
  {
    g.partOffset + run.lcn * g.clusterSize
  }

  predicate Contains(g: Geometry, run: NTFSRun, l: nat) {
    Mapped(run) && RunStart(g, run) <= l < RunStart(g, run) + RunBytes(g, run)
  }

  // ---------- The same in 64-bit arithmetic ----------

  function LogicalStart64(g: Geometry, run: NTFSRun): nat {
    MulU64(run.startVCN, g.clusterSize)
  }

  function Length64(g: Geometry, run: NTFSRun): nat {
    MulU64(run.length, g.clusterSize)
  }

  function PhysicalStart64(g: Geometry, run: NTFSRun): nat
    requires Mapped(run)
  {
    AddU64(g.partOffset, MulU64(run.lcn, g.clusterSize))
  }

  /** All byte offsets of the run fit 64 bits. */
  ghost predicate FitsU64(g: Geometry, run: NTFSRun) {
    && RunStart(g, run) + RunBytes(g, run) < 0x1_0000_0000_0000_0000
    && (Mapped(run) ==> RunPhysical(g, run) + RunBytes(g, run) < 0x1_0000_0000_0000_0000)
  }

  ghost predicate NoWrap(g: Geometry, runs: seq<NTFSRun>) {
    forall run :: run in runs ==> FitsU64(g, run)
  }

  /** Then the program's arithmetic is exact. */
  lemma Unwrapped(g: Geometry, run: NTFSRun)
    requires FitsU64(g, run)
    ensures LogicalStart64(g, run) == RunStart(g, run) && Length64(g, run) == RunBytes(g, run)
    ensures AddU64(RunStart(g, run), RunBytes(g, run)) == RunStart(g, run) + RunBytes(g, run)
    ensures Mapped(run) ==> PhysicalStart64(g, run) == RunPhysical(g, run)
    ensures Mapped(run) ==> AddU64(RunPhysical(g, run), RunBytes(g, run)) == RunPhysical(g, run) + RunBytes(g, run)
  {
  }

  // ---------- The map ----------

  /** The run maps logical byte l to physical byte p. */
  ghost predicate MapsVia(g: Geometry, run: NTFSRun, l: nat, p: int) {
    Contains(g, run, l) && p == RunPhysical(g, run) + (l - RunStart(g, run))
  }

  ghost predicate MapsTo(g: Geometry, runs: seq<NTFSRun>, l: nat, p: int) {
    exists run :: run in runs && MapsVia(g, run, l, p)
  }

  /** The first run that contains l, as an index; the number of runs when none does. */
  function FirstRun(g: Geometry, runs: seq<NTFSRun>, l: nat): (k: nat)
    ensures k <= |runs|
    ensures k < |runs| ==> Contains(g, runs[k], l)
    ensures forall j :: 0 <= j < k ==> !Contains(g, runs[j], l)
  {
    if runs == [] then 0
    else if Contains(g, runs[0], l) then 0
    else 1 + FirstRun(g, runs[1..], l)
  }

  /** Where logical byte l lies, -1 when it is unmapped. */
  function Physical(g: Geometry, runs: seq<NTFSRun>, l: nat): int {
    var k := FirstRun(g, runs, l);
    if k == |runs| then -1 else RunPhysical(g, runs[k]) + (l - RunStart(g, runs[k]))
  }

  /** Runs that follow each other from vcn on without a gap, as an accepted runlist does. */
  ghost predicate Contiguous(runs: seq<NTFSRun>, vcn: nat)
    decreases |runs|
  {
    runs == [] ||
    (&& runs[0].startVCN == vcn && runs[0].length > 0
     && (if runs[0].sparse then runs[0].lcn == -1 else runs[0].lcn >= 0)
     && Contiguous(runs[1..], vcn + runs[0].length))
  }

  /** An accepted runlist is contiguous as long as its VCNs stay below 2 to the 64. */
  lemma {:induction false} ChainedIsContiguous(runs: seq<NTFSRun>, vcn: nat)
    requires Chained(runs, vcn) && vcn + TotalLength(runs) < 0x1_0000_0000_0000_0000
    ensures Contiguous(runs, vcn)
    decreases |runs|
  {
    if runs != [] {
      assert AddU64(vcn, runs[0].length) == vcn + runs[0].length;
      ChainedIsContiguous(runs[1..], vcn + runs[0].length);
    }
  }

  ghost function TotalLength(runs: seq<NTFSRun>): nat {
    if runs == [] then 0 else runs[0].length + TotalLength(runs[1..])
  }

  lemma ScaleOrder(a: nat, b: nat, c: nat)
    ensures a <= b ==> a * c <= b * c
    ensures (a + b) * c == a * c + b * c
  {
    if a <= b {
      assert b * c == a * c + (b - a) * c;
    }
  }

  /** Contiguous runs do not overlap: later runs start after earlier ones end. */
  lemma {:induction false} RunsApart(g: Geometry, runs: seq<NTFSRun>, vcn: nat, j: nat, k: nat)
    requires Contiguous(runs, vcn) && j < k < |runs|
    ensures vcn * g.clusterSize <= RunStart(g, runs[j])
    ensures RunStart(g, runs[j]) + RunBytes(g, runs[j]) <= RunStart(g, runs[k])
    decreases |runs|
  {
    ScaleOrder(vcn, runs[0].length, g.clusterSize);
    if j == 0 {
      StartsAfter(g, runs[1..], vcn + runs[0].length, k - 1);
    } else {
      RunsApart(g, runs[1..], vcn + runs[0].length, j - 1, k - 1);
    }
  }

  lemma {:induction false} StartsAfter(g: Geometry, runs: seq<NTFSRun>, vcn: nat, k: nat)
    requires Contiguous(runs, vcn) && k < |runs|
    ensures vcn * g.clusterSize <= RunStart(g, runs[k])
    decreases |runs|
  {
    if k > 0 {
      ScaleOrder(vcn, runs[0].length, g.clusterSize);
      StartsAfter(g, runs[1..], vcn + runs[0].length, k - 1);
    }
  }

  /** So at most one run contains a logical byte, and Physical is the map itself. */
  lemma PhysicalIsTheMap(g: Geometry, runs: seq<NTFSRun>, l: nat, p: int)
    requires Contiguous(runs, 0)
    ensures MapsTo(g, runs, l, p) <==> p == Physical(g, runs, l) && p >= 0
  {
    var k := FirstRun(g, runs, l);
    if MapsTo(g, runs, l, p) {
      var run :| run in runs && MapsVia(g, run, l, p);
      var j :| 0 <= j < |runs| && runs[j] == run;
      if k < j {
        RunsApart(g, runs, 0, k, j);
      }
      assert j == k;
    }
    if k < |runs| {
      assert runs[k] in runs;
    }
  }

  // ---------- Reading ----------

  datatype ReadResult = Unreadable | Bytes(data: seq<byte>)

  function Before(head: seq<byte>, r: ReadResult): ReadResult {
    if r.Bytes? then Bytes(head + r.data) else r
  }

  /** n bytes from logical offset pos on, one run's worth at a time. */
  function ReadRuns(g: Geometry, runs: seq<NTFSRun>, view: seq<byte>, pos: nat, n: nat): ReadResult
    decreases n
  {
    if n == 0 then Bytes([])
    else
      var k := FirstRun(g, runs, pos);
      if k == |runs| then Unreadable
      else
        var within := pos - RunStart(g, runs[k]);
        var nbytes := if RunBytes(g, runs[k]) - within > n then n else RunBytes(g, runs[k]) - within;
        var physical := RunPhysical(g, runs[k]) + within;
        if physical + nbytes > |view| then Unreadable
        else Before(view[physical..physical + nbytes], ReadRuns(g, runs, view, pos + nbytes, n - nbytes))
  }

  /** One unfolding of ReadRuns. */
  lemma ReadHead(g: Geometry, runs: seq<NTFSRun>, view: seq<byte>, pos: nat, n: nat)
    ensures n == 0 ==> ReadRuns(g, runs, view, pos, n) == Bytes([])
    ensures n > 0 && FirstRun(g, runs, pos) == |runs| ==> ReadRuns(g, runs, view, pos, n) == Unreadable
    ensures n > 0 && FirstRun(g, runs, pos) < |runs| ==>
      var run := runs[FirstRun(g, runs, pos)];
      && RunStart(g, run) <= pos < RunStart(g, run) + RunBytes(g, run) && Mapped(run)
      && var within := pos - RunStart(g, run);
         var nbytes := if RunBytes(g, run) - within > n then n else RunBytes(g, run) - within;
         var physical: nat := RunPhysical(g, run) + within;
         && 0 < nbytes <= n
         && ReadRuns(g, runs, view, pos, n) ==
            if physical + nbytes > |view| then Unreadable
            else Before(view[physical..physical + nbytes], ReadRuns(g, runs, view, pos + nbytes, n - nbytes))
  {
    hide RunStart, RunBytes, RunPhysical;
  }

  function ReadLogical(g: Geometry, runs: seq<NTFSRun>, size: nat, view: seq<byte>, logical: nat, n: nat): ReadResult {
    if logical > size || n > size - logical then Unreadable else ReadRuns(g, runs, view, logical, n)
  }

  /** The inner loop of readMFTLogical: the first run that contains pos. */
  method FindRun(g: Geometry, runs: seq<NTFSRun>, pos: nat) returns (k: nat)
    requires NoWrap(g, runs)
    ensures k == FirstRun(g, runs, pos)
  {
    hide AddU64, LogicalStart64, Length64, PhysicalStart64, FitsU64;
    k := 0;
    while k < |runs|
      invariant 0 <= k <= |runs|
      invariant forall j :: 0 <= j < k ==> !Contains(g, runs[j], pos)
    {
      var run := runs[k];
      Unwrapped(g, run);
      if !run.sparse && run.lcn >= 0 {
        var runStart := LogicalStart64(g, run);
        var runEnd := AddU64(runStart, Length64(g, run));
        if runStart <= pos < runEnd {
          break;
        }
      }
      k := k + 1;
    }
    FirstRunIs(g, runs, pos, k);
  }

  method ReadMFTLogical(
    g: Geometry, mftRuns: seq<NTFSRun>, mftSize: nat, view: seq<byte>, logical: nat, n: nat)
    returns (result: ReadResult)
    requires GoodGeometry(g) && NoWrap(g, mftRuns)
    ensures result == ReadLogical(g, mftRuns, mftSize, view, logical, n)
  {
    hide RunStart, RunBytes, RunPhysical, ReadRuns, FirstRun, Contains;
    hide AddU64, LogicalStart64, Length64, PhysicalStart64;
    if logical > mftSize || n > mftSize - logical {
      return Unreadable;
    }
    var remaining: nat, pos: nat := n, logical;
    var dst: seq<byte> := [];
    NothingBefore(ReadRuns(g, mftRuns, view, logical, n));
    while remaining > 0
      invariant ReadRuns(g, mftRuns, view, logical, n) == Before(dst, ReadRuns(g, mftRuns, view, pos, remaining))
      decreases remaining
    {
      ReadHead(g, mftRuns, view, pos, remaining);
      var k := FindRun(g, mftRuns, pos);
      if k == |mftRuns| {
        return Unreadable;
      }
      var run := mftRuns[k];
      Unwrapped(g, run);
      var within := pos - LogicalStart64(g, run);
      var nbytes := Length64(g, run) - within;
      if nbytes > remaining {
        nbytes := remaining;
      }
      PhysicalInRun(g, run, within);
      var physical := AddU64(PhysicalStart64(g, run), within);
      if physical + nbytes > |view| {
        return Unreadable;
      }
      BeforeBefore(dst, view[physical..physical + nbytes],
                   ReadRuns(g, mftRuns, view, pos + nbytes, remaining - nbytes));
      dst := dst + view[physical..physical + nbytes];
      pos := pos + nbytes;
      remaining := remaining - nbytes;
    }
    ReadHead(g, mftRuns, view, pos, 0);
    assert dst + [] == dst;
    return Bytes(dst);
  }

  /** No sum inside a run that fits 64 bits wraps. */
  lemma PhysicalInRun(g: Geometry, run: NTFSRun, within: nat)
    requires FitsU64(g, run) && within <= RunBytes(g, run)
    ensures AddU64(RunStart(g, run), within) == RunStart(g, run) + within
    ensures Mapped(run) ==> AddU64(RunPhysical(g, run), within) == RunPhysical(g, run) + within
  {
    hide RunStart, RunBytes, RunPhysical;
  }

  lemma NothingBefore(r: ReadResult)
    ensures Before([], r) == r
  {
    assert r.Bytes? ==> [] + r.data == r.data;
  }

  lemma BeforeBefore(a: seq<byte>, b: seq<byte>, r: ReadResult)
    ensures Before(a, Before(b, r)) == Before(a + b, r)
  {
    assert r.Bytes? ==> a + (b + r.data) == (a + b) + r.data;
  }

  lemma FirstRunIs(g: Geometry, runs: seq<NTFSRun>, l: nat, k: nat)
    requires k <= |runs| && (k < |runs| ==> Contains(g, runs[k], l))
    requires forall j :: 0 <= j < k ==> !Contains(g, runs[j], l)
    ensures FirstRun(g, runs, l) == k
  {
  }

  /** Every byte of the range is mapped into the disk. */
  ghost predicate Readable(g: Geometry, runs: seq<NTFSRun>, diskSize: nat, logical: nat, n: nat) {
    forall l :: logical <= l < logical + n ==> 0 <= Physical(g, runs, l) < diskSize
  }

  /** r is what reading should return: every byte from where it is mapped to, or a failure exactly when
      some byte is not mapped into the disk. */
  ghost predicate ReadIs(r: ReadResult, g: Geometry, runs: seq<NTFSRun>, view: seq<byte>, pos: nat, n: nat) {
    && (r.Bytes? <==> Readable(g, runs, |view|, pos, n))
    && (r.Bytes? ==>
          && |r.data| == n
          && forall l :: pos <= l < pos + n ==> r.data[l - pos] == view[Physical(g, runs, l)])
  }

  /** Through contiguous runs, reading is bytewise. */
  lemma {:induction false} ReadRunsIsBytewise(g: Geometry, runs: seq<NTFSRun>, view: seq<byte>, pos: nat, n: nat)
    requires GoodGeometry(g) && Contiguous(runs, 0)
    ensures ReadIs(ReadRuns(g, runs, view, pos, n), g, runs, view, pos, n)
    decreases n
  {
    hide RunStart, RunBytes, RunPhysical, ReadRuns;
    ReadHead(g, runs, view, pos, n);
    if n > 0 && FirstRun(g, runs, pos) == |runs| {
      assert Physical(g, runs, pos) == -1;
    } else if n > 0 {
      hide ReadIs;
      var run := runs[FirstRun(g, runs, pos)];
      var within := pos - RunStart(g, run);
      var nbytes := if RunBytes(g, run) - within > n then n else RunBytes(g, run) - within;
      var physical := RunPhysical(g, run) + within;
      forall l | pos <= l < pos + nbytes ensures Physical(g, runs, l) == physical + (l - pos) {
        SameRun(g, runs, FirstRun(g, runs, pos), l);
      }
      ReadRunsIsBytewise(g, runs, view, pos + nbytes, n - nbytes);
      JoinReads(ReadRuns(g, runs, view, pos + nbytes, n - nbytes), g, runs, view, pos, nbytes, n, physical);
    }
  }

  lemma JoinReads(rest: ReadResult, g: Geometry, runs: seq<NTFSRun>, view: seq<byte>,
                  pos: nat, m: nat, n: nat, physical: nat)
    requires 0 < m <= n && ReadIs(rest, g, runs, view, pos + m, n - m)
    requires forall l :: pos <= l < pos + m ==> Physical(g, runs, l) == physical + (l - pos)
    ensures ReadIs(if physical + m > |view| then Unreadable else Before(view[physical..physical + m], rest),
                   g, runs, view, pos, n)
  {
    hide Physical;
    ReadableSplit(g, runs, |view|, pos, m, n);
    if physical + m > |view| {
      assert Physical(g, runs, pos + m - 1) >= |view|;
    } else if rest.Bytes? {
      var here := Before(view[physical..physical + m], rest);
      forall l | pos <= l < pos + n ensures here.data[l - pos] == view[Physical(g, runs, l)] {
        if l >= pos + m {
          assert here.data[l - pos] == rest.data[l - (pos + m)];
        }
      }
    }
  }

  lemma ReadableSplit(g: Geometry, runs: seq<NTFSRun>, diskSize: nat, pos: nat, m: nat, n: nat)
    requires m <= n
    ensures Readable(g, runs, diskSize, pos, n)
      <==> Readable(g, runs, diskSize, pos, m) && Readable(g, runs, diskSize, pos + m, n - m)
  {
  }

  /** Bytes of one run are mapped by that run. */
  lemma SameRun(g: Geometry, runs: seq<NTFSRun>, k: nat, l: nat)
    requires Contiguous(runs, 0) && k < |runs| && Contains(g, runs[k], l)
    ensures Physical(g, runs, l) == RunPhysical(g, runs[k]) + (l - RunStart(g, runs[k]))
  {
    assert runs[k] in runs;
    assert MapsVia(g, runs[k], l, RunPhysical(g, runs[k]) + (l - RunStart(g, runs[k])));
    assert RunPhysical(g, runs[k]) >= 0;
    PhysicalIsTheMap(g, runs, l, RunPhysical(g, runs[k]) + (l - RunStart(g, runs[k])));
  }
}
