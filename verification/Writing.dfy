/** writer.go: the ordered writer, its bounded history, and the delayed punches it guards. */
module Writing {
  import opened Ranges
  import opened Ring
  import opened Disk
  import opened Overlay
  import opened Types

  datatype WriterState = WriterState(disk: DiskState, recent: seq<WriteRecord>)

  ghost predicate Fits(d: DiskState, ev: WriteEvent)
    requires Disk.Valid(d)
  {
    ev.offset + |ev.data| <= |d.image| && ev.staged.end <= |d.image|
  }

  function RecordOf(ev: WriteEvent): WriteRecord {
    WriteRecord(ev.seqNo, ev.offset, ev.offset + |ev.data|)
  }

  /** First half of processWrite: remember the write, then put it in the image. Captured MPEG-TS
      skips both. */
  ghost function Begin(w: WriterState, ow: ObservedWrite, landed: nat, cap: nat): (r: WriterState)
    requires Disk.Valid(w.disk) && Fits(w.disk, ow.event) && landed <= |ow.event.data|
    ensures Disk.Valid(r.disk) && |r.disk.image| == |w.disk.image|
  {
    if ow.mpegts then w
    else WriterState(Persist(w.disk, ow.event.offset, ow.event.data, landed),
                     Remember(w.recent, RecordOf(ow.event), cap))
  }

  /** Whether processWrite goes on to release the overlay. */
  ghost predicate Releases(ow: ObservedWrite, landed: nat) {
    ow.mpegts || landed == |ow.event.data|
  }

  /** Second half of processWrite. */
  ghost function Finish(w: WriterState, ow: ObservedWrite, releaseOk: bool, closed: bool): (r: WriterState)
    requires Disk.Valid(w.disk) && Fits(w.disk, ow.event)
  {
    w.(disk := ReleaseOne(w.disk, ow.event.staged, releaseOk, closed).0)
  }

  ghost function AfterWrite(w: WriterState, ow: ObservedWrite, landed: nat, releaseOk: bool, closed: bool, cap: nat)
    : WriterState
    requires Disk.Valid(w.disk) && Fits(w.disk, ow.event) && landed <= |ow.event.data|
  {
    var mid := Begin(w, ow, landed, cap);
    if Releases(ow, landed) then Finish(mid, ow, releaseOk, closed) else mid
  }

  /** A punch happens unless it is empty, a remembered newer write touches it, or the file refuses. */
  ghost predicate Punches(recent: seq<WriteRecord>, req: PunchRequest, punchOk: bool) {
    req.start < req.end && !NewerOverlap(recent, req.captureSeq, req.start, req.end) && punchOk
  }

  ghost function AfterPunch(w: WriterState, req: PunchRequest, punchOk: bool): WriterState {
    if Punches(w.recent, req, punchOk) then w.(disk := PunchImage(w.disk, req.start, req.end)) else w
  }

  /** The write's extent is given back: its bytes are all still its own, and nothing is in the way. */
  ghost predicate GivesBack(d: DiskState, ow: ObservedWrite, landed: nat, releaseOk: bool, closed: bool)
    requires ow.event.staged.end <= |d.owner|
  {
    && (ow.mpegts || landed == |ow.event.data|) && releaseOk && !closed
    && forall x :: ow.event.staged.start <= x < ow.event.staged.end ==> d.owner[x] == ow.event.staged.gen
  }

  /** A handled write byte by byte: the image holds what it took of an ordinary write and the history its record,
      captured MPEG-TS leaves both alone, and the overlay loses the write's extent or nothing. */
  lemma AfterWriteMeans(w: WriterState, ow: ObservedWrite, landed: nat, releaseOk: bool, closed: bool, cap: nat)
    requires Disk.Valid(w.disk) && Fits(w.disk, ow.event) && landed <= |ow.event.data|
    requires ow.event.staged.gen > 0
    ensures var t, e := AfterWrite(w, ow, landed, releaseOk, closed, cap), ow.event;
      && |t.disk.image| == |t.disk.overlay| == |t.disk.owner| == |w.disk.image|
      && t.disk.nextGen == w.disk.nextGen
      && (forall x :: 0 <= x < |w.disk.image| ==>
            t.disk.image[x] == if !ow.mpegts && e.offset <= x < e.offset + landed then e.data[x - e.offset]
                               else w.disk.image[x])
      && t.recent == (if ow.mpegts then w.recent
                      else LastN(w.recent + [WriteRecord(e.seqNo, e.offset, e.offset + |e.data|)], cap))
      && var given := GivesBack(w.disk, ow, landed, releaseOk, closed);
         forall x :: 0 <= x < |w.disk.owner| ==>
           (t.disk.owner[x], t.disk.overlay[x]) ==
             if given && e.staged.start <= x < e.staged.end then (0, 0) else (w.disk.owner[x], w.disk.overlay[x])
  {
    hide LastN;
  }

  /** A punch byte by byte: it zeroes its range of the image unless a remembered newer write overlaps that range
      or the file refuses, and changes nothing else. */
  lemma AfterPunchMeans(w: WriterState, req: PunchRequest, punchOk: bool)
    requires Disk.Valid(w.disk)
    ensures var t := AfterPunch(w, req, punchOk);
      && t == w.(disk := w.disk.(image := t.disk.image)) && |t.disk.image| == |w.disk.image|
      && var spared := !punchOk
           || exists r :: r in w.recent && r.seqNo > req.captureSeq && r.start < req.end && r.end > req.start;
         forall x :: 0 <= x < |w.disk.image| ==>
           t.disk.image[x] == if req.start <= x < req.end && !spared then 0 else w.disk.image[x]
  {
  }

  class Writer {
    const disk: array<byte>
    const shm: SHMDisk
    const recent: array<WriteRecord>

    var recentHead: nat
    var recentCount: nat

    ghost predicate Valid()
      reads this, recent, shm, shm.file
    {
      && shm.Valid() && shm.base == disk
      && recentHead < recent.Length && recentCount <= recent.Length
    }

    /** The remembered writes, oldest first. */
    ghost function Recent(): seq<WriteRecord>
      reads this, recent, shm, shm.file
      requires Valid()
    {
      Contents(recent[..], recentHead, recentCount)
    }

    ghost function State(): WriterState
      reads this, recent, shm, shm.base, shm.file
      requires Valid()
    {
      WriterState(shm.State(), Recent())
    }

    constructor (shm: SHMDisk, capacity: nat)
      requires shm.Valid() && capacity > 0
      ensures Valid() && fresh(recent) && this.shm == shm && disk == shm.base && recent.Length == capacity
      ensures Recent() == []
    {
      this.shm := shm;
      disk := shm.base;
      recent := new WriteRecord[capacity](_ => WriteRecord(0, 0, 0));
      recentHead, recentCount := 0, 0;
    }

    method RememberWrite(seqNo: nat, start: nat, end: nat)
      requires Valid()
      modifies this`recentHead, this`recentCount, recent
      ensures Valid()
      ensures Recent() == Remember(old(Recent()), WriteRecord(seqNo, start, end), recent.Length)
    {
      ghost var items, head, count := recent[..], recentHead, recentCount;
      var r := WriteRecord(seqNo, start, end);
      recent[recentHead] := r;
      SlotIsMod(recentHead + 1, recent.Length);
      recentHead := (recentHead + 1) % recent.Length;
      if recentCount < recent.Length {
        recentCount := recentCount + 1;
      }
      Push(items, head, count, r);
      assert recent[..] == items[head := r];
    }

    /** Scans the ring newest first. */
    method HasNewerOverlap(seqNo: nat, start: nat, end: nat) returns (newer: bool)
      requires Valid()
      ensures newer <==> NewerOverlap(Recent(), seqNo, start, end)
    {
      ghost var all := Recent();
      for i := 0 to recentCount
        invariant forall j :: recentCount - i <= j < recentCount ==>
          !(all[j].seqNo > seqNo && start < all[j].end && all[j].start < end)
      {
        SlotIsMod(recentHead - 1 - i + recent.Length, recent.Length);
        var idx := (recentHead - 1 - i + recent.Length) % recent.Length;
        var r := recent[idx];
        assert r == all[recentCount - 1 - i];
        if r.seqNo <= seqNo {
          continue;
        }
        if start < r.end && r.start < end {
          return true;
        }
      }
      return false;
    }

    /** The image file takes the first landed bytes of a write. */
    method WriteImage(off: nat, data: seq<byte>, landed: nat)
      requires Valid() && off + |data| <= shm.size && landed <= |data|
      modifies disk
      ensures Valid() && shm.State() == Persist(old(shm.State()), off, data, landed)
    {
      forall x | off <= x < off + landed {
        disk[x] := data[x - off];
      }
      assert disk[..] == Patch(old(disk[..]), off, data[..landed]);
    }

    method ReleaseStaged(ow: ObservedWrite, releaseOk: bool)
      requires Valid() && Fits(shm.State(), ow.event)
      modifies shm`extents, shm.file
      ensures Valid() && shm.closed == old(shm.closed)
      ensures State() == Finish(old(State()), ow, releaseOk, old(shm.closed))
    {
      hide ReleaseAll, Contents, ReleaseOne;
      ReleaseAllOne(shm.State(), ow.event.staged, releaseOk, shm.closed);
      var _ := shm.ReleaseIfCurrent([ow.event.staged], [releaseOk]);
    }

    /** Persists one ordered write and gives its overlay extent back; captured MPEG-TS is only given
        back. landed is how many bytes the image file takes before it fails, if it does. */
    method ProcessWrite(ow: ObservedWrite, landed: nat, releaseOk: bool)
      requires Valid() && Fits(shm.State(), ow.event) && landed <= |ow.event.data|
      modifies this`recentHead, this`recentCount, recent, disk, shm`extents, shm.file
      ensures Valid() && shm.closed == old(shm.closed)
      ensures State() == AfterWrite(old(State()), ow, landed, releaseOk, old(shm.closed), recent.Length)
    {
      hide Contents, Finish, Persist, Remember;
      var write := ow.event;
      var end := write.offset + |write.data|;
      if ow.mpegts {
        ReleaseStaged(ow, releaseOk);
        return;
      }
      RememberWrite(write.seqNo, write.offset, end);
      WriteImage(write.offset, write.data, landed);
      if landed != |write.data| {
        return;
      }
      ReleaseStaged(ow, releaseOk);
    }

    /** Punches a hole in the image unless a remembered newer write touches the range. Bytes past the
        end of the file are not there to be punched. */
    method ProcessPunch(req: PunchRequest, punchOk: bool)
      requires Valid()
      modifies disk
      ensures Valid()
      ensures State() == AfterPunch(old(State()), req, punchOk)
    {
      if req.end <= req.start {
        return;
      }
      var newer := HasNewerOverlap(req.captureSeq, req.start, req.end);
      if newer || !punchOk {
        return;
      }
      forall x | req.start <= x < MinU64(req.end, disk.Length) {
        disk[x] := 0;
      }
      assert disk[..] == Fill(old(disk[..]), req.start, req.end - req.start, 0);
    }
  }
}
