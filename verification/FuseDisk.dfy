/** The acknowledgement step of fuse.go: DiskNode.Write stages, numbers and submits one host write. */
module FuseDisk {
  import opened Disk
  import opened Ranges
  import opened Overlay
  import opened Types
  import opened Pipeline
  import opened MFTIndex
  import opened Ntfs

  datatype Errno = OK | EINVAL | EFBIG | EIO

  /** After the write, reads return its data on its range and what they did before elsewhere. */
  ghost predicate ReadsAs(d: DiskState, t: DiskState, off: nat, data: seq<byte>) {
    && Disk.Valid(d) && Disk.Valid(t) && |t.image| == |d.image|
    && forall x: nat :: x < |d.image| ==>
        View(t, x) == if off <= x < off + |data| then data[x - off] else View(d, x)
  }

  lemma StagedReads(d: DiskState, off: nat, data: seq<byte>)
    requires Disk.Valid(d) && off + |data| <= |d.image|
    ensures ReadsAs(d, Stage(d, off, data), off, data)
  {
    StageKeeps(d, off, data);
  }

  class DiskNode {
    var size: nat
    var seqNo: nat
    const shm: SHMDisk
    const pipeline: WritePipeline
    const ntfs: NTFS

    ghost predicate Valid()
      reads this, shm, shm.file, ntfs
    {
      shm.Valid() && ntfs.Valid()
    }

    constructor (size: nat, shm: SHMDisk, pipeline: WritePipeline, ntfs: NTFS)
      requires shm.Valid() && ntfs.Valid()
      ensures Valid() && this.size == size && seqNo == 0
      ensures this.shm == shm && this.pipeline == pipeline && this.ntfs == ntfs
    {
      this.size := size;
      this.shm, this.pipeline, this.ntfs := shm, pipeline, ntfs;
      seqNo := 0;
    }

    /** The write fits into the volume and the overlay takes it. */
    ghost predicate Stages(data: seq<byte>, off: int, fileOk: bool)
      reads this, shm
    {
      && off >= 0 && data != [] && off + |data| <= shm.size && off + |data| <= 0xFFFF_FFFF_FFFF_FFFF
      && !shm.closed && fileOk
    }

    /** Acknowledges a write once its bytes are in the overlay: it gets the next sequence number, the next
        generation, and the $MFT flag of this moment, and reads back from then on. A write the pipeline no longer
        accepts has been staged and numbered all the same. */
    method Write(data: seq<byte>, off: int, fileOk: bool) returns (n: nat, errno: Errno, ghost touches: bool)
      requires Valid()
      modifies this, shm`nextGen, shm`extents, shm.file, pipeline`writes
      ensures Valid()
      ensures errno == EINVAL <==> off < 0
      ensures errno == EFBIG <==> off >= 0 && data != [] && off + |data| > 0xFFFF_FFFF_FFFF_FFFF
      ensures errno == OK <==>
        off >= 0 && (data == [] || (old(Stages(data, off, fileOk)) && !old(pipeline.closing)))
      ensures n == if errno == OK then |data| else 0
      ensures !old(Stages(data, off, fileOk)) ==>
        && shm.State() == old(shm.State()) && seqNo == old(seqNo) && size == old(size)
        && pipeline.writes == old(pipeline.writes)
      ensures old(Stages(data, off, fileOk)) ==>
        && shm.State() == Stage(old(shm.State()), off, data)
        && ReadsAs(old(shm.State()), shm.State(), off, data)
        && seqNo == old(seqNo) + 1
        && size == (if off + |data| > old(size) then off + |data| else old(size))
        && (touches <==> exists x :: off <= x < off + |data| && Holds(ntfs.mftSnapshot, x))
        && (ntfs.MFTRangesCurrent() ==>
              (touches <==> exists x :: off <= x < off + |data| && MFTByte(ntfs.env.g, ntfs.mftRuns, ntfs.mftSize, x)))
        && pipeline.writes == old(pipeline.writes)
           + (if old(pipeline.closing) then multiset{}
              else multiset{WriteEvent(old(seqNo) + 1, off, data,
                                       ShmExtent(off, off + |data|, old(shm.nextGen)), touches)})
    {
      hide GenAt, SortedExtents, Coalesced, Stage, MFTByte, Holds, ReadsAs;
      hide NTFS.Valid, NTFS.MFTRangesCurrent, SHMDisk.Valid;
      touches := false;
      if off < 0 {
        return 0, EINVAL, false;
      }
      if |data| == 0 {
        return 0, OK, false;
      }
      if |data| > 0xFFFF_FFFF_FFFF_FFFF - off {
        return 0, EFBIG, false;
      }
      var end := off + |data|;
      ghost var before := shm.State();
      var staged, err := shm.StageWrite(data, off, fileOk);
      if err != ShmError.NoError {
        return 0, EIO, false;
      }
      StagedReads(before, off, data);
      if end > size {
        size := end;
      }
      seqNo := seqNo + 1;
      var touchesMFT := ntfs.TouchesMFT(off, end);
      touches := touchesMFT;
      var result := pipeline.SubmitWrite(WriteEvent(seqNo, off, data, staged, touchesMFT));
      if result != Accepted {
        return 0, EIO, touches;
      }
      return |data|, OK, touches;
    }
  }
}
