/** The fake disk as a value: the backing image, the shared-memory overlay, and for every byte the
    generation of the overlay extent that owns it (0 when none does). Each operation of SHMDisk and
    of Writer on the two files is one function here. */
module Disk {
  import opened Ring

  type byte = x: int | 0 <= x < 256

  datatype DiskState = DiskState(
    image: seq<byte>,
    overlay: seq<byte>,
    owner: seq<nat>,
    nextGen: nat
  )

  ghost predicate Valid(d: DiskState) {
    && |d.image| == |d.overlay| == |d.owner|
    && d.nextGen >= 1
    && (forall x :: 0 <= x < |d.owner| ==> d.owner[x] < d.nextGen)
  }

  /** Overlay bytes nobody owns are zero. */
  ghost predicate Clean(d: DiskState)
    requires Valid(d)
  {
    forall x :: 0 <= x < |d.owner| && d.owner[x] == 0 ==> d.overlay[x] == 0
  }

  /** What a read of one byte returns when image and overlay are looked at together. */
  ghost function View(d: DiskState, x: nat): byte
    requires Valid(d) && x < |d.image|
  {
    if d.owner[x] != 0 then d.overlay[x] else d.image[x]
  }

  ghost predicate Within(off: nat, len: nat, x: int) {
    off <= x < off + len
  }

  ghost function Patch(s: seq<byte>, off: nat, data: seq<byte>): (r: seq<byte>)
    requires off + |data| <= |s|
    ensures |r| == |s|
    ensures forall x :: 0 <= x < |s| ==> r[x] == if Within(off, |data|, x) then data[x - off] else s[x]
  {
    s[..off] + data + s[off + |data|..]
  }

  ghost function Fill<T>(s: seq<T>, off: nat, len: nat, v: T): (r: seq<T>)
    ensures |r| == |s|
    ensures forall x :: 0 <= x < |s| ==> r[x] == if Within(off, len, x) then v else s[x]
  {
    seq(|s|, x requires 0 <= x < |s| => if Within(off, len, x) then v else s[x])
  }

  /** StageWrite: the overlay takes the bytes under a new generation. */
  ghost function Stage(d: DiskState, off: nat, data: seq<byte>): DiskState
    requires Valid(d) && off + |data| <= |d.image|
  {
    d.(overlay := Patch(d.overlay, off, data),
       owner := Fill(d.owner, off, |data|, d.nextGen),
       nextGen := d.nextGen + 1)
  }

  /** Every byte of the range belongs to generation gen. */
  ghost predicate Owns(d: DiskState, off: nat, len: nat, gen: nat)
    requires Valid(d) && off + len <= |d.image|
  {
    gen != 0 && forall x :: Within(off, len, x) ==> d.owner[x] == gen
  }

  /** ReleaseIfCurrent on one extent whose overlay punch succeeds. */
  ghost function Release(d: DiskState, off: nat, len: nat, gen: nat): DiskState
    requires Valid(d) && off + len <= |d.image|
  {
    if Owns(d, off, len, gen)
    then d.(overlay := Fill(d.overlay, off, len, 0), owner := Fill(d.owner, off, len, 0))
    else d
  }

  /** A physical write of which the file took the first landed bytes. */
  ghost function Persist(d: DiskState, off: nat, data: seq<byte>, landed: nat): DiskState
    requires Valid(d) && off + |data| <= |d.image| && landed <= |data|
  {
    d.(image := Patch(d.image, off, data[..landed]))
  }

  /** A hole in the backing image reads as zero. */
  ghost function PunchImage(d: DiskState, start: nat, end: nat): DiskState
    requires start <= end
  {
    d.(image := Fill(d.image, start, end - start, 0))
  }

  datatype WriteRecord = WriteRecord(seqNo: nat, start: nat, end: nat)

  /** The history after one more write, when it keeps the newest cap records. */
  ghost function Remember(recent: seq<WriteRecord>, r: WriteRecord, cap: nat): seq<WriteRecord> {
    LastN(recent + [r], cap)
  }

  /** Some remembered write is newer than seqNo and touches the range. */
  ghost predicate NewerOverlap(recent: seq<WriteRecord>, seqNo: nat, start: nat, end: nat) {
    exists r :: r in recent && r.seqNo > seqNo && start < r.end && r.start < end
  }

  /** Staging and releasing keep the disk well-formed, and keep unowned overlay bytes zero. */
  lemma StageKeeps(d: DiskState, off: nat, data: seq<byte>)
    requires Valid(d) && off + |data| <= |d.image|
    ensures Valid(Stage(d, off, data))
    ensures Clean(d) ==> Clean(Stage(d, off, data))
    ensures forall x: nat :: x < |d.image| ==>
        View(Stage(d, off, data), x) == if Within(off, |data|, x) then data[x - off] else View(d, x)
  {
  }

  lemma ReleaseKeeps(d: DiskState, off: nat, len: nat, gen: nat)
    requires Valid(d) && off + len <= |d.image|
    ensures Valid(Release(d, off, len, gen))
    ensures Clean(d) ==> Clean(Release(d, off, len, gen))
  {
  }
}
