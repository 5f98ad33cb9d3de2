/** When the reads of the tracker find what the disk holds: the condition on them is the one under which a read
    that samples the image early returns the view at lock time. */
module TrackerReads {
  import opened Disk
  import opened Overlay
  import opened Protocol
  import opened Reads
  import opened Runlist
  import opened MFTMap
  import opened MFTIndex
  import opened Ntfs
  import T = Tracker

  /** The disk as the host sees it. */
  ghost function HostView(d: DiskState): (view: seq<byte>)
    requires Disk.Valid(d)
    ensures |view| == |d.image|
  {
    seq(|d.image|, x requires 0 <= x < |d.image| => View(d, x))
  }

  /** Physical byte x is a byte of record id. */
  ghost predicate RecordByte(g: Geometry, runs: seq<NTFSRun>, id: nat, x: int) {
    exists l: nat :: InRecord(g, id, l) && Physical(g, runs, l) == x
  }

  lemma ReadsByte(image0: seq<byte>, before: seq<Step>, s: State, between: seq<Step>, t: State, cap: nat, x: nat)
    requires Reaches(Init(image0), before, s, cap) && Reaches(s, between, t, cap) && cap > 0
    requires x < |image0| && Undisturbed(s, between, cap, x)
    ensures Inv(s, image0, cap) && Inv(t, image0, cap)
    ensures Blend(s.w.disk.image, 0, t.w.disk)[x] == HostView(t.w.disk)[x]
  {
    hide Undisturbed, Reaches, Inv;
    ReachableInv(image0, before, s, cap);
    RunInv(s, image0, between, t, cap);
    SameSize(s, image0, cap);
    SameSize(t, image0, cap);
    SampledRead(image0, before, s, between, t, cap, x, 1);
    assert s.w.disk.image[x..x + 1][0] == s.w.disk.image[x];
    assert Blend(s.w.disk.image[x..x + 1], x, t.w.disk)[0] == View(t.w.disk, x);
  }

  /** A record of which no byte is released or punched between the sample and the lock of its read is read as
      the disk has it at the lock, so the read is not stale. */
  lemma UndisturbedReadIsNotStale(
    env: Env, image0: seq<byte>, before: seq<Step>, s: State, between: seq<Step>, t: State, cap: nat,
    w: T.World, id: nat)
    requires GoodEnv(env) && T.FullyMapped(env.g, w.st.runs, w.st.size, |image0|)
    requires Reaches(Init(image0), before, s, cap) && Reaches(s, between, t, cap) && cap > 0
    requires forall x :: RecordByte(env.g, w.st.runs, id, x) ==> Undisturbed(s, between, cap, x)
    ensures Inv(s, image0, cap) && Inv(t, image0, cap)
    ensures w.view == HostView(t.w.disk) ==> !T.StaleRead(env, w, Blend(s.w.disk.image, 0, t.w.disk), id)
  {
    hide Undisturbed, Reaches, Inv, Physical;
    ReachableInv(image0, before, s, cap);
    RunInv(s, image0, between, t, cap);
    SameSize(s, image0, cap);
    SameSize(t, image0, cap);
    if w.view == HostView(t.w.disk) && id < T.WholeRecordCount(env.g, w.st.size) {
      var g, seen := env.g, Blend(s.w.disk.image, 0, t.w.disk);
      T.WholeRecordsFit(g, w.st.size, id);
      forall l | RecordStart(g, id) <= l < RecordStart(g, id) + g.recordSize
        ensures var p := Physical(g, w.st.runs, l); 0 <= p < |seen| ==> seen[p] == w.view[p]
      {
        var p := Physical(g, w.st.runs, l);
        assert RecordByte(g, w.st.runs, id, p);
        if 0 <= p < |seen| {
          ReadsByte(image0, before, s, between, t, cap, p);
        }
      }
      SameBytesSameRead(g, w.st.runs, seen, w.view, RecordStart(g, id), g.recordSize);
    }
  }

  lemma SameSize(s: State, image0: seq<byte>, cap: nat)
    requires Inv(s, image0, cap)
    ensures Disk.Valid(s.w.disk) && |s.w.disk.image| == |image0|
  {
  }
}
