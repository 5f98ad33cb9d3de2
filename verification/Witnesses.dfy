/** Runs that show where the program stops short of its promises: the bounded history lets a delayed punch
    erase a newer write, and a read that sampled the image before it took the lock can return older
    bytes. */
module Witnesses {
  import opened Disk
  import opened Overlay
  import opened Types
  import opened Writing
  import opened Protocol
  import opened Reads
  import opened Scanner
  import opened Sniffing

  /** Every acknowledged write has gone all the way through, and the overlay holds nothing. */
  ghost predicate Idle(s: State) {
    && Sound(s) && s.inflight == {} && s.order.pending == map[] && s.order.sent == s.acked
    && |s.sniffed| == |s.submitted| == |s.reconciled| == s.taken == |s.acked| && !s.busy
    && forall x :: 0 <= x < |s.w.disk.owner| ==> s.w.disk.owner[x] == 0
  }

  /** One write that goes through an idle system alone. */
  datatype Job = Job(off: nat, data: seq<byte>, mpegts: bool, captures: seq<CaptureRange>)

  ghost function EventOf(s: State, j: Job): WriteEvent {
    WriteEvent(|s.acked| + 1, j.off, j.data, ShmExtent(j.off, j.off + |j.data|, |s.acked| + 1), false)
  }

  ghost function ObservedOf(s: State, j: Job): ObservedWrite {
    ObservedWrite(EventOf(s, j), j.mpegts, j.captures)
  }

  ghost predicate FitsDisk(s: State, j: Job) {
    |j.data| > 0 && j.off + |j.data| <= |s.w.disk.image|
  }

  /** What such a write leaves behind. */
  ghost predicate After(s: State, j: Job, cap: nat, t: State)
    requires FitsDisk(s, j)
  {
    && t.acked == s.acked + [EventOf(s, j)] && t.submitted == s.submitted + [ObservedOf(s, j)]
    && t.punched == s.punched && |t.w.disk.image| == |s.w.disk.image|
    && (j.mpegts ==> t.w.disk.image == s.w.disk.image && t.w.recent == s.w.recent)
    && (!j.mpegts ==>
          && t.w.disk.image == Patch(s.w.disk.image, j.off, j.data)
          && t.w.recent == Remember(s.w.recent, RecordOf(EventOf(s, j)), cap))
  }

  lemma ReachesStep(s: State, step: Step, rest: seq<Step>, t: State, cap: nat)
    requires Shape(s) && Enabled(s, step) && Reaches(Next(s, step, cap), rest, t, cap)
    ensures Reaches(s, [step] + rest, t, cap)
  {
    assert ([step] + rest)[1..] == rest;
  }

  lemma {:induction false} ReachesConcat(s: State, a: seq<Step>, m: State, b: seq<Step>, t: State, cap: nat)
    requires Reaches(s, a, m, cap) && Reaches(m, b, t, cap)
    ensures Reaches(s, a + b, t, cap)
    decreases |a|
  {
    hide Next, Enabled, Shape;
    if a == [] {
      assert a + b == b;
    } else {
      ReachesConcat(Next(s, a[0], cap), a[1..], m, b, t, cap);
      assert (a + b)[1..] == a[1..] + b;
    }
  }

  /** Acknowledging, dispatching, sniffing and handing over a single write. */
  lemma Conveys(s: State, j: Job, cap: nat) returns (steps: seq<Step>, t: State)
    requires Idle(s) && FitsDisk(s, j)
    ensures Reaches(s, steps, t, cap) && Sound(t)
    ensures t == s.(w := s.w.(disk := Stage(s.w.disk, j.off, j.data)), acked := s.acked + [EventOf(s, j)],
                    order := t.order, sniffed := s.sniffed + [ObservedOf(s, j)],
                    submitted := s.submitted + [ObservedOf(s, j)], reconciled := s.reconciled + [ObservedOf(s, j)])
    ensures t.order.pending == map[] && t.order.sent == t.acked
  {
    hide Reaches, Sound;
    var ev := EventOf(s, j);
    var a, b, c := Ack(j.off, j.data, false), Arrive(ev), Sniff(j.mpegts, j.captures);
    IdleIs(s);
    SoundNext(s, a, cap);
    var s1 := Next(s, a, cap);
    SoundShape(s1);
    SoundNext(s1, b, cap);
    var s2 := Next(s1, b, cap);
    SoundShape(s2);
    SoundNext(s2, c, cap);
    var s3 := Next(s2, c, cap);
    SoundShape(s3);
    SoundNext(s3, ToWriter, cap);
    var s4 := Next(s3, ToWriter, cap);
    SoundShape(s4);
    SoundNext(s4, ToReconciler, cap);
    t := Next(s4, ToReconciler, cap);
    assert s1.inflight - {ev} == s.inflight;
    ReachesNone(t, cap);
    ReachesStep(s4, ToReconciler, [], t, cap);
    ReachesStep(s3, ToWriter, [ToReconciler] + [], t, cap);
    ReachesStep(s2, c, [ToWriter] + ([ToReconciler] + []), t, cap);
    ReachesStep(s1, b, [c] + ([ToWriter] + ([ToReconciler] + [])), t, cap);
    ReachesStep(s, a, [b] + ([c] + ([ToWriter] + ([ToReconciler] + []))), t, cap);
    steps := [a] + ([b] + ([c] + ([ToWriter] + ([ToReconciler] + []))));
  }

  lemma ReachesNone(t: State, cap: nat)
    ensures Reaches(t, [], t, cap)
  {
  }

  lemma SoundShape(s: State)
    requires Sound(s)
    ensures Shape(s)
  {
  }

  lemma IdleIs(s: State)
    requires Idle(s)
    ensures Sound(s) && Shape(s) && s.order.nextSeq == |s.acked| + 1 && s.w.disk.nextGen == |s.acked| + 1
  {
  }

  /** The writer handling and releasing it. */
  lemma Handles(s: State, j: Job, m: State, cap: nat) returns (t: State)
    requires Idle(s) && FitsDisk(s, j) && Sound(m)
    requires m == s.(w := s.w.(disk := Stage(s.w.disk, j.off, j.data)), acked := s.acked + [EventOf(s, j)],
                     order := m.order, sniffed := s.sniffed + [ObservedOf(s, j)],
                     submitted := s.submitted + [ObservedOf(s, j)], reconciled := s.reconciled + [ObservedOf(s, j)])
    requires m.order.pending == map[] && m.order.sent == m.acked
    ensures Reaches(m, [Take(|j.data|), LetGo(true)], t, cap)
    ensures Idle(t) && After(s, j, cap, t)
  {
    hide Conveyed, Numbered;
    IdleIs(s);
    var a, b := Take(|j.data|), LetGo(true);
    SoundNext(m, a, cap);
    var n := Next(m, a, cap);
    assert j.data[..|j.data|] == j.data;
    SoundNext(n, b, cap);
    t := Next(n, b, cap);
    assert Owns(n.w.disk, j.off, |j.data|, |s.acked| + 1);
    ReachesStep(n, b, [], t, cap);
    ReachesStep(m, a, [b] + [], t, cap);
    assert [a] + ([b] + []) == [a, b];
  }

  lemma Through(s: State, j: Job, cap: nat) returns (steps: seq<Step>, t: State)
    requires Idle(s) && FitsDisk(s, j)
    ensures Reaches(s, steps, t, cap) && Idle(t) && After(s, j, cap, t)
  {
    var m;
    steps, m := Conveys(s, j, cap);
    t := Handles(s, j, m, cap);
    ReachesConcat(s, steps, m, [Take(|j.data|), LetGo(true)], t, cap);
    steps := steps + [Take(|j.data|), LetGo(true)];
  }

  // ---------- Runs whose flags and captures are the scanner's own ----------

  const UNSCANNED := Sniffed(FRESH, [], [])

  ghost function Scanned(s: State): Sniffed {
    SniffAll(UNSCANNED, s.acked)
  }

  /** Every write was flagged and captured as the scanner does. */
  ghost predicate SniffedTruly(s: State) {
    s.submitted == Scanned(s).out
  }

  /** A write as the scanner sees it after all the writes before it. */
  ghost function JobOf(s: State, off: nat, data: seq<byte>): Job {
    var (scan, chunks, ts) := FeedStep(Scanned(s).scan, off, data);
    Job(off, data, ts, CapturesOf(|s.acked| + 1, chunks))
  }

  /** Sending one more write through keeps the run true to the scanner. */
  lemma Truly(s: State, off: nat, data: seq<byte>, cap: nat) returns (steps: seq<Step>, t: State)
    requires Idle(s) && SniffedTruly(s) && FitsDisk(s, JobOf(s, off, data))
    ensures Reaches(s, steps, t, cap) && Idle(t) && SniffedTruly(t) && After(s, JobOf(s, off, data), cap, t)
    ensures Scanned(t).scan == FeedStep(Scanned(s).scan, off, data).0
  {
    hide Reaches, Idle, FeedStep;
    var j := JobOf(s, off, data);
    steps, t := Through(s, j, cap);
    assert t.acked[..|t.acked| - 1] == s.acked;
    assert Scanned(t) == SniffOne(Scanned(s), EventOf(s, j));
  }

  /** Ten valid packets. */
  ghost function TenPackets(): (data: seq<byte>)
    ensures |data| == 1880 && Packets(data, 0, 10)
  {
    var data: seq<byte> := seq(1880, i requires 0 <= i < 1880 => if i % 188 == 0 then 0x47 else 0x10);
    assert forall p :: 0 <= p < 10 ==> PacketAt(data, 0, p);
    data
  }

  /** The scanner detects them at once and captures them whole. */
  lemma TenPacketsFed()
    ensures FeedStep(FRESH, 0, TenPackets())
      == (ScanState([], 1880, 1880, true, true), [TSChunk(0, 1880, TenPackets())], true)
  {
    hide TenPackets;
    var data := TenPackets();
    TenPacketsEmitted(data);
    assert Find(data, 0) == At(0);
    hide EmitAll, Find;
    assert [] + data == data && data[0..] == data && data != [];
  }

  lemma TenPacketsEmitted(data: seq<byte>)
    requires |data| == 1880 && Packets(data, 0, 10)
    ensures EmitAll(data, 0) == Emitted([TSChunk(0, 1880, data)], [], 1880)
  {
    assert PacketAt(data, 0, 0);
    LeadingValidIs(data, 0, 10);
    EmitStop([], 1880);
    hide LeadingValid;
    assert ChunkPackets(data) == 10;
    assert data[..1880] == data && data[1880..] == [];
  }

  /** A single byte somewhere else is neither part of the stream nor one of its own. */
  lemma OneByteFed(s: ScanState, off: nat, b: byte)
    requires s.detected && off != s.expected
    ensures FeedStep(s, off, [b]) == (s, [], false)
  {
    assert |[b]| == 1 && [b] != [] && Find([b], 0) == Missing;
  }

  lemma OneByteFirst(off: nat, b: byte)
    ensures FeedStep(FRESH, off, [b]) == (ScanState([b], off, off + 1, true, false), [], false)
  {
    assert [] + [b] == [b] && |[b]| == 1 && Find([b], 0) == Missing;
  }

  lemma StartsIdle(image0: seq<byte>)
    ensures var s := Init(image0);
      && Idle(s) && SniffedTruly(s) && Scanned(s) == UNSCANNED
      && s.w.disk.image == image0 && s.acked == [] && s.w.recent == [] && s.punched == []
  {
  }

  lemma StaleBlend(s: State)
    requires Idle(s) && s.w.disk.image == [2]
    ensures Disk.Valid(s.w.disk) && View(s.w.disk, 0) == 2
    ensures Blend([7], 0, s.w.disk) == [7]
  {
  }

  ghost function Sevens(): (image: seq<byte>)
    ensures |image| == 2048
  {
    seq(2048, _ => 7)
  }

  /** The scanner is in the middle of a stream that goes on at byte 1880. */
  ghost predicate InStream(s: State) {
    Scanned(s).scan == ScanState([], 1880, 1880, true, true)
  }

  /** The newest n remembered writes all lie beyond the capture. */
  ghost predicate PastCapture(recent: seq<WriteRecord>, n: nat) {
    forall i :: 0 <= i < |recent| && |recent| - n <= i ==> recent[i].start >= 1880
  }

  /** One byte at offset 2000. */
  lemma OneMore(s: State, n: nat, cap: nat) returns (steps: seq<Step>, t: State)
    requires Idle(s) && SniffedTruly(s) && InStream(s)
    requires |s.w.disk.image| == 2048 && |s.w.recent| <= cap && cap > 0 && PastCapture(s.w.recent, n)
    ensures Reaches(s, steps, t, cap) && Idle(t) && SniffedTruly(t) && InStream(t) && |t.w.disk.image| == 2048
    ensures s.submitted <= t.submitted && t.punched == s.punched
    ensures Latest(t.acked, 0) == Latest(s.acked, 0) && s.acked <= t.acked
    ensures |t.w.recent| <= cap && PastCapture(t.w.recent, n + 1)
  {
    hide Reaches, Idle, SniffedTruly, Scanned, FeedStep, Latest;
    OneByteFed(Scanned(s).scan, 2000, 3);
    steps, t := Truly(s, 2000, [3], cap);
    LatestSnoc(s.acked, EventOf(s, JobOf(s, 2000, [3])), 0);
  }

  /** n more writes, each of one byte at offset 2000. */
  lemma {:induction false} Many(s: State, n: nat, cap: nat) returns (steps: seq<Step>, t: State)
    requires Idle(s) && SniffedTruly(s) && InStream(s)
    requires |s.w.disk.image| == 2048 && |s.w.recent| <= cap && cap > 0
    ensures Reaches(s, steps, t, cap) && Idle(t) && SniffedTruly(t) && InStream(t) && |t.w.disk.image| == 2048
    ensures s.submitted <= t.submitted && t.punched == s.punched
    ensures Latest(t.acked, 0) == Latest(s.acked, 0) && s.acked <= t.acked
    ensures |t.w.recent| <= cap && PastCapture(t.w.recent, n)
    decreases n
  {
    if n == 0 {
      steps, t := [], s;
    } else {
      hide Reaches, Idle, SniffedTruly, InStream;
      var m, more;
      steps, m := Many(s, n - 1, cap);
      more, t := OneMore(m, n - 1, cap);
      ReachesConcat(s, steps, m, more, t, cap);
      steps := steps + more;
    }
  }

  /** Write 1 is ten MPEG-TS packets, captured whole, and write 2 then puts ordinary data over the first. */
  lemma Overwrites(cap: nat) returns (steps: seq<Step>, t: State)
    requires cap > 0
    ensures Reaches(Init(Sevens()), steps, t, cap) && Idle(t) && SniffedTruly(t) && InStream(t)
    ensures |t.w.disk.image| == 2048
    ensures |t.submitted| == |t.acked| == 2 && |t.w.recent| <= cap && t.punched == []
    ensures Latest(t.acked, 0) == 2 && t.acked[1].offset == 0 && t.acked[1].data == [2]
    ensures t.submitted[0].mpegts && t.submitted[0].captures == [CaptureRange(1, 0, 1880)] && !t.submitted[1].mpegts
  {
    var s := Init(Sevens());
    StartsIdle(Sevens());
    hide Reaches, Idle, FeedStep, Sevens, TenPackets;
    TenPacketsFed();
    var a, s1 := Truly(s, 0, TenPackets(), cap);
    OneByteFed(Scanned(s1).scan, 0, 2);
    var b, s2 := Truly(s1, 0, [2], cap);
    LatestSnoc(s1.acked, EventOf(s1, JobOf(s1, 0, [2])), 0);
    ReachesConcat(s, a, s1, b, s2, cap);
    return a + b, s2;
  }

  /** For every capacity there is a run, with all flags and captures as the scanner gives them, in which ten
      packets of MPEG-TS and then ordinary data over their first byte are handled, further writes push that
      data out of the history, and the punch offered for the capture of write 1 zeroes it. */
  lemma EvictionLosesNewerWrite(cap: nat) returns (steps: seq<Step>, t: State)
    requires cap > 0
    ensures Reaches(Init(Sevens()), steps, t, cap) && Inv(t, Sevens(), cap)
    ensures t.submitted == SniffAll(Sniffed(FRESH, [], []), t.acked).out
    ensures Latest(t.acked, 0) == 2 <= |t.acked| && t.acked[1].offset == 0 && t.acked[1].data == [2]
    ensures 2 <= |t.submitted| && !FlaggedTS(t, 2) && t.submitted[0].captures == [CaptureRange(1, 0, 1880)]
    ensures forall p :: p in t.punched ==> p.req == PunchRequest(1, 0, 1880)
    ensures View(t.w.disk, 0) == 0
  {
    var a, s := Overwrites(cap);
    var b, m := Many(s, cap, cap);
    t := Erase(m, cap);
    var p := Punch(PunchRequest(1, 0, 1880), true);
    hide Reaches;
    ReachesConcat(s, b, m, [p], t, cap);
    ReachesConcat(Init(Sevens()), a, s, b + [p], t, cap);
    steps := a + (b + [p]);
    ReachableInv(Sevens(), steps, t, cap);
  }

  /** A punch of the capture that no remembered write holds back. */
  lemma Erase(m: State, cap: nat) returns (t: State)
    requires Idle(m) && |m.w.disk.image| == 2048 && |m.w.recent| <= cap && PastCapture(m.w.recent, cap)
    ensures Reaches(m, [Punch(PunchRequest(1, 0, 1880), true)], t, cap)
    ensures t.acked == m.acked && t.submitted == m.submitted
    ensures t.punched == m.punched + [Punched(PunchRequest(1, 0, 1880), m.taken, m.w.recent)]
    ensures |t.w.disk.image| == |t.w.disk.owner| == 2048 && t.w.disk.owner[0] == 0 && t.w.disk.image[0] == 0
  {
    var p := Punch(PunchRequest(1, 0, 1880), true);
    t := Next(m, p, cap);
    ReachesNone(t, cap);
    ReachesStep(m, p, [], t, cap);
  }

  /** A read samples byte 0 of the image, a write to it is acknowledged, persisted and released, and the
      read then takes the lock: it returns the byte from before that write. */
  lemma SampledReadGoesStale(cap: nat) returns (between: seq<Step>, t: State)
    requires cap > 0
    ensures Reaches(Init([7]), between, t, cap) && Inv(t, [7], cap)
    ensures t.submitted == SniffAll(Sniffed(FRESH, [], []), t.acked).out
    ensures Latest(t.acked, 0) == 1 && View(t.w.disk, 0) == 2
    ensures Blend(Init([7]).w.disk.image, 0, t.w.disk) == [7]
  {
    hide Reaches, Idle, FeedStep, SniffedTruly, Init, Scanned;
    var s := Init([7]);
    StartsIdle([7]);
    OneByteFirst(0, 2);
    var j := JobOf(s, 0, [2]);
    between, t := Truly(s, 0, [2], cap);
    LatestSnoc(s.acked, EventOf(s, j), 0);
    StaleBlend(t);
    hide Inv, SniffAll, Latest, View, Blend;
    ReachableInv([7], between, t, cap);
  }

  // ---------- A read of a write that is being observed ----------

  /** A short write to a fresh disk is neither a stream nor part of one. */
  lemma ShortFirst(off: nat, data: seq<byte>)
    requires 0 < |data| < 1880
    ensures var f := FeedStep(FRESH, off, data); f.1 == [] && !f.2
  {
    assert [] + data == data && Find(data, 0) == Missing;
  }

  /** The reconciler has been given a write and reads the bytes it put on the disk. The read samples the image,
      the writer persists and releases the write, and the read takes the lock: it returns the disk from before
      the write, although the host sees the write all the time. */
  lemma ObservedReadGoesStale(image0: seq<byte>, off: nat, data: seq<byte>, cap: nat)
    returns (before: seq<Step>, s: State, between: seq<Step>, t: State)
    requires cap > 0 && 0 < |data| < 1880 && off + |data| <= |image0|
    ensures Reaches(Init(image0), before, s, cap) && Reaches(s, between, t, cap)
    ensures Inv(s, image0, cap) && Inv(t, image0, cap)
    ensures |s.reconciled| == 1 && s.reconciled[0].event.offset == off && s.reconciled[0].event.data == data
    ensures s.submitted == SniffAll(Sniffed(FRESH, [], []), s.acked).out && t.submitted == s.submitted
    ensures Blend(s.w.disk.image, 0, t.w.disk) == image0
    ensures forall x: nat :: x < |image0| ==>
      View(s.w.disk, x) == View(t.w.disk, x) == Patch(image0, off, data)[x]
  {
    hide Reaches, FeedStep;
    var s0 := Init(image0);
    StartsIdle(image0);
    ShortFirst(off, data);
    var j := JobOf(s0, off, data);
    before, s := Conveys(s0, j, cap);
    between := [Take(|data|), LetGo(true)];
    t := Handles(s0, j, s, cap);
    ReachesConcat(s0, before, s, between, t, cap);
    hide Inv;
    ReachableInv(image0, before, s, cap);
    ReachableInv(image0, before + between, t, cap);
    HeldThenReleased(image0, s0, j, s, t, cap);
    assert SniffAll(UNSCANNED, s.acked) == SniffOne(UNSCANNED, EventOf(s0, j)) by {
      assert s.acked == [EventOf(s0, j)];
    }
  }

  lemma HeldThenReleased(image0: seq<byte>, s0: State, j: Job, s: State, t: State, cap: nat)
    requires s0 == Init(image0) && FitsDisk(s0, j) && !j.mpegts && Disk.Valid(s0.w.disk)
    requires s.w.disk == Stage(s0.w.disk, j.off, j.data)
    requires Idle(t) && After(s0, j, cap, t)
    ensures Disk.Valid(s.w.disk) && Disk.Valid(t.w.disk) && |s.w.disk.image| == |t.w.disk.image| == |image0|
    ensures Blend(s.w.disk.image, 0, t.w.disk) == image0
    ensures forall x: nat :: x < |image0| ==>
      View(s.w.disk, x) == View(t.w.disk, x) == Patch(image0, j.off, j.data)[x]
  {
    SoundShape(t);
    Disk.StageKeeps(s0.w.disk, j.off, j.data);
    hide Sound;
  }

  // ---------- A capture of bytes that have been overwritten ----------

  /** Eleven valid packets. */
  ghost function ElevenPackets(): (data: seq<byte>)
    ensures |data| == 2068 && Packets(data, 0, 11)
  {
    var data: seq<byte> := seq(2068, i requires 0 <= i < 2068 => if i % 188 == 0 then 0x47 else 0x10);
    assert forall p :: 0 <= p < 11 ==> PacketAt(data, 0, p);
    data
  }

  /** The scanner in the middle of the eleventh packet. */
  ghost function MidPacket(): ScanState {
    ScanState(ElevenPackets()[1880..1980], 1880, 1980, true, true)
  }

  /** The first write holds ten packets and the beginning of another, which the scanner keeps. */
  lemma HeadFed()
    ensures FeedStep(FRESH, 0, ElevenPackets()[..1980])
      == (MidPacket(), [TSChunk(0, 1880, ElevenPackets()[..1880])], true)
  {
    hide ElevenPackets;
    var all := ElevenPackets();
    var data := all[..1980];
    PacketsSplit(all, 0, 11, 10);
    PacketsAppend(data, all[1980..], 0, 10);
    assert data + all[1980..] == all;
    HeadEmitted(data);
    assert Find(data, 0) == At(0);
    hide EmitAll, Find;
    assert data[1880..] == all[1880..1980] && data[..1880] == all[..1880];
    assert [] + data == data && data[0..] == data && data != [];
  }

  lemma HeadEmitted(data: seq<byte>)
    requires |data| == 1980 && Packets(data, 0, 10)
    ensures EmitAll(data, 0) == Emitted([TSChunk(0, 1880, data[..1880])], data[1880..], 1880)
  {
    assert PacketAt(data, 0, 0);
    LeadingValidIs(data, 0, 10);
    EmitStop(data[1880..], 1880);
    hide LeadingValid;
    assert ChunkPackets(data) == 10;
  }

  /** The rest of that packet completes it. */
  lemma RestFed()
    ensures FeedStep(MidPacket(), 1980, ElevenPackets()[1980..])
      == (ScanState([], 2068, 2068, true, true), [TSChunk(1880, 2068, ElevenPackets()[1880..])], true)
  {
    hide ElevenPackets;
    var all := ElevenPackets();
    var last := all[1880..];
    assert PacketAt(all, 0, 10);
    PacketsShift(all, 1880, 0, 1);
    assert Packets(all, 1880, 1) by {
      PacketsSplit(all, 0, 11, 10);
    }
    LastEmitted(last);
    hide EmitAll;
    assert all[1880..1980] + all[1980..] == last;
  }

  lemma LastEmitted(last: seq<byte>)
    requires |last| == 188 && Packets(last, 0, 1)
    ensures EmitAll(last, 1880) == Emitted([TSChunk(1880, 2068, last)], [], 2068)
  {
    assert PacketAt(last, 0, 0);
    LeadingValidIs(last, 0, 1);
    EmitStop([], 2068);
    hide LeadingValid;
    assert ChunkPackets(last) == 1;
    assert last[..188] == last && last[188..] == [];
  }

  ghost function LargeSevens(): (image: seq<byte>)
    ensures |image| == 4096
  {
    seq(4096, _ => 7)
  }

  /** Write 1 leaves the beginning of a packet in the scanner, write 2 puts ordinary data over it, and write 3
      completes the packet. */
  lemma OverwritesBuffered(cap: nat) returns (steps: seq<Step>, t: State)
    requires cap > 0
    ensures Reaches(Init(LargeSevens()), steps, t, cap) && Idle(t) && SniffedTruly(t)
    ensures |t.w.disk.image| == 4096 && |t.submitted| == |t.acked| == 3 && t.punched == []
    ensures Latest(t.acked, 1880) == 2 && t.acked[1].offset == 1880 && t.acked[1].data == [9]
    ensures !t.submitted[1].mpegts && t.submitted[2].captures == [CaptureRange(3, 1880, 2068)]
    ensures forall r :: r in t.w.recent ==> r.seqNo <= 3
  {
    var s := Init(LargeSevens());
    StartsIdle(LargeSevens());
    hide Reaches, Idle, FeedStep, LargeSevens, ElevenPackets, MidPacket;
    HeadFed();
    var a, s1 := Truly(s, 0, ElevenPackets()[..1980], cap);
    assert MidPacket().detected && MidPacket().expected == 1980 by { MidIs(); }
    OneByteFed(MidPacket(), 1880, 9);
    var b, s2 := Truly(s1, 1880, [9], cap);
    RestFed();
    var c, s3 := Truly(s2, 1980, ElevenPackets()[1980..], cap);
    LatestSnoc(s1.acked, EventOf(s1, JobOf(s1, 1880, [9])), 1880);
    LatestSnoc(s2.acked, EventOf(s2, JobOf(s2, 1980, ElevenPackets()[1980..])), 1880);
    ReachesConcat(s1, b, s2, c, s3, cap);
    ReachesConcat(s, a, s1, b + c, s3, cap);
    return a + (b + c), s3;
  }

  lemma MidIs()
    ensures MidPacket().detected && MidPacket().expected == 1980
  {
  }

  /** For every capacity there is a run, with all flags and captures as the scanner gives them, in which the
      punch of a capture erases ordinary data that was written over the captured bytes before the capture was
      made: the capture bears the number of the write that completed the packet, which is the higher one. */
  lemma CaptureErasesOrdinaryData(cap: nat) returns (steps: seq<Step>, t: State)
    requires cap > 0
    ensures Reaches(Init(LargeSevens()), steps, t, cap) && Inv(t, LargeSevens(), cap)
    ensures t.submitted == SniffAll(Sniffed(FRESH, [], []), t.acked).out && |t.submitted| == |t.acked| == 3
    ensures Latest(t.acked, 1880) == 2 && t.acked[1].offset == 1880 && t.acked[1].data == [9] && !FlaggedTS(t, 2)
    ensures t.submitted[2].captures == [CaptureRange(3, 1880, 2068)]
    ensures forall p :: p in t.punched ==> p.req == PunchRequest(3, 1880, 2068)
    ensures View(t.w.disk, 1880) == 0
  {
    var a, s := OverwritesBuffered(cap);
    var p := Punch(PunchRequest(3, 1880, 2068), true);
    t := EraseCaptured(s, cap);
    hide Reaches;
    ReachesConcat(Init(LargeSevens()), a, s, [p], t, cap);
    steps := a + [p];
    ReachableInv(LargeSevens(), steps, t, cap);
  }

  lemma EraseCaptured(s: State, cap: nat) returns (t: State)
    requires Idle(s) && |s.w.disk.image| == 4096 && forall r :: r in s.w.recent ==> r.seqNo <= 3
    ensures Reaches(s, [Punch(PunchRequest(3, 1880, 2068), true)], t, cap)
    ensures t.acked == s.acked && t.submitted == s.submitted
    ensures t.punched == s.punched + [Punched(PunchRequest(3, 1880, 2068), s.taken, s.w.recent)]
    ensures |t.w.disk.image| == |t.w.disk.owner| == 4096 && t.w.disk.owner[1880] == 0 && t.w.disk.image[1880] == 0
  {
    var p := Punch(PunchRequest(3, 1880, 2068), true);
    t := Next(s, p, cap);
    ReachesNone(t, cap);
    ReachesStep(s, p, [], t, cap);
  }
}
