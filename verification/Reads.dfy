/** What a read returns in every reachable state of the protocol, and what delayed punches can and
    cannot do to it. */
module Reads {
  import opened Ring
  import opened Disk
  import opened Overlay
  import opened Types
  import opened Writing
  import opened Pipeline
  import opened Protocol

  // ---------- The reference: a plain byte array, one update per acknowledgement ----------

  ghost predicate CoversByte(e: WriteEvent, x: int) {
    Within(e.offset, |e.data|, x)
  }

  /** The number of the latest acknowledged write covering byte x, 0 when there is none. */
  ghost function Latest(acked: seq<WriteEvent>, x: int): nat {
    if acked == [] then 0
    else if CoversByte(acked[|acked| - 1], x) then |acked|
    else Latest(acked[..|acked| - 1], x)
  }

  lemma {:induction false} LatestIs(acked: seq<WriteEvent>, x: int)
    ensures Latest(acked, x) <= |acked|
    ensures Latest(acked, x) > 0 ==> CoversByte(acked[Latest(acked, x) - 1], x)
    ensures forall i :: Latest(acked, x) <= i < |acked| ==> !CoversByte(acked[i], x)
  {
    if acked != [] && !CoversByte(acked[|acked| - 1], x) {
      LatestIs(acked[..|acked| - 1], x);
    }
  }

  lemma LatestSnoc(acked: seq<WriteEvent>, e: WriteEvent, x: int)
    ensures Latest(acked + [e], x) == if CoversByte(e, x) then |acked| + 1 else Latest(acked, x)
  {
    assert (acked + [e])[..|acked|] == acked;
  }

  /** The byte that write number k put at x. */
  ghost function Written(acked: seq<WriteEvent>, k: nat, x: int): byte
    requires 0 < k <= |acked| && CoversByte(acked[k - 1], x)
  {
    acked[k - 1].data[x - acked[k - 1].offset]
  }

  // ---------- What punches do ----------

  ghost predicate Hits(p: Punched, x: int) {
    p.req.start <= x < p.req.end
  }

  ghost predicate Remembered(recent: seq<WriteRecord>, k: nat) {
    exists r :: r in recent && r.seqNo == k
  }

  /** Write k's byte x was punched away: after the writer had begun k, a punch covering x ran whose
      capture was not older than k, or when k had already left the history. */
  ghost predicate Lost(s: State, k: nat, x: int) {
    exists p :: p in s.punched && Hits(p, x) && p.taken >= k
      && !(p.req.captureSeq < k && Remembered(p.recent, k))
  }

  ghost predicate EverPunched(s: State, x: int) {
    exists p :: p in s.punched && Hits(p, x)
  }

  // ---------- The invariant ----------

  ghost predicate FlaggedTS(s: State, k: nat)
    requires 0 < k <= |s.submitted|
  {
    s.submitted[k - 1].mpegts
  }

  /** Byte x is owned by the generation of its latest acknowledged write or by nobody; unowned bytes
      have had that write handled and hold its data in the image, unless it was MPEG-TS or lost. */
  ghost predicate ByteOK(s: State, image0: seq<byte>, x: nat)
    requires Shape(s) && x < |s.w.disk.image| == |image0|
  {
    LatestIs(s.acked, x);
    var d, k := s.w.disk, Latest(s.acked, x);
    && (d.owner[x] == 0 || d.owner[x] == k)
    && (k > 0 && d.owner[x] == k ==> d.overlay[x] == Written(s.acked, k, x))
    && (d.owner[x] == 0 && k == 0 ==> d.image[x] == if EverPunched(s, x) then 0 else image0[x])
    && (d.owner[x] == 0 && k > 0 ==>
          && k <= s.taken && !(s.busy && k == s.taken)
          && (!FlaggedTS(s, k) ==> d.image[x] == if Lost(s, k, x) then 0 else Written(s.acked, k, x)))
  }

  /** The last write that put a byte at x of the image, 0 when none did: ordinary, and long enough in what
      the file took of it. */
  ghost function LastPersisted(ows: seq<ObservedWrite>, landed: seq<nat>, x: int): (j: nat)
    requires |landed| <= |ows|
    ensures j <= |landed|
    ensures j > 0 ==> !ows[j - 1].mpegts && CoversByte(ows[j - 1].event, x)
  {
    if landed == [] then 0
    else
      var ow, n := ows[|landed| - 1], landed[|landed| - 1];
      if !ow.mpegts && Within(ow.event.offset, n, x) && CoversByte(ow.event, x) then |landed|
      else LastPersisted(ows, landed[..|landed| - 1], x)
  }

  /** A punch ran over x after write j had been put in the image. */
  ghost predicate PunchedSince(punched: seq<Punched>, j: nat, x: int) {
    exists p :: p in punched && Hits(p, x) && p.taken >= j
  }

  /** What the image holds at x: the last ordinary data that reached it, or zero if a punch came later. */
  ghost function ImageByte(
    image0: seq<byte>, ows: seq<ObservedWrite>, landed: seq<nat>, punched: seq<Punched>, x: nat): byte
    requires |landed| <= |ows| && x < |image0|
  {
    var j := LastPersisted(ows, landed, x);
    if PunchedSince(punched, j, x) then 0
    else if j == 0 then image0[x]
    else ows[j - 1].event.data[x - ows[j - 1].event.offset]
  }

  ghost predicate ImageOK(s: State, image0: seq<byte>, x: nat)
    requires Shape(s) && x < |s.w.disk.image| == |image0|
  {
    s.w.disk.image[x] == ImageByte(image0, s.submitted, s.landed, s.punched, x)
  }

  /** While a persisted write awaits its release, the image holds it. */
  ghost predicate BusyPersisted(s: State)
    requires Shape(s)
  {
    s.busy && !Current(s).mpegts ==>
      var e := Current(s).event;
      forall x :: CoversByte(e, x) ==> s.w.disk.image[x] == e.data[x - e.offset]
  }

  ghost predicate PunchesPrecede(s: State) {
    forall p :: p in s.punched ==> p.taken <= s.taken && (s.busy ==> p.taken < s.taken)
  }

  /** The records of the writes that are not MPEG-TS, in order. */
  ghost function Records(ows: seq<ObservedWrite>): seq<WriteRecord> {
    if ows == [] then []
    else
      var init, last := Records(ows[..|ows| - 1]), ows[|ows| - 1];
      if last.mpegts then init else init + [RecordOf(last.event)]
  }

  /** The writer's history is the last cap of them. */
  ghost predicate HistoryIsWindow(s: State, cap: nat)
    requires s.taken <= |s.submitted|
  {
    s.w.recent == LastN(Records(s.submitted[..s.taken]), cap)
  }

  ghost predicate Inv(s: State, image0: seq<byte>, cap: nat) {
    && Sound(s) && |s.w.disk.image| == |image0|
    && BusyPersisted(s) && PunchesPrecede(s) && HistoryIsWindow(s, cap)
    && (forall x: nat :: x < |image0| ==> ByteOK(s, image0, x))
    && (forall x: nat :: x < |image0| ==> ImageOK(s, image0, x))
  }

  lemma {:induction false} RecordsAre(ows: seq<ObservedWrite>, r: WriteRecord)
    ensures r in Records(ows) <==> exists i :: 0 <= i < |ows| && !ows[i].mpegts && r == RecordOf(ows[i].event)
  {
    if ows != [] {
      var init, last := ows[..|ows| - 1], ows[|ows| - 1];
      RecordsAre(init, r);
      if i :| 0 <= i < |init| && !init[i].mpegts && r == RecordOf(init[i].event) {
        assert ows[i] == init[i];
      }
      if i :| 0 <= i < |ows| && !ows[i].mpegts && r == RecordOf(ows[i].event) {
        assert i < |init| ==> init[i] == ows[i];
      }
      if !last.mpegts && r == RecordOf(last.event) {
        assert ows[|ows| - 1] == last;
      }
    }
  }

  /** A remembered number k is the record of write k. */
  lemma RememberedIsRecord(s: State, cap: nat, k: nat)
    requires Sound(s) && HistoryIsWindow(s, cap) && Remembered(s.w.recent, k)
    ensures 0 < k <= s.taken && k <= |s.acked| && RecordOf(s.acked[k - 1]) in s.w.recent
  {
    var r :| r in s.w.recent && r.seqNo == k;
    var ows := s.submitted[..s.taken];
    assert r in Records(ows);
    RecordsAre(ows, r);
    var i :| 0 <= i < |ows| && !ows[i].mpegts && r == RecordOf(ows[i].event);
    SubmittedIsAcked(s, i);
  }

  /** A punch over a byte of a remembered newer write is always noticed. */
  lemma GuardSees(s: State, cap: nat, req: PunchRequest, k: nat, x: int)
    requires Sound(s) && HistoryIsWindow(s, cap)
    requires 0 < k <= |s.acked| && CoversByte(s.acked[k - 1], x)
    ensures Remembered(s.w.recent, k) && req.captureSeq < k && req.start <= x < req.end ==>
      NewerOverlap(s.w.recent, req.captureSeq, req.start, req.end)
  {
    if Remembered(s.w.recent, k) {
      RememberedIsRecord(s, cap, k);
    }
  }

  // ---------- Every step keeps it ----------

  lemma AckByte(s: State, image0: seq<byte>, step: Step, cap: nat, x: nat)
    requires Shape(s) && |s.w.disk.image| == |image0| && x < |image0|
    requires s.w.disk.nextGen == |s.acked| + 1
    requires Enabled(s, step) && step.Ack? && Shape(Next(s, step, cap))
    requires ByteOK(s, image0, x)
    ensures ByteOK(Next(s, step, cap), image0, x)
  {
    hide InOrder, Has, Accept;
    var t := Next(s, step, cap);
    var ev := t.acked[|s.acked|];
    LatestSnoc(s.acked, ev, x);
    LatestIs(s.acked, x);
    LatestIs(t.acked, x);
    var k := Latest(s.acked, x);
    if CoversByte(ev, x) {
      assert Written(t.acked, |t.acked|, x) == step.data[x - step.off];
    } else if k > 0 {
      assert Written(t.acked, k, x) == Written(s.acked, k, x);
      assert Lost(t, k, x) == Lost(s, k, x);
    } else {
      assert EverPunched(t, x) == EverPunched(s, x);
    }
  }

  lemma TakeByte(s: State, image0: seq<byte>, step: Step, cap: nat, x: nat)
    requires Sound(s) && |s.w.disk.image| == |image0| && x < |image0|
    requires Enabled(s, step) && step.Take? && Sound(Next(s, step, cap))
    requires ByteOK(s, image0, x)
    ensures ByteOK(Next(s, step, cap), image0, x)
    ensures s.w.disk.owner[x] == 0 ==> Next(s, step, cap).w.disk.image[x] == s.w.disk.image[x]
  {
    hide InOrder, Has, Accept;
    SubmittedIsAcked(s, s.taken);
    LatestIs(s.acked, x);
  }

  lemma LetGoByte(s: State, image0: seq<byte>, step: Step, cap: nat, x: nat)
    requires Sound(s) && |s.w.disk.image| == |image0| && x < |image0|
    requires Enabled(s, step) && step.LetGo? && Sound(Next(s, step, cap))
    requires ByteOK(s, image0, x) && BusyPersisted(s) && PunchesPrecede(s)
    ensures ByteOK(Next(s, step, cap), image0, x)
  {
    hide InOrder, Has, Accept;
    SubmittedIsAcked(s, s.taken - 1);
    LatestIs(s.acked, x);
    var t := Next(s, step, cap);
    var k := Latest(s.acked, x);
    assert Lost(t, k, x) == Lost(s, k, x);
    if k == s.taken {
      assert !Lost(s, k, x);
    }
    assert t.w.disk.owner[x] != s.w.disk.owner[x] ==> Within(Current(s).event.staged.start, |Current(s).event.data|, x);
  }

  lemma PunchByte(s: State, image0: seq<byte>, step: Step, cap: nat, x: nat)
    requires Sound(s) && |s.w.disk.image| == |image0| && x < |image0|
    requires Enabled(s, step) && step.Punch? && Sound(Next(s, step, cap))
    requires ByteOK(s, image0, x) && HistoryIsWindow(s, cap)
    ensures ByteOK(Next(s, step, cap), image0, x)
  {
    hide InOrder, Has, Accept;
    LatestIs(s.acked, x);
    var t := Next(s, step, cap);
    var k := Latest(s.acked, x);
    if Punches(s.w.recent, step.req, step.punchOk) {
      var p := Punched(step.req, s.taken, s.w.recent);
      assert t.punched == s.punched + [p];
      assert forall q :: q in t.punched <==> q in s.punched || q == p;
      assert EverPunched(t, x) <==> EverPunched(s, x) || Hits(p, x);
      if k > 0 {
        GuardSees(s, cap, step.req, k, x);
      }
      assert k <= s.taken ==> (Lost(t, k, x) <==> Lost(s, k, x) || Hits(p, x));
    }
  }

  /** The stages in front of the writer do not touch the disk. */
  lemma ConveyByte(s: State, image0: seq<byte>, step: Step, cap: nat, x: nat)
    requires Shape(s) && |s.w.disk.image| == |image0| && x < |image0|
    requires step.Arrive? || step.Sniff? || step.ToWriter? || step.ToReconciler?
    requires Enabled(s, step) && Shape(Next(s, step, cap))
    requires ByteOK(s, image0, x)
    ensures ByteOK(Next(s, step, cap), image0, x)
  {
    hide InOrder, Has, Accept;
    LatestIs(s.acked, x);
    var t, k := Next(s, step, cap), Latest(s.acked, x);
    assert EverPunched(t, x) == EverPunched(s, x);
    assert Lost(t, k, x) == Lost(s, k, x);
  }

  lemma ByteNext(s: State, image0: seq<byte>, step: Step, cap: nat, x: nat)
    requires Inv(s, image0, cap) && Enabled(s, step) && x < |image0|
    requires Sound(Next(s, step, cap))
    ensures ByteOK(Next(s, step, cap), image0, x)
  {
    match step
    case Ack(_, _, _) => AckByte(s, image0, step, cap, x);
    case Take(_) => TakeByte(s, image0, step, cap, x);
    case LetGo(_) => LetGoByte(s, image0, step, cap, x);
    case Punch(_, _) => PunchByte(s, image0, step, cap, x);
    case _ => ConveyByte(s, image0, step, cap, x);
  }

  /** Writes handled earlier are not affected by what the writer is given later. */
  lemma {:induction false} LastPersistedSame(
    ows: seq<ObservedWrite>, more: seq<ObservedWrite>, landed: seq<nat>, x: int)
    requires |landed| <= |ows| && ows <= more
    ensures LastPersisted(more, landed, x) == LastPersisted(ows, landed, x)
    decreases |landed|
  {
    if landed != [] {
      LastPersistedSame(ows, more, landed[..|landed| - 1], x);
    }
  }

  /** One more write taken by the image file. */
  lemma PersistByte(
    image0: seq<byte>, ows: seq<ObservedWrite>, landed: seq<nat>, punched: seq<Punched>, n: nat, x: nat)
    requires |landed| < |ows| && x < |image0| && forall p :: p in punched ==> p.taken <= |landed|
    ensures var ow := ows[|landed|];
      ImageByte(image0, ows, landed + [n], punched, x) ==
        if !ow.mpegts && Within(ow.event.offset, n, x) && CoversByte(ow.event, x)
        then ow.event.data[x - ow.event.offset]
        else ImageByte(image0, ows, landed, punched, x)
  {
    assert (landed + [n])[..|landed|] == landed;
  }

  /** One more punch. */
  lemma PunchImageByte(
    image0: seq<byte>, ows: seq<ObservedWrite>, landed: seq<nat>, punched: seq<Punched>, p: Punched, x: nat)
    requires |landed| <= |ows| && x < |image0| && p.taken == |landed|
    ensures ImageByte(image0, ows, landed, punched + [p], x) ==
      if Hits(p, x) then 0 else ImageByte(image0, ows, landed, punched, x)
  {
    hide LastPersisted;
    var j := LastPersisted(ows, landed, x);
    assert forall q :: q in punched + [p] <==> q in punched || q == p;
    assert PunchedSince(punched + [p], j, x) <==> PunchedSince(punched, j, x) || Hits(p, x);
  }

  lemma ImageNext(s: State, image0: seq<byte>, step: Step, cap: nat, x: nat)
    requires Shape(s) && |s.w.disk.image| == |image0| && x < |image0|
    requires Enabled(s, step) && Shape(Next(s, step, cap)) && |Next(s, step, cap).w.disk.image| == |image0|
    requires PunchesPrecede(s) && ImageOK(s, image0, x)
    ensures ImageOK(Next(s, step, cap), image0, x)
  {
    hide InOrder, Has, Accept, ImageByte;
    var t := Next(s, step, cap);
    match step
    case Take(n) => PersistByte(image0, s.submitted, s.landed, s.punched, n, x);
    case Punch(req, _) =>
      PunchImageByte(image0, s.submitted, s.landed, s.punched, Punched(req, s.taken, s.w.recent), x);
    case ToWriter => SameImageByte(image0, s.submitted, t.submitted, s.landed, s.punched, x);
    case _ =>
  }

  lemma SameImageByte(image0: seq<byte>, ows: seq<ObservedWrite>, more: seq<ObservedWrite>, landed: seq<nat>,
                      punched: seq<Punched>, x: nat)
    requires |landed| <= |ows| && ows <= more && x < |image0|
    ensures ImageByte(image0, more, landed, punched, x) == ImageByte(image0, ows, landed, punched, x)
  {
    LastPersistedSame(ows, more, landed, x);
  }

  lemma HistoryNext(s: State, step: Step, cap: nat)
    requires Shape(s) && Enabled(s, step) && HistoryIsWindow(s, cap) && cap > 0
    requires Shape(Next(s, step, cap))
    ensures HistoryIsWindow(Next(s, step, cap), cap)
  {
    hide InOrder, Has, Accept;
    var t := Next(s, step, cap);
    match step
    case Take(_) =>
      var ows := t.submitted[..t.taken];
      assert ows[..|ows| - 1] == s.submitted[..s.taken];
      LastNPush(Records(s.submitted[..s.taken]), cap, RecordOf(ows[|ows| - 1].event));
    case _ =>
      assert t.submitted[..t.taken] == s.submitted[..s.taken];
  }

  lemma WriterNext(s: State, step: Step, cap: nat)
    requires Sound(s) && Enabled(s, step) && BusyPersisted(s) && PunchesPrecede(s)
    requires Sound(Next(s, step, cap))
    ensures BusyPersisted(Next(s, step, cap)) && PunchesPrecede(Next(s, step, cap))
  {
    hide InOrder, Has, Accept;
    var t := Next(s, step, cap);
    if step.Take? && t.busy && !Current(t).mpegts {
      var e := Current(t).event;
      assert e.data[..|e.data|] == e.data;
    }
  }

  lemma InvNext(s: State, image0: seq<byte>, step: Step, cap: nat)
    requires Inv(s, image0, cap) && Enabled(s, step) && cap > 0
    ensures Inv(Next(s, step, cap), image0, cap)
  {
    SoundNext(s, step, cap);
    DiskNext(s, step, cap);
    WriterNext(s, step, cap);
    HistoryNext(s, step, cap);
    forall x: nat | x < |image0| ensures ByteOK(Next(s, step, cap), image0, x) {
      ByteNext(s, image0, step, cap, x);
    }
    forall x: nat | x < |image0| ensures ImageOK(Next(s, step, cap), image0, x) {
      ImageNext(s, image0, step, cap, x);
    }
  }

  lemma InvInit(image0: seq<byte>, cap: nat)
    ensures Inv(Init(image0), image0, cap)
  {
    var s := Init(image0);
    forall x: nat | x < |image0| ensures ByteOK(s, image0, x) {
      LatestIs(s.acked, x);
    }
  }

  // ---------- Runs ----------

  /** The steps lead from s to t. */
  ghost predicate Reaches(s: State, steps: seq<Step>, t: State, cap: nat)
    decreases |steps|
  {
    if steps == [] then s == t
    else Shape(s) && Enabled(s, steps[0]) && Reaches(Next(s, steps[0], cap), steps[1..], t, cap)
  }

  lemma {:induction false} RunInv(s: State, image0: seq<byte>, steps: seq<Step>, t: State, cap: nat)
    requires Inv(s, image0, cap) && Reaches(s, steps, t, cap) && cap > 0
    ensures Inv(t, image0, cap)
    decreases |steps|
  {
    if steps != [] {
      InvNext(s, image0, steps[0], cap);
      RunInv(Next(s, steps[0], cap), image0, steps[1..], t, cap);
    }
  }

  lemma ReachableInv(image0: seq<byte>, steps: seq<Step>, t: State, cap: nat)
    requires Reaches(Init(image0), steps, t, cap) && cap > 0
    ensures Inv(t, image0, cap)
  {
    InvInit(image0, cap);
    RunInv(Init(image0), image0, steps, t, cap);
  }

  /** What the host may expect to read at x: never-written bytes are the original image, and a written
      byte is its latest write's, except that punched bytes no overlay extent holds are zero. */
  ghost function Expected(t: State, image0: seq<byte>, x: nat): byte
    requires Shape(t) && x < |t.w.disk.image| == |image0|
  {
    LatestIs(t.acked, x);
    var k := Latest(t.acked, x);
    if k == 0 then (if EverPunched(t, x) then 0 else image0[x])
    else if t.w.disk.owner[x] == 0 && Lost(t, k, x) then 0
    else Written(t.acked, k, x)
  }

  /** In every reachable state a read of any byte whose latest write is not handled MPEG-TS returns
      exactly the expected value; handled MPEG-TS still reads back while the overlay holds it. */
  lemma ReadsLatest(image0: seq<byte>, steps: seq<Step>, t: State, cap: nat, x: nat)
    requires Reaches(Init(image0), steps, t, cap) && cap > 0 && x < |image0|
    ensures Inv(t, image0, cap)
    ensures var k := Latest(t.acked, x);
      && (k == 0 || k > t.taken || !FlaggedTS(t, k) || t.w.disk.owner[x] != 0 ==>
            View(t.w.disk, x) == Expected(t, image0, x))
      && (k > t.taken ==> t.w.disk.owner[x] == k)
  {
    ReachableInv(image0, steps, t, cap);
    assert ByteOK(t, image0, x);
  }

  /** The same without any exception: a byte some extent holds reads as its latest write, which that extent
      is of, and every other byte as the image's last ordinary data or, after a later punch, as zero. So a
      released MPEG-TS write uncovers what the image held before it. */
  lemma ReadsExactly(image0: seq<byte>, steps: seq<Step>, t: State, cap: nat, x: nat)
    requires Reaches(Init(image0), steps, t, cap) && cap > 0 && x < |image0|
    ensures Inv(t, image0, cap)
    ensures t.w.disk.owner[x] != 0 ==>
      var k := Latest(t.acked, x);
      && t.w.disk.owner[x] == k <= |t.acked| && CoversByte(t.acked[k - 1], x)
      && View(t.w.disk, x) == Written(t.acked, k, x)
    ensures t.w.disk.owner[x] == 0 ==>
      Latest(t.acked, x) <= t.taken && View(t.w.disk, x) == ImageByte(image0, t.submitted, t.landed, t.punched, x)
  {
    ReachableInv(image0, steps, t, cap);
    LatestIs(t.acked, x);
    assert ByteOK(t, image0, x) && ImageOK(t, image0, x);
  }

  /** The plain form: without a punch of an equally new capture, and with the write still remembered
      by every punch that ran after it, the host reads what it last wrote. */
  lemma ReadsBack(image0: seq<byte>, steps: seq<Step>, t: State, cap: nat, x: nat)
    requires Reaches(Init(image0), steps, t, cap) && cap > 0 && x < |image0|
    requires Latest(t.acked, x) > 0
    requires forall p :: p in t.punched && Hits(p, x) && p.taken >= Latest(t.acked, x) ==>
      p.req.captureSeq < Latest(t.acked, x) && Remembered(p.recent, Latest(t.acked, x))
    ensures Inv(t, image0, cap)
    ensures var k := Latest(t.acked, x);
      && k <= |t.acked| && CoversByte(t.acked[k - 1], x)
      && (k > t.taken || !FlaggedTS(t, k) ==> View(t.w.disk, x) == Written(t.acked, k, x))
  {
    LatestIs(t.acked, x);
    ReadsLatest(image0, steps, t, cap, x);
  }

  /** A delayed punch does not change what is read of any byte that some newer write covers, if that write
      is unhandled or remembered; later writes over the byte, MPEG-TS or not, make no difference. */
  lemma PunchKeepsNewer(
    image0: seq<byte>, steps: seq<Step>, t: State, cap: nat, req: PunchRequest, ok: bool, k: nat, x: nat)
    requires Reaches(Init(image0), steps, t, cap) && cap > 0 && x < |image0|
    requires Shape(t) && Enabled(t, Punch(req, ok))
    requires req.captureSeq < k <= |t.acked| && CoversByte(t.acked[k - 1], x)
    requires k > t.taken || Remembered(t.w.recent, k)
    ensures Inv(Next(t, Punch(req, ok), cap), image0, cap)
    ensures View(Next(t, Punch(req, ok), cap).w.disk, x) == View(t.w.disk, x)
  {
    ReachableInv(image0, steps, t, cap);
    InvNext(t, image0, Punch(req, ok), cap);
    PunchView(t, image0, cap, req, ok, k, x);
  }

  lemma PunchView(t: State, image0: seq<byte>, cap: nat, req: PunchRequest, ok: bool, k: nat, x: nat)
    requires Inv(t, image0, cap) && Enabled(t, Punch(req, ok)) && x < |image0|
    requires req.captureSeq < k <= |t.acked| && CoversByte(t.acked[k - 1], x)
    requires k > t.taken || Remembered(t.w.recent, k)
    requires Disk.Valid(Next(t, Punch(req, ok), cap).w.disk)
    ensures View(Next(t, Punch(req, ok), cap).w.disk, x) == View(t.w.disk, x)
  {
    hide InOrder, Has, Accept;
    assert ByteOK(t, image0, x);
    LatestIs(t.acked, x);
    GuardSees(t, cap, req, k, x);
  }

  lemma {:induction false} RecordsConcat(a: seq<ObservedWrite>, b: seq<ObservedWrite>)
    ensures Records(a + b) == Records(a) + Records(b)
  {
    if b == [] {
      assert a + b == a;
    } else {
      assert (a + b)[..|a + b| - 1] == a + b[..|b| - 1];
      RecordsConcat(a, b[..|b| - 1]);
    }
  }

  /** The only record numbered k lies in the window exactly when fewer than cap records follow it. */
  lemma WindowHas(before: seq<WriteRecord>, r: WriteRecord, after: seq<WriteRecord>, cap: nat)
    requires forall q :: q in before || q in after ==> q.seqNo != r.seqNo
    ensures Remembered(LastN(before + [r] + after, cap), r.seqNo) <==> |after| < cap
    ensures !Remembered(LastN(before + after, cap), r.seqNo)
  {
    var all := before + [r] + after;
    var window := LastN(all, cap);
    if |after| < cap {
      assert window[|window| - |after| - 1] == r;
    }
    forall m | 0 <= m < |all| && m != |before| ensures all[m].seqNo != r.seqNo {
      if m < |before| {
        assert all[m] in before;
      } else {
        assert all[m] == after[m - |before| - 1];
      }
    }
    if q :| q in window && q.seqNo == r.seqNo {
      var i :| 0 <= i < |window| && window[i] == q;
      var j := i + |all| - |window|;
      assert all[j] == q;
      assert all[j] == q && j == |before|;
    }
    forall q | q in LastN(before + after, cap) ensures q.seqNo != r.seqNo {
      assert q in before + after;
    }
  }

  /** Splitting the handled writes at number k: the records before and after all bear other numbers. */
  lemma RecordsAround(t: State, k: nat)
    requires Sound(t) && 0 < k <= t.taken
    ensures var ows := t.submitted[..t.taken];
      && var before, after := Records(ows[..k - 1]), Records(t.submitted[k..t.taken]);
      && (forall q :: q in before || q in after ==> q.seqNo != k)
      && RecordOf(ows[k - 1].event).seqNo == k
      && Records(ows) == if FlaggedTS(t, k) then before + after else before + [RecordOf(ows[k - 1].event)] + after
  {
    var ows := t.submitted[..t.taken];
    SubmittedIsAcked(t, k - 1);
    var head, tail := ows[..k], t.submitted[k..t.taken];
    assert ows == head + tail && head[..k - 1] == ows[..k - 1];
    RecordsConcat(head, tail);
    forall q | q in Records(ows[..k - 1]) ensures q.seqNo != k {
      RecordsAre(ows[..k - 1], q);
      var i :| 0 <= i < k - 1 && q == RecordOf(ows[i].event);
      SubmittedIsAcked(t, i);
    }
    forall q | q in Records(tail) ensures q.seqNo != k {
      RecordsAre(tail, q);
      var i :| 0 <= i < |tail| && q == RecordOf(tail[i].event);
      SubmittedIsAcked(t, k + i);
    }
  }

  /** A write is remembered exactly when it was persisted and fewer than cap writes were persisted
      after it. */
  lemma RememberedExactly(image0: seq<byte>, steps: seq<Step>, t: State, cap: nat, k: nat)
    requires Reaches(Init(image0), steps, t, cap) && cap > 0
    requires 0 < k
    ensures Inv(t, image0, cap)
    ensures Remembered(t.w.recent, k) <==>
      k <= t.taken && !FlaggedTS(t, k) && |Records(t.submitted[k..t.taken])| < cap
  {
    ReachableInv(image0, steps, t, cap);
    if k <= t.taken {
      RecordsAround(t, k);
      var ows := t.submitted[..t.taken];
      WindowHas(Records(ows[..k - 1]), RecordOf(ows[k - 1].event), Records(t.submitted[k..t.taken]), cap);
    } else if Remembered(t.w.recent, k) {
      RememberedIsRecord(t, cap, k);
      assert false;
    }
  }

  // ---------- Reads that look at the image before they take the lock ----------

  /** The step is a release or a punch whose range contains x. */
  ghost predicate Interferes(s: State, step: Step, x: int)
    requires Shape(s) && Enabled(s, step)
  {
    match step
    case LetGo(_) => CoversByte(Current(s).event, x)
    case Punch(req, _) => req.start <= x < req.end
    case _ => false
  }

  ghost predicate Undisturbed(s: State, steps: seq<Step>, cap: nat, x: int)
    decreases |steps|
  {
    steps == [] ||
    (Shape(s) && Enabled(s, steps[0]) && !Interferes(s, steps[0], x)
     && Undisturbed(Next(s, steps[0], cap), steps[1..], cap, x))
  }

  /** Without interference a byte that ends a step unowned was unowned before, and its image is kept. */
  lemma UnownedStep(s: State, image0: seq<byte>, step: Step, cap: nat, x: nat)
    requires Inv(s, image0, cap) && Enabled(s, step) && x < |image0|
    requires !Interferes(s, step, x) && Shape(Next(s, step, cap))
    ensures var t := Next(s, step, cap); x < |t.w.disk.image| && (t.w.disk.owner[x] == 0 ==>
      s.w.disk.owner[x] == 0 && t.w.disk.image[x] == s.w.disk.image[x])
  {
    hide InOrder, Has, Accept;
    if step.Take? {
      SoundNext(s, step, cap);
      TakeByte(s, image0, step, cap, x);
    } else if step.LetGo? {
      SubmittedIsAcked(s, s.taken - 1);
    }
  }

  lemma {:induction false} UnownedStays(
    s: State, image0: seq<byte>, steps: seq<Step>, t: State, cap: nat, x: nat)
    requires Inv(s, image0, cap) && Reaches(s, steps, t, cap) && cap > 0 && x < |image0|
    requires Undisturbed(s, steps, cap, x)
    ensures Inv(t, image0, cap)
    ensures t.w.disk.owner[x] == 0 ==> s.w.disk.owner[x] == 0 && t.w.disk.image[x] == s.w.disk.image[x]
    decreases |steps|
  {
    if steps != [] {
      InvNext(s, image0, steps[0], cap);
      UnownedStep(s, image0, steps[0], cap, x);
      UnownedStays(Next(s, steps[0], cap), image0, steps[1..], t, cap, x);
    }
  }

  /** A read that samples the image in state s and takes the lock in state t returns t's view, when no
      release or punch in between touches what it reads. */
  lemma SampledRead(
    image0: seq<byte>, before: seq<Step>, s: State, between: seq<Step>, t: State, cap: nat, off: nat, len: nat)
    requires Reaches(Init(image0), before, s, cap) && Reaches(s, between, t, cap) && cap > 0
    requires off + len <= |image0|
    requires forall x :: off <= x < off + len ==> Undisturbed(s, between, cap, x)
    ensures Inv(s, image0, cap) && Inv(t, image0, cap)
    ensures var buf := Blend(s.w.disk.image[off..off + len], off, t.w.disk);
      forall x :: off <= x < off + len ==> buf[x - off] == View(t.w.disk, x)
  {
    ReachableInv(image0, before, s, cap);
    RunInv(s, image0, between, t, cap);
    var sampled := s.w.disk.image[off..off + len];
    forall x | off <= x < off + len ensures Blend(sampled, off, t.w.disk)[x - off] == View(t.w.disk, x) {
      UnownedStays(s, image0, between, t, cap, x);
      assert sampled[x - off] == s.w.disk.image[x];
    }
  }

  // ---------- Order ----------

  /** In every reachable state the dispatcher has sent exactly writes 1..nextSeq-1 in order, writer and
      reconciler have been given prefixes of that, and no acknowledged write is anywhere twice or
      nowhere. */
  lemma StagesSeePrefixes(image0: seq<byte>, steps: seq<Step>, t: State, cap: nat)
    requires Reaches(Init(image0), steps, t, cap) && cap > 0
    ensures t.order.sent <= t.acked && |t.order.sent| == t.order.nextSeq - 1
    ensures |t.reconciled| <= |t.submitted| <= |t.order.sent| && t.reconciled <= t.submitted
    ensures forall i :: 0 <= i < |t.submitted| ==> t.submitted[i].event == t.acked[i]
    ensures forall e :: e in t.acked <==> e in t.inflight || Has(t.order, e)
    ensures |t.order.sent| < |t.acked| ==> t.acked[|t.order.sent|] in t.inflight
    ensures t.inflight == {} ==> t.order.sent == t.acked && t.order.pending == map[]
  {
    ReachableInv(image0, steps, t, cap);
    SentIsAcked(t);
    forall i | 0 <= i < |t.submitted| ensures t.submitted[i].event == t.acked[i] {
      SubmittedIsAcked(t, i);
    }
    if |t.order.sent| < |t.acked| {
      var e := t.acked[|t.order.sent|];
      assert e in t.acked && e.seqNo == t.order.nextSeq && !Has(t.order, e);
    }
    assert forall k :: k in t.order.pending ==> Has(t.order, t.order.pending[k]);
    assert forall e :: e in t.acked ==> e.seqNo <= |t.acked|;
    if t.inflight == {} {
      assert t.order.pending.Keys == {};
    }
  }
}
