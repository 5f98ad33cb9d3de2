/** The life of a write, as a state machine over the stages of the program: FUSE Write acknowledges,
    the dispatcher reorders, the sniffer flags, the forwarder feeds writer and reconciler, the writer
    persists and releases, and punches run whenever the writer is free. Channels are FIFO, so a
    channel is the list of everything put in it and a count of what has been taken out. */
module Protocol {
  import opened Disk
  import opened Overlay
  import opened Types
  import opened Writing
  import opened Pipeline

  /** A punch that was carried out: how many writes the writer had begun by then, and its history. */
  datatype Punched = Punched(req: PunchRequest, taken: nat, recent: seq<WriteRecord>)

  datatype State = State(
    w: WriterState,
    acked: seq<WriteEvent>,           // every acknowledged write, in order
    inflight: set<WriteEvent>,        // submitted, not yet received by the dispatcher
    order: Order,                     // the dispatcher; order.sent is the sniffer's input
    sniffed: seq<ObservedWrite>,      // the sniffer's output
    submitted: seq<ObservedWrite>,    // the writer's input
    reconciled: seq<ObservedWrite>,   // the reconciler's input
    taken: nat,                       // how many writes the writer has begun
    landed: seq<nat>,                 // how many bytes of each of them the image file took
    busy: bool,                       // the last of them still awaits its release
    punched: seq<Punched>             // punches carried out
  )

  datatype Step =
    | Ack(off: nat, data: seq<byte>, touchesMFT: bool)
    | Arrive(ev: WriteEvent)
    | Sniff(mpegts: bool, captures: seq<CaptureRange>)
    | ToWriter
    | ToReconciler
    | Take(landed: nat)
    | LetGo(releaseOk: bool)
    | Punch(req: PunchRequest, punchOk: bool)

  ghost function Init(image: seq<byte>): State {
    var zeros := seq(|image|, _ => 0);
    State(WriterState(DiskState(image, zeros, zeros, 1), []), [], {}, START, [], [], [], 0, [], false, [])
  }

  ghost predicate Enabled(s: State, step: Step) {
    match step
    case Ack(off, data, _) => |data| > 0 && off + |data| <= |s.w.disk.image|
    case Arrive(ev) => ev in s.inflight
    case Sniff(_, _) => |s.sniffed| < |s.order.sent|
    case ToWriter => |s.submitted| == |s.reconciled| < |s.sniffed|
    case ToReconciler => |s.reconciled| < |s.submitted|
    case Take(landed) => !s.busy && s.taken < |s.submitted| && landed <= |s.submitted[s.taken].event.data|
    case LetGo(_) => s.busy
    case Punch(_, _) => !s.busy
  }

  /** What the writer is working on. */
  ghost function Current(s: State): ObservedWrite
    requires 0 < s.taken <= |s.submitted|
  {
    s.submitted[s.taken - 1]
  }

  ghost function Next(s: State, step: Step, cap: nat): State
    requires Shape(s) && Enabled(s, step)
  {
    match step
    case Ack(off, data, touches) =>
      var gen := s.w.disk.nextGen;
      var ev := WriteEvent(|s.acked| + 1, off, data, ShmExtent(off, off + |data|, gen), touches);
      s.(w := s.w.(disk := Stage(s.w.disk, off, data)), acked := s.acked + [ev], inflight := s.inflight + {ev})
    case Arrive(ev) => s.(inflight := s.inflight - {ev}, order := Accept(s.order, ev))
    case Sniff(ts, caps) => s.(sniffed := s.sniffed + [ObservedWrite(s.order.sent[|s.sniffed|], ts, caps)])
    case ToWriter => s.(submitted := s.submitted + [s.sniffed[|s.submitted|]])
    case ToReconciler => s.(reconciled := s.reconciled + [s.submitted[|s.reconciled|]])
    case Take(landed) =>
      var ow := s.submitted[s.taken];
      s.(w := Begin(s.w, ow, landed, cap), taken := s.taken + 1, landed := s.landed + [landed],
         busy := Releases(ow, landed))
    case LetGo(ok) => s.(w := Finish(s.w, Current(s), ok, false), busy := false)
    case Punch(req, ok) =>
      if Punches(s.w.recent, req, ok)
      then s.(w := AfterPunch(s.w, req, ok), punched := s.punched + [Punched(req, s.taken, s.w.recent)])
      else s
  }

  /** What the step functions need to be defined. */
  ghost predicate Shape(s: State) {
    && Disk.Valid(s.w.disk)
    && |s.sniffed| <= |s.order.sent| && |s.submitted| <= |s.sniffed| && |s.reconciled| <= |s.submitted|
    && s.taken == |s.landed| <= |s.submitted| && (s.busy ==> s.taken > 0)
    && (forall i :: 0 <= i < s.taken ==> s.landed[i] <= |s.submitted[i].event.data|)
    && forall i :: 0 <= i < |s.submitted| ==> Fits(s.w.disk, s.submitted[i].event)
  }

  // ---------- Acknowledged writes and their order ----------

  /** Writes are numbered in acknowledgement order, and their generations are their numbers. */
  ghost predicate Numbered(s: State) {
    && s.w.disk.nextGen == |s.acked| + 1
    && forall i :: 0 <= i < |s.acked| ==>
        var e := s.acked[i];
        && e.seqNo == i + 1 && |e.data| > 0
        && e.offset + |e.data| <= |s.w.disk.image|
        && e.staged == ShmExtent(e.offset, e.offset + |e.data|, i + 1)
  }

  /** Each acknowledged write is in exactly one place on its way to the sniffer, and every later
      stage has seen a prefix of what the one before it has seen. */
  ghost predicate Conveyed(s: State) {
    && InOrder(s.order)
    && |s.sniffed| <= |s.order.sent|
    && (forall e :: e in s.acked <==> e in s.inflight || Has(s.order, e))
    && (forall e :: e in s.inflight ==> !Has(s.order, e))
    && (forall i :: 0 <= i < |s.sniffed| ==> s.sniffed[i].event == s.order.sent[i])
    && s.submitted <= s.sniffed && s.reconciled <= s.submitted
    && |s.submitted| <= |s.reconciled| + 1
  }

  ghost predicate Sound(s: State) {
    Shape(s) && Clean(s.w.disk) && Numbered(s) && Conveyed(s)
  }

  /** The dispatched writes are the first acknowledged writes. */
  lemma SentIsAcked(s: State)
    requires Numbered(s) && Conveyed(s)
    ensures s.order.sent <= s.acked
  {
    forall i | 0 <= i < |s.order.sent| ensures i < |s.acked| && s.order.sent[i] == s.acked[i] {
      assert Has(s.order, s.order.sent[i]);
      assert s.order.sent[i] in s.acked;
    }
    if s.order.sent != [] {
      var last := s.order.sent[|s.order.sent| - 1];
      assert |s.order.sent| - 1 < |s.acked|;
    }
  }

  lemma SubmittedIsAcked(s: State, i: nat)
    requires Sound(s) && i < |s.submitted|
    ensures i < |s.acked| && s.submitted[i].event == s.acked[i]
  {
    SentIsAcked(s);
    assert s.submitted[i] == s.sniffed[i] && s.order.sent[i] == s.acked[i];
  }

  lemma SubmittedFits(s: State)
    requires Sound(s) && |s.submitted| < |s.sniffed|
    ensures Fits(s.w.disk, s.sniffed[|s.submitted|].event)
  {
    SentIsAcked(s);
    var i := |s.submitted|;
    assert s.sniffed[i].event == s.order.sent[i] == s.acked[i];
  }

  /** No step changes the size of the disk, and none leaves a non-zero overlay byte unowned. */
  lemma DiskNext(s: State, step: Step, cap: nat)
    requires Shape(s) && Clean(s.w.disk) && Enabled(s, step)
    ensures var d := Next(s, step, cap).w.disk;
      && Disk.Valid(d) && Clean(d) && |d.image| == |s.w.disk.image|
      && d.nextGen == s.w.disk.nextGen + if step.Ack? then 1 else 0
  {
    match step
    case Ack(off, data, touches) => StageKeeps(s.w.disk, off, data);
    case LetGo(ok) =>
      var p := Current(s).event.staged;
      if p.start < p.end {
        ReleaseKeeps(s.w.disk, p.start, p.end - p.start, p.gen);
      }
    case _ =>
  }

  lemma AckConveyed(s: State, off: nat, data: seq<byte>, touches: bool, cap: nat)
    requires Sound(s) && Enabled(s, Ack(off, data, touches))
    ensures Conveyed(Next(s, Ack(off, data, touches), cap))
  {
    var t := Next(s, Ack(off, data, touches), cap);
    var ev := t.acked[|s.acked|];
    assert t.acked == s.acked + [ev];
    assert forall e :: e in t.acked <==> e in s.acked || e == ev;
    assert forall e :: e in s.acked ==> e.seqNo <= |s.acked|;
  }

  lemma ArriveConveyed(s: State, ev: WriteEvent, cap: nat)
    requires Sound(s) && Enabled(s, Arrive(ev))
    ensures Conveyed(Next(s, Arrive(ev), cap))
    ensures s.order.sent <= Next(s, Arrive(ev), cap).order.sent
  {
    assert ev in s.acked;
    forall e | Has(s.order, e) ensures e.seqNo != ev.seqNo {
      assert e in s.acked;
    }
    AcceptKeeps(s.order, ev);
  }

  lemma WriterSound(s: State, step: Step, cap: nat)
    requires Sound(s) && Enabled(s, step) && (step.Take? || step.LetGo? || step.Punch?)
    requires var d := Next(s, step, cap).w.disk;
      && Disk.Valid(d) && Clean(d) && |d.image| == |s.w.disk.image| && d.nextGen == s.w.disk.nextGen
    ensures Sound(Next(s, step, cap))
  {
    hide InOrder, Has, Accept, Clean, Begin, Finish, AfterPunch, Stage, Releases;
    var t := Next(s, step, cap);
    assert (t.inflight, t.order, t.sniffed, t.submitted, t.reconciled)
      == (s.inflight, s.order, s.sniffed, s.submitted, s.reconciled);
    assert Conveyed(t) == Conveyed(s);
  }

  lemma SoundNext(s: State, step: Step, cap: nat)
    requires Sound(s) && Enabled(s, step)
    ensures Sound(Next(s, step, cap))
  {
    hide InOrder, Has, Accept, Clean, Begin, Finish, AfterPunch;
    DiskNext(s, step, cap);
    match step
    case Ack(off, data, touches) => AckConveyed(s, off, data, touches, cap);
    case Arrive(ev) => ArriveConveyed(s, ev, cap);
    case ToWriter => SubmittedFits(s);
    case Take(_) => WriterSound(s, step, cap);
    case LetGo(_) => WriterSound(s, step, cap);
    case Punch(_, _) => WriterSound(s, step, cap);
    case _ =>
  }
}
