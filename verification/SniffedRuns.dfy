/** What the sniffer makes of any list of writes, told by the writes alone: which of them are flagged, which
    bytes are broadcast, and what the captures show. A run is a stretch of writes each of which goes on where
    the one before it ended. */
module SniffedRuns {
  import opened Disk
  import opened Types
  import opened Scanner
  import opened ScanRuns
  import opened Sniffing

  // ---------- Runs ----------

  /** Ten valid packets in a row, somewhere. */
  ghost predicate HasWindow(data: seq<byte>) {
    exists i: nat :: Window(data, i)
  }

  lemma WindowIsFound(data: seq<byte>)
    ensures HasWindow(data) <==> Find(data, 0).At?
  {
    hide Window, Find;
    FindIsLeftmost(data, 0);
  }

  ghost predicate Follows(r: StreamRun, ev: WriteEvent) {
    r.bytes != [] && ev.offset == r.start + |r.bytes|
  }

  /** A write from elsewhere that is no stream does not concern a run that is one. */
  ghost predicate LeavesRun(r: StreamRun, ev: WriteEvent) {
    ev.data == [] || (!Follows(r, ev) && HasWindow(r.bytes) && !HasWindow(ev.data))
  }

  /** The run after one more write: left alone, continued or replaced. */
  ghost function RunNext(r: StreamRun, ev: WriteEvent): StreamRun {
    if LeavesRun(r, ev) then r
    else if Follows(r, ev) then r.(bytes := r.bytes + ev.data)
    else StreamRun(ev.data, ev.offset)
  }

  /** The run that the writes end in. */
  ghost function RunOf(evs: seq<WriteEvent>): StreamRun {
    if evs == [] then StreamRun([], 0) else RunNext(RunOf(evs[..|evs| - 1]), evs[|evs| - 1])
  }

  /** What a write belongs to: the run it continues, or else itself. */
  ghost function Segment(r: StreamRun, ev: WriteEvent): seq<byte> {
    if ev.data == [] then r.bytes
    else if Follows(r, ev) then r.bytes + ev.data
    else ev.data
  }

  // ---------- The scanner on its run ----------

  /** The chunks of the current run after one more write. */
  ghost function ChunksNext(r: StreamRun, chunks: seq<TSChunk>, ev: WriteEvent, more: seq<TSChunk>): seq<TSChunk> {
    if LeavesRun(r, ev) || Follows(r, ev) then chunks + more else more
  }

  ghost predicate OnRun(s: ScanState, chunks: seq<TSChunk>, r: StreamRun) {
    && Tracks(s, r) && (s.haveExpected <==> r.bytes != [])
    && (r.bytes != [] ==> Scanned(s, chunks, r.start, r.bytes))
    && (r.bytes == [] ==> !s.detected && chunks == [])
  }

  /** A new segment found while another stream is under way is scanned as if nothing had come before it. */
  lemma NewSegmentStartsAfresh(s: ScanState, off: nat, data: seq<byte>)
    requires s.detected && s.haveExpected && off != s.expected && Find(data, 0).At?
    ensures FeedStep(s, off, data) == FeedStep(ResetAt(off), off, data)
  {
    hide Find, EmitAll;
    NothingFound();
    FoundFits(data);
    assert [] + data == data;
  }

  lemma StartsScan(off: nat)
    ensures Scanned(ResetAt(off), [], off, [])
  {
    NothingFound();
  }

  lemma StepOnRun(s: ScanState, chunks: seq<TSChunk>, r: StreamRun, ev: WriteEvent)
    requires OnRun(s, chunks, r)
    ensures var (t, more, ts) := FeedStep(s, ev.offset, ev.data);
      && RunNext(r, ev) == NextRun(s, r, ev.offset, ev.data)
      && OnRun(t, ChunksNext(r, chunks, ev, more), RunNext(r, ev))
      && (ts <==> HasWindow(Segment(r, ev))) && (more != [] ==> ts)
  {
    hide Find, HasWindow, FeedStep, EmitAll;
    WindowIsFound(r.bytes);
    WindowIsFound(ev.data);
    WindowIsFound(Segment(r, ev));
    FeedTracks(s, r, ev.offset, ev.data);
    if r.bytes == [] {
      NothingFound();
    }
    if LeavesRun(r, ev) {
      LeavesAlone(s, ev.offset, ev.data);
      assert chunks + [] == chunks;
    } else if Follows(r, ev) {
      ScanNext(s, chunks, r.start, r.bytes, ev.data);
      YieldsFlagged(s, ev.offset, ev.data);
    } else {
      StartsScan(ev.offset);
      ScanNext(ResetAt(ev.offset), [], ev.offset, [], ev.data);
      YieldsFlagged(s, ev.offset, ev.data);
      if s.detected {
        NewSegmentStartsAfresh(s, ev.offset, ev.data);
      } else {
        UnexpectedWriteResets(s, ev.offset, ev.data);
      }
      var more := FeedStep(s, ev.offset, ev.data).1;
      assert [] + more == more && [] + ev.data == ev.data;
    }
  }

  lemma LeavesAlone(s: ScanState, off: nat, data: seq<byte>)
    requires data == [] || (s.detected && off != s.expected && Find(data, 0).Missing?)
    ensures FeedStep(s, off, data) == (s, [], data == [] && s.detected)
  {
  }

  lemma YieldsFlagged(s: ScanState, off: nat, data: seq<byte>)
    ensures FeedStep(s, off, data).1 != [] ==> FeedStep(s, off, data).2
  {
    hide EmitAll, Find;
  }

  /** The chunks of the run that the writes end in. */
  ghost function RunChunks(evs: seq<WriteEvent>): seq<TSChunk> {
    if evs == [] then []
    else
      var init, ev := evs[..|evs| - 1], evs[|evs| - 1];
      ChunksNext(RunOf(init), RunChunks(init), ev, FeedStep(ScanAfter(init), ev.offset, ev.data).1)
  }

  /** In every reachable state the scanner is on the run that the writes end in. */
  lemma {:induction false} ScannerFollowsRun(evs: seq<WriteEvent>)
    ensures OnRun(ScanAfter(evs), RunChunks(evs), RunOf(evs))
  {
    hide FeedStep, Find;
    if evs == [] {
      NothingFound();
    } else {
      var init, ev := evs[..|evs| - 1], evs[|evs| - 1];
      ScannerFollowsRun(init);
      hide OnRun;
      StepOnRun(ScanAfter(init), RunChunks(init), RunOf(init), ev);
    }
  }

  // ---------- Flags ----------

  /** What leaves the sniffer for the i-th write. */
  lemma {:induction false} OutAt(evs: seq<WriteEvent>, i: nat)
    requires i < |evs|
    ensures var out := SniffAll(Sniffed(FRESH, [], []), evs).out;
      var f := FeedStep(ScanAfter(evs[..i]), evs[i].offset, evs[i].data);
      |out| == |evs| && out[i] == ObservedWrite(evs[i], f.2, CapturesOf(evs[i].seqNo, f.1))
    decreases |evs|
  {
    hide FeedStep, CapturesOf;
    var init, n := evs[..|evs| - 1], |evs| - 1;
    SniffedInOrder(Sniffed(FRESH, [], []), evs);
    if i < n {
      OutAt(init, i);
      assert init[..i] == evs[..i];
    } else {
      SniffedInOrder(Sniffed(FRESH, [], []), init);
    }
  }

  /** After any writes, a write is flagged as MPEG-TS if and only if what it belongs to holds a window: the run
      it continues, with its own bytes, or else its own bytes alone. A write that yields a capture is flagged. */
  lemma FlaggedIff(evs: seq<WriteEvent>, i: nat)
    requires i < |evs|
    ensures var out := SniffAll(Sniffed(FRESH, [], []), evs).out;
      && |out| == |evs|
      && (out[i].mpegts <==> HasWindow(Segment(RunOf(evs[..i]), evs[i])))
      && (out[i].captures != [] ==> out[i].mpegts)
  {
    hide FeedStep, HasWindow, Segment, OnRun;
    OutAt(evs, i);
    ScannerFollowsRun(evs[..i]);
    StepOnRun(ScanAfter(evs[..i]), RunChunks(evs[..i]), RunOf(evs[..i]), evs[i]);
  }

  // ---------- Broadcasts and captures ----------

  ghost function Broadcasts(evs: seq<WriteEvent>): seq<seq<byte>> {
    SniffAll(Sniffed(FRESH, [], []), evs).payloads
  }

  ghost function Captures(evs: seq<WriteEvent>): seq<CaptureRange> {
    AllCaptures(SniffAll(Sniffed(FRESH, [], []), evs).out)
  }

  /** p is what the writes up to the i-th put at the addresses of the capture, which bears its number. */
  ghost predicate Shows(evs: seq<WriteEvent>, i: nat, c: CaptureRange, p: seq<byte>) {
    && i < |evs| && c.seqNo == evs[i].seqNo && c.start < c.end && |p| == c.end - c.start
    && forall k :: 0 <= k < |p| ==> WroteByte(evs[..i + 1], c.start + k, p[k])
  }

  /** Some write up to the last is shown so. */
  ghost predicate Shown(evs: seq<WriteEvent>, c: CaptureRange, p: seq<byte>) {
    exists i :: Shows(evs, i, c, p)
  }

  lemma ShownStays(init: seq<WriteEvent>, ev: WriteEvent, c: CaptureRange, p: seq<byte>)
    requires Shown(init, c, p)
    ensures Shown(init + [ev], c, p)
  {
    hide WroteByte;
    var i :| Shows(init, i, c, p);
    assert (init + [ev])[..i + 1] == init[..i + 1];
    assert Shows(init + [ev], i, c, p);
  }

  /** The broadcasts are, one for one and in order, the bytes at the captures. */
  lemma {:induction false} BroadcastsAreCaptures(evs: seq<WriteEvent>)
    ensures |Broadcasts(evs)| == |Captures(evs)|
    ensures forall k :: 0 <= k < |Captures(evs)| ==> Shown(evs, Captures(evs)[k], Broadcasts(evs)[k])
  {
    if evs != [] {
      var init, ev := evs[..|evs| - 1], evs[|evs| - 1];
      assert init + [ev] == evs;
      BroadcastsAreCaptures(init);
      OneMoreSniffed(init, ev);
      hide Broadcasts, Captures, Shown, FeedStep;
      var chunks := FeedStep(ScanAfter(init), ev.offset, ev.data).1;
      var m := |Captures(init)|;
      forall k | 0 <= k < |Captures(evs)| ensures Shown(evs, Captures(evs)[k], Broadcasts(evs)[k]) {
        if k < m {
          ShownStays(init, ev, Captures(init)[k], Broadcasts(init)[k]);
        } else {
          NewIsShown(init, ev, k - m);
        }
      }
    }
  }

  lemma NewIsShown(init: seq<WriteEvent>, ev: WriteEvent, k: nat)
    requires k < |FeedStep(ScanAfter(init), ev.offset, ev.data).1|
    ensures var chunks := FeedStep(ScanAfter(init), ev.offset, ev.data).1;
      Shown(init + [ev], CapturesOf(ev.seqNo, chunks)[k], PayloadsOf(chunks)[k])
  {
    hide FeedStep, Genuine;
    var chunks := FeedStep(ScanAfter(init), ev.offset, ev.data).1;
    ChunksGenuine(init, ev);
    assert chunks[k] in chunks;
    GenuineShows(init + [ev], chunks[k]);
    assert Shows(init + [ev], |init|, CapturesOf(ev.seqNo, chunks)[k], PayloadsOf(chunks)[k]);
  }

  lemma GenuineShows(evs: seq<WriteEvent>, c: TSChunk)
    requires evs != [] && Genuine(c, evs)
    ensures Shows(evs, |evs| - 1, CaptureRange(evs[|evs| - 1].seqNo, c.start, c.end), c.data)
  {
    hide WroteByte, Packets;
    assert evs[..|evs|] == evs;
    forall k | 0 <= k < |c.data| ensures WroteByte(evs, c.start + k, c.data[k]) {
      assert GenuineAt(c, evs, c.start + k);
    }
  }

  lemma OneMoreSniffed(init: seq<WriteEvent>, ev: WriteEvent)
    ensures var chunks := FeedStep(ScanAfter(init), ev.offset, ev.data).1;
      && Broadcasts(init + [ev]) == Broadcasts(init) + PayloadsOf(chunks)
      && Captures(init + [ev]) == Captures(init) + CapturesOf(ev.seqNo, chunks)
  {
    hide FeedStep;
    assert (init + [ev])[..|init|] == init;
    var before, after := SniffAll(Sniffed(FRESH, [], []), init), SniffAll(Sniffed(FRESH, [], []), init + [ev]);
    assert after == SniffOne(before, ev);
    assert after.out[..|after.out| - 1] == before.out;
  }

  // ---------- Nothing is passed over ----------

  ghost function AllChunks(evs: seq<WriteEvent>): seq<TSChunk> {
    if evs == [] then []
    else
      var init, ev := evs[..|evs| - 1], evs[|evs| - 1];
      AllChunks(init) + FeedStep(ScanAfter(init), ev.offset, ev.data).1
  }

  lemma {:induction false} EverythingAccounted(evs: seq<WriteEvent>)
    ensures RunAccounted(ScanAfter(evs), AllChunks(evs), RunOf(evs))
  {
    hide FeedStep, Accounted;
    if evs == [] {
      NothingAccounted([], 0);
    } else {
      var init, ev := evs[..|evs| - 1], evs[|evs| - 1];
      EverythingAccounted(init);
      ScannerFollowsRun(init);
      StepOnRun(ScanAfter(init), RunChunks(init), RunOf(init), ev);
      hide RunAccounted;
      FeedAccounts(ScanAfter(init), RunOf(init), AllChunks(init), ev.offset, ev.data);
    }
  }

  lemma {:induction false} ChunksAreCaptured(evs: seq<WriteEvent>, x: int)
    ensures InChunks(AllChunks(evs), x) <==> exists c :: c in Captures(evs) && c.start <= x < c.end
  {
    hide FeedStep;
    if evs != [] {
      var init, ev := evs[..|evs| - 1], evs[|evs| - 1];
      assert init + [ev] == evs;
      ChunksAreCaptured(init, x);
      OneMoreSniffed(init, ev);
      var chunks := FeedStep(ScanAfter(init), ev.offset, ev.data).1;
      hide Captures, CapturesOf;
      InMoreChunks(AllChunks(init), chunks, x);
      TheirCaptures(ev.seqNo, chunks, x);
      var a, b := Captures(init), CapturesOf(ev.seqNo, chunks);
      assert forall c :: c in a + b <==> c in a || c in b;
    }
  }

  lemma TheirCaptures(seqNo: nat, chunks: seq<TSChunk>, x: int)
    ensures InChunks(chunks, x) <==> exists c :: c in CapturesOf(seqNo, chunks) && c.start <= x < c.end
  {
    if c :| c in chunks && c.start <= x < c.end {
      var i :| 0 <= i < |chunks| && chunks[i] == c;
      assert CapturesOf(seqNo, chunks)[i] in CapturesOf(seqNo, chunks);
    }
    if c :| c in CapturesOf(seqNo, chunks) && c.start <= x < c.end {
      var i :| 0 <= i < |chunks| && CapturesOf(seqNo, chunks)[i] == c;
      assert chunks[i] in chunks;
    }
  }

  /** What has been captured stays so. */
  lemma {:induction false} CapturesStay(evs: seq<WriteEvent>, j: nat, c: CaptureRange)
    requires j <= |evs| && c in Captures(evs[..j])
    ensures c in Captures(evs)
    decreases |evs|
  {
    if j < |evs| {
      var init, ev := evs[..|evs| - 1], evs[|evs| - 1];
      assert init + [ev] == evs && init[..j] == evs[..j];
      CapturesStay(init, j, c);
      OneMoreSniffed(init, ev);
    } else {
      assert evs[..j] == evs;
    }
  }

  /** However the writes came, the first byte of every window of every run they formed has been captured, and so
      broadcast: neither damage in a stream nor how it was split makes the scanner pass over one. */
  lemma EveryWindowIsCaptured(evs: seq<WriteEvent>, j: nat, i: nat)
    requires j <= |evs| && Window(RunOf(evs[..j]).bytes, i)
    ensures exists c :: c in Captures(evs) && c.start <= RunOf(evs[..j]).start + i < c.end
  {
    hide Captures, AllChunks, RunOf, ScanAfter, Scanned;
    var past := evs[..j];
    var r := RunOf(past);
    EverythingAccounted(past);
    ScannerFollowsRun(past);
    PacketsFit(r.bytes, i, 10);
    assert !RuledOut(r.bytes, i);
    assert InChunks(AllChunks(past), r.start + i);
    ChunksAreCaptured(past, r.start + i);
    var c :| c in Captures(past) && c.start <= r.start + i < c.end;
    CapturesStay(evs, j, c);
  }

  // ---------- Streams are broadcast whole ----------

  ghost function JoinAll(pieces: seq<seq<byte>>): seq<byte> {
    if pieces == [] then [] else pieces[0] + JoinAll(pieces[1..])
  }

  /** The captures follow each other without a gap from one address to another. */
  ghost predicate CapturesTile(cs: seq<CaptureRange>, from: nat, to: nat)
    decreases |cs|
  {
    if cs == [] then from == to else cs[0].start == from < cs[0].end && CapturesTile(cs[1..], cs[0].end, to)
  }

  /** i is the stream's first window, and all whole packets from there on are valid. */
  ghost predicate ValidFrom(w: seq<byte>, i: nat) {
    && i <= |w| && Window(w, i) && (forall j :: 0 <= j < i ==> !Window(w, j))
    && Packets(w, i, (|w| - i) / 188)
  }

  ghost predicate LosslessRun(s: ScanState, chunks: seq<TSChunk>, r: StreamRun) {
    Find(r.bytes, 0).At? ==>
      var i := Find(r.bytes, 0).idx;
      i <= |r.bytes| && Packets(r.bytes, i, (|r.bytes| - i) / 188) ==> Lossless(s, chunks, r.start, r.bytes, i)
  }

  lemma ContinuesLossless(s: ScanState, chunks: seq<TSChunk>, r: StreamRun, data: seq<byte>)
    requires Scanned(s, chunks, r.start, r.bytes) && LosslessRun(s, chunks, r)
    ensures var (t, more, ts) := FeedStep(s, r.start + |r.bytes|, data);
      LosslessRun(t, chunks + more, r.(bytes := r.bytes + data))
  {
    hide FeedStep, Lossless, Scanned, Window, Find, Packets;
    var w := r.bytes;
    if Find(w + data, 0).At? {
      var i := Find(w + data, 0).idx;
      FoundFits(w + data);
      if Packets(w + data, i, (|w + data| - i) / 188) {
        if Find(w, 0).At? {
          FindStays(w, data);
          FoundFits(w);
          ValidPrefix(w, data, i);
        }
        LosslessNext(s, chunks, r.start, w, data);
      }
    }
  }

  lemma StepIsLossless(s: ScanState, chunks: seq<TSChunk>, r: StreamRun, ev: WriteEvent)
    requires OnRun(s, chunks, r) && LosslessRun(s, chunks, r)
    ensures var (t, more, ts) := FeedStep(s, ev.offset, ev.data);
      LosslessRun(t, ChunksNext(r, chunks, ev, more), RunNext(r, ev))
  {
    hide FeedStep, Find, LosslessRun, HasWindow, Scanned, OnRun;
    WindowIsFound(ev.data);
    OnRunMeans(s, chunks, r);
    if LeavesRun(r, ev) {
      LeavesAlone(s, ev.offset, ev.data);
      assert chunks + [] == chunks;
    } else if Follows(r, ev) {
      ContinuesLossless(s, chunks, r, ev.data);
    } else {
      NewRunIsLossless(s, r, ev);
    }
  }

  lemma OnRunMeans(s: ScanState, chunks: seq<TSChunk>, r: StreamRun)
    requires OnRun(s, chunks, r)
    ensures Tracks(s, r) && s.expected == r.start + |r.bytes| && (s.haveExpected <==> r.bytes != [])
    ensures r.bytes != [] ==> Scanned(s, chunks, r.start, r.bytes)
    ensures (s.detected <==> HasWindow(r.bytes)) && (s.detected ==> s.haveExpected)
  {
    hide Find, HasWindow;
    WindowIsFound(r.bytes);
    NothingFound();
  }

  lemma NewRunIsLossless(s: ScanState, r: StreamRun, ev: WriteEvent)
    requires Tracks(s, r) && (s.haveExpected <==> r.bytes != []) && (s.detected ==> s.haveExpected)
    requires !LeavesRun(r, ev) && !Follows(r, ev) && (s.detected <==> HasWindow(r.bytes))
    ensures var (t, more, ts) := FeedStep(s, ev.offset, ev.data);
      LosslessRun(t, more, StreamRun(ev.data, ev.offset))
  {
    hide FeedStep, Find, LosslessRun, HasWindow, Scanned;
    WindowIsFound(ev.data);
    StartsScan(ev.offset);
    EmptyIsLossless(ResetAt(ev.offset), ev.offset);
    ContinuesLossless(ResetAt(ev.offset), [], StreamRun([], ev.offset), ev.data);
    if s.detected {
      NewSegmentStartsAfresh(s, ev.offset, ev.data);
    } else {
      UnexpectedWriteResets(s, ev.offset, ev.data);
    }
    var more := FeedStep(s, ev.offset, ev.data).1;
    assert [] + more == more && [] + ev.data == ev.data;
  }

  lemma {:induction false} RunsAreLossless(evs: seq<WriteEvent>)
    ensures LosslessRun(ScanAfter(evs), RunChunks(evs), RunOf(evs))
  {
    hide FeedStep, LosslessRun, OnRun;
    if evs == [] {
      EmptyIsLossless(FRESH, 0);
    } else {
      var init, ev := evs[..|evs| - 1], evs[|evs| - 1];
      RunsAreLossless(init);
      ScannerFollowsRun(init);
      StepIsLossless(ScanAfter(init), RunChunks(init), RunOf(init), ev);
    }
  }

  lemma EmptyIsLossless(s: ScanState, off: nat)
    ensures LosslessRun(s, [], StreamRun([], off))
  {
    NothingFound();
  }

  /** The broadcasts and captures are those of the chunks. */
  ghost predicate AreOf(ps: seq<seq<byte>>, cs: seq<CaptureRange>, chunks: seq<TSChunk>) {
    && |ps| == |cs| == |chunks|
    && forall k :: 0 <= k < |chunks| ==>
        ps[k] == chunks[k].data && cs[k].start == chunks[k].start && cs[k].end == chunks[k].end
  }

  /** The last broadcasts and captures are the current run's chunks. */
  ghost predicate EndsWith(ps: seq<seq<byte>>, cs: seq<CaptureRange>, chunks: seq<TSChunk>) {
    && |ps| == |cs| >= |chunks|
    && AreOf(ps[|ps| - |chunks|..], cs[|cs| - |chunks|..], chunks)
  }

  lemma EndsWithMore(ps: seq<seq<byte>>, cs: seq<CaptureRange>, chunks: seq<TSChunk>, seqNo: nat, more: seq<TSChunk>)
    requires EndsWith(ps, cs, chunks)
    ensures EndsWith(ps + PayloadsOf(more), cs + CapturesOf(seqNo, more), chunks + more)
    ensures EndsWith(ps + PayloadsOf(more), cs + CapturesOf(seqNo, more), more)
  {
  }

  lemma {:induction false} BroadcastsEndWithRun(evs: seq<WriteEvent>)
    ensures EndsWith(Broadcasts(evs), Captures(evs), RunChunks(evs))
  {
    hide FeedStep, EndsWith;
    if evs == [] {
      NothingEnds();
    } else {
      var init, ev := evs[..|evs| - 1], evs[|evs| - 1];
      assert init + [ev] == evs;
      BroadcastsEndWithRun(init);
      OneMoreSniffed(init, ev);
      hide Broadcasts, Captures, LeavesRun, Follows;
      EndsWithMore(Broadcasts(init), Captures(init), RunChunks(init), ev.seqNo,
                   FeedStep(ScanAfter(init), ev.offset, ev.data).1);
    }
  }

  lemma NothingEnds()
    ensures EndsWith([], [], [])
  {
  }

  lemma {:induction false} TilesAreCaptured(chunks: seq<TSChunk>, ps: seq<seq<byte>>, cs: seq<CaptureRange>,
                                           from: nat, to: nat)
    requires Tiles(chunks, from, to) && AreOf(ps, cs, chunks) && forall c :: c in chunks ==> c.data != []
    ensures JoinAll(ps) == Joined(chunks) && CapturesTile(cs, from, to)
    decreases |chunks|
  {
    if chunks != [] {
      assert ps[0] == chunks[0].data && chunks[0].end == from + |chunks[0].data|;
      TilesAreCaptured(chunks[1..], ps[1..], cs[1..], chunks[0].end, to);
    }
  }

  /** After any writes: if the run they end in is valid from its first window on, then the broadcasts from some
      one on, joined, are its longest whole-packet prefix from there, and the captures from that one on lie
      behind each other at exactly its addresses. */
  lemma ValidRunsAreBroadcastWhole(evs: seq<WriteEvent>, i: nat)
    requires ValidFrom(RunOf(evs).bytes, i)
    ensures exists m :: BroadcastFrom(evs, m, RunOf(evs), i)
  {
    var m := |Broadcasts(evs)| - |RunChunks(evs)|;
    BroadcastsEndWithRun(evs);
    RunIsBroadcast(evs, i);
    assert BroadcastFrom(evs, m, RunOf(evs), i);
  }

  ghost predicate BroadcastFrom(evs: seq<WriteEvent>, m: nat, r: StreamRun, i: nat) {
    m <= |Broadcasts(evs)| == |Captures(evs)| && BroadcastsOf(Broadcasts(evs)[m..], Captures(evs)[m..], r, i)
  }

  /** The pieces joined are the whole packets of the run from its i-th byte on, and lie at their addresses. */
  ghost predicate BroadcastsOf(ps: seq<seq<byte>>, cs: seq<CaptureRange>, r: StreamRun, i: nat) {
    && i <= |r.bytes|
    && var n := 188 * ((|r.bytes| - i) / 188);
       i + n <= |r.bytes| && JoinAll(ps) == r.bytes[i..i + n] && CapturesTile(cs, r.start + i, r.start + i + n)
  }

  lemma LosslessMeans(s: ScanState, chunks: seq<TSChunk>, r: StreamRun, i: nat)
    requires i <= |r.bytes| && Lossless(s, chunks, r.start, r.bytes, i)
    ensures var n := 188 * ((|r.bytes| - i) / 188);
      && i + n <= |r.bytes|
      && Joined(chunks) == r.bytes[i..i + n] && Tiles(chunks, r.start + i, r.start + i + n)
  {
    hide Joined, Tiles;
    var n := 188 * ((|r.bytes| - i) / 188);
    assert r.bytes[i..][..n] == r.bytes[i..i + n];
  }

  lemma ItsBroadcasts(s: ScanState, chunks: seq<TSChunk>, r: StreamRun, i: nat,
                      ps: seq<seq<byte>>, cs: seq<CaptureRange>)
    requires i <= |r.bytes| && Lossless(s, chunks, r.start, r.bytes, i)
    requires AreOf(ps, cs, chunks) && forall c :: c in chunks ==> c.data != []
    ensures BroadcastsOf(ps, cs, r, i)
  {
    hide JoinAll, CapturesTile, Joined, Tiles, Lossless, AreOf;
    var n := 188 * ((|r.bytes| - i) / 188);
    LosslessMeans(s, chunks, r, i);
    TilesAreCaptured(chunks, ps, cs, r.start + i, r.start + i + n);
  }

  lemma ValidRunIsLossless(evs: seq<WriteEvent>, i: nat)
    requires ValidFrom(RunOf(evs).bytes, i)
    ensures i <= |RunOf(evs).bytes| && Lossless(ScanAfter(evs), RunChunks(evs), RunOf(evs).start, RunOf(evs).bytes, i)
  {
    hide Lossless, Window, Find, RunOf, ScanAfter, RunChunks, Packets;
    FindUnique(RunOf(evs).bytes, i);
    RunsAreLossless(evs);
  }

  lemma RunIsBroadcast(evs: seq<WriteEvent>, i: nat)
    requires ValidFrom(RunOf(evs).bytes, i)
    requires EndsWith(Broadcasts(evs), Captures(evs), RunChunks(evs))
    ensures BroadcastFrom(evs, |Broadcasts(evs)| - |RunChunks(evs)|, RunOf(evs), i)
  {
    hide Broadcasts, Captures, RunOf, RunChunks, ScanAfter, ValidFrom, Lossless, BroadcastsOf, AreOf;
    var r, chunks := RunOf(evs), RunChunks(evs);
    ValidRunIsLossless(evs, i);
    RunChunksNotEmpty(evs);
    var m := |Broadcasts(evs)| - |chunks|;
    ItsBroadcasts(ScanAfter(evs), chunks, r, i, Broadcasts(evs)[m..], Captures(evs)[m..]);
  }

  lemma {:induction false} RunChunksNotEmpty(evs: seq<WriteEvent>)
    ensures forall c :: c in RunChunks(evs) ==> c.data != []
  {
    hide FeedStep;
    if evs != [] {
      var init, ev := evs[..|evs| - 1], evs[|evs| - 1];
      RunChunksNotEmpty(init);
      ChunksNotEmpty(ScanAfter(init), ev.offset, ev.data);
    }
  }

  // ---------- One stream on a fresh sniffer ----------

  /** Each write goes on where the one before it ended, from off on. */
  ghost predicate Contiguous(evs: seq<WriteEvent>, off: nat) {
    evs == [] ||
    (&& Contiguous(evs[..|evs| - 1], off)
     && evs[|evs| - 1].offset == off + |Stream(evs[..|evs| - 1])|)
  }

  ghost function Stream(evs: seq<WriteEvent>): seq<byte> {
    if evs == [] then [] else Stream(evs[..|evs| - 1]) + evs[|evs| - 1].data
  }

  lemma {:induction false} ContiguousIsOneRun(evs: seq<WriteEvent>, off: nat)
    requires Contiguous(evs, off)
    ensures Stream(evs) != [] ==> RunOf(evs) == StreamRun(Stream(evs), off)
    ensures Stream(evs) == [] ==> RunOf(evs) == StreamRun([], 0)
    ensures |RunChunks(evs)| == |Broadcasts(evs)|
  {
    hide FeedStep, HasWindow, OnRun;
    if evs != [] {
      var init, ev := evs[..|evs| - 1], evs[|evs| - 1];
      assert init + [ev] == evs;
      ContiguousIsOneRun(init, off);
      OneMoreSniffed(init, ev);
      NoWindowInNothing();
      if Stream(init) == [] {
        NothingYet(init);
        assert [] + ev.data == ev.data;
      }
    }
  }

  lemma NoWindowInNothing()
    ensures !HasWindow([])
  {
    NothingFound();
    WindowIsFound([]);
  }

  lemma NothingYet(evs: seq<WriteEvent>)
    requires RunOf(evs).bytes == []
    ensures RunChunks(evs) == []
  {
    ScannerFollowsRun(evs);
  }

  /** However a stream that is valid from its first window on is split into contiguous writes to a fresh
      sniffer, the broadcasts joined are its longest whole-packet prefix from there, and the captures lie
      behind each other at exactly its addresses. */
  lemma StreamIsBroadcastWhole(evs: seq<WriteEvent>, off: nat, i: nat)
    requires Contiguous(evs, off) && ValidFrom(Stream(evs), i)
    ensures BroadcastFrom(evs, 0, StreamRun(Stream(evs), off), i)
  {
    ContiguousIsOneRun(evs, off);
    PacketsFit(Stream(evs), i, 10);
    BroadcastsEndWithRun(evs);
    RunIsBroadcast(evs, i);
  }
}
