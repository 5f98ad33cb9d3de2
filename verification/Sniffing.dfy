/** sniffer.go: the FIFO that runs every dispatched write through the scanner, broadcasts what it emits and
    numbers what it captured. */
module Sniffing {
  import opened Disk
  import opened Ring
  import opened Types
  import opened Scanner
  import opened ScanRuns
  import H = Hub

  ghost function CapturesOf(seqNo: nat, chunks: seq<TSChunk>): seq<CaptureRange> {
    seq(|chunks|, i requires 0 <= i < |chunks| => CaptureRange(seqNo, chunks[i].start, chunks[i].end))
  }

  ghost function PayloadsOf(chunks: seq<TSChunk>): seq<seq<byte>> {
    seq(|chunks|, i requires 0 <= i < |chunks| => chunks[i].data)
  }

  /** The scanner, the observed writes and the broadcasts after a list of writes. */
  datatype Sniffed = Sniffed(scan: ScanState, out: seq<ObservedWrite>, payloads: seq<seq<byte>>)

  ghost function SniffOne(s: Sniffed, ev: WriteEvent): Sniffed {
    var (t, chunks, ts) := FeedStep(s.scan, ev.offset, ev.data);
    Sniffed(t, s.out + [ObservedWrite(ev, ts, CapturesOf(ev.seqNo, chunks))], s.payloads + PayloadsOf(chunks))
  }

  ghost function SniffAll(s: Sniffed, evs: seq<WriteEvent>): Sniffed {
    if evs == [] then s else SniffOne(SniffAll(s, evs[..|evs| - 1]), evs[|evs| - 1])
  }

  /** The scanner after a list of writes. */
  ghost function ScanAfter(evs: seq<WriteEvent>): ScanState {
    SniffAll(Sniffed(FRESH, [], []), evs).scan
  }

  /** One more chunk broadcast and captured. */
  lemma OneMorePayload(queue0: seq<seq<byte>>, payloads: seq<seq<byte>>, chunks: seq<TSChunk>, i: nat, depth: nat)
    requires i < |chunks| && depth > 0
    ensures LastN(LastN(queue0 + (payloads + PayloadsOf(chunks[..i])), depth) + [chunks[i].data], depth)
      == LastN(queue0 + (payloads + PayloadsOf(chunks[..i + 1])), depth)
  {
    var sent := queue0 + (payloads + PayloadsOf(chunks[..i]));
    LastNPush(sent, depth, chunks[i].data);
    assert PayloadsOf(chunks[..i + 1]) == PayloadsOf(chunks[..i]) + [chunks[i].data];
    assert sent + [chunks[i].data] == queue0 + (payloads + PayloadsOf(chunks[..i + 1]));
  }

  lemma OneMoreCapture(seqNo: nat, chunks: seq<TSChunk>, i: nat)
    requires i < |chunks|
    ensures CapturesOf(seqNo, chunks[..i + 1])
      == CapturesOf(seqNo, chunks[..i]) + [CaptureRange(seqNo, chunks[i].start, chunks[i].end)]
  {
  }

  lemma NoneYet(seqNo: nat)
    ensures CapturesOf(seqNo, []) == [] && PayloadsOf([]) == []
  {
  }

  class Sniffer {
    const scanner: TSScanner
    const hub: H.Hub
    var out: seq<ObservedWrite>

    constructor (hub: H.Hub)
      ensures this.hub == hub && fresh(scanner) && scanner.State() == FRESH && out == []
    {
      this.hub := hub;
      scanner := new TSScanner();
      out := [];
    }

    /** One write: its chunks are broadcast in order, and it leaves with its flag and captures. */
    method Sniff(ev: WriteEvent, ghost before: Sniffed, ghost queue0: seq<seq<byte>>)
      requires hub.Valid()
      requires before.scan == scanner.State() && before.out == out
      requires hub.queue == LastN(queue0 + before.payloads, hub.queueDepth)
      modifies this`out, scanner, hub`queue
      ensures hub.Valid()
      ensures var after := SniffOne(before, ev);
        && scanner.State() == after.scan && out == after.out
        && hub.queue == LastN(queue0 + after.payloads, hub.queueDepth)
    {
      hide FeedStep, LastN, PayloadsOf, CapturesOf;
      NoneYet(ev.seqNo);
      var chunks, isMPEGTS := scanner.Feed(ev.offset, ev.data);
      ChunksNotEmpty(before.scan, ev.offset, ev.data);
      var captures: seq<CaptureRange> := [];
      assert chunks[..0] == [] && before.payloads + [] == before.payloads;
      for i := 0 to |chunks|
        invariant hub.Valid() && out == before.out
        invariant scanner.State() == FeedStep(before.scan, ev.offset, ev.data).0
        invariant captures == CapturesOf(ev.seqNo, chunks[..i])
        invariant hub.queue == LastN(queue0 + (before.payloads + PayloadsOf(chunks[..i])), hub.queueDepth)
      {
        var chunk := chunks[i];
        hub.Broadcast(chunk.data);
        OneMorePayload(queue0, before.payloads, chunks, i, hub.queueDepth);
        OneMoreCapture(ev.seqNo, chunks, i);
        captures := captures + [CaptureRange(ev.seqNo, chunk.start, chunk.end)];
      }
      assert chunks[..|chunks|] == chunks;
      out := out + [ObservedWrite(ev, isMPEGTS, captures)];
    }

    /** The loop over the input channel. */
    method Run(events: seq<WriteEvent>)
      requires hub.Valid()
      modifies this`out, scanner, hub`queue
      ensures hub.Valid()
      ensures var all := SniffAll(Sniffed(old(scanner.State()), old(out), []), events);
        && scanner.State() == all.scan && out == all.out
        && hub.queue == LastN(old(hub.queue) + all.payloads, hub.queueDepth)
    {
      hide SniffOne;
      ghost var start := Sniffed(scanner.State(), out, []);
      ghost var queue0 := hub.queue;
      assert queue0 + [] == queue0;
      for i := 0 to |events|
        invariant hub.Valid()
        invariant var all := SniffAll(start, events[..i]);
          && scanner.State() == all.scan && out == all.out
          && hub.queue == LastN(queue0 + all.payloads, hub.queueDepth)
      {
        assert events[..i + 1][..i] == events[..i];
        Sniff(events[i], SniffAll(start, events[..i]), queue0);
      }
      assert events[..|events|] == events;
    }
  }

  /** No chunk is empty, so Broadcast never ignores one. */
  lemma {:induction false} EmittedNotEmpty(data: seq<byte>, start: nat, c: TSChunk)
    requires c in EmitAll(data, start).chunks
    ensures c.data != []
  {
    hide EmitAll, Faithful;
    EmitAllOK(data, start);
    FaithfulNotEmpty(c, data, start);
  }

  lemma FaithfulNotEmpty(c: TSChunk, data: seq<byte>, start: nat)
    requires Faithful(c, data, start)
    ensures c.data != []
  {
  }

  lemma ChunksNotEmpty(s: ScanState, off: nat, data: seq<byte>)
    ensures forall c :: c in FeedStep(s, off, data).1 ==> c.data != []
  {
    hide EmitAll, Find;
    forall c | c in FeedStep(s, off, data).1 ensures c.data != [] {
      if s.detected && off == s.expected {
        EmittedNotEmpty(s.buffer + data, s.bufferStart, c);
      } else if s.detected {
        FoundFits(data);
        EmittedNotEmpty(data[Find(data, 0).idx..], off + Find(data, 0).idx, c);
      } else {
        var s0 := if !s.haveExpected || off != s.expected then ResetAt(off) else s;
        FoundFits(s0.buffer + data);
        var i := Find(s0.buffer + data, 0).idx;
        EmittedNotEmpty((s0.buffer + data)[i..], s0.bufferStart + i, c);
      }
    }
  }

  // ---------- What comes out ----------

  /** The observed writes are the writes, in order; only their flags and captures are new. */
  lemma {:induction false} SniffedInOrder(s: Sniffed, evs: seq<WriteEvent>)
    ensures |SniffAll(s, evs).out| == |s.out| + |evs|
    ensures forall i :: 0 <= i < |evs| ==>
      var ow := SniffAll(s, evs).out[|s.out| + i];
      && ow.event == evs[i]
      && forall c :: c in ow.captures ==> c.seqNo == evs[i].seqNo
  {
    hide SniffOne;
    if evs != [] {
      var init, n := evs[..|evs| - 1], |evs| - 1;
      SniffedInOrder(s, init);
      var before, after := SniffAll(s, init), SniffAll(s, evs);
      SniffOneOut(before, evs[n]);
      assert forall i :: 0 <= i < n ==> after.out[|s.out| + i] == before.out[|s.out| + i] && evs[i] == init[i];
    }
  }

  lemma SniffOneOut(s: Sniffed, ev: WriteEvent)
    ensures var out := SniffOne(s, ev).out;
      && |out| == |s.out| + 1 && s.out <= out
      && out[|s.out|].event == ev
      && forall c :: c in out[|s.out|].captures ==> c.seqNo == ev.seqNo
  {
    hide FeedStep;
  }

  /** One of the writes put byte b at x. */
  ghost predicate WroteByte(evs: seq<WriteEvent>, x: int, b: byte) {
    exists i :: 0 <= i < |evs| && Within(evs[i].offset, |evs[i].data|, x) && evs[i].data[x - evs[i].offset] == b
  }

  ghost function RunAfter(evs: seq<WriteEvent>): StreamRun {
    if evs == [] then StreamRun([], 0)
    else
      var init, ev := evs[..|evs| - 1], evs[|evs| - 1];
      NextRun(SniffAll(Sniffed(FRESH, [], []), init).scan, RunAfter(init), ev.offset, ev.data)
  }

  ghost predicate RunWritten(run: StreamRun, evs: seq<WriteEvent>) {
    forall k :: 0 <= k < |run.bytes| ==> WroteByte(evs, run.start + k, run.bytes[k])
  }

  lemma WroteMore(evs: seq<WriteEvent>, ev: WriteEvent, x: int, b: byte)
    ensures WroteByte(evs, x, b) ==> WroteByte(evs + [ev], x, b)
    ensures Within(ev.offset, |ev.data|, x) && ev.data[x - ev.offset] == b ==> WroteByte(evs + [ev], x, b)
  {
    if i :| 0 <= i < |evs| && Within(evs[i].offset, |evs[i].data|, x) && evs[i].data[x - evs[i].offset] == b {
      assert (evs + [ev])[i] == evs[i];
    }
    assert (evs + [ev])[|evs|] == ev;
  }

  lemma NextRunWritten(s: ScanState, run: StreamRun, evs: seq<WriteEvent>, ev: WriteEvent)
    requires Tracks(s, run) && RunWritten(run, evs)
    ensures RunWritten(NextRun(s, run, ev.offset, ev.data), evs + [ev])
  {
    hide Find, WroteByte;
    var next := NextRun(s, run, ev.offset, ev.data);
    forall k | 0 <= k < |next.bytes| ensures WroteByte(evs + [ev], next.start + k, next.bytes[k]) {
      WroteMore(evs, ev, next.start + k, next.bytes[k]);
    }
  }

  lemma {:induction false} ScannerOnItsRun(evs: seq<WriteEvent>)
    ensures Tracks(SniffAll(Sniffed(FRESH, [], []), evs).scan, RunAfter(evs)) && RunWritten(RunAfter(evs), evs)
  {
    if evs != [] {
      var init, ev := evs[..|evs| - 1], evs[|evs| - 1];
      assert evs == init + [ev];
      ScannerOnItsRun(init);
      var s := SniffAll(Sniffed(FRESH, [], []), init).scan;
      FeedTracks(s, RunAfter(init), ev.offset, ev.data);
      NextRunWritten(s, RunAfter(init), init, ev);
    }
  }

  /** A broadcast payload: 1 to 128 whole valid packets. */
  ghost predicate Payload(data: seq<byte>) {
    exists n :: 1 <= n <= 128 && |data| == 188 * n && Packets(data, 0, n)
  }

  /** A chunk emitted for the last of the writes: whole packets, and byte for byte what these writes put at
      the chunk's address. */
  ghost predicate Genuine(c: TSChunk, evs: seq<WriteEvent>) {
    && Payload(c.data) && c.end == c.start + |c.data|
    && forall x :: c.start <= x < c.end ==> GenuineAt(c, evs, x)
  }

  ghost predicate GenuineAt(c: TSChunk, evs: seq<WriteEvent>, x: int)
    requires 0 <= x - c.start < |c.data|
  {
    WroteByte(evs, x, c.data[x - c.start])
  }

  lemma FaithfulGenuine(c: TSChunk, run: StreamRun, evs: seq<WriteEvent>)
    requires Faithful(c, run.bytes, run.start) && RunWritten(run, evs)
    ensures Genuine(c, evs)
  {
    hide WroteByte;
    forall x | c.start <= x < c.end ensures GenuineAt(c, evs, x) {
      assert c.data[x - c.start] == run.bytes[x - run.start];
      assert WroteByte(evs, run.start + (x - run.start), run.bytes[x - run.start]);
    }
  }

  /** Whatever was written before, each chunk the scanner emits for a write is genuine: so a capture only
      covers bytes that this write or earlier ones wrote, and is numbered at least as high as them. */
  lemma ChunksGenuine(evs: seq<WriteEvent>, ev: WriteEvent)
    ensures var s := SniffAll(Sniffed(FRESH, [], []), evs).scan;
      forall c :: c in FeedStep(s, ev.offset, ev.data).1 ==> Genuine(c, evs + [ev])
  {
    hide FeedStep, Faithful, Genuine, NextRun;
    var s := SniffAll(Sniffed(FRESH, [], []), evs).scan;
    ScannerOnItsRun(evs);
    var run := NextRun(s, RunAfter(evs), ev.offset, ev.data);
    FeedTracks(s, RunAfter(evs), ev.offset, ev.data);
    NextRunWritten(s, RunAfter(evs), evs, ev);
    forall c | c in FeedStep(s, ev.offset, ev.data).1 ensures Genuine(c, evs + [ev]) {
      FaithfulGenuine(c, run, evs + [ev]);
    }
  }

  /** Every broadcast of every run is 1 to 128 whole valid packets. */
  lemma {:induction false} PayloadsArePackets(evs: seq<WriteEvent>)
    ensures forall p :: p in SniffAll(Sniffed(FRESH, [], []), evs).payloads ==> Payload(p)
  {
    hide FeedStep, Payload;
    if evs != [] {
      var init, ev := evs[..|evs| - 1], evs[|evs| - 1];
      PayloadsArePackets(init);
      ChunksGenuine(init, ev);
      var before := SniffAll(Sniffed(FRESH, [], []), init);
      var chunks := FeedStep(before.scan, ev.offset, ev.data).1;
      forall p | p in before.payloads + PayloadsOf(chunks) ensures Payload(p) {
        if p !in before.payloads {
          var i :| 0 <= i < |chunks| && PayloadsOf(chunks)[i] == p;
          assert chunks[i] in chunks && Genuine(chunks[i], init + [ev]);
        }
      }
    }
  }

  /** End to end: when the broadcasts are those of any list of sniffed writes, everything a client receives is
      1 to 128 whole valid packets, in broadcast order and never twice. */
  lemma ClientsReceivePackets(
    evs: seq<WriteEvent>, steps: seq<H.HubStep>, t: H.HubState, depths: H.Depths, c: nat, i: nat)
    requires depths.queue > 0 && depths.inbox > 0 && depths.out > 0
    requires H.HubReaches(H.InitHub(), steps, t, depths)
    requires t.log == SniffAll(Sniffed(FRESH, [], []), evs).payloads
    requires c in t.clients && i < |t.clients[c].delivered|
    ensures Payload(t.clients[c].delivered[i].data)
    ensures H.Increasing(t.clients[c].delivered) && H.Logged(t.clients[c].delivered, t.log)
  {
    H.ClientsSeeSubsequences(steps, t, depths);
    PayloadsArePackets(evs);
    assert t.log[t.clients[c].delivered[i].index] in t.log;
  }
}
