/** What the scanner does over whole runs of writes: every state it can reach, and the results that do
    not depend on how the host splits a contiguous stream into writes. */
module ScanRuns {
  import opened Disk
  import opened Scanner

  // ---------- Every reachable state ----------

  /** The run a scanner is in: the bytes written back to back that its buffer is the end of. */
  datatype StreamRun = StreamRun(bytes: seq<byte>, start: nat)

  ghost predicate IsSuffix(part: seq<byte>, whole: seq<byte>) {
    |part| <= |whole| && part == whole[|whole| - |part|..]
  }

  /** The buffer is the last bytes of the run, ends where the next write is expected, and is bounded. */
  ghost predicate Tracks(s: ScanState, run: StreamRun) {
    && s.bufferStart + |s.buffer| == s.expected == run.start + |run.bytes|
    && IsSuffix(s.buffer, run.bytes)
    && |s.buffer| <= 1879
  }

  /** The write goes on with the current run, or does not concern it. */
  ghost predicate Continues(s: ScanState, off: nat, data: seq<byte>) {
    data == [] || (off == s.expected && (s.detected || s.haveExpected)) || (s.detected && Find(data, 0).Missing?)
  }

  /** The run after a write: continued, replaced, or, for an unrelated write, left alone. */
  ghost function NextRun(s: ScanState, run: StreamRun, off: nat, data: seq<byte>): StreamRun {
    if data == [] then run
    else if s.detected then
      if off == s.expected then run.(bytes := run.bytes + data)
      else if Find(data, 0).At? then StreamRun(data, off)
      else run
    else if !s.haveExpected || off != s.expected then StreamRun(data, off)
    else run.(bytes := run.bytes + data)
  }

  /** A chunk is 1 to 128 whole valid packets, and is what was written at its physical address. */
  ghost predicate Faithful(c: TSChunk, bytes: seq<byte>, start: nat) {
    && start <= c.start <= c.end <= start + |bytes|
    && c.data == bytes[c.start - start..c.end - start]
    && exists n :: 1 <= n <= 128 && |c.data| == 188 * n && Packets(c.data, 0, n)
  }

  /** Chunks lie in order between two addresses, so no byte is in two of them. */
  ghost predicate InAddressOrder(chunks: seq<TSChunk>, from: nat, to: nat)
    decreases |chunks|
  {
    if chunks == [] then from <= to
    else from <= chunks[0].start <= chunks[0].end && InAddressOrder(chunks[1..], chunks[0].end, to)
  }

  lemma {:induction false} InAddressOrderWeaken(chunks: seq<TSChunk>, from: nat, from': nat, to: nat)
    requires InAddressOrder(chunks, from, to) && from' <= from
    ensures InAddressOrder(chunks, from', to)
    decreases |chunks|
  {
    if chunks != [] {
      InAddressOrderWeaken(chunks[1..], chunks[0].end, chunks[0].end, to);
    }
  }

  ghost predicate EmissionOK(e: Emitted, data: seq<byte>, start: nat) {
    && e.restStart + |e.rest| == start + |data|
    && IsSuffix(e.rest, data) && |e.rest| <= 1879
    && (forall c :: c in e.chunks ==> Faithful(c, data, start))
    && InAddressOrder(e.chunks, start, e.restStart)
  }

  /** What was emitted from the end of a buffer was emitted from the buffer. */
  lemma EmissionFromSuffix(e: Emitted, data: seq<byte>, d: nat, start: nat)
    requires d <= |data| && EmissionOK(e, data[d..], start + d)
    ensures EmissionOK(e, data, start)
  {
    InAddressOrderWeaken(e.chunks, start + d, start, e.restStart);
    forall c | c in e.chunks ensures Faithful(c, data, start) {
      assert Faithful(c, data[d..], start + d);
      assert data[d..][c.start - (start + d)..c.end - (start + d)] == data[c.start - start..c.end - start];
    }
  }

  lemma {:induction false} EmitAllOK(data: seq<byte>, start: nat)
    ensures EmissionOK(EmitAll(data, start), data, start)
    decreases |data|
  {
    if |data| >= 188 && !ValidTSPacket(data, 0) {
      if Find(data, 0).At? {
        var i := Find(data, 0).idx;
        EmitSkip(data, start);
        FoundFits(data);
        EmitAllOK(data[i..], start + i);
        EmissionFromSuffix(EmitAll(data[i..], start + i), data, i, start);
      }
    } else if |data| >= 188 {
      var n := 188 * ChunkPackets(data);
      EmitHead([], data, start);
      EmitAllOK(data[n..], start + n);
      EmitHeadOK(data, start);
    }
  }

  /** The chunk is as long as a chunk may be, or no whole valid packet follows it. */
  ghost predicate Full(c: TSChunk, data: seq<byte>, start: nat) {
    start <= c.end && (|c.data| == 188 * 128 || !ValidTSPacket(data, c.end - start))
  }

  lemma {:induction false} LeadingValidStops(data: seq<byte>, i: nat, n: nat)
    ensures var v := LeadingValid(data, i, n); v < n ==> !ValidTSPacket(data, i + 188 * v)
    decreases n
  {
    hide ValidTSPacket;
    if n > 0 && ValidTSPacket(data, i) {
      LeadingValidStops(data, i + 188, n - 1);
    }
  }

  lemma HeadIsFull(data: seq<byte>, start: nat)
    requires ValidTSPacket(data, 0)
    ensures var n := 188 * ChunkPackets(data);
      n <= |data| && Full(TSChunk(start, start + n, data[..n]), data, start)
  {
    EmitCons(data, start);
    hide EmitAll, LeadingValid;
    var most := if |data| / 188 > 128 then 128 else |data| / 188;
    LeadingValidStops(data, 0, most);
  }

  lemma FullInSuffix(c: TSChunk, data: seq<byte>, k: nat, start: nat)
    requires k <= |data| && Full(c, data[k..], start + k)
    ensures Full(c, data, start)
  {
    var n := c.end - start - k;
    assert ValidTSPacket(data[k..], n) <==> ValidTSPacket(data, k + n);
  }

  /** A run of valid packets is cut as late as a chunk's size allows. */
  lemma {:induction false} ChunksAreFull(data: seq<byte>, start: nat, c: TSChunk)
    requires c in EmitAll(data, start).chunks
    ensures Full(c, data, start)
    decreases |data|
  {
    hide EmitAll, Full, ValidTSPacket, ChunkPackets;
    EmitStop(data, start);
    if |data| >= 188 && !ValidTSPacket(data, 0) {
      var i := Find(data, 0).idx;
      EmitSkip(data, start);
      FoundFits(data);
      ChunksAreFull(data[i..], start + i, c);
      FullInSuffix(c, data, i, start);
    } else if |data| >= 188 {
      EmitCons(data, start);
      HeadIsFull(data, start);
      var n := 188 * ChunkPackets(data);
      if c in EmitAll(data[n..], start + n).chunks {
        ChunksAreFull(data[n..], start + n, c);
        FullInSuffix(c, data, n, start);
      }
    }
  }

  lemma EmitHeadOK(data: seq<byte>, start: nat)
    requires ValidTSPacket(data, 0)
    requires var n := 188 * ChunkPackets(data);
      n <= |data| && EmissionOK(EmitAll(data[n..], start + n), data[n..], start + n)
    ensures EmissionOK(EmitAll(data, start), data, start)
  {
    hide EmitAll, Faithful, ChunkPackets, ValidTSPacket, EmissionOK;
    EmitCons(data, start);
    var n := 188 * ChunkPackets(data);
    var more := EmitAll(data[n..], start + n);
    var head := TSChunk(start, start + n, data[..n]);
    HeadFaithful(data, start);
    EmissionCons(head, more, data, n, start);
  }

  lemma EmissionCons(head: TSChunk, more: Emitted, data: seq<byte>, n: nat, start: nat)
    requires n <= |data| && head.start == start && head.end == start + n && Faithful(head, data, start)
    requires EmissionOK(more, data[n..], start + n)
    ensures EmissionOK(Emitted([head] + more.chunks, more.rest, more.restStart), data, start)
  {
    hide Faithful, InAddressOrder, IsSuffix;
    EmissionFromSuffix(more, data, n, start);
    InAddressOrderCons(head, more.chunks, more.restStart);
    forall c | c in [head] + more.chunks ensures Faithful(c, data, start) {
      assert c == head || c in more.chunks;
    }
  }

  lemma InAddressOrderCons(c: TSChunk, chunks: seq<TSChunk>, to: nat)
    requires c.start <= c.end && InAddressOrder(chunks, c.end, to)
    ensures InAddressOrder([c] + chunks, c.start, to)
  {
    assert ([c] + chunks)[1..] == chunks;
  }

  lemma HeadFaithful(data: seq<byte>, start: nat)
    requires ValidTSPacket(data, 0)
    ensures var n := 188 * ChunkPackets(data);
      n <= |data| && Faithful(TSChunk(start, start + n, data[..n]), data, start)
  {
    var k := ChunkPackets(data);
    EmitHead([], data, start);
    LeadingValidIs(data, 0, if |data| / 188 > 128 then 128 else |data| / 188);
    PacketsAppend(data[..188 * k], data[188 * k..], 0, k);
    assert data == data[..188 * k] + data[188 * k..];
    assert |data[..188 * k]| == 188 * k && Packets(data[..188 * k], 0, k);
  }

  /** One write keeps the scanner on its run, and everything it emits is from that run, after what was
      emitted before. */
  lemma FeedTracks(s: ScanState, run: StreamRun, off: nat, data: seq<byte>)
    requires Tracks(s, run)
    ensures var (t, chunks, ts) := FeedStep(s, off, data);
      var run' := NextRun(s, run, off, data);
      && Tracks(t, run')
      && (forall c :: c in chunks ==> Faithful(c, run'.bytes, run'.start))
      && InAddressOrder(chunks, if Continues(s, off, data) then s.bufferStart else run'.start, t.bufferStart)
  {
    hide Find, Faithful, EmitAll;
    var run' := NextRun(s, run, off, data);
    if data != [] {
      if s.detected && off == s.expected {
        EmitRun(s.buffer + data, s.bufferStart, run');
      } else if s.detected {
        FoundFits(data);
        if Find(data, 0).At? {
          EmitTail(data, off, run', Find(data, 0).idx);
        }
      } else {
        hide EmissionOK, FeedStep;
        if !s.haveExpected || off != s.expected {
          UnexpectedWriteResets(s, off, data);
          CandidateTracks(ResetAt(off), StreamRun([], off), data);
          assert [] + data == data;
        } else {
          CandidateTracks(s, run, data);
        }
      }
    }
  }

  /** An undetected scanner that gets an unexpected write behaves like one just reset to it. */
  lemma UnexpectedWriteResets(s: ScanState, off: nat, data: seq<byte>)
    requires !s.detected && (!s.haveExpected || off != s.expected) && data != []
    ensures FeedStep(s, off, data) == FeedStep(ResetAt(off), off, data)
  {
  }

  lemma CandidateTracks(s: ScanState, run: StreamRun, data: seq<byte>)
    requires Tracks(s, run) && data != [] && !s.detected && s.haveExpected
    ensures var (t, chunks, ts) := FeedStep(s, s.expected, data);
      var run' := run.(bytes := run.bytes + data);
      && Tracks(t, run')
      && (forall c :: c in chunks ==> Faithful(c, run'.bytes, run'.start))
      && InAddressOrder(chunks, s.bufferStart, t.bufferStart)
  {
    hide Find, Faithful, EmitAll, InAddressOrder, Tail, IsSuffix;
    var run' := run.(bytes := run.bytes + data);
    var all := s.buffer + data;
    FoundFits(all);
    SuffixAppend(s.buffer, run.bytes, data);
    if Find(all, 0).At? {
      EmitTail(all, s.bufferStart, run', Find(all, 0).idx);
    } else {
      TailIsSuffix(all, run'.bytes);
      NoChunks(s.bufferStart, s.bufferStart + |all| - |Tail(all)|);
    }
  }

  lemma SuffixAppend(part: seq<byte>, whole: seq<byte>, d: seq<byte>)
    ensures IsSuffix(part, whole) ==> IsSuffix(part + d, whole + d)
  {
  }

  lemma TailIsSuffix(part: seq<byte>, whole: seq<byte>)
    requires IsSuffix(part, whole)
    ensures IsSuffix(Tail(part), whole) && |Tail(part)| <= 1879 && |Tail(part)| <= |part|
  {
  }

  lemma NoChunks(from: nat, to: nat)
    requires from <= to
    ensures InAddressOrder([], from, to)
  {
  }

  lemma EmitRun(data: seq<byte>, start: nat, run: StreamRun)
    requires IsSuffix(data, run.bytes) && start + |data| == run.start + |run.bytes|
    ensures var e := EmitAll(data, start);
      && EmissionOK(e, data, start)
      && IsSuffix(e.rest, run.bytes)
      && forall c :: c in e.chunks ==> Faithful(c, run.bytes, run.start)
  {
    hide EmitAll, Faithful, InAddressOrder;
    var e := EmitAll(data, start);
    var d := |run.bytes| - |data|;
    assert data == run.bytes[d..] && start == run.start + d;
    hide IsSuffix;
    EmitAllOK(data, start);
    EmissionFromSuffix(e, run.bytes, d, run.start);
  }

  lemma EmitTail(all: seq<byte>, start: nat, run: StreamRun, i: nat)
    requires i <= |all| && IsSuffix(all, run.bytes) && start + |all| == run.start + |run.bytes|
    ensures var e := EmitAll(all[i..], start + i);
      && e.restStart + |e.rest| == start + |all| && |e.rest| <= 1879
      && IsSuffix(e.rest, run.bytes)
      && InAddressOrder(e.chunks, start, e.restStart)
      && forall c :: c in e.chunks ==> Faithful(c, run.bytes, run.start)
  {
    hide EmitAll, Faithful, InAddressOrder;
    EmitRun(all[i..], start + i, run);
    InAddressOrderWeaken(EmitAll(all[i..], start + i).chunks, start + i, start, EmitAll(all[i..], start + i).restStart);
  }

  // ---------- Independence of how a stream is split ----------

  ghost function Concat(pieces: seq<seq<byte>>): seq<byte> {
    if pieces == [] then [] else Concat(pieces[..|pieces| - 1]) + pieces[|pieces| - 1]
  }

  /** The scanner after contiguous writes that start at off, and all chunks emitted on the way. */
  ghost function FeedAll(off: nat, pieces: seq<seq<byte>>): (ScanState, seq<TSChunk>) {
    if pieces == [] then (ResetAt(off), [])
    else
      var init, last := pieces[..|pieces| - 1], pieces[|pieces| - 1];
      var (s, chunks) := FeedAll(off, init);
      var (t, more, ts) := FeedStep(s, off + |Concat(init)|, last);
      (t, chunks + more)
  }

  /** Positions that hold no window can be cut off before the search. */
  lemma FindAfterCut(w: seq<byte>, k: nat)
    requires k <= |w| && forall j :: 0 <= j < k ==> !Window(w, j)
    ensures Find(w[k..], 0) == match Find(w, 0) case Missing => Missing case At(i) => At(if i >= k then i - k else 0)
    ensures Find(w, 0).At? ==> Find(w, 0).idx >= k
  {
    FindIsLeftmost(w, 0);
    FindIsLeftmost(w[k..], 0);
    if Find(w, 0).At? {
      var i := Find(w, 0).idx;
      PacketsShift(w, k, i - k, 10);
      forall j | 0 <= j < i - k ensures !Window(w[k..], j) {
        PacketsShift(w, k, j, 10);
        assert !Window(w, k + j);
      }
      FindUnique(w[k..], i - k);
    } else {
      forall j: nat ensures !Window(w[k..], j) {
        PacketsShift(w, k, j, 10);
        assert !Window(w, k + j);
      }
    }
  }

  /** keepTail drops exactly start positions already ruled out: nothing before the last 1879 bytes can
      become a window when more data arrives. */
  lemma TailDropsRuledOut(w: seq<byte>, d: seq<byte>, j: nat)
    requires Find(w, 0).Missing? && j + |Tail(w)| < |w|
    ensures !Window(w + d, j)
  {
    FindIsLeftmost(w, 0);
    PacketsAppend(w, d, j, 10);
    assert !Window(w, j);
  }

  /** A stream's first window stays where it is when more data arrives. */
  lemma FindStays(w: seq<byte>, d: seq<byte>)
    requires Find(w, 0).At?
    ensures Find(w + d, 0) == Find(w, 0)
  {
    var i := Find(w, 0).idx;
    FindIsLeftmost(w, 0);
    PacketsFit(w, i, 10);
    PacketsAppend(w, d, i, 10);
    forall j | 0 <= j < i ensures !Window(w + d, j) {
      PacketsAppend(w, d, j, 10);
      assert !Window(w, j);
    }
    FindUnique(w + d, i);
  }

  /** The state after any splitting of w into contiguous writes from off on. */
  ghost predicate Scanned(s: ScanState, chunks: seq<TSChunk>, off: nat, w: seq<byte>) {
    && s.haveExpected && s.expected == off + |w|
    && (s.detected <==> Find(w, 0).At?)
    && (!s.detected ==> chunks == [] && s.buffer == Tail(w) && s.bufferStart == off + |w| - |Tail(w)|)
    && (s.detected ==> chunks != [] && chunks[0].start == off + Find(w, 0).idx)
  }

  /** What an undetected scanner's buffer becomes is the end of the stream from k on, and the search in
      it finds the stream's first window. */
  lemma CandidateSearch(w: seq<byte>, d: seq<byte>)
    requires Find(w, 0).Missing?
    ensures var k := |w| - |Tail(w)|;
      var all := Tail(w) + d;
      && all == (w + d)[k..] && Tail(all) == Tail(w + d)
      && (Find(w + d, 0).Missing? <==> Find(all, 0).Missing?)
      && (Find(w + d, 0).At? ==>
            && k <= Find(w + d, 0).idx <= |w + d|
            && Find(all, 0) == At(Find(w + d, 0).idx - k)
            && all[Find(all, 0).idx..] == (w + d)[Find(w + d, 0).idx..]
            && ValidTSPacket((w + d)[Find(w + d, 0).idx..], 0))
  {
    hide Find, Window;
    var k := |w| - |Tail(w)|;
    forall j | 0 <= j < k ensures !Window(w + d, j) {
      TailDropsRuledOut(w, d, j);
    }
    FindAfterCut(w + d, k);
    FoundFits(w + d);
  }

  lemma ScanCandidate(s: ScanState, off: nat, w: seq<byte>, d: seq<byte>)
    requires Scanned(s, [], off, w) && !s.detected && d != []
    ensures var (t, more, ts) := FeedStep(s, off + |w|, d);
      && t.haveExpected && t.expected == off + |w + d|
      && (t.detected <==> Find(w + d, 0).At?) && (ts <==> t.detected)
      && (!t.detected ==> more == [] && t.buffer == Tail(w + d) && t.bufferStart == off + |w + d| - |Tail(w + d)|)
      && (t.detected ==>
            var i := Find(w + d, 0).idx;
            && i <= |w + d|
            && Emitted(more, t.buffer, t.bufferStart) == EmitAll((w + d)[i..], off + i)
            && more != [] && more[0].start == off + i)
  {
    hide Find, EmitAll, Window, ValidTSPacket;
    CandidateSearch(w, d);
    if Find(w + d, 0).At? {
      var i := Find(w + d, 0).idx;
      FirstChunk((w + d)[i..], off + i);
    }
  }

  lemma FirstChunk(data: seq<byte>, start: nat)
    requires ValidTSPacket(data, 0)
    ensures EmitAll(data, start).chunks != [] && EmitAll(data, start).chunks[0].start == start
  {
    EmitHead([], data, start);
  }

  lemma ScanNext(s: ScanState, chunks: seq<TSChunk>, off: nat, w: seq<byte>, d: seq<byte>)
    requires Scanned(s, chunks, off, w)
    ensures var (t, more, ts) := FeedStep(s, off + |w|, d);
      Scanned(t, chunks + more, off, w + d) && ts == t.detected
  {
    hide Find, EmitAll;
    if d == [] {
      assert w + d == w && chunks + [] == chunks;
    } else if s.detected {
      FindStays(w, d);
    } else {
      hide FeedStep;
      ScanCandidate(s, off, w, d);
    }
  }

  /** However a stream is split into contiguous writes, MPEG-TS is reported from the first write on
      that completes a ten-packet window of the whole stream, and emission starts at that window. */
  lemma {:induction false} DetectionIgnoresSplits(off: nat, pieces: seq<seq<byte>>)
    ensures Scanned(FeedAll(off, pieces).0, FeedAll(off, pieces).1, off, Concat(pieces))
    ensures pieces != [] ==>
      var init := pieces[..|pieces| - 1];
      FeedStep(FeedAll(off, init).0, off + |Concat(init)|, pieces[|pieces| - 1]).2 == Find(Concat(pieces), 0).At?
  {
    hide Find, FeedStep, EmitAll;
    if pieces == [] {
      NothingFound();
    } else {
      var init, last := pieces[..|pieces| - 1], pieces[|pieces| - 1];
      DetectionIgnoresSplits(off, init);
      var (s, chunks) := FeedAll(off, init);
      ScanNext(s, chunks, off, Concat(init), last);
    }
  }

  lemma NothingFound()
    ensures Find([], 0) == Missing
  {
  }

  // ---------- Lossless emission ----------

  ghost function Joined(chunks: seq<TSChunk>): seq<byte> {
    if chunks == [] then [] else chunks[0].data + Joined(chunks[1..])
  }

  /** The chunks follow each other without a gap from one address to another. */
  ghost predicate Tiles(chunks: seq<TSChunk>, from: nat, to: nat)
    decreases |chunks|
  {
    if chunks == [] then from == to
    else
      && chunks[0].start == from && chunks[0].end == from + |chunks[0].data|
      && Tiles(chunks[1..], chunks[0].end, to)
  }

  lemma {:induction false} TilesConcat(a: seq<TSChunk>, b: seq<TSChunk>, from: nat, mid: nat, to: nat)
    requires Tiles(a, from, mid) && Tiles(b, mid, to)
    ensures Tiles(a + b, from, to) && Joined(a + b) == Joined(a) + Joined(b)
    decreases |a|
  {
    if a == [] {
      assert a + b == b;
    } else {
      assert (a + b)[1..] == a[1..] + b;
      TilesConcat(a[1..], b, a[0].end, mid, to);
    }
  }

  /** e emits the longest whole-packet prefix of data, once, in place. */
  ghost predicate EmitsAll(e: Emitted, data: seq<byte>, start: nat) {
    var n := 188 * (|data| / 188);
    && Joined(e.chunks) == data[..n] && Tiles(e.chunks, start, start + n)
    && e.rest == data[n..] && e.restStart == start + n
  }

  lemma {:induction false} EmitValid(data: seq<byte>, start: nat)
    requires Packets(data, 0, |data| / 188)
    ensures EmitsAll(EmitAll(data, start), data, start)
    decreases |data|
  {
    hide EmitAll, ValidTSPacket;
    if |data| < 188 {
      EmitStop(data, start);
    } else {
      var whole := |data| / 188;
      assert PacketAt(data, 0, 0);
      var m := if whole > 128 then 128 else whole;
      PacketsSplit(data, 0, whole, m);
      LeadingValidIs(data, 0, m);
      var n := 188 * m;
      EmitHead([], data, start);
      PacketsShift(data, n, 0, whole - m);
      assert |data[n..]| / 188 == whole - m;
      EmitValid(data[n..], start + n);
      var e, more := EmitAll(data, start), EmitAll(data[n..], start + n);
      var head := TSChunk(start, start + n, data[..n]);
      assert [] + e.chunks == e.chunks && [] + [head] == [head];
      assert e == Emitted([head] + more.chunks, more.rest, more.restStart);
      EmitsAllCons(more, data, m, start);
    }
  }

  lemma EmitsAllCons(more: Emitted, data: seq<byte>, m: nat, start: nat)
    requires 188 * m <= |data| && EmitsAll(more, data[188 * m..], start + 188 * m)
    ensures var head := TSChunk(start, start + 188 * m, data[..188 * m]);
      EmitsAll(Emitted([head] + more.chunks, more.rest, more.restStart), data, start)
  {
    var n, whole := 188 * m, |data| / 188;
    var head := TSChunk(start, start + n, data[..n]);
    assert ([head] + more.chunks)[1..] == more.chunks;
    assert |data[n..]| / 188 == whole - m;
    assert data[..n] + data[n..][..188 * (whole - m)] == data[..188 * whole];
  }

  /** After detection at i in a stream that is valid from there on. */
  ghost predicate Lossless(s: ScanState, chunks: seq<TSChunk>, off: nat, w: seq<byte>, i: nat)
    requires i <= |w|
  {
    EmitsAll(Emitted(chunks, s.buffer, s.bufferStart), w[i..], off + i)
  }

  /** More of a valid stream behind whole packets already emitted. */
  lemma EmitMore(chunks: seq<TSChunk>, a: seq<byte>, d: seq<byte>, start: nat)
    requires Packets(a + d, 0, |a + d| / 188)
    requires var n := 188 * (|a| / 188); Joined(chunks) == a[..n] && Tiles(chunks, start, start + n)
    ensures var n := 188 * (|a| / 188); EmitsAll(Then(chunks, EmitAll(a[n..] + d, start + n)), a + d, start)
  {
    hide EmitAll, Packets;
    var m, whole := |a| / 188, |a + d| / 188;
    var n := 188 * m;
    var rest := a[n..] + d;
    assert rest == (a + d)[n..];
    PacketsSplit(a + d, 0, whole, m);
    PacketsShift(a + d, n, 0, whole - m);
    assert |rest| / 188 == whole - m;
    EmitValid(rest, start + n);
    var e := EmitAll(rest, start + n);
    TilesConcat(chunks, e.chunks, start, start + n, start + 188 * whole);
    assert a[..n] + rest[..188 * (whole - m)] == (a + d)[..188 * whole];
  }

  lemma LosslessNext(s: ScanState, chunks: seq<TSChunk>, off: nat, w: seq<byte>, d: seq<byte>)
    requires Scanned(s, chunks, off, w) && Find(w + d, 0).At?
    requires var i := Find(w + d, 0).idx; i <= |w + d| && Packets(w + d, i, (|w + d| - i) / 188)
    requires Find(w, 0).At? ==> Find(w, 0).idx <= |w| && Lossless(s, chunks, off, w, Find(w, 0).idx)
    ensures var (t, more, ts) := FeedStep(s, off + |w|, d);
      Lossless(t, chunks + more, off, w + d, Find(w + d, 0).idx)
  {
    hide Find, EmitAll, Packets, Joined, Tiles;
    var i := Find(w + d, 0).idx;
    PacketsShift(w + d, i, 0, (|w + d| - i) / 188);
    if d == [] {
      assert w + d == w && chunks + [] == chunks;
    } else if s.detected {
      FindStays(w, d);
      assert (w + d)[i..] == w[i..] + d;
      EmitMore(chunks, w[i..], d, off + i);
    } else {
      hide FeedStep;
      ScanCandidate(s, off, w, d);
      EmitValid((w + d)[i..], off + i);
      assert forall more: seq<TSChunk> :: [] + more == more;
    }
  }

  /** If the stream is valid from its first window on, then for every splitting into contiguous writes
      the chunks are, byte for byte and in place, the longest whole-packet prefix from that window, and
      fewer than 188 bytes are left over. */
  lemma {:induction false} EmissionLossless(off: nat, pieces: seq<seq<byte>>)
    requires var w := Concat(pieces);
      Find(w, 0).At? && Find(w, 0).idx <= |w| && Packets(w, Find(w, 0).idx, (|w| - Find(w, 0).idx) / 188)
    ensures var w := Concat(pieces);
      var (s, chunks) := FeedAll(off, pieces);
      Lossless(s, chunks, off, w, Find(w, 0).idx) && |s.buffer| < 188
  {
    hide Find, FeedStep, EmitAll, Packets, Scanned, Lossless;
    if pieces == [] {
      NothingFound();
      assert false;
    } else {
      var init, last := pieces[..|pieces| - 1], pieces[|pieces| - 1];
      var w := Concat(init);
      var (s, chunks) := FeedAll(off, init);
      DetectionIgnoresSplits(off, init);
      if Find(w, 0).At? {
        var i := Find(w, 0).idx;
        FindStays(w, last);
        FoundFits(w);
        ValidPrefix(w, last, i);
        EmissionLossless(off, init);
      }
      LosslessNext(s, chunks, off, w, last);
      LosslessLeavesLittle(FeedAll(off, pieces).0, FeedAll(off, pieces).1, off, w + last, Find(w + last, 0).idx);
    }
  }

  lemma LosslessLeavesLittle(s: ScanState, chunks: seq<TSChunk>, off: nat, w: seq<byte>, i: nat)
    requires i <= |w| && Lossless(s, chunks, off, w, i)
    ensures |s.buffer| < 188
  {
  }

  /** A shorter stream that was valid from i on. */
  lemma ValidPrefix(w: seq<byte>, d: seq<byte>, i: nat)
    requires i <= |w| && Packets(w + d, i, (|w + d| - i) / 188)
    ensures Packets(w, i, (|w| - i) / 188)
  {
    PacketsSplit(w + d, i, (|w + d| - i) / 188, (|w| - i) / 188);
    PacketsAppend(w, d, i, (|w| - i) / 188);
  }

  // ---------- Nothing is passed over ----------

  ghost predicate InChunks(chunks: seq<TSChunk>, x: int) {
    exists c :: c in chunks && c.start <= x < c.end
  }

  /** Position i of the data has been looked at for good: ten packets long, it is no window. */
  ghost predicate RuledOut(data: seq<byte>, i: nat) {
    i + 1880 <= |data| && !Window(data, i)
  }

  /** Each of the first n positions of the data has been emitted or ruled out. */
  ghost predicate Accounted(chunks: seq<TSChunk>, data: seq<byte>, start: nat, n: nat) {
    forall i :: 0 <= i < n ==> InChunks(chunks, start + i) || RuledOut(data, i)
  }

  lemma InMoreChunks(a: seq<TSChunk>, b: seq<TSChunk>, x: int)
    ensures InChunks(a + b, x) <==> InChunks(a, x) || InChunks(b, x)
  {
    if c :| c in a && c.start <= x < c.end {
      assert c in a + b;
    }
    if c :| c in b && c.start <= x < c.end {
      assert c in a + b;
    }
  }

  /** What is accounted for stays so when more data and more chunks follow. */
  lemma AccountedMore(a: seq<TSChunk>, b: seq<TSChunk>, data: seq<byte>, more: seq<byte>, start: nat, n: nat)
    requires Accounted(a, data, start, n)
    ensures Accounted(a + b, data + more, start, n)
  {
    hide Window;
    forall i | 0 <= i < n ensures InChunks(a + b, start + i) || RuledOut(data + more, i) {
      InMoreChunks(a, b, start + i);
      if RuledOut(data, i) {
        PacketsAppend(data, more, i, 10);
        WindowIs(data, i);
        WindowIs(data + more, i);
      }
    }
  }

  lemma WindowIs(data: seq<byte>, i: nat)
    ensures Window(data, i) == Packets(data, i, 10)
  {
  }

  /** The end of the data from k on may be accounted for on its own. */
  lemma AccountedEnd(a: seq<TSChunk>, b: seq<TSChunk>, data: seq<byte>, start: nat, k: nat, n: nat)
    requires k <= |data| && Accounted(a, data, start, k) && Accounted(b, data[k..], start + k, n)
    ensures Accounted(a + b, data, start, k + n)
  {
    hide Window;
    forall i | 0 <= i < k + n ensures InChunks(a + b, start + i) || RuledOut(data, i) {
      InMoreChunks(a, b, start + i);
      if i >= k {
        assert InChunks(b, start + k + (i - k)) || RuledOut(data[k..], i - k);
        PacketsShift(data, k, i - k, 10);
        WindowIs(data, i);
        WindowIs(data[k..], i - k);
      }
    }
  }

  /** Positions before the first window, and those a tail leaves behind, are ruled out. */
  lemma SkippedIsRuledOut(data: seq<byte>, start: nat)
    ensures Find(data, 0).At? ==> Accounted([], data, start, Find(data, 0).idx)
    ensures Find(data, 0).Missing? ==> Accounted([], data, start, |data| - |Tail(data)|)
  {
    hide Find;
    FindIsLeftmost(data, 0);
    FoundFits(data);
  }

  /** Emission passes over nothing but positions that are no window. */
  lemma {:induction false} EmitAccounts(data: seq<byte>, start: nat)
    ensures var e := EmitAll(data, start);
      |e.rest| <= |data| && Accounted(e.chunks, data, start, |data| - |e.rest|)
    decreases |data|
  {
    hide Find, Accounted, EmitAll;
    var e := EmitAll(data, start);
    EmitStop(data, start);
    if |data| < 188 {
      NothingAccounted(data, start);
    } else if !ValidTSPacket(data, 0) {
      SkippedIsRuledOut(data, start);
      if Find(data, 0).At? {
        var i := Find(data, 0).idx;
        FoundFits(data);
        EmitSkip(data, start);
        EmitAccounts(data[i..], start + i);
        AccountedEnd([], e.chunks, data, start, i, |data| - i - |e.rest|);
        assert [] + e.chunks == e.chunks;
      }
    } else {
      var n := 188 * ChunkPackets(data);
      EmitCons(data, start);
      var head, more := TSChunk(start, start + n, data[..n]), EmitAll(data[n..], start + n);
      EmitAccounts(data[n..], start + n);
      HeadAccounts(head, data);
      AccountedEnd([head], more.chunks, data, start, n, |data| - n - |more.rest|);
    }
  }

  lemma NothingAccounted(data: seq<byte>, start: nat)
    ensures Accounted([], data, start, 0)
  {
  }

  lemma HeadAccounts(c: TSChunk, data: seq<byte>)
    requires c.start <= c.end
    ensures Accounted([c], data, c.start, c.end - c.start)
  {
    assert c in [c];
  }

  /** Every byte of the run before the buffer has been emitted or ruled out. */
  ghost predicate RunAccounted(s: ScanState, chunks: seq<TSChunk>, run: StreamRun) {
    |s.buffer| <= |run.bytes| && Accounted(chunks, run.bytes, run.start, |run.bytes| - |s.buffer|)
  }

  /** The scanner continues with the end of a run: whatever it does then, it passes over nothing. */
  lemma EmitRunAccounts(chunks: seq<TSChunk>, run: StreamRun, all: seq<byte>, i: nat)
    requires IsSuffix(all, run.bytes) && Accounted(chunks, run.bytes, run.start, |run.bytes| - |all|)
    requires i <= |all| && Accounted([], all, run.start + |run.bytes| - |all|, i)
    ensures var e := EmitAll(all[i..], run.start + |run.bytes| - |all| + i);
      |e.rest| <= |run.bytes| && Accounted(chunks + e.chunks, run.bytes, run.start, |run.bytes| - |e.rest|)
  {
    hide EmitAll, Accounted;
    var k := |run.bytes| - |all|;
    assert all == run.bytes[k..];
    var e := EmitAll(all[i..], run.start + k + i);
    EmitAccounts(all[i..], run.start + k + i);
    AccountedEnd([], e.chunks, all, run.start + k, i, |all| - i - |e.rest|);
    assert [] + e.chunks == e.chunks;
    AccountedEnd(chunks, e.chunks, run.bytes, run.start, k, |all| - |e.rest|);
  }

  /** Every write keeps it so, in whatever state it meets the scanner. chunks may hold more than the run's. */
  lemma FeedAccounts(s: ScanState, run: StreamRun, chunks: seq<TSChunk>, off: nat, data: seq<byte>)
    requires Tracks(s, run) && RunAccounted(s, chunks, run)
    ensures var (t, more, ts) := FeedStep(s, off, data);
      RunAccounted(t, chunks + more, NextRun(s, run, off, data))
  {
    hide Find, EmitAll, Accounted, Window;
    var run' := NextRun(s, run, off, data);
    assert chunks + [] == chunks;
    if data != [] {
      if s.detected && off == s.expected {
        AccountedMore(chunks, [], run.bytes, data, run.start, |run.bytes| - |s.buffer|);
        SuffixAppend(s.buffer, run.bytes, data);
        NothingAccounted(s.buffer + data, s.bufferStart);
        assert (s.buffer + data)[0..] == s.buffer + data;
        EmitRunAccounts(chunks, run', s.buffer + data, 0);
      } else if s.detected {
        if Find(data, 0).At? {
          NewRunAccounts(chunks, data, off);
        }
      } else if !s.haveExpected || off != s.expected {
        assert [] + data == data;
        NewRunAccounts(chunks, data, off);
      } else {
        AccountedMore(chunks, [], run.bytes, data, run.start, |run.bytes| - |s.buffer|);
        SuffixAppend(s.buffer, run.bytes, data);
        CandidateAccounts(chunks, run', s.buffer + data);
      }
    }
  }

  lemma CandidateAccounts(chunks: seq<TSChunk>, run: StreamRun, all: seq<byte>)
    requires IsSuffix(all, run.bytes) && Accounted(chunks, run.bytes, run.start, |run.bytes| - |all|)
    ensures Find(all, 0).Missing? ==> Accounted(chunks, run.bytes, run.start, |run.bytes| - |Tail(all)|)
    ensures Find(all, 0).At? ==>
      var i := Find(all, 0).idx;
      && i <= |all|
      && var e := EmitAll(all[i..], run.start + |run.bytes| - |all| + i);
         |e.rest| <= |run.bytes| && Accounted(chunks + e.chunks, run.bytes, run.start, |run.bytes| - |e.rest|)
  {
    hide Find, EmitAll, Accounted;
    var k := |run.bytes| - |all|;
    assert all == run.bytes[k..];
    SkippedIsRuledOut(all, run.start + k);
    FoundFits(all);
    if Find(all, 0).At? {
      EmitRunAccounts(chunks, run, all, Find(all, 0).idx);
    } else {
      AccountedEnd(chunks, [], run.bytes, run.start, k, |all| - |Tail(all)|);
      assert chunks + [] == chunks;
    }
  }

  lemma NewRunAccounts(chunks: seq<TSChunk>, data: seq<byte>, off: nat)
    ensures Find(data, 0).Missing? ==> Accounted(chunks, data, off, |data| - |Tail(data)|)
    ensures Find(data, 0).At? ==>
      var i := Find(data, 0).idx;
      && i <= |data|
      && var e := EmitAll(data[i..], off + i);
         |e.rest| <= |data| && Accounted(chunks + e.chunks, data, off, |data| - |e.rest|)
  {
    hide Find, EmitAll, Accounted;
    AnyNothing(chunks, data, off);
    assert data == data[0..];
    CandidateAccounts(chunks, StreamRun(data, off), data);
  }

  lemma AnyNothing(chunks: seq<TSChunk>, data: seq<byte>, start: nat)
    ensures Accounted(chunks, data, start, 0)
  {
  }
}
