/** How far captured bytes are the ones on the disk. A capture consists of bytes that the writes of the current
    run put at its addresses, but a write that does not concern the scanner may have changed them since. */
module Captured {
  import opened Disk
  import opened Types
  import opened Reads
  import opened Scanner
  import opened ScanRuns
  import opened Sniffing

  /** A scanner in the middle of a stream gets a write from somewhere else that is no stream itself, and leaves
      it alone. */
  ghost predicate Unrelated(s: ScanState, ev: WriteEvent) {
    ev.data != [] && s.detected && ev.offset != s.expected && Find(ev.data, 0).Missing?
  }

  /** Write number m was such a write. */
  ghost predicate UnrelatedAt(evs: seq<WriteEvent>, m: nat)
    requires 0 < m <= |evs|
  {
    Unrelated(ScanAfter(evs[..m - 1]), evs[m - 1])
  }

  ghost predicate Grows(s: ScanState, ev: WriteEvent) {
    ev.offset == s.expected && (s.detected || s.haveExpected)
  }

  /** For every byte of the current run, the number of the write of the run it is from. */
  ghost function Sources(evs: seq<WriteEvent>): seq<nat> {
    if evs == [] then []
    else
      var init, ev := evs[..|evs| - 1], evs[|evs| - 1];
      var s, own := ScanAfter(init), seq(|ev.data|, _ => |evs|);
      if ev.data == [] || Unrelated(s, ev) then Sources(init)
      else if Grows(s, ev) then Sources(init) + own
      else own
  }

  /** Write k put byte b at x, and of the later writes only unrelated ones cover x. */
  ghost predicate SourceOf(evs: seq<WriteEvent>, k: nat, x: int, b: byte) {
    && 0 < k <= |evs| && CoversByte(evs[k - 1], x) && Written(evs, k, x) == b
    && forall m :: k < m <= |evs| && CoversByte(evs[m - 1], x) ==> UnrelatedAt(evs, m)
  }

  lemma SourceStays(evs: seq<WriteEvent>, ev: WriteEvent, k: nat, x: int, b: byte)
    requires SourceOf(evs, k, x, b) && (CoversByte(ev, x) ==> Unrelated(ScanAfter(evs), ev))
    ensures SourceOf(evs + [ev], k, x, b)
  {
    hide Unrelated, ScanAfter;
    var all := evs + [ev];
    forall m | k < m <= |all| && CoversByte(all[m - 1], x) ensures UnrelatedAt(all, m) {
      if m <= |evs| {
        assert all[..m - 1] == evs[..m - 1] && UnrelatedAt(evs, m);
      } else {
        assert all[..m - 1] == evs;
      }
    }
  }

  /** src gives for every byte of the run a write it is from. */
  ghost predicate RightSources(evs: seq<WriteEvent>, src: seq<nat>, run: StreamRun) {
    && |src| == |run.bytes|
    && forall i :: 0 <= i < |src| ==> SourceOf(evs, src[i], run.start + i, run.bytes[i])
  }

  /** A write that covers no byte of the run, or an unrelated one, leaves the sources right. */
  lemma SourcesStay(evs: seq<WriteEvent>, ev: WriteEvent, src: seq<nat>, run: StreamRun)
    requires RightSources(evs, src, run)
    requires ev.data == [] || Unrelated(ScanAfter(evs), ev) || ev.offset == run.start + |run.bytes|
    ensures RightSources(evs + [ev], src, run)
  {
    hide SourceOf, Unrelated, ScanAfter;
    forall i | 0 <= i < |src| ensures SourceOf(evs + [ev], src[i], run.start + i, run.bytes[i]) {
      SourceStays(evs, ev, src[i], run.start + i, run.bytes[i]);
    }
  }

  /** The last write is the source of its own bytes. */
  lemma OwnSources(evs: seq<WriteEvent>)
    requires evs != []
    ensures var ev := evs[|evs| - 1];
      RightSources(evs, seq(|ev.data|, _ => |evs|), StreamRun(ev.data, ev.offset))
  {
  }

  lemma SourcesGrow(evs: seq<WriteEvent>, a: seq<nat>, r: StreamRun, b: seq<nat>, more: StreamRun)
    requires RightSources(evs, a, r) && RightSources(evs, b, more) && more.start == r.start + |r.bytes|
    ensures RightSources(evs, a + b, r.(bytes := r.bytes + more.bytes))
  {
    hide SourceOf;
    forall i | 0 <= i < |a + b| ensures SourceOf(evs, (a + b)[i], r.start + i, (r.bytes + more.bytes)[i]) {
      if i >= |a| {
        assert SourceOf(evs, b[i - |a|], more.start + (i - |a|), more.bytes[i - |a|]);
      }
    }
  }

  lemma {:induction false} SourcesAreRight(evs: seq<WriteEvent>)
    ensures RightSources(evs, Sources(evs), RunAfter(evs))
  {
    if evs != [] {
      var init, ev := evs[..|evs| - 1], evs[|evs| - 1];
      assert evs == init + [ev];
      SourcesAreRight(init);
      ScannerOnItsRun(init);
      OwnSources(evs);
      hide Find, RightSources, RunWritten, SniffAll;
      var s, run := ScanAfter(init), RunAfter(init);
      var own := seq(|ev.data|, _ => |evs|);
      if ev.data == [] || Unrelated(s, ev) {
        SourcesStay(init, ev, Sources(init), run);
      } else if Grows(s, ev) {
        SourcesStay(init, ev, Sources(init), run);
        SourcesGrow(evs, Sources(init), run, own, StreamRun(ev.data, ev.offset));
      }
    }
  }

  lemma ChunkFromRun(evs: seq<WriteEvent>, ev: WriteEvent, c: TSChunk)
    requires c in FeedStep(ScanAfter(evs), ev.offset, ev.data).1
    ensures Faithful(c, RunAfter(evs + [ev]).bytes, RunAfter(evs + [ev]).start)
  {
    hide FeedStep, Faithful, Tracks, NextRun, SniffAll;
    assert (evs + [ev])[..|evs|] == evs;
    ScannerOnItsRun(evs);
    FeedTracks(ScanAfter(evs), RunAfter(evs), ev.offset, ev.data);
  }

  /** Each captured byte is from a write of the run, and that write is the latest over it if and only if no
      unrelated write has covered the byte since. If one has, the latest write is such a one: ordinary, and with
      a number not above the capture's. */
  lemma CapturedBytesAreLatestIff(evs: seq<WriteEvent>, ev: WriteEvent, c: TSChunk, x: int)
    requires c in FeedStep(ScanAfter(evs), ev.offset, ev.data).1 && c.start <= x < c.end
    ensures var all := evs + [ev];
      var run := RunAfter(all);
      && 0 <= x - run.start < |Sources(all)| && 0 <= x - c.start < |c.data|
      && var k := Sources(all)[x - run.start];
         && SourceOf(all, k, x, c.data[x - c.start])
         && (Latest(all, x) == k <==>
               forall m :: k < m <= |all| && CoversByte(all[m - 1], x) ==> !UnrelatedAt(all, m))
         && (Latest(all, x) != k ==>
               && k < Latest(all, x) <= |all| && UnrelatedAt(all, Latest(all, x))
               && var l := all[Latest(all, x) - 1];
                  !FeedStep(ScanAfter(all[..Latest(all, x) - 1]), l.offset, l.data).2)
  {
    hide FeedStep, Sources, Find, RunAfter, UnrelatedAt, ScanAfter, Latest, Packets;
    var all := evs + [ev];
    var run := RunAfter(all);
    ChunkFromRun(evs, ev, c);
    SourcesAreRight(all);
    LatestIs(all, x);
    var k := Sources(all)[x - run.start];
    assert SourceOf(all, k, x, run.bytes[x - run.start]);
    assert c.data[x - c.start] == run.bytes[x - run.start];
    var n := Latest(all, x);
    assert n >= k;
    if n != k {
      assert CoversByte(all[n - 1], x);
      UnrelatedIsOrdinary(ScanAfter(all[..n - 1]), all[n - 1]);
      UnrelatedAtIs(all, n);
    }
  }

  lemma UnrelatedAtIs(evs: seq<WriteEvent>, m: nat)
    requires 0 < m <= |evs|
    ensures UnrelatedAt(evs, m) == Unrelated(ScanAfter(evs[..m - 1]), evs[m - 1])
  {
  }

  lemma UnrelatedIsOrdinary(s: ScanState, ev: WriteEvent)
    ensures Unrelated(s, ev) ==> FeedStep(s, ev.offset, ev.data) == (s, [], false)
  {
  }
}
