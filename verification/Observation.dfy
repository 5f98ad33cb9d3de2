/** The steps of an observation put together: from the one that takes up a write to the one that publishes the
    new ranges they have the effect that ObserveMFTWrite has, whatever is staged and judged in between. */
module Observation {
  import opened Disk
  import opened MFTMap
  import opened MFTIndex
  import opened FileRanges
  import opened Ntfs
  import opened Tracker

  /** A run to the end of an observation under way. */
  ghost predicate RunsToEnd(env: Env, ws: seq<World>, ls: seq<Label>)
    requires env.g.recordSize > 0
  {
    && TrackerRun(env, ws, ls) && ls != [] && ls[|ls| - 1].Publish?
    && forall i :: 0 <= i < |ls| - 1 ==> !ls[i].Publish? && !ls[i].Begin?
  }

  lemma RestOfRun(env: Env, ws: seq<World>, ls: seq<Label>)
    requires env.g.recordSize > 0 && RunsToEnd(env, ws, ls) && !ls[0].Publish?
    ensures RunsToEnd(env, ws[1..], ls[1..]) && TrackerStep(env, ws[0], ls[0], ws[1])
  {
    hide TrackerStep;
    assert forall i :: 0 <= i < |ls[1..]| ==> ls[1..][i] == ls[i + 1] && ws[1..][i + 1] == ws[i + 2];
  }

  /** record holds the bytes that each record's refresh in the run found. */
  ghost predicate FoundRecords(ls: seq<Label>, ids: set<nat>, record: nat -> seq<byte>) {
    forall i :: 0 <= i < |ls| && ls[i].RefreshOne? ==> ls[i].id in ids && record(ls[i].id) == ls[i].seen
  }

  /** w's tracker is st with the given records refreshed, and published. */
  ghost predicate EndsRefreshed(env: Env, st: TrackState, ids: set<nat>, record: nat -> seq<byte>, w: World)
    requires env.g.recordSize > 0
  {
    && LayoutOf(w.st) == LayoutOf(st) == w.pub
    && forall id :: Lookup(w.st.records, id) == Refreshed(env, st, record(id), id in ids, id)
  }

  /** The records still to be refreshed end up refreshed, each with the bytes its own read found. */
  lemma {:induction false} RefreshingEnds(env: Env, ws: seq<World>, ls: seq<Label>) returns (record: nat -> seq<byte>)
    requires GoodEnv(env) && RunsToEnd(env, ws, ls) && ws[0].phase.Refreshing?
    ensures FoundRecords(ls, ws[0].phase.ids, record)
    ensures forall i :: 0 <= i < |ls| ==> !ls[i].Scan?
    ensures EndsRefreshed(env, ws[0].st, ws[0].phase.ids, record, ws[|ls|])
    decreases |ls|
  {
    hide Apply, ReadRecordFn, RecordCount, MissedIn, MissedBy, Flagged, StaleReads;
    assert TrackerStep(env, ws[0], ls[0], ws[1]);
    if ls[0].Publish? {
      record := _ => [];
      assert |ls| == 1;
    } else {
      RestOfRun(env, ws, ls);
      var rest := RefreshingEnds(env, ws[1..], ls[1..]);
      assert forall i :: 1 <= i < |ls| ==> ls[i] == ls[1..][i - 1];
      if ls[0].RefreshOne? {
        var seen, first := ls[0].seen, ls[0].id;
        record := k => if k == first then seen else rest(k);
      } else {
        record := rest;
      }
    }
  }

  /** A scan looks at nothing before the record it has come to. */
  lemma {:induction false} ScanAgree(env: Env, l: Layout, f: nat -> seq<byte>, h: nat -> seq<byte>,
                                     records: map<nat, NTFSRecord>, i: nat, m: nat)
    requires GoodEnv(env) && forall k :: k >= i ==> f(k) == h(k)
    ensures ScanRecords(env, l.runs, l.size, f, records, i, m) == ScanRecords(env, l.runs, l.size, h, records, i, m)
    decreases m - i
  {
    hide ScanRecords, ScanBuffer, ReadLogical;
    ScanHead(env, l.runs, l.size, f, records, i, m);
    ScanHead(env, l.runs, l.size, h, records, i, m);
    if i < m && ChunkRecords(env.g, i, m) > 0 {
      var c := ChunkRecords(env.g, i, m);
      var r := ReadChunk(env, l.runs, l.size, f, i, c);
      if r.Bytes? {
        ScanAgree(env, l, f, h, ScanBuffer(env, records, r.data, i, c), i + c, m);
      }
    }
  }

  /** chunk holds the bytes that the scan of each chunk in the run found. */
  ghost predicate FoundChunks(ws: seq<World>, ls: seq<Label>, from: nat, chunk: nat -> seq<byte>)
    requires |ws| == |ls| + 1
  {
    forall i :: 0 <= i < |ls| && ls[i].Scan? ==>
      ws[i].phase.Scanning? && ws[i].phase.next >= from && chunk(ws[i].phase.next) == ls[i].seen
  }

  ghost function Scanned(env: Env, w: World, chunk: nat -> seq<byte>): TrackState
    requires env.g.recordSize > 0 && w.phase.Scanning?
  {
    w.st.(records := ScanRecords(env, w.st.runs, w.st.size, chunk, w.st.records, w.phase.next,
                                 WholeRecordCount(env.g, w.st.size)))
  }

  /** The rest of the new tail is scanned first. */
  lemma {:induction false} ScanningEnds(env: Env, ws: seq<World>, ls: seq<Label>)
    returns (chunk: nat -> seq<byte>, record: nat -> seq<byte>)
    requires GoodEnv(env) && RunsToEnd(env, ws, ls) && ws[0].phase.Scanning?
    ensures FoundChunks(ws, ls, ws[0].phase.next, chunk) && FoundRecords(ls, ws[0].phase.ids, record)
    ensures EndsRefreshed(env, Scanned(env, ws[0], chunk), ws[0].phase.ids, record, ws[|ls|])
    decreases |ls|
  {
    hide Apply, ReadRecordFn, RecordCount, MissedIn, MissedBy, Flagged, StaleReads, ScanRecords, ScanBuffer;
    hide ReadLogical;
    hide Refreshed, WholeRecordCount, Touched, AfterZero, CountsExtra, Selected, FullyMapped, KeepsMapping, SameOutside;
    assert TrackerStep(env, ws[0], ls[0], ws[1]) && !ls[0].Publish?;
    RestOfRun(env, ws, ls);
    assert forall i :: 1 <= i < |ls| ==> ls[i] == ls[1..][i - 1] && ws[i] == ws[1..][i - 1];
    var w, n := ws[0], WholeRecordCount(env.g, ws[0].st.size);
    if ws[1].phase.Refreshing? {
      chunk := _ => if ls[0].Scan? then ls[0].seen else [];
      ScanHead(env, w.st.runs, w.st.size, chunk, w.st.records, w.phase.next, n);
      record := RefreshingEnds(env, ws[1..], ls[1..]);
    } else {
      var rest;
      rest, record := ScanningEnds(env, ws[1..], ls[1..]);
      chunk := rest;
      if ls[0].Scan? {
        var next, seen := w.phase.next, ls[0].seen;
        chunk := k => if k == next then seen else rest(k);
        ScanHead(env, w.st.runs, w.st.size, chunk, w.st.records, next, n);
        ScanAgree(env, LayoutOf(w.st), chunk, rest, ws[1].st.records, ws[1].phase.next, n);
      }
    }
  }

  /** One observation in a run, with any staging and judging in between: the tracker's state at its end is the
      one that ObserveMFTWrite ensures for the bytes its reads found, and it is published. */
  lemma ObservationIsObserved(env: Env, ws: seq<World>, ls: seq<Label>) returns (views: Views)
    requires GoodEnv(env) && |ws| == |ls| + 1 && |ls| > 1 && ls[0].Begin?
    requires TrackerStep(env, ws[0], ls[0], ws[1]) && RunsToEnd(env, ws[1..], ls[1..])
    ensures views.zero == ls[0].seen
    ensures FoundChunks(ws, ls, WholeRecordCount(env.g, ws[0].st.size), views.chunk)
    ensures FoundRecords(ls, ls[0].ids, views.record)
    ensures ws[0].pending != []
    ensures Observed(env, ws[0].st, views, ws[0].pending[0].start, ws[0].pending[0].end, ls[0].extra, ws[|ls|].st)
    ensures ws[|ls|].pub == LayoutOf(ws[|ls|].st)
  {
    hide RunsToEnd, AfterZero, CountsExtra, Refreshed, ScanRecords, FullyMapped, MissedIn, Selected;
    var chunk, record := ScanningEnds(env, ws[1..], ls[1..]);
    views := Views(ls[0].seen, chunk, record);
    assert forall i :: 1 <= i < |ls| ==> ls[i] == ls[1..][i - 1] && ws[i] == ws[1..][i - 1];
    var r := ws[0].pending[0];
    ScanHead(env, ws[1].st.runs, ws[1].st.size, chunk, ws[1].st.records, ws[1].phase.next,
             WholeRecordCount(env.g, ws[1].st.size));
    assert AfterTail(env, ws[0].st, views, r.start, r.end) == Scanned(env, ws[1], chunk);
  }

  // ---------- What an observation gets right ----------

  /** The scan of the new tail looks at no older record. */
  lemma TailElsewhere(env: Env, st: TrackState, view: seq<byte>, start: nat, end: nat, id: nat)
    requires GoodEnv(env)
    requires var t := AfterTail(env, st, Views(view, _ => view, _ => view), start, end);
      && FullyMapped(env.g, t.runs, t.size, |view|)
      && (t.size <= st.size || id < WholeRecordCount(env.g, st.size))
    ensures Lookup(AfterTail(env, st, Views(view, _ => view, _ => view), start, end).records, id)
      == Lookup(AfterZero(env, st, view, start, end).records, id)
  {
    hide ScanRecords, ScanReadable, Apply, DecodedNow, FullyMapped, AfterZero;
    var z := AfterZero(env, st, view, start, end);
    if z.size > st.size {
      ScanEffect(env, z.runs, z.size, view, z.records, WholeRecordCount(env.g, st.size),
                 WholeRecordCount(env.g, z.size), id);
    }
  }

  /** Wherever the $MFT's records have moved to, a whole record outside the new tail agrees with its bytes after
      an undisturbed observation if and only if the write touched it under the old layout, it is below extra, or
      its bytes decode to what was remembered. The same holds of record 0 where it has not changed by moving. */
  lemma AgreesAfterwardsIff(
    env: Env, st: TrackState, view: seq<byte>, start: nat, end: nat, extra: nat, t: TrackState, id: nat)
    requires GoodEnv(env) && Observed(env, st, Views(view, _ => view, _ => view), start, end, extra, t)
    requires FullyMapped(env.g, t.runs, t.size, |view|) && id < WholeRecordCount(env.g, t.size)
    requires t.size <= st.size || id < WholeRecordCount(env.g, st.size)
    requires id == 0 ==>
      0 < WholeRecordCount(env.g, st.size) && DecodedNow(env, st.runs, view, 0) == DecodedNow(env, t.runs, view, 0)
    ensures Fresh(env, t.runs, t.records, view, id) <==>
      || TouchesRecord(env.g, st.runs, start, end, id)
      || (id > 0 && id < extra)
      || Apply(env, Lookup(st.records, id), DecodedNow(env, t.runs, view, id)) == Lookup(st.records, id)
  {
    hide Lookup, Apply, DecodedNow, TouchesRecord, AfterTail, AfterZero, CountsExtra, FullyMapped, WholeRecordCount;
    hide RecordCount, ReadRecordFn;
    TailElsewhere(env, st, view, start, end, id);
    ZeroEffect(env, st, view, start, end, id);
    WholeRecordsFit(env.g, t.size, id);
    ReadWhole(env, t.runs, t.size, view, id);
    var views := Views(view, _ => view, _ => view);
    assert Lookup(t.records, id) == ObservedRecord(env, st, views, start, end, extra, id);
    if id == 0 {
      ReadWhole(env, st.runs, st.size, view, 0);
    }
    ApplyTwice(env, Lookup(st.records, id), DecodedNow(env, t.runs, view, id));
    ApplyTwice(env, Lookup(AfterTail(env, st, views, start, end).records, id), DecodedNow(env, t.runs, view, id));
  }
}
