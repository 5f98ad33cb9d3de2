/** reconcile.go: captured MPEG-TS ranges are matched against file data ranges from both sides, as captures
    arrive and as the $MFT reveals ranges, and every match is offered as a punch. */
module Reconciling {
  import opened Ring
  import opened Ranges
  import opened Types
  import opened Ntfs

  // ---------- The journal ----------

  class CaptureJournal {
    const items: array<CaptureRange>
    var head: nat
    var count: nat

    ghost predicate Valid()
      reads this, items
    {
      head < items.Length && count <= items.Length
    }

    /** The captures remembered, oldest first. */
    ghost function Captures(): seq<CaptureRange>
      reads this, items
      requires Valid()
    {
      Contents(items[..], head, count)
    }

    constructor (capacity: nat)
      requires capacity > 0
      ensures Valid() && fresh(items) && items.Length == capacity && Captures() == []
    {
      items := new CaptureRange[capacity](_ => CaptureRange(0, 0, 0));
      head, count := 0, 0;
    }

    method Add(c: CaptureRange)
      requires Valid()
      modifies this, items
      ensures Valid() && Captures() == LastN(old(Captures()) + [c], items.Length)
    {
      ghost var was, h, n := items[..], head, count;
      items[head] := c;
      SlotIsMod(head + 1, items.Length);
      head := (head + 1) % items.Length;
      if count < items.Length {
        count := count + 1;
      }
      Push(was, h, n, c);
      assert items[..] == was[h := c];
    }

    /** The remembered captures that overlap a range, oldest first, as its callback sees them. */
    method ForOverlap(start: nat, end: nat) returns (found: seq<CaptureRange>)
      requires Valid()
      ensures found == Overlapping(Captures(), start, end)
    {
      hide Overlapping;
      found := [];
      ghost var all := Captures();
      NoneOverlap([], start, end);
      if end <= start || count == 0 {
        NoneOverlap(all, start, end);
        return;
      }
      SlotIsMod(head - count + items.Length, items.Length);
      var first := (head - count + items.Length) % items.Length;
      for i := 0 to count
        invariant found == Overlapping(all[..i], start, end)
      {
        SlotIsMod(first + i, items.Length);
        var c := items[(first + i) % items.Length];
        assert c == all[i];
        OverlappingNext(all, i, start, end);
        if c.end <= start || c.start >= end {
          continue;
        }
        found := found + [c];
      }
      assert all[..count] == all;
    }
  }

  ghost function Overlapping(cs: seq<CaptureRange>, start: nat, end: nat): seq<CaptureRange> {
    if cs == [] || end <= start then []
    else
      var c, init := cs[|cs| - 1], Overlapping(cs[..|cs| - 1], start, end);
      if c.end <= start || c.start >= end then init else init + [c]
  }

  lemma OverlappingNext(cs: seq<CaptureRange>, i: nat, start: nat, end: nat)
    requires i < |cs| && start < end
    ensures Overlapping(cs[..i + 1], start, end) ==
      Overlapping(cs[..i], start, end) + if cs[i].end <= start || cs[i].start >= end then [] else [cs[i]]
  {
    assert cs[..i + 1][..i] == cs[..i];
  }

  lemma NoneOverlap(cs: seq<CaptureRange>, start: nat, end: nat)
    requires end <= start || cs == []
    ensures Overlapping(cs, start, end) == []
  {
  }

  lemma {:induction false} OverlappingIs(cs: seq<CaptureRange>, start: nat, end: nat, c: CaptureRange)
    ensures c in Overlapping(cs, start, end) <==> c in cs && start < end && start < c.end && c.start < end
  {
    if cs != [] {
      OverlappingIs(cs[..|cs| - 1], start, end, c);
      assert cs == cs[..|cs| - 1] + [cs[|cs| - 1]];
    }
  }

  // ---------- Offers ----------

  ghost predicate InCapture(c: CaptureRange, x: int) {
    c.start <= x < c.end
  }

  ghost predicate Punches(p: PunchRequest, x: int) {
    p.start <= x < p.end
  }

  /** The punch offered for a capture and a range: their intersection, if there is one. */
  function Offer(c: CaptureRange, r: ByteRange): seq<PunchRequest> {
    var start, end := MaxU64(c.start, r.start), MinU64(c.end, r.end);
    if start >= end then [] else [PunchRequest(c.seqNo, start, end)]
  }

  ghost function CaptureOffers(c: CaptureRange, rs: seq<ByteRange>): seq<PunchRequest> {
    if rs == [] then [] else CaptureOffers(c, rs[..|rs| - 1]) + Offer(c, rs[|rs| - 1])
  }

  ghost function RangeOffers(cs: seq<CaptureRange>, r: ByteRange): seq<PunchRequest> {
    if cs == [] then [] else RangeOffers(cs[..|cs| - 1], r) + Offer(cs[|cs| - 1], r)
  }

  /** Byte x of capture c has been offered under the capture's number. */
  ghost predicate Offered(ps: seq<PunchRequest>, c: CaptureRange, x: int) {
    exists p :: p in ps && p.captureSeq == c.seqNo && Punches(p, x)
  }

  /** The punch lies inside one of the captures, bears its number, and lies inside the ranges. */
  ghost predicate Justified(p: PunchRequest, cs: seq<CaptureRange>, rs: seq<ByteRange>) {
    && (exists c :: c in cs && c.seqNo == p.captureSeq && c.start <= p.start < p.end <= c.end)
    && forall x :: Punches(p, x) ==> Holds(rs, x)
  }

  lemma {:induction false} CaptureOffersCover(c: CaptureRange, rs: seq<ByteRange>, x: int)
    requires InCapture(c, x) && Holds(rs, x)
    ensures Offered(CaptureOffers(c, rs), c, x)
  {
    var init, last := rs[..|rs| - 1], rs[|rs| - 1];
    assert rs == init + [last];
    HoldsSnoc(init, last);
    if Covers(last, x) {
      assert Offer(c, last)[0] in CaptureOffers(c, rs);
      assert Punches(Offer(c, last)[0], x);
    } else {
      CaptureOffersCover(c, init, x);
      var p :| p in CaptureOffers(c, init) && p.captureSeq == c.seqNo && Punches(p, x);
      assert p in CaptureOffers(c, rs);
    }
  }

  lemma {:induction false} CaptureOffersJustified(c: CaptureRange, rs: seq<ByteRange>, p: PunchRequest)
    requires p in CaptureOffers(c, rs)
    ensures Justified(p, [c], rs)
  {
    var init, last := rs[..|rs| - 1], rs[|rs| - 1];
    assert rs == init + [last];
    HoldsSnoc(init, last);
    assert c in [c];
    if p !in Offer(c, last) {
      CaptureOffersJustified(c, init, p);
    }
  }

  lemma {:induction false} RangeOffersCover(cs: seq<CaptureRange>, r: ByteRange, c: CaptureRange, x: int)
    requires c in cs && InCapture(c, x) && Covers(r, x)
    ensures Offered(RangeOffers(cs, r), c, x)
  {
    var init, last := cs[..|cs| - 1], cs[|cs| - 1];
    assert cs == init + [last];
    if c == last {
      assert Offer(c, r)[0] in RangeOffers(cs, r);
      assert Punches(Offer(c, r)[0], x);
    } else {
      RangeOffersCover(init, r, c, x);
      var p :| p in RangeOffers(init, r) && p.captureSeq == c.seqNo && Punches(p, x);
      assert p in RangeOffers(cs, r);
    }
  }

  lemma {:induction false} RangeOffersJustified(cs: seq<CaptureRange>, r: ByteRange, p: PunchRequest)
    requires p in RangeOffers(cs, r)
    ensures Justified(p, cs, [r])
  {
    var init, last := cs[..|cs| - 1], cs[|cs| - 1];
    assert cs == init + [last];
    assert r in [r];
    assert forall x :: Covers(r, x) ==> Holds([r], x);
    if p !in Offer(last, r) {
      RangeOffersJustified(init, r, p);
      var c :| c in init && c.seqNo == p.captureSeq && c.start <= p.start < p.end <= c.end;
      assert c in cs;
    }
  }

  lemma JustifiedMore(p: PunchRequest, cs: seq<CaptureRange>, rs: seq<ByteRange>,
                      cs': seq<CaptureRange>, rs': seq<ByteRange>)
    requires Justified(p, cs, rs)
    requires forall c :: c in cs ==> c in cs'
    requires forall x :: Holds(rs, x) ==> Holds(rs', x)
    ensures Justified(p, cs', rs')
  {
    hide Holds;
    var c :| c in cs && c.seqNo == p.captureSeq && c.start <= p.start < p.end <= c.end;
    assert c in cs';
  }

  /** The join is complete: every byte that lies both in a capture and in the ranges has been offered
      under that capture's number. */
  ghost predicate Complete(ps: seq<PunchRequest>, cs: seq<CaptureRange>, rs: seq<ByteRange>) {
    forall c, x :: c in cs && InCapture(c, x) && Holds(rs, x) ==> Offered(ps, c, x)
  }

  lemma OfferedMore(ps: seq<PunchRequest>, more: seq<PunchRequest>, c: CaptureRange, x: int)
    ensures Offered(ps + more, c, x) <==> Offered(ps, c, x) || Offered(more, c, x)
  {
    if p :| p in ps && p.captureSeq == c.seqNo && Punches(p, x) {
      assert p in ps + more;
    }
    if p :| p in more && p.captureSeq == c.seqNo && Punches(p, x) {
      assert p in ps + more;
    }
  }

  /** Adding captures one at a time keeps the newest of all of them. */
  lemma AddedNext(was: seq<CaptureRange>, more: seq<CaptureRange>, i: nat, capacity: nat)
    requires i < |more| && capacity > 0
    ensures LastN(LastN(was + more[..i], capacity) + [more[i]], capacity) == LastN(was + more[..i + 1], capacity)
    ensures i + 1 == |more| ==> more[..i + 1] == more
  {
    LastNPush(was + more[..i], capacity, more[i]);
    assert was + more[..i] + [more[i]] == was + more[..i + 1];
  }

  lemma AddedNone(was: seq<CaptureRange>, more: seq<CaptureRange>, capacity: nat)
    requires |was| <= capacity
    ensures LastN(was + more[..0], capacity) == was
    ensures |more| == 0 ==> more[..0] == more
  {
    assert was + more[..0] == was;
  }

  lemma InLastN(cs: seq<CaptureRange>, n: nat)
    ensures forall c :: c in LastN(cs, n) ==> c in cs
  {
  }

  /** A new capture, joined with the ranges known, keeps the join complete even where the journal forgets
      its oldest entry. */
  lemma CaptureKeepsComplete(
    ps: seq<PunchRequest>, cs: seq<CaptureRange>, rs: seq<ByteRange>, c: CaptureRange, capacity: nat)
    requires Complete(ps, cs, rs)
    ensures Complete(ps + CaptureOffers(c, rs), LastN(cs + [c], capacity), rs)
  {
    hide Holds, Offered, CaptureOffers;
    InLastN(cs + [c], capacity);
    forall d, x | d in LastN(cs + [c], capacity) && InCapture(d, x) && Holds(rs, x)
      ensures Offered(ps + CaptureOffers(c, rs), d, x)
    {
      OfferedMore(ps, CaptureOffers(c, rs), d, x);
      if d == c {
        CaptureOffersCover(c, rs, x);
      }
    }
  }

  /** The offers for a list of new ranges. */
  ghost function AllRangeOffers(cs: seq<CaptureRange>, rs: seq<ByteRange>): seq<PunchRequest> {
    if rs == [] then [] else AllRangeOffers(cs, rs[..|rs| - 1]) + RangeOffers(cs, rs[|rs| - 1])
  }

  lemma {:induction false} AllRangeOffersCover(cs: seq<CaptureRange>, rs: seq<ByteRange>, c: CaptureRange, x: int)
    requires c in cs && InCapture(c, x) && Holds(rs, x)
    ensures Offered(AllRangeOffers(cs, rs), c, x)
  {
    hide Offered;
    var init, last := rs[..|rs| - 1], rs[|rs| - 1];
    assert rs == init + [last];
    HoldsSnoc(init, last);
    OfferedMore(AllRangeOffers(cs, init), RangeOffers(cs, last), c, x);
    if Covers(last, x) {
      RangeOffersCover(cs, last, c, x);
    } else {
      AllRangeOffersCover(cs, init, c, x);
    }
  }

  lemma {:induction false} AllRangeOffersJustified(cs: seq<CaptureRange>, rs: seq<ByteRange>, p: PunchRequest)
    requires p in AllRangeOffers(cs, rs)
    ensures Justified(p, cs, rs)
  {
    hide Justified, RangeOffers;
    var init, last := rs[..|rs| - 1], rs[|rs| - 1];
    assert rs == init + [last];
    HoldsConcat(init, [last]);
    if p in RangeOffers(cs, last) {
      RangeOffersJustified(cs, last, p);
      JustifiedMore(p, cs, [last], cs, rs);
    } else {
      AllRangeOffersJustified(cs, init, p);
      JustifiedMore(p, cs, init, cs, rs);
    }
  }

  /** When the ranges change, offering what is new keeps the join complete. */
  lemma RangesKeepComplete(ps: seq<PunchRequest>, cs: seq<CaptureRange>, was: seq<ByteRange>, now: seq<ByteRange>,
                           fresh_: seq<ByteRange>)
    requires Complete(ps, cs, was)
    requires forall x :: Holds(fresh_, x) <==> Holds(now, x) && !Holds(was, x)
    ensures Complete(ps + AllRangeOffers(cs, fresh_), cs, now)
  {
    hide Holds, Offered, AllRangeOffers;
    forall c, x | c in cs && InCapture(c, x) && Holds(now, x)
      ensures Offered(ps + AllRangeOffers(cs, fresh_), c, x)
    {
      OfferedMore(ps, AllRangeOffers(cs, fresh_), c, x);
      if Holds(fresh_, x) {
        AllRangeOffersCover(cs, fresh_, c, x);
      }
    }
  }

  lemma AllCapturesNext(was: seq<CaptureRange>, events: seq<ObservedWrite>, i: nat, capacity: nat)
    requires i < |events|
    ensures LastN(LastN(was + AllCaptures(events[..i]), capacity) + events[i].captures, capacity)
      == LastN(was + AllCaptures(events[..i + 1]), capacity)
  {
    hide LastN;
    assert events[..i + 1][..i] == events[..i];
    var a, b := was + AllCaptures(events[..i]), events[i].captures;
    assert a + b == was + AllCaptures(events[..i + 1]);
    LastNAppend(a, b, capacity);
  }

  /** The tracker has observed a write; an empty one leaves it alone. */
  ghost predicate Followed(env: Env, st: TrackState, views: Views, ev: WriteEvent, t: TrackState) {
    var end := ev.offset + |ev.data|;
    if ev.data == [] then t == st
    else env.g.recordSize > 0 && exists extra :: Observed(env, st, views, ev.offset, end, extra, t)
  }

  lemma FollowedBy(env: Env, st: TrackState, views: Views, ev: WriteEvent, extra: nat, t: TrackState)
    requires env.g.recordSize > 0
    requires ev.data == [] ==> t == st
    requires ev.data != [] ==> Observed(env, st, views, ev.offset, ev.offset + |ev.data|, extra, t)
    ensures Followed(env, st, views, ev, t)
  {
  }

  lemma OffersSince(base: seq<PunchRequest>, ps: seq<PunchRequest>, more: seq<PunchRequest>)
    requires base <= ps
    ensures base <= ps + more
    ensures forall p :: p in (ps + more)[|base|..] <==> p in ps[|base|..] || p in more
  {
    assert (ps + more)[|base|..] == ps[|base|..] + more;
  }

  lemma ValidEnv(n: NTFS)
    requires n.Valid()
    ensures n.env.g.recordSize > 0
  {
  }

  // ---------- The reconciler ----------

  class Reconciler {
    const ntfs: NTFS
    const captures: CaptureJournal
    var offered: seq<PunchRequest>   // everything passed to SubmitPunch, in order

    ghost predicate Valid()
      reads ntfs, captures, captures.items
    {
      ntfs.Valid() && captures.Valid()
    }

    /** Every capture still remembered has been joined with every data range known. */
    ghost predicate Joined()
      reads this, ntfs, captures, captures.items
      requires Valid()
    {
      Complete(offered, captures.Captures(), ntfs.dataRanges)
    }

    constructor (ntfs: NTFS, capacity: nat)
      requires ntfs.Valid() && capacity > 0
      ensures Valid() && fresh(captures) && fresh(captures.items) && this.ntfs == ntfs && Joined() && offered == []
    {
      this.ntfs := ntfs;
      captures := new CaptureJournal(capacity);
      offered := [];
    }

    method SubmitPunch(seqNo: nat, start: nat, end: nat)
      modifies this`offered
      ensures offered == old(offered) + if start >= end then [] else [PunchRequest(seqNo, start, end)]
    {
      if start >= end {
        return;
      }
      offered := offered + [PunchRequest(seqNo, start, end)];
    }

    method ReconcileCapture(capture: CaptureRange)
      requires Valid()
      modifies this`offered
      ensures Valid() && offered == old(offered) + CaptureOffers(capture, ntfs.dataRanges)
    {
      hide Contents, NTFS.Valid, CaptureJournal.Valid;
      var ranges := ntfs.DataRanges();
      JoinRanges(capture, ranges);
    }

    /** What is done with each data range. */
    method JoinRanges(capture: CaptureRange, ranges: seq<ByteRange>)
      modifies this`offered
      ensures offered == old(offered) + CaptureOffers(capture, ranges)
    {
      for i := 0 to |ranges|
        invariant offered == old(offered) + CaptureOffers(capture, ranges[..i])
      {
        var dataRange := ranges[i];
        assert ranges[..i + 1][..i] == ranges[..i];
        if dataRange.end <= capture.start || dataRange.start >= capture.end {
          continue;
        }
        var start, end := MaxU64(capture.start, dataRange.start), MinU64(capture.end, dataRange.end);
        if start >= end {
          continue;
        }
        SubmitPunch(capture.seqNo, start, end);
      }
      assert ranges[..|ranges|] == ranges;
    }

    /** Offers every remembered capture's part of one newly revealed range. */
    method ReconcileRange(dataRange: ByteRange)
      requires Valid()
      modifies this`offered
      ensures Valid() && offered == old(offered) + RangeOffers(captures.Captures(), dataRange)
    {
      hide Contents, NTFS.Valid, Overlapping, RangeOffers;
      var found := captures.ForOverlap(dataRange.start, dataRange.end);
      OverlapOffers(captures.Captures(), dataRange);
      OfferEach(found, dataRange);
    }

    /** What is done with each overlapping capture. */
    method OfferEach(found: seq<CaptureRange>, dataRange: ByteRange)
      modifies this`offered
      ensures offered == old(offered) + RangeOffers(found, dataRange)
    {
      for i := 0 to |found|
        invariant offered == old(offered) + RangeOffers(found[..i], dataRange)
      {
        var c := found[i];
        assert found[..i + 1][..i] == found[..i];
        var start, end := MaxU64(c.start, dataRange.start), MinU64(c.end, dataRange.end);
        if start >= end {
          continue;
        }
        SubmitPunch(c.seqNo, start, end);
      }
      assert found[..|found|] == found;
    }

    /** The first half of the reconciler's loop: each capture of a write is remembered, then joined with
        the data ranges known. */
    method TakeCaptures(ow: ObservedWrite)
      requires Valid() && Joined()
      modifies this`offered, captures, captures.items
      ensures Valid() && Joined() && old(offered) <= offered
      ensures captures.Captures() == LastN(old(captures.Captures()) + ow.captures, captures.items.Length)
      ensures forall p :: p in offered[|old(offered)|..] ==>
        Justified(p, old(captures.Captures()) + ow.captures, ntfs.dataRanges)
    {
      hide Complete, Justified, LastN, CaptureOffers, NTFS.Valid;
      ghost var was, base := captures.Captures(), offered;
      ghost var seen := was + ow.captures;
      AddedNone(was, ow.captures, captures.items.Length);
      for i := 0 to |ow.captures|
        invariant Valid() && Joined() && base <= offered
        invariant captures.Captures() == LastN(was + ow.captures[..i], captures.items.Length)
        invariant forall p :: p in offered[|base|..] ==> Justified(p, seen, ntfs.dataRanges)
      {
        var capture := ow.captures[i];
        ghost var cs, ps := captures.Captures(), offered;
        captures.Add(capture);
        AddedNext(was, ow.captures, i, captures.items.Length);
        ReconcileCapture(capture);
        CaptureKeepsComplete(ps, cs, ntfs.dataRanges, capture, captures.items.Length);
        AllFromCapture(capture, ntfs.dataRanges, seen);
        OffersSince(base, ps, CaptureOffers(capture, ntfs.dataRanges));
      }
      assert ow.captures[..|ow.captures|] == ow.captures;
    }

    /** The body of the reconciler's loop: captures first, then, for a flagged write, what the $MFT newly
        reveals. views is what the disk shows at each read while the write is observed. */
    method Reconcile(ow: ObservedWrite, views: Views)
      requires Valid() && Joined()
      modifies this`offered, captures, captures.items, ntfs
      ensures Valid() && Joined()
      ensures captures.Captures() == LastN(old(captures.Captures()) + ow.captures, captures.items.Length)
      ensures ow.event.touchesMFT ==> Followed(ntfs.env, old(ntfs.State()), views, ow.event, ntfs.State())
      ensures !ow.event.touchesMFT ==> ntfs.State() == old(ntfs.State()) && ntfs.dataRanges == old(ntfs.dataRanges)
      ensures old(offered) <= offered
      ensures forall p :: p in offered[|old(offered)|..] ==>
        || Justified(p, old(captures.Captures()) + ow.captures, old(ntfs.dataRanges))
        || Justified(p, old(captures.Captures()) + ow.captures, ntfs.dataRanges)
    {
      hide Complete, Justified, LastN, AllRangeOffers, Observed, Followed, NTFS.Valid;
      ghost var seen := captures.Captures() + ow.captures;
      ghost var base := offered;
      ValidEnv(ntfs);
      TakeCaptures(ow);
      if !ow.event.touchesMFT {
        return;
      }
      ghost var cs, ps, was, st := captures.Captures(), offered, ntfs.dataRanges, ntfs.State();
      InLastN(seen, captures.items.Length);
      var newRanges, extra := ntfs.ObserveMFTWrite(views, ow.event.offset, ow.event.offset + |ow.event.data|);
      FollowedBy(ntfs.env, st, views, ow.event, extra, ntfs.State());
      OfferRanges(newRanges);
      RangesKeepComplete(ps, cs, was, ntfs.dataRanges, newRanges);
      AllFromRanges(cs, newRanges, seen, ntfs.dataRanges);
      OffersSince(base, ps, AllRangeOffers(cs, newRanges));
    }

    method OfferRanges(newRanges: seq<ByteRange>)
      requires Valid()
      modifies this`offered
      ensures Valid() && offered == old(offered) + AllRangeOffers(captures.Captures(), newRanges)
    {
      hide RangeOffers;
      ghost var cs := captures.Captures();
      for i := 0 to |newRanges|
        invariant Valid() && offered == old(offered) + AllRangeOffers(cs, newRanges[..i])
      {
        assert newRanges[..i + 1][..i] == newRanges[..i];
        ReconcileRange(newRanges[i]);
      }
      assert newRanges[..|newRanges|] == newRanges;
    }

    /** The loop itself, over any list of observed writes. known lists the data ranges before the first event
        and after each; every offer made is justified by the captures so far and the ranges its event found
        or left. */
    method Run(events: seq<ObservedWrite>, views: seq<Views>) returns (ghost known: seq<seq<ByteRange>>)
      requires Valid() && Joined() && |views| == |events|
      modifies this`offered, captures, captures.items, ntfs
      ensures Valid() && Joined() && old(offered) <= offered
      ensures captures.Captures() == LastN(old(captures.Captures()) + AllCaptures(events), captures.items.Length)
      ensures |known| == |events| + 1 && known[0] == old(ntfs.dataRanges) && known[|events|] == ntfs.dataRanges
      ensures forall p :: p in offered[|old(offered)|..] ==>
        JustifiedInRun(p, old(captures.Captures()), events, known)
    {
      hide Justified, Complete, Followed, NTFS.Valid, JustifiedInRun;
      ghost var was, base := captures.Captures(), offered;
      known := [ntfs.dataRanges];
      assert was + AllCaptures(events[..0]) == was;
      for i := 0 to |events|
        invariant Valid() && Joined() && base <= offered
        invariant captures.Captures() == LastN(was + AllCaptures(events[..i]), captures.items.Length)
        invariant |known| == i + 1 && known[0] == old(ntfs.dataRanges) && known[i] == ntfs.dataRanges
        invariant forall p :: p in offered[|base|..] ==> JustifiedInRun(p, was, events[..i], known)
      {
        ghost var cs, ps, before := captures.Captures(), offered, known;
        Reconcile(events[i], views[i]);
        AllCapturesNext(was, events, i, captures.items.Length);
        known := known + [ntfs.dataRanges];
        OffersSince(base, ps, offered[|ps|..]);
        assert offered == ps + offered[|ps|..];
        RunJustified(was, events, i, before, ntfs.dataRanges, cs, captures.items.Length);
      }
      assert events[..|events|] == events;
    }
  }

  /** p was offered for some event of the run: it lies in a capture remembered at the start or taken in up to
      then, and in the data ranges known right before or right after. */
  ghost predicate JustifiedInRun(
    p: PunchRequest, was: seq<CaptureRange>, events: seq<ObservedWrite>, known: seq<seq<ByteRange>>)
    requires |known| == |events| + 1
  {
    exists i :: 0 <= i < |events| && JustifiedAt(p, was, events, known, i)
  }

  ghost predicate JustifiedAt(
    p: PunchRequest, was: seq<CaptureRange>, events: seq<ObservedWrite>, known: seq<seq<ByteRange>>, i: nat)
    requires i < |events| && |known| == |events| + 1
  {
    var seen := was + AllCaptures(events[..i + 1]);
    Justified(p, seen, known[i]) || Justified(p, seen, known[i + 1])
  }

  /** One more event of the run. */
  lemma RunJustified(was: seq<CaptureRange>, events: seq<ObservedWrite>, i: nat, known: seq<seq<ByteRange>>,
                     rs: seq<ByteRange>, cs: seq<CaptureRange>, capacity: nat)
    requires i < |events| && |known| == i + 1 && cs == LastN(was + AllCaptures(events[..i]), capacity)
    ensures forall p :: JustifiedInRun(p, was, events[..i], known) ==>
      JustifiedInRun(p, was, events[..i + 1], known + [rs])
    ensures forall p :: Justified(p, cs + events[i].captures, known[i]) || Justified(p, cs + events[i].captures, rs) ==>
      JustifiedInRun(p, was, events[..i + 1], known + [rs])
  {
    hide Justified, LastN, AllCaptures;
    var all, more := events[..i + 1], known + [rs];
    forall p | JustifiedInRun(p, was, events[..i], known) ensures JustifiedInRun(p, was, all, more) {
      var k :| 0 <= k < i && JustifiedAt(p, was, events[..i], known, k);
      assert events[..i][..k + 1] == all[..k + 1];
      assert JustifiedAt(p, was, all, more, k);
    }
    TakenSoFar(was, events, i, cs, capacity);
    var seen := was + AllCaptures(all[..i + 1]);
    forall p | Justified(p, cs + events[i].captures, known[i]) || Justified(p, cs + events[i].captures, rs)
      ensures JustifiedInRun(p, was, all, more)
    {
      assert more[i] == known[i] && more[i + 1] == rs;
      if Justified(p, cs + events[i].captures, known[i]) {
        JustifiedMore(p, cs + events[i].captures, known[i], seen, known[i]);
      } else {
        JustifiedMore(p, cs + events[i].captures, rs, seen, rs);
      }
      assert JustifiedAt(p, was, all, more, i);
    }
  }

  lemma TakenSoFar(was: seq<CaptureRange>, events: seq<ObservedWrite>, i: nat, cs: seq<CaptureRange>, capacity: nat)
    requires i < |events| && cs == LastN(was + AllCaptures(events[..i]), capacity)
    ensures forall c :: c in cs + events[i].captures ==> c in was + AllCaptures(events[..i + 1][..i + 1])
  {
    assert events[..i + 1][..i + 1] == events[..i + 1] && events[..i + 1][..i] == events[..i];
    InLastN(was + AllCaptures(events[..i]), capacity);
    assert AllCaptures(events[..i + 1]) == AllCaptures(events[..i]) + events[i].captures;
  }

  /** Captures that do not overlap a range add no offer for it. */
  lemma {:induction false} OverlapOffers(cs: seq<CaptureRange>, r: ByteRange)
    ensures RangeOffers(Overlapping(cs, r.start, r.end), r) == RangeOffers(cs, r)
  {
    if cs != [] {
      var init, c := cs[..|cs| - 1], cs[|cs| - 1];
      OverlapOffers(init, r);
      var found := Overlapping(init, r.start, r.end);
      if r.start < r.end && !(c.end <= r.start || c.start >= r.end) {
        assert (found + [c])[..|found|] == found;
      } else {
        assert Offer(c, r) == [];
      }
    }
  }

  lemma AllFromCapture(c: CaptureRange, rs: seq<ByteRange>, seen: seq<CaptureRange>)
    requires c in seen
    ensures forall p :: p in CaptureOffers(c, rs) ==> Justified(p, seen, rs)
  {
    forall p | p in CaptureOffers(c, rs) ensures Justified(p, seen, rs) {
      CaptureOffersJustified(c, rs, p);
      JustifiedMore(p, [c], rs, seen, rs);
    }
  }

  lemma AllFromRanges(cs: seq<CaptureRange>, fresh_: seq<ByteRange>, seen: seq<CaptureRange>, now: seq<ByteRange>)
    requires forall c :: c in cs ==> c in seen
    requires forall x :: Holds(fresh_, x) ==> Holds(now, x)
    ensures forall p :: p in AllRangeOffers(cs, fresh_) ==> Justified(p, seen, now)
  {
    forall p | p in AllRangeOffers(cs, fresh_) ensures Justified(p, seen, now) {
      AllRangeOffersJustified(cs, fresh_, p);
      JustifiedMore(p, cs, fresh_, seen, now);
    }
  }
}
