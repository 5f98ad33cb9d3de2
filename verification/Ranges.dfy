/** Byte ranges and the list algebra over them (types.go, and the range functions of ntfs.go). */
module Ranges {
  import opened Sorting

  datatype ByteRange = ByteRange(start: nat, end: nat)

  function MaxU64(a: nat, b: nat): nat { if a > b then a else b }

  function MinU64(a: nat, b: nat): nat { if a < b then a else b }

  ghost predicate Covers(r: ByteRange, x: int) {
    r.start <= x < r.end
  }

  /** The set of bytes a list of ranges stands for. */
  ghost predicate Holds(rs: seq<ByteRange>, x: int) {
    exists r :: r in rs && Covers(r, x)
  }

  /** Sorted and pairwise disjoint; ranges may touch or be empty. */
  ghost predicate Ordered(rs: seq<ByteRange>) {
    && (forall i :: 0 <= i < |rs| ==> rs[i].start <= rs[i].end)
    && (forall i, j :: 0 <= i < j < |rs| ==> rs[i].end <= rs[j].start)
  }

  /** Sorted, non-empty, and separated by at least one byte. */
  ghost predicate Canonical(rs: seq<ByteRange>) {
    && (forall i :: 0 <= i < |rs| ==> rs[i].start < rs[i].end)
    && (forall i, j :: 0 <= i < j < |rs| ==> rs[i].end < rs[j].start)
  }

  function RangeKey(r: ByteRange): (nat, nat) { (r.start, r.end) }

  lemma HoldsSnoc(rs: seq<ByteRange>, r: ByteRange)
    ensures forall x :: Holds(rs + [r], x) <==> Holds(rs, x) || Covers(r, x)
  {
    forall x ensures Holds(rs + [r], x) <==> Holds(rs, x) || Covers(r, x) {
      if Covers(r, x) {
        assert r in rs + [r];
      }
      if q :| q in rs && Covers(q, x) {
        assert q in rs + [r];
      }
    }
  }

  lemma HoldsAt(rs: seq<ByteRange>, k: nat, x: int)
    requires k < |rs| && Covers(rs[k], x)
    ensures Holds(rs, x)
  {
    assert rs[k] in rs;
  }

  lemma HoldsConcat(a: seq<ByteRange>, b: seq<ByteRange>)
    ensures forall x :: Holds(a + b, x) <==> Holds(a, x) || Holds(b, x)
  {
    forall x ensures Holds(a + b, x) <==> Holds(a, x) || Holds(b, x) {
      if q :| q in a && Covers(q, x) {
        assert q in a + b;
      }
      if q :| q in b && Covers(q, x) {
        assert q in a + b;
      }
    }
  }

  lemma HoldsSameElements(a: seq<ByteRange>, b: seq<ByteRange>)
    requires multiset(a) == multiset(b)
    ensures forall x :: Holds(a, x) <==> Holds(b, x)
  {
    assert forall r :: r in a <==> r in multiset(a);
    assert forall r :: r in b <==> r in multiset(b);
  }

  /** A canonical list is determined by the bytes it holds. */
  lemma {:induction false} CanonicalUnique(a: seq<ByteRange>, b: seq<ByteRange>)
    requires Canonical(a) && Canonical(b)
    requires forall x :: Holds(a, x) <==> Holds(b, x)
    ensures a == b
    decreases |a|
  {
    if a == [] {
      if b != [] {
        HoldsAt(b, 0, b[0].start);
      }
    } else if b == [] {
      HoldsAt(a, 0, a[0].start);
    } else {
      HoldsAt(a, 0, a[0].start);
      HoldsAt(b, 0, b[0].start);
      HoldsAt(a, 0, a[0].end - 1);
      HoldsAt(b, 0, b[0].end - 1);
      assert !Holds(a, a[0].end) && !Holds(b, b[0].end);
      assert a[0].start == b[0].start;
      assert a[0] in a && b[0] in b;
      assert !Covers(b[0], a[0].end) && !Covers(a[0], b[0].end);
      assert a[0] == b[0];
      TailHolds(a);
      TailHolds(b);
      CanonicalUnique(a[1..], b[1..]);
      assert a == [a[0]] + a[1..] && b == [b[0]] + b[1..];
    }
  }

  lemma TailHolds(a: seq<ByteRange>)
    requires Canonical(a) && a != []
    ensures Canonical(a[1..])
    ensures forall x :: Holds(a[1..], x) <==> Holds(a, x) && x >= a[0].end
  {
    forall x ensures Holds(a[1..], x) <==> Holds(a, x) && x >= a[0].end {
      if r :| r in a && Covers(r, x) && x >= a[0].end {
        assert r in a[1..];
      }
    }
  }

  /** out is the merged form of the ranges seen, which came sorted by start. */
  ghost predicate Merged(out: seq<ByteRange>, seen: seq<ByteRange>) {
    && Canonical(out)
    && (forall x :: Holds(out, x) <==> Holds(seen, x))
    && (out != [] ==> seen != [] && out[|out| - 1].start <= seen[|seen| - 1].start)
  }

  /** One turn of the merge: r starts no earlier than what was seen. */
  ghost function Merge(out: seq<ByteRange>, r: ByteRange): seq<ByteRange> {
    if r.end <= r.start then out
    else if out != [] && r.start <= out[|out| - 1].end then
      out[..|out| - 1] + [ByteRange(out[|out| - 1].start, MaxU64(r.end, out[|out| - 1].end))]
    else out + [r]
  }

  lemma NothingMerged()
    ensures Merged([], [])
  {
  }

  lemma MergeCanonical(out: seq<ByteRange>, r: ByteRange)
    requires Canonical(out) && (out != [] ==> out[|out| - 1].start <= r.start)
    ensures Canonical(Merge(out, r))
  {
    hide Holds;
    if out != [] {
      assert forall i :: 0 <= i < |out| - 1 ==> out[i].end < out[|out| - 1].start;
    }
  }

  lemma MergeHolds(out: seq<ByteRange>, r: ByteRange)
    requires out != [] ==> out[|out| - 1].start <= r.start
    ensures forall x :: Holds(Merge(out, r), x) <==> Holds(out, x) || Covers(r, x)
  {
    hide Holds;
    HoldsSnoc(out, r);
    if out != [] {
      var init, last := out[..|out| - 1], out[|out| - 1];
      assert out == init + [last];
      HoldsSnoc(init, last);
      HoldsSnoc(init, ByteRange(last.start, MaxU64(r.end, last.end)));
    }
  }

  lemma MergeNext(out: seq<ByteRange>, seen: seq<ByteRange>, r: ByteRange)
    requires Merged(out, seen)
    requires seen != [] ==> seen[|seen| - 1].start <= r.start
    ensures Merged(Merge(out, r), seen + [r])
  {
    hide Holds, Canonical;
    HoldsSnoc(seen, r);
    MergeCanonical(out, r);
    MergeHolds(out, r);
  }

  method CoalesceByteRanges(input: seq<ByteRange>) returns (out: seq<ByteRange>)
    ensures Canonical(out)
    ensures forall x :: Holds(out, x) <==> Holds(input, x)
  {
    hide Holds, Canonical;
    var sorted := Sort(input, RangeKey);
    SortSorts(input, RangeKey);
    HoldsSameElements(input, sorted);
    out := [];
    NothingMerged();
    for k := 0 to |sorted|
      invariant Merged(out, sorted[..k])
    {
      var r := sorted[k];
      assert sorted[..k + 1] == sorted[..k] + [r];
      assert k > 0 ==> !Before(RangeKey(r), RangeKey(sorted[k - 1]));
      MergeNext(out, sorted[..k], r);
      if r.end <= r.start {
        continue;
      }
      if |out| > 0 {
        var last := out[|out| - 1];
        if r.start <= last.end {
          if r.end > last.end {
            out := out[..|out| - 1] + [ByteRange(last.start, r.end)];
          } else {
            assert out == out[..|out| - 1] + [last];
          }
          continue;
        }
      }
      out := out + [r];
    }
    assert sorted[..|sorted|] == sorted;
  }

  /** What is in newRanges but not in oldRanges, found with one moving index into oldRanges. */
  method SubtractRanges(newRanges: seq<ByteRange>, oldRanges: seq<ByteRange>) returns (out: seq<ByteRange>)
    requires Ordered(newRanges) && Ordered(oldRanges)
    ensures Canonical(out)
    ensures forall x :: Holds(out, x) <==> Holds(newRanges, x) && !Holds(oldRanges, x)
  {
    var acc: seq<ByteRange> := [];
    var j := 0;
    for i := 0 to |newRanges|
      invariant 0 <= j <= |oldRanges|
      invariant forall k, m :: 0 <= k < j && i <= m < |newRanges| ==> oldRanges[k].end <= newRanges[m].start
      invariant forall x :: Holds(acc, x) <==> Holds(newRanges[..i], x) && !Holds(oldRanges, x)
    {
      var nr := newRanges[i];
      assert newRanges[..i + 1] == newRanges[..i] + [nr];
      HoldsSnoc(newRanges[..i], nr);
      if nr.end <= nr.start {
        continue;
      }
      while j < |oldRanges| && oldRanges[j].end <= nr.start
        invariant 0 <= j <= |oldRanges|
        invariant forall k :: 0 <= k < j ==> oldRanges[k].end <= nr.start
      {
        j := j + 1;
      }
      var cursor := nr.start;
      ghost var before := acc;
      var k := j;
      while k < |oldRanges| && oldRanges[k].start < nr.end
        invariant j <= k <= |oldRanges|
        invariant nr.start <= cursor
        invariant forall q :: 0 <= q < k ==> oldRanges[q].end <= cursor
        invariant cursor == nr.start || exists q :: 0 <= q < k && oldRanges[q].end == cursor
        invariant forall x :: Holds(acc, x) <==>
            Holds(before, x) || (nr.start <= x < cursor && x < nr.end && !Holds(oldRanges, x))
        decreases |oldRanges| - k
      {
        var old_ := oldRanges[k];
        if old_.end <= cursor {
          k := k + 1;
          continue;
        }
        ghost var cursor0 := cursor;
        if old_.start > cursor {
          var gap := ByteRange(cursor, MinU64(old_.start, nr.end));
          HoldsSnoc(acc, gap);
          NotHeldBetween(oldRanges, k, cursor);
          acc := acc + [gap];
        }
        assert forall x :: Covers(old_, x) ==> Holds(oldRanges, x);
        cursor := old_.end;
        if cursor >= nr.end {
          break;
        }
        k := k + 1;
      }
      if cursor < nr.end {
        NotHeldBetween(oldRanges, k, cursor);
        HoldsSnoc(acc, ByteRange(cursor, nr.end));
        acc := acc + [ByteRange(cursor, nr.end)];
      }
    }
    assert newRanges[..|newRanges|] == newRanges;
    out := CoalesceByteRanges(acc);
  }

  /** Past the first k ranges and before the next one starts, nothing is held. */
  lemma NotHeldBetween(rs: seq<ByteRange>, k: nat, cursor: nat)
    requires Ordered(rs) && k <= |rs|
    requires forall q :: 0 <= q < k ==> rs[q].end <= cursor
    ensures forall x :: cursor <= x && (k < |rs| ==> x < rs[k].start) ==> !Holds(rs, x)
  {
    forall x | cursor <= x && (k < |rs| ==> x < rs[k].start) ensures !Holds(rs, x) {
      if r :| r in rs && Covers(r, x) {
        var i :| 0 <= i < |rs| && rs[i] == r;
        assert i >= k;
        assert i == k || rs[k].end <= rs[i].start;
      }
    }
  }

  /** Binary search for the first range ending after start, then one comparison. */
  method RangesOverlapSnapshot(ranges: seq<ByteRange>, start: nat, end: nat) returns (overlap: bool)
    requires Canonical(ranges)
    ensures overlap <==> exists x :: start <= x < end && Holds(ranges, x)
  {
    if end <= start || |ranges| == 0 {
      return false;
    }
    var idx, hi := 0, |ranges|;
    while idx < hi
      invariant 0 <= idx <= hi <= |ranges|
      invariant forall k :: 0 <= k < idx ==> ranges[k].end <= start
      invariant forall k :: hi <= k < |ranges| ==> ranges[k].end > start
    {
      var mid := (idx + hi) / 2;
      if ranges[mid].end > start {
        hi := mid;
      } else {
        idx := mid + 1;
      }
    }
    overlap := idx < |ranges| && ranges[idx].start < end;
    if overlap {
      HoldsAt(ranges, idx, MaxU64(start, ranges[idx].start));
    } else {
      NotHeldBetween(ranges, idx, start);
    }
  }
}
