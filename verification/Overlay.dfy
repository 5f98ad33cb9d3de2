/** shm.go: the overlay file and its sorted list of generation-tagged extents. */
module Overlay {
  import opened Disk
  import opened Sorting
  import opened Ranges

  datatype ShmExtent = ShmExtent(start: nat, end: nat, gen: nat)

  datatype ShmError = NoError | Closed | InvalidRange | OutsideVolume | IOFailed

  ghost predicate InExtent(e: ShmExtent, x: int) {
    e.start <= x < e.end
  }

  /** Sorted, disjoint, and no extent empty or of generation 0. */
  ghost predicate SortedExtents(es: seq<ShmExtent>) {
    && (forall i :: 0 <= i < |es| ==> es[i].start < es[i].end && es[i].gen > 0)
    && (forall i, j :: 0 <= i < j < |es| ==> es[i].end <= es[j].start)
  }

  /** No two touching neighbours share a generation. */
  ghost predicate Coalesced(es: seq<ShmExtent>) {
    forall i :: 0 < i < |es| ==> es[i - 1].end < es[i].start || es[i - 1].gen != es[i].gen
  }

  /** The generation that owns byte x, 0 when none does. */
  ghost function GenAt(es: seq<ShmExtent>, x: int): nat {
    if es == [] then 0
    else if InExtent(es[|es| - 1], x) then es[|es| - 1].gen
    else GenAt(es[..|es| - 1], x)
  }

  function ExtentKey(e: ShmExtent): (nat, nat) { (e.start, e.end) }

  lemma GenAtSnoc(es: seq<ShmExtent>, e: ShmExtent)
    ensures forall x :: GenAt(es + [e], x) == if InExtent(e, x) then e.gen else GenAt(es, x)
  {
    assert (es + [e])[..|es|] == es;
  }

  lemma GenAtTake(es: seq<ShmExtent>, k: nat)
    requires k < |es|
    ensures es[..k + 1] == es[..k] + [es[k]]
    ensures forall x :: GenAt(es[..k + 1], x) == if InExtent(es[k], x) then es[k].gen else GenAt(es[..k], x)
  {
    assert es[..k + 1] == es[..k] + [es[k]];
    GenAtSnoc(es[..k], es[k]);
  }

  /** A byte that no extent contains has no owner. */
  lemma {:induction false} GenAtNone(es: seq<ShmExtent>, x: int)
    requires forall i :: 0 <= i < |es| ==> !InExtent(es[i], x)
    ensures GenAt(es, x) == 0
  {
    if es != [] {
      GenAtNone(es[..|es| - 1], x);
    }
  }

  /** Bytes before extent k starts are decided by the extents before k. */
  lemma {:induction false} GenAtPrefix(es: seq<ShmExtent>, k: nat, x: int)
    requires SortedExtents(es) && k <= |es|
    requires k < |es| ==> x < es[k].start
    ensures GenAt(es, x) == GenAt(es[..k], x)
  {
    if k < |es| {
      var m := |es| - 1;
      assert k == m || es[k].end <= es[m].start;
      if k < m {
        assert es[..m][k] == es[k];
      }
      GenAtPrefix(es[..m], k, x);
      assert es[..m][..k] == es[..k];
    } else {
      assert es[..k] == es;
    }
  }

  /** The extent that contains a byte is its owner. */
  lemma {:induction false} GenAtHit(es: seq<ShmExtent>, k: nat, x: int)
    requires SortedExtents(es) && k < |es| && InExtent(es[k], x)
    ensures GenAt(es, x) == es[k].gen
  {
    if k < |es| - 1 {
      assert es[k].end <= es[|es| - 1].start;
      GenAtHit(es[..|es| - 1], k, x);
    }
  }

  /** A sorted coalesced list is the only one for its byte-to-generation map. */
  lemma {:induction false} ExtentsUnique(a: seq<ShmExtent>, b: seq<ShmExtent>)
    requires SortedExtents(a) && Coalesced(a) && SortedExtents(b) && Coalesced(b)
    requires forall x :: GenAt(a, x) == GenAt(b, x)
    ensures a == b
    decreases |a|
  {
    if a == [] || b == [] {
      if a != [] {
        GenAtHit(a, 0, a[0].start);
      }
      if b != [] {
        GenAtHit(b, 0, b[0].start);
      }
    } else {
      hide GenAt;
      var m, n := |a| - 1, |b| - 1;
      LastExtent(a, b);
      LastExtent(b, a);
      assert a[m] == b[n];
      assert a == a[..m] + [a[m]] && b == b[..n] + [b[n]];
      forall x ensures GenAt(a[..m], x) == GenAt(b[..n], x) {
        WithoutLast(a, x);
        WithoutLast(b, x);
      }
      ExtentsUnique(a[..m], b[..n]);
    }
  }

  lemma WithoutLast(a: seq<ShmExtent>, x: int)
    requires SortedExtents(a) && a != []
    ensures GenAt(a[..|a| - 1], x) == if InExtent(a[|a| - 1], x) then 0 else GenAt(a, x)
  {
    if InExtent(a[|a| - 1], x) {
      GenAtNone(a[..|a| - 1], x);
    }
  }

  /** The last extents of two lists with the same map end together, agree in generation, and b's does
      not start before a's. */
  lemma LastExtent(a: seq<ShmExtent>, b: seq<ShmExtent>)
    requires SortedExtents(a) && Coalesced(a) && SortedExtents(b) && Coalesced(b)
    requires forall x :: GenAt(a, x) == GenAt(b, x)
    requires a != [] && b != []
    ensures var m, n := |a| - 1, |b| - 1;
      a[m].end <= b[n].end && (a[m].end == b[n].end ==> a[m].gen == b[n].gen && a[m].start <= b[n].start)
  {
    var m, n := |a| - 1, |b| - 1;
    if a[m].end > b[n].end {
      GenAtHit(a, m, a[m].end - 1);
      GenAtNone(b, a[m].end - 1);
    } else if a[m].end == b[n].end {
      GenAtHit(a, m, a[m].end - 1);
      GenAtHit(b, n, b[n].end - 1);
      if b[n].start < a[m].start {
        GenAtHit(b, n, a[m].start - 1);
        if m > 0 && a[m - 1].end == a[m].start {
          GenAtHit(a, m - 1, a[m].start - 1);
        } else {
          GenAtNone(a, a[m].start - 1);
        }
      }
    }
  }

  /** Appending e, or extending the last extent when it touches e and has its generation. */
  ghost function Merge(out: seq<ShmExtent>, e: ShmExtent): seq<ShmExtent> {
    var n := |out| - 1;
    if out != [] && out[n].end == e.start && out[n].gen == e.gen
    then out[..n] + [ShmExtent(out[n].start, e.end, e.gen)]
    else out + [e]
  }

  lemma MergeSorted(out: seq<ShmExtent>, e: ShmExtent)
    requires SortedExtents(out) && Coalesced(out)
    requires e.start < e.end && e.gen > 0
    requires out != [] ==> out[|out| - 1].end <= e.start
    ensures SortedExtents(Merge(out, e)) && Coalesced(Merge(out, e))
    ensures Merge(out, e)[|Merge(out, e)| - 1].end == e.end
  {
    assert forall i :: 0 <= i < |out| ==> out[i].end <= e.start;
    var n := |out| - 1;
    if out != [] && out[n].end == e.start && out[n].gen == e.gen {
      MergeExtends(out, e);
    } else {
      MergeAppends(out, e);
    }
  }

  lemma MergeAppends(out: seq<ShmExtent>, e: ShmExtent)
    requires SortedExtents(out) && Coalesced(out) && e.start < e.end && e.gen > 0
    requires forall i :: 0 <= i < |out| ==> out[i].end <= e.start
    requires out == [] || out[|out| - 1].end != e.start || out[|out| - 1].gen != e.gen
    ensures SortedExtents(out + [e]) && Coalesced(out + [e])
  {
    var r := out + [e];
    assert forall i :: 0 <= i < |out| ==> r[i] == out[i];
  }

  lemma MergeExtends(out: seq<ShmExtent>, e: ShmExtent)
    requires SortedExtents(out) && Coalesced(out) && out != []
    requires e.start < e.end && out[|out| - 1].end == e.start && out[|out| - 1].gen == e.gen
    ensures SortedExtents(Merge(out, e)) && Coalesced(Merge(out, e))
  {
    var r, n := Merge(out, e), |out| - 1;
    assert r[n] == ShmExtent(out[n].start, e.end, e.gen);
    assert forall i :: 0 <= i < n ==> r[i] == out[i];
  }

  lemma MergeGenAt(out: seq<ShmExtent>, e: ShmExtent, x: int)
    requires e.start < e.end
    requires forall i :: 0 <= i < |out| ==> out[i].start < out[i].end && out[i].end <= e.start
    ensures GenAt(Merge(out, e), x) == if InExtent(e, x) then e.gen else GenAt(out, x)
  {
    var n := |out| - 1;
    if out != [] && out[n].end == e.start && out[n].gen == e.gen {
      var last := ShmExtent(out[n].start, e.end, e.gen);
      assert (out[..n] + [last])[..n] == out[..n];
    } else {
      assert (out + [e])[..|out|] == out;
    }
  }

  /** out is the coalesced form of es. */
  ghost predicate CoalescedFormOf(out: seq<ShmExtent>, es: seq<ShmExtent>) {
    && SortedExtents(out) && Coalesced(out)
    && (out == [] <==> es == [])
    && (out != [] ==> out[|out| - 1].end == es[|es| - 1].end)
    && forall x :: GenAt(out, x) == GenAt(es, x)
  }

  lemma MergeNext(out: seq<ShmExtent>, es: seq<ShmExtent>, e: ShmExtent)
    requires SortedExtents(es + [e]) && CoalescedFormOf(out, es)
    ensures CoalescedFormOf(Merge(out, e), es + [e])
  {
    var all := es + [e];
    assert all[|es|] == e && forall i :: 0 <= i < |es| ==> all[i] == es[i];
    MergeSorted(out, e);
    GenAtSnoc(es, e);
    assert forall i :: 0 <= i < |out| ==> out[i].end <= out[|out| - 1].end;
    forall x ensures GenAt(Merge(out, e), x) == GenAt(all, x) {
      MergeGenAt(out, e, x);
    }
  }

  /** No byte lies in two extents of the list, whatever their order, and only empty extents may bear
      generation 0. */
  ghost predicate Apart(es: seq<ShmExtent>) {
    && (forall e :: e in es && e.start < e.end ==> e.gen > 0 && multiset(es)[e] == 1)
    && (forall e, f :: e in es && f in es && e != f && e.start < e.end && f.start < f.end ==>
          e.end <= f.start || f.end <= e.start)
  }

  /** out gives each byte the generation of the extent of es it lies in. */
  ghost predicate SameMap(out: seq<ShmExtent>, es: seq<ShmExtent>) {
    && (forall e, x :: e in es && InExtent(e, x) ==> GenAt(out, x) == e.gen)
    && (forall x :: GenAt(out, x) != 0 ==> exists e :: e in es && InExtent(e, x))
  }

  ghost function NonEmpty(es: seq<ShmExtent>): (r: seq<ShmExtent>)
    ensures forall e :: e in r <==> e in es && e.start < e.end
  {
    if es == [] then []
    else
      var init, last := NonEmpty(es[..|es| - 1]), es[|es| - 1];
      assert es == es[..|es| - 1] + [last];
      if last.start < last.end then init + [last] else init
  }

  lemma NonEmptyTake(es: seq<ShmExtent>, k: nat)
    requires k < |es|
    ensures NonEmpty(es[..k + 1]) == if es[k].start < es[k].end then NonEmpty(es[..k]) + [es[k]] else NonEmpty(es[..k])
  {
    assert es[..k + 1][..k] == es[..k];
  }

  lemma ApartPrefix(es: seq<ShmExtent>, k: nat)
    requires Apart(es) && k <= |es|
    ensures Apart(es[..k])
  {
    assert es == es[..k] + es[k..];
  }

  /** In an ascending list of apart extents, an earlier non-empty one ends before a later one starts. */
  lemma ApartOrder(es: seq<ShmExtent>, i: nat, j: nat)
    requires Apart(es) && Ascending(es, ExtentKey) && i < j < |es|
    requires es[i].start < es[i].end && es[j].start < es[j].end
    ensures es[i].end <= es[j].start
  {
    assert !Before(ExtentKey(es[j]), ExtentKey(es[i]));
    assert es[i] != es[j] by {
      if es[i] == es[j] {
        CountedTwice(es, i, j);
      }
    }
  }

  lemma CountedTwice(es: seq<ShmExtent>, i: nat, j: nat)
    requires i < j < |es| && es[i] == es[j]
    ensures multiset(es)[es[i]] >= 2
  {
    assert es == es[..j] + es[j..] && es[i] in es[..j] && es[i] in es[j..];
  }

  lemma NonEmptyEnds(es: seq<ShmExtent>, j: nat)
    requires Apart(es) && Ascending(es, ExtentKey) && j < |es| && es[j].start < es[j].end
    ensures forall e :: e in NonEmpty(es[..j]) ==> e.end <= es[j].start
  {
    forall e | e in NonEmpty(es[..j]) ensures e.end <= es[j].start {
      var i :| 0 <= i < j && es[i] == e;
      ApartOrder(es, i, j);
    }
  }

  lemma {:induction false} NonEmptySorted(es: seq<ShmExtent>)
    requires Apart(es) && Ascending(es, ExtentKey)
    ensures SortedExtents(NonEmpty(es))
  {
    if es != [] {
      var init, last := es[..|es| - 1], es[|es| - 1];
      ApartPrefix(es, |es| - 1);
      NonEmptySorted(init);
      assert last in es;
      if last.start < last.end {
        NonEmptyEnds(es, |es| - 1);
        SortedAppend(NonEmpty(init), last);
      }
      hide Apart, Ascending, NonEmpty;
      NonEmptyTake(es, |es| - 1);
      assert es[..|es|] == es;
    }
  }

  lemma SortedAppend(es: seq<ShmExtent>, e: ShmExtent)
    requires SortedExtents(es) && e.start < e.end && e.gen > 0
    requires forall f :: f in es ==> f.end <= e.start
    ensures SortedExtents(es + [e])
  {
  }

  lemma SortedSameMap(es: seq<ShmExtent>)
    requires SortedExtents(es)
    ensures SameMap(es, es)
  {
    forall e, x | e in es && InExtent(e, x) ensures GenAt(es, x) == e.gen {
      var k :| 0 <= k < |es| && es[k] == e;
      GenAtHit(es, k, x);
    }
    forall x | GenAt(es, x) != 0 ensures exists e :: e in es && InExtent(e, x) {
      if !exists e :: e in es && InExtent(e, x) {
        GenAtNone(es, x);
      }
    }
  }

  lemma SortedIsApart(es: seq<ShmExtent>)
    requires SortedExtents(es)
    ensures Apart(es)
  {
    forall e | e in es ensures multiset(es)[e] == 1 {
      var k :| 0 <= k < |es| && es[k] == e;
      CountedOnce(es, k);
    }
  }

  lemma CountedOnce(es: seq<ShmExtent>, k: nat)
    requires k < |es| && forall j :: 0 <= j < |es| && j != k ==> es[j] != es[k]
    ensures multiset(es)[es[k]] == 1
  {
    assert es == es[..k] + [es[k]] + es[k + 1..];
    assert es[k] !in es[..k] && es[k] !in es[k + 1..];
  }

  /** Two sorted lists that both agree with a third have the same map. */
  lemma SameMapGenAt(out: seq<ShmExtent>, es: seq<ShmExtent>)
    requires SortedExtents(es) && SameMap(out, es)
    ensures forall x :: GenAt(out, x) == GenAt(es, x)
  {
    SortedSameMap(es);
    forall x ensures GenAt(out, x) == GenAt(es, x) {
      if e :| e in es && InExtent(e, x) {
        assert GenAt(out, x) == e.gen == GenAt(es, x);
      }
    }
  }

  /** Sorting apart extents puts them in an order in which every prefix, without its empty extents, is
      sorted and disjoint. */
  lemma SortedForm(input: seq<ShmExtent>, sorted: seq<ShmExtent>, k: nat)
    requires Apart(input) && multiset(sorted) == multiset(input) && Ascending(sorted, ExtentKey) && k <= |sorted|
    ensures SortedExtents(NonEmpty(sorted[..k]))
  {
    assert forall e :: e in sorted <==> e in multiset(sorted);
    assert forall e :: e in input <==> e in multiset(input);
    ApartPrefix(sorted, k);
    NonEmptySorted(sorted[..k]);
  }

  lemma FormSameMap(out: seq<ShmExtent>, input: seq<ShmExtent>, sorted: seq<ShmExtent>)
    requires multiset(sorted) == multiset(input)
    requires CoalescedFormOf(out, NonEmpty(sorted)) && SortedExtents(NonEmpty(sorted))
    ensures SortedExtents(out) && Coalesced(out) && SameMap(out, input)
  {
    assert forall e :: e in input <==> e in multiset(input);
    assert forall e :: e in sorted <==> e in multiset(sorted);
    SortedSameMap(NonEmpty(sorted));
  }

  /** One turn of the loop, for whatever extent comes next in the sorted list. */
  lemma CoalesceTurn(out: seq<ShmExtent>, input: seq<ShmExtent>, sorted: seq<ShmExtent>, k: nat)
    requires Apart(input) && sorted == Sort(input, ExtentKey) && k < |sorted|
    requires CoalescedFormOf(out, NonEmpty(sorted[..k]))
    ensures CoalescedFormOf(
      if sorted[k].start < sorted[k].end then Merge(out, sorted[k]) else out, NonEmpty(sorted[..k + 1]))
  {
    hide CoalescedFormOf, NonEmpty, Apart, Ascending, Sort, Merge;
    SortSorts(input, ExtentKey);
    NonEmptyTake(sorted, k);
    SortedForm(input, sorted, k + 1);
    if sorted[k].start < sorted[k].end {
      MergeNext(out, NonEmpty(sorted[..k]), sorted[k]);
    }
  }

  lemma NothingCoalesced(sorted: seq<ShmExtent>)
    ensures CoalescedFormOf([], NonEmpty(sorted[..0])) && SameMap([], [])
    ensures SortedExtents([]) && Coalesced([])
  {
  }

  method CoalesceSHM(input: seq<ShmExtent>) returns (out: seq<ShmExtent>)
    requires Apart(input)
    ensures SortedExtents(out) && Coalesced(out) && SameMap(out, input)
  {
    hide CoalescedFormOf, NonEmpty, Apart, SameMap, GenAt, SortedExtents, Coalesced, Ascending, Sort;
    NothingCoalesced(input);
    if |input| == 0 {
      return [];
    }
    var sorted := Sort(input, ExtentKey);
    SortSorts(input, ExtentKey);
    NothingCoalesced(sorted);
    out := [];
    for k := 0 to |sorted|
      invariant CoalescedFormOf(out, NonEmpty(sorted[..k]))
    {
      var e := sorted[k];
      CoalesceTurn(out, input, sorted, k);
      if e.end <= e.start {
        continue;
      }
      if |out| > 0 {
        var last := out[|out| - 1];
        if last.end == e.start && last.gen == e.gen {
          out := out[..|out| - 1] + [ShmExtent(last.start, e.end, last.gen)];
          continue;
        }
      }
      out := out + [e];
    }
    assert sorted[..|sorted|] == sorted;
    SortedForm(input, sorted, |sorted|);
    FormSameMap(out, input, sorted);
  }

  /** No extent of the list reaches past b. */
  ghost predicate EndsBy(es: seq<ShmExtent>, b: int) {
    forall i :: 0 <= i < |es| ==> es[i].end <= b
  }

  ghost function LastEnd(es: seq<ShmExtent>): nat {
    if es == [] then 0 else es[|es| - 1].end
  }

  lemma GenAtSnocAt(es: seq<ShmExtent>, e: ShmExtent, x: int)
    ensures GenAt(es + [e], x) == if InExtent(e, x) then e.gen else GenAt(es, x)
  {
    GenAtSnoc(es, e);
  }

  lemma AppendSorted(out: seq<ShmExtent>, e: ShmExtent)
    requires SortedExtents(out) && EndsBy(out, e.start) && e.start < e.end && e.gen > 0
    ensures SortedExtents(out + [e]) && EndsBy(out + [e], e.end)
  {
  }

  lemma AppendExtent(out: seq<ShmExtent>, e: ShmExtent)
    requires SortedExtents(out) && EndsBy(out, e.start) && e.start < e.end && e.gen > 0
    ensures SortedExtents(out + [e]) && EndsBy(out + [e], e.end)
    ensures forall x :: GenAt(out + [e], x) == if InExtent(e, x) then e.gen else GenAt(out, x)
  {
    GenAtSnoc(out, e);
  }

  /** One turn of replaceRangeLocked: what the loop body appends for old extent e. */
  ghost function ReplaceStep(out: seq<ShmExtent>, e: ShmExtent, n: ShmExtent, inserted: bool): seq<ShmExtent> {
    if e.end <= n.start then out + [e]
    else if e.start >= n.end then (if inserted then out else out + [n]) + [e]
    else
      var left := if e.start < n.start then out + [ShmExtent(e.start, n.start, e.gen)] else out;
      var mid := if inserted then left else left + [n];
      if e.end > n.end then mid + [ShmExtent(n.end, e.end, e.gen)] else mid
  }

  /** out is what the extents seen so far become once n has overwritten its range. */
  ghost predicate Replaced(out: seq<ShmExtent>, seen: seq<ShmExtent>, n: ShmExtent, inserted: bool) {
    && SortedExtents(out)
    && (!inserted ==> out == seen && EndsBy(seen, n.start))
    && (inserted ==> LastEnd(seen) > n.start && EndsBy(out, MaxU64(n.end, LastEnd(seen))))
    && forall x :: GenAt(out, x) == if inserted && InExtent(n, x) then n.gen else GenAt(seen, x)
  }

  lemma ReplaceNext(out: seq<ShmExtent>, es: seq<ShmExtent>, k: nat, n: ShmExtent, inserted: bool)
    requires SortedExtents(es) && k < |es| && n.start < n.end && n.gen > 0
    requires Replaced(out, es[..k], n, inserted)
    ensures Replaced(ReplaceStep(out, es[k], n, inserted), es[..k + 1], n, inserted || es[k].end > n.start)
  {
    var e := es[k];
    GenAtTake(es, k);
    assert LastEnd(es[..k + 1]) == e.end;
    if k > 0 {
      assert es[..k][k - 1] == es[k - 1] && es[k - 1].end <= e.start;
    }
    assert LastEnd(es[..k]) <= e.start;
    if e.end <= n.start {
      assert !inserted;
      AppendExtent(out, e);
    } else if e.start >= n.end {
      if !inserted {
        AppendExtent(out, n);
        AppendExtent(out + [n], e);
      } else {
        AppendExtent(out, e);
      }
    } else {
      ReplaceOverlap(out, es, k, n, inserted);
    }
  }

  lemma ReplaceOverlap(out: seq<ShmExtent>, es: seq<ShmExtent>, k: nat, n: ShmExtent, inserted: bool)
    requires SortedExtents(es) && k < |es| && n.start < n.end && n.gen > 0
    requires Replaced(out, es[..k], n, inserted)
    requires LastEnd(es[..k]) <= es[k].start
    requires es[k].end > n.start && es[k].start < n.end
    ensures Replaced(ReplaceStep(out, es[k], n, inserted), es[..k + 1], n, true)
  {
    var e := es[k];
    GenAtTake(es, k);
    ReplaceOverlapSorted(out, e, n, inserted);
    forall x ensures GenAt(ReplaceStep(out, e, n, inserted), x)
        == if InExtent(n, x) then n.gen else GenAt(es[..k + 1], x)
    {
      ReplaceOverlapGen(out, e, n, inserted, x);
    }
  }

  lemma ReplaceOverlapSorted(out: seq<ShmExtent>, e: ShmExtent, n: ShmExtent, inserted: bool)
    requires SortedExtents(out) && e.start < e.end && e.gen > 0 && n.start < n.end && n.gen > 0
    requires e.end > n.start && e.start < n.end
    requires if inserted then e.start > n.start && EndsBy(out, n.end) else EndsBy(out, MinU64(e.start, n.start))
    ensures SortedExtents(ReplaceStep(out, e, n, inserted))
    ensures EndsBy(ReplaceStep(out, e, n, inserted), MaxU64(n.end, e.end))
  {
    var left := if e.start < n.start then out + [ShmExtent(e.start, n.start, e.gen)] else out;
    if e.start < n.start {
      AppendSorted(out, ShmExtent(e.start, n.start, e.gen));
    }
    var mid := if inserted then left else left + [n];
    if !inserted {
      AppendSorted(left, n);
    }
    if e.end > n.end {
      AppendSorted(mid, ShmExtent(n.end, e.end, e.gen));
    }
  }

  lemma ReplaceOverlapGen(out: seq<ShmExtent>, e: ShmExtent, n: ShmExtent, inserted: bool, x: int)
    requires e.start < e.end && n.start < n.end && e.end > n.start && e.start < n.end
    requires inserted ==> e.start > n.start && (InExtent(n, x) ==> GenAt(out, x) == n.gen)
    ensures GenAt(ReplaceStep(out, e, n, inserted), x)
      == if InExtent(n, x) then n.gen else if InExtent(e, x) then e.gen else GenAt(out, x)
  {
    var left := if e.start < n.start then out + [ShmExtent(e.start, n.start, e.gen)] else out;
    GenAtSnocAt(out, ShmExtent(e.start, n.start, e.gen), x);
    var mid := if inserted then left else left + [n];
    GenAtSnocAt(left, n, x);
    if e.end > n.end {
      GenAtSnocAt(mid, ShmExtent(n.end, e.end, e.gen), x);
    }
  }

  /** One turn of removeRangeGenerationLocked for old extent e. */
  ghost function RemoveStep(out: seq<ShmExtent>, e: ShmExtent, start: nat, end: nat, gen: nat): seq<ShmExtent> {
    if e.gen != gen || e.end <= start || e.start >= end then out + [e]
    else
      var left := if e.start < start then out + [ShmExtent(e.start, start, e.gen)] else out;
      if e.end > end then left + [ShmExtent(end, e.end, e.gen)] else left
  }

  /** out is what the extents seen so far become without generation gen in the range. */
  ghost predicate Removed(out: seq<ShmExtent>, seen: seq<ShmExtent>, start: nat, end: nat, gen: nat) {
    && SortedExtents(out)
    && EndsBy(out, LastEnd(seen))
    && forall x :: GenAt(out, x) == if start <= x < end && GenAt(seen, x) == gen then 0 else GenAt(seen, x)
  }

  lemma RemoveNext(out: seq<ShmExtent>, es: seq<ShmExtent>, k: nat, start: nat, end: nat, gen: nat)
    requires SortedExtents(es) && k < |es| && start < end
    requires Removed(out, es[..k], start, end, gen)
    ensures Removed(RemoveStep(out, es[k], start, end, gen), es[..k + 1], start, end, gen)
  {
    var e := es[k];
    GenAtTake(es, k);
    if k > 0 {
      assert es[..k][k - 1] == es[k - 1] && es[k - 1].end <= e.start;
    }
    assert EndsBy(out, e.start);
    RemoveSorted(out, e, start, end, gen);
    assert LastEnd(es[..k + 1]) == e.end;
    forall x ensures GenAt(RemoveStep(out, e, start, end, gen), x)
        == if start <= x < end && GenAt(es[..k + 1], x) == gen then 0 else GenAt(es[..k + 1], x)
    {
      if InExtent(e, x) {
        GenAtNone(out, x);
      }
      RemoveGen(out, e, start, end, gen, x);
    }
  }

  lemma RemoveSorted(out: seq<ShmExtent>, e: ShmExtent, start: nat, end: nat, gen: nat)
    requires SortedExtents(out) && EndsBy(out, e.start) && e.start < e.end && e.gen > 0 && start < end
    ensures SortedExtents(RemoveStep(out, e, start, end, gen))
    ensures EndsBy(RemoveStep(out, e, start, end, gen), e.end)
  {
    if e.gen != gen || e.end <= start || e.start >= end {
      AppendSorted(out, e);
    } else {
      var left := if e.start < start then out + [ShmExtent(e.start, start, e.gen)] else out;
      if e.start < start {
        AppendSorted(out, ShmExtent(e.start, start, e.gen));
      }
      if e.end > end {
        AppendSorted(left, ShmExtent(end, e.end, e.gen));
      }
    }
  }

  lemma RemoveGen(out: seq<ShmExtent>, e: ShmExtent, start: nat, end: nat, gen: nat, x: int)
    requires start < end && (InExtent(e, x) ==> GenAt(out, x) == 0)
    ensures GenAt(RemoveStep(out, e, start, end, gen), x)
      == if InExtent(e, x) then (if start <= x < end && e.gen == gen then 0 else e.gen) else GenAt(out, x)
  {
    if e.gen != gen || e.end <= start || e.start >= end {
      GenAtSnocAt(out, e, x);
    } else {
      var left := if e.start < start then out + [ShmExtent(e.start, start, e.gen)] else out;
      GenAtSnocAt(out, ShmExtent(e.start, start, e.gen), x);
      if e.end > end {
        GenAtSnocAt(left, ShmExtent(end, e.end, e.gen), x);
      }
    }
  }

  /** The owner of every byte of a disk of the given size. */
  ghost function Owners(es: seq<ShmExtent>, size: nat): (o: seq<nat>)
    ensures |o| == size && forall x :: 0 <= x < size ==> o[x] == GenAt(es, x)
  {
    seq(size, x requires 0 <= x < size => GenAt(es, x))
  }

  /** What the locked half of a read makes of a buffer that starts at off. */
  ghost function Blend(buf: seq<byte>, off: nat, d: DiskState): (r: seq<byte>)
    requires Disk.Valid(d) && off + |buf| <= |d.image|
    ensures |r| == |buf|
    ensures forall i :: 0 <= i < |buf| ==> r[i] == if d.owner[off + i] != 0 then d.overlay[off + i] else buf[i]
  {
    seq(|buf|, i requires 0 <= i < |buf| => if d.owner[off + i] != 0 then d.overlay[off + i] else buf[i])
  }

  /** buf is what the extents of es make of the buffer was. */
  ghost predicate Picked(buf: seq<byte>, off: nat, es: seq<ShmExtent>, file: seq<byte>, was: seq<byte>)
    requires off + |buf| <= |file| && |was| == |buf|
  {
    forall i {:trigger buf[i]} {:trigger was[i]} :: 0 <= i < |buf| ==>
      buf[i] == if GenAt(es, off + i) != 0 then file[off + i] else was[i]
  }

  ghost function Overlaid(buf: seq<byte>, off: nat, e: ShmExtent, file: seq<byte>): (r: seq<byte>)
    requires off + |buf| <= |file|
    ensures |r| == |buf|
    ensures forall i :: 0 <= i < |buf| ==> r[i] == if InExtent(e, off + i) then file[off + i] else buf[i]
  {
    seq(|buf|, i requires 0 <= i < |buf| => if InExtent(e, off + i) then file[off + i] else buf[i])
  }

  lemma PickNext(buf: seq<byte>, off: nat, es: seq<ShmExtent>, k: nat, file: seq<byte>, was: seq<byte>)
    requires off + |buf| <= |file| && |was| == |buf|
    requires SortedExtents(es) && k < |es| && Picked(buf, off, es[..k], file, was)
    ensures Picked(Overlaid(buf, off, es[k], file), off, es[..k + 1], file, was)
    ensures es[k].end <= off || es[k].start >= off + |buf| ==> Picked(buf, off, es[..k + 1], file, was)
  {
    GenAtTake(es, k);
    var r, next := Overlaid(buf, off, es[k], file), es[..k + 1];
    forall i | 0 <= i < |buf|
      ensures r[i] == if GenAt(next, off + i) != 0 then file[off + i] else was[i]
    {
      assert buf[i] == if GenAt(es[..k], off + i) != 0 then file[off + i] else was[i];
      assert GenAt(next, off + i) == if InExtent(es[k], off + i) then es[k].gen else GenAt(es[..k], off + i);
    }
  }

  lemma PickedBlend(buf: seq<byte>, off: nat, es: seq<ShmExtent>, k: nat, d: DiskState, was: seq<byte>)
    requires Disk.Valid(d) && off + |buf| <= |d.image| && |was| == |buf| && d.owner == Owners(es, |d.image|)
    requires SortedExtents(es) && k <= |es| && (k < |es| ==> off + |buf| <= es[k].start)
    requires Picked(buf, off, es[..k], d.overlay, was)
    ensures buf == Blend(was, off, d)
  {
    forall i | 0 <= i < |buf| ensures buf[i] == Blend(was, off, d)[i] {
      GenAtPrefix(es, k, off + i);
      assert d.owner[off + i] == GenAt(es, off + i);
    }
  }

  lemma OwnsIsGenAt(d: DiskState, es: seq<ShmExtent>, p: ShmExtent)
    requires Disk.Valid(d) && p.start <= p.end <= |d.image| && d.owner == Owners(es, |d.image|)
    ensures Owns(d, p.start, p.end - p.start, p.gen)
      <==> p.gen != 0 && forall x :: InExtent(p, x) ==> GenAt(es, x) == p.gen
  {
    if forall x :: InExtent(p, x) ==> GenAt(es, x) == p.gen {
      forall x | Within(p.start, p.end - p.start, x) ensures d.owner[x] == p.gen {
        assert InExtent(p, x);
      }
    }
    if Owns(d, p.start, p.end - p.start, p.gen) {
      forall x | InExtent(p, x) ensures GenAt(es, x) == p.gen {
        assert Within(p.start, p.end - p.start, x);
      }
    }
  }

  class SHMDisk {
    const base: array<byte>
    const file: array<byte>
    const size: nat

    var nextGen: nat
    var closed: bool
    var extents: seq<ShmExtent>

    ghost predicate Valid()
      reads this, file
    {
      && base != file
      && base.Length == file.Length == size
      && nextGen >= 1
      && SortedExtents(extents) && Coalesced(extents)
      && (forall x :: GenAt(extents, x) < nextGen)
      && (forall x :: GenAt(extents, x) != 0 ==> 0 <= x < size)
      && (closed ==> extents == [])
      && (!closed ==> forall x :: 0 <= x < size && GenAt(extents, x) == 0 ==> file[x] == 0)
    }

    /** The disk this overlay and its base image stand for. */
    ghost function State(): (d: DiskState)
      reads this, base, file
      requires Valid()
      ensures Disk.Valid(d) && (!closed ==> Clean(d)) && |d.image| == size
    {
      DiskState(base[..], file[..], Owners(extents, size), nextGen)
    }

    constructor (base: array<byte>)
      requires base.Length > 0
      ensures Valid() && fresh(file) && this.base == base && !closed
      ensures State() == DiskState(base[..], seq(base.Length, _ => 0), seq(base.Length, _ => 0), 1)
    {
      this.base := base;
      size := base.Length;
      file := new byte[base.Length](_ => 0);
      nextGen := 1;
      closed := false;
      extents := [];
    }

    /** Accepts the bytes into the overlay under a new generation, or changes nothing. */
    method StageWrite(data: seq<byte>, off: nat, fileOk: bool) returns (extent: ShmExtent, err: ShmError)
      requires Valid()
      modifies this`nextGen, this`extents, file
      ensures Valid() && closed == old(closed)
      ensures err ==
        if |data| == 0 then NoError
        else if off >= size || |data| > size - off then OutsideVolume
        else if closed then Closed
        else if !fileOk then IOFailed
        else NoError
      ensures |data| > 0 && err == NoError ==>
        && extent == ShmExtent(off, off + |data|, old(nextGen))
        && State() == Stage(old(State()), off, data)
      ensures |data| == 0 || err != NoError ==> State() == old(State()) && extents == old(extents)
      ensures |data| == 0 ==> extent == ShmExtent(off, off, 0)
    {
      if |data| == 0 {
        return ShmExtent(off, off, 0), NoError;
      }
      extent := ShmExtent(0, 0, 0);
      if off >= size || |data| > size - off {
        return extent, OutsideVolume;
      }
      var end := off + |data|;
      if closed {
        return extent, Closed;
      }
      if !fileOk {
        return extent, IOFailed;
      }
      forall x | off <= x < end {
        file[x] := data[x - off];
      }
      extent := ShmExtent(off, end, nextGen);
      nextGen := nextGen + 1;
      ReplaceRangeLocked(extent);
      assert file[..] == Patch(old(file[..]), off, data);
      err := NoError;
    }

    /** A pointwise overwrite of the byte-to-generation map. */
    method ReplaceRangeLocked(newExtent: ShmExtent)
      requires SortedExtents(extents)
      requires newExtent.start < newExtent.end && newExtent.gen > 0
      modifies this`extents
      ensures SortedExtents(extents) && Coalesced(extents)
      ensures forall x ::
        GenAt(extents, x) == if InExtent(newExtent, x) then newExtent.gen else GenAt(old(extents), x)
    {
      var es := extents;
      var out: seq<ShmExtent> := [];
      var inserted := false;
      for k := 0 to |es|
        invariant Replaced(out, es[..k], newExtent, inserted)
      {
        var e := es[k];
        ReplaceNext(out, es, k, newExtent, inserted);
        if e.end <= newExtent.start {
          out := out + [e];
          continue;
        }
        if e.start >= newExtent.end {
          if !inserted {
            out := out + [newExtent];
            inserted := true;
          }
          out := out + [e];
          continue;
        }
        if e.start < newExtent.start {
          out := out + [ShmExtent(e.start, newExtent.start, e.gen)];
        }
        if !inserted {
          out := out + [newExtent];
          inserted := true;
        }
        if e.end > newExtent.end {
          out := out + [ShmExtent(newExtent.end, e.end, e.gen)];
        }
      }
      assert es[..|es|] == es;
      if !inserted {
        AppendExtent(out, newExtent);
        out := out + [newExtent];
      }
      SortedIsApart(out);
      extents := CoalesceSHM(out);
      SameMapGenAt(extents, out);
    }

    /** A pointwise delete of one generation from a range. */
    method RemoveRangeGenerationLocked(start: nat, end: nat, gen: nat)
      requires SortedExtents(extents) && start < end
      modifies this`extents
      ensures SortedExtents(extents) && Coalesced(extents)
      ensures forall x ::
        GenAt(extents, x) == (if start <= x < end && GenAt(old(extents), x) == gen then 0 else GenAt(old(extents), x))
    {
      var es := extents;
      var out: seq<ShmExtent> := [];
      for k := 0 to |es|
        invariant Removed(out, es[..k], start, end, gen)
      {
        var e := es[k];
        RemoveNext(out, es, k, start, end, gen);
        if e.gen != gen || e.end <= start || e.start >= end {
          out := out + [e];
          continue;
        }
        if e.start < start {
          out := out + [ShmExtent(e.start, start, e.gen)];
        }
        if e.end > end {
          out := out + [ShmExtent(end, e.end, e.gen)];
        }
      }
      assert es[..|es|] == es;
      SortedIsApart(out);
      extents := CoalesceSHM(out);
      SameMapGenAt(extents, out);
    }

    /** Whether one generation owns every byte of the wanted extent. */
    method CoversGenerationLocked(want: ShmExtent) returns (covered: bool)
      requires SortedExtents(extents) && want.start < want.end
      ensures covered <==> want.gen != 0 && forall x :: InExtent(want, x) ==> GenAt(extents, x) == want.gen
    {
      var cursor := want.start;
      for k := 0 to |extents|
        invariant want.start <= cursor < want.end
        invariant EndsBy(extents[..k], cursor)
        invariant cursor > want.start ==> want.gen != 0
        invariant forall x :: want.start <= x < cursor ==> GenAt(extents, x) == want.gen
      {
        var e := extents[k];
        assert extents[..k + 1] == extents[..k] + [e];
        if e.end <= cursor {
          continue;
        }
        if e.start > cursor {
          GenAtPrefix(extents, k, cursor);
          GenAtNone(extents[..k], cursor);
          return false;
        }
        GenAtHit(extents, k, cursor);
        if e.gen != want.gen {
          return false;
        }
        forall x | InExtent(e, x) ensures GenAt(extents, x) == e.gen {
          GenAtHit(extents, k, x);
        }
        if e.end >= want.end {
          return true;
        }
        cursor := e.end;
      }
      assert extents[..|extents|] == extents;
      GenAtNone(extents, cursor);
      return false;
    }

    /** Lets go of every planned extent whose generation still owns all of it, and reports the first
        failure. punchOk[i] says whether hole punching the overlay works for extent i. */
    method ReleaseIfCurrent(planned: seq<ShmExtent>, punchOk: seq<bool>) returns (err: ShmError)
      requires Valid() && |punchOk| == |planned|
      requires forall i :: 0 <= i < |planned| ==> planned[i].end <= size
      modifies this`extents, file
      ensures Valid() && closed == old(closed)
      ensures (State(), err) == ReleaseAll(old(State()), planned, punchOk, old(closed))
    {
      err := NoError;
      ghost var before := State();
      for k := 0 to |planned|
        invariant Valid() && closed == old(closed)
        invariant ReleaseAll(before, planned, punchOk, closed)
          == var rest := ReleaseAll(State(), planned[k..], punchOk[k..], closed);
             (rest.0, FirstError(err, rest.1))
      {
        assert planned[k..][1..] == planned[k + 1..] && punchOk[k..][1..] == punchOk[k + 1..];
        var one := ReleaseExtent(planned[k], punchOk[k]);
        if err == NoError {
          err := one;
        }
      }
      assert planned[|planned|..] == [];
    }

    /** The body of ReleaseIfCurrent's loop. */
    method ReleaseExtent(p: ShmExtent, punchOk: bool) returns (err: ShmError)
      requires Valid() && p.end <= size
      modifies this`extents, file
      ensures Valid() && closed == old(closed)
      ensures (State(), err) == ReleaseOne(old(State()), p, punchOk, old(closed))
    {
      hide GenAt, SortedExtents, Coalesced;
      if p.end <= p.start {
        return NoError;
      }
      if closed {
        return Closed;
      }
      ghost var before := State();
      var covered := CoversGenerationLocked(p);
      OwnsIsGenAt(before, extents, p);
      if !covered {
        return NoError;
      }
      if !punchOk {
        return IOFailed;
      }
      forall x | p.start <= x < p.end {
        file[x] := 0;
      }
      RemoveRangeGenerationLocked(p.start, p.end, p.gen);
      assert file[..] == Fill(before.overlay, p.start, p.end - p.start, 0);
      assert Owners(extents, size) == Fill(before.owner, p.start, p.end - p.start, 0);
      assert State() == Release(before, p.start, p.end - p.start, p.gen);
      return NoError;
    }

    /** Copies [off, off + dst.Length): the overlay where an extent covers it, otherwise the image. */
    method ReadAt(dst: array<byte>, off: int, baseOk: bool) returns (n: nat, err: ShmError)
      requires Valid() && dst != base && dst != file
      modifies dst
      ensures err ==
        if off < 0 then InvalidRange
        else if dst.Length == 0 then NoError
        else if off >= size || dst.Length > size - off then OutsideVolume
        else if !baseOk then IOFailed
        else NoError
      ensures Valid() && State() == old(State())
      ensures err == NoError ==> n == dst.Length
      ensures err == NoError && dst.Length > 0 ==>
        forall i :: 0 <= i < dst.Length ==> dst[i] == View(State(), off + i)
      ensures err != NoError ==> n == 0
    {
      if off < 0 {
        return 0, InvalidRange;
      }
      if dst.Length == 0 {
        return 0, NoError;
      }
      if off >= size || dst.Length > size - off {
        return 0, OutsideVolume;
      }
      if !baseOk {
        return 0, IOFailed;
      }
      forall i | 0 <= i < dst.Length {
        dst[i] := base[off + i];
      }
      if closed {
        return dst.Length, NoError;
      }
      ReadExtents(dst, off);
      return dst.Length, NoError;
    }

    /** The locked half of ReadAt: replaces what extents cover in a buffer read from the image. */
    method ReadExtents(dst: array<byte>, off: nat)
      requires Valid() && dst != base && dst != file && off + dst.Length <= size
      modifies dst
      ensures dst[..] == Blend(old(dst[..]), off, State())
    {
      var reqEnd := off + dst.Length;
      var es := extents;
      var k := 0;
      while k < |es|
        invariant 0 <= k <= |es|
        invariant Valid()
        invariant Picked(dst[..], off, es[..k], file[..], old(dst[..]))
      {
        var e := es[k];
        label turn:
        PickNext(dst[..], off, es, k, file[..], old(dst[..]));
        if e.end <= off {
          k := k + 1;
          continue;
        }
        if e.start >= reqEnd {
          break;
        }
        CopyExtent(dst, off, MaxU64(off, e.start), MinU64(reqEnd, e.end));
        assert dst[..] == Overlaid(old@turn(dst[..]), off, e, file[..]);
        k := k + 1;
      }
      PickedBlend(dst[..], off, es, k, State(), old(dst[..]));
    }

    /** Reads overlay bytes [a, b) into the buffer of a read that starts at off. */
    method CopyExtent(dst: array<byte>, off: nat, a: nat, b: nat)
      requires Valid() && dst != base && dst != file
      requires off <= a && b <= off + dst.Length && off + dst.Length <= size
      modifies dst
      ensures forall i :: 0 <= i < dst.Length ==>
        dst[i] == (if a <= off + i < b then file[off + i] else old(dst[i]))
    {
      forall i | a - off <= i < b - off {
        dst[i] := file[off + i];
      }
    }

    method Close()
      requires Valid()
      modifies this`closed, this`extents
      ensures Valid() && closed
      ensures forall x :: 0 <= x < size ==> State().owner[x] == 0
    {
      closed := true;
      extents := [];
      assert forall x :: 0 <= x < size ==> GenAt(extents, x) == 0;
    }
  }

  ghost function FirstError(a: ShmError, b: ShmError): ShmError {
    if a == NoError then b else a
  }

  ghost function ReleaseOne(d: DiskState, p: ShmExtent, punchOk: bool, closed: bool): (r: (DiskState, ShmError))
    requires Disk.Valid(d) && p.end <= |d.image|
    ensures Disk.Valid(r.0) && |r.0.image| == |d.image|
  {
    if p.end <= p.start then (d, NoError)
    else if closed then (d, Closed)
    else if Owns(d, p.start, p.end - p.start, p.gen) && !punchOk then (d, IOFailed)
    else (Release(d, p.start, p.end - p.start, p.gen), NoError)
  }

  ghost function ReleaseAll(d: DiskState, planned: seq<ShmExtent>, punchOk: seq<bool>, closed: bool)
    : (DiskState, ShmError)
    requires |punchOk| == |planned|
    requires Disk.Valid(d) && forall i :: 0 <= i < |planned| ==> planned[i].end <= |d.image|
    decreases |planned|
  {
    if planned == [] then (d, NoError)
    else
      var one := ReleaseOne(d, planned[0], punchOk[0], closed);
      var rest := ReleaseAll(one.0, planned[1..], punchOk[1..], closed);
      (rest.0, FirstError(one.1, rest.1))
  }

  ghost predicate Inside(p: ShmExtent, x: int) {
    p.start <= x < p.end
  }

  /** One of the extents contains x, belongs to that generation and was given back. */
  ghost predicate GivenBack(planned: seq<ShmExtent>, punchOk: seq<bool>, gen: nat, x: int)
    requires |punchOk| == |planned|
  {
    exists k :: 0 <= k < |planned| && Inside(planned[k], x) && planned[k].gen == gen && punchOk[k]
  }

  /** Some byte of the extent is not, or no longer, its generation's. */
  ghost predicate Broken(d: DiskState, p: ShmExtent)
    requires p.end <= |d.owner|
  {
    exists x :: Inside(p, x) && d.owner[x] != p.gen
  }

  /** Each byte is as it was or zero and nobody's, and then because an extent of the generation that owned it was
      given back; the image stays. */
  ghost predicate OnlyGivesBack(d: DiskState, t: DiskState, planned: seq<ShmExtent>, punchOk: seq<bool>)
    requires |punchOk| == |planned|
  {
    && t.image == d.image && t.nextGen == d.nextGen && |t.owner| == |d.owner| && |t.overlay| == |d.overlay|
    && |d.owner| == |d.overlay|
    && forall x :: 0 <= x < |d.owner| ==>
        || (t.owner[x] == d.owner[x] && t.overlay[x] == d.overlay[x])
        || (t.owner[x] == 0 && t.overlay[x] == 0 && GivenBack(planned, punchOk, d.owner[x], x))
  }

  lemma ReleaseOneMeans(d: DiskState, p: ShmExtent, punchOk: bool, closed: bool)
    requires Disk.Valid(d) && p.end <= |d.image| && p.gen > 0
    ensures var (t, err) := ReleaseOne(d, p, punchOk, closed);
      && OnlyGivesBack(d, t, [p], [punchOk])
      && (p.start < p.end && !closed && punchOk ==> Broken(t, p))
      && (err == Closed <==> p.start < p.end && closed)
      && (err == IOFailed <==> p.start < p.end && !closed && !punchOk && !Broken(d, p))
      && (err == NoError || (t == d && (err == Closed || err == IOFailed)))
      && (closed ==> t == d)
  {
    var t := ReleaseOne(d, p, punchOk, closed).0;
    if p.start < p.end && !closed {
      assert Owns(d, p.start, p.end - p.start, p.gen) <==> !Broken(d, p) by {
        assert forall x :: Inside(p, x) <==> Within(p.start, p.end - p.start, x);
      }
      if !Broken(d, p) {
        assert Inside(p, p.start);
        forall x | 0 <= x < |d.owner| && t.owner[x] != d.owner[x] ensures GivenBack([p], [punchOk], d.owner[x], x) {
          assert Inside([p][0], x) && [p][0].gen == d.owner[x] && [punchOk][0];
        }
      }
    }
  }

  /** Giving back a list of extents takes none of them away from another generation, and leaves none of them
      wholly its own whose punch succeeds. The error is the first one met. */
  lemma {:induction false} ReleaseAllMeans(d: DiskState, planned: seq<ShmExtent>, punchOk: seq<bool>, closed: bool)
    requires |punchOk| == |planned|
    requires Disk.Valid(d) && forall i :: 0 <= i < |planned| ==> planned[i].end <= |d.image| && planned[i].gen > 0
    ensures var (t, err) := ReleaseAll(d, planned, punchOk, closed);
      && OnlyGivesBack(d, t, planned, punchOk)
      && (closed ==> t == d)
      && (!closed ==> forall k :: 0 <= k < |planned| && planned[k].start < planned[k].end && punchOk[k] ==>
            Broken(t, planned[k]))
      && (err == Closed <==> closed && exists k :: 0 <= k < |planned| && planned[k].start < planned[k].end)
      && (err == NoError || err == Closed || err == IOFailed)
      && (!closed && (forall k :: 0 <= k < |planned| ==> punchOk[k]) ==> err == NoError)
    decreases |planned|
  {
    hide ReleaseOne, OnlyGivesBack, Broken;
    if planned == [] {
      NothingGivenBack(d);
    } else {
      ReleaseOneMeans(d, planned[0], punchOk[0], closed);
      var one := ReleaseOne(d, planned[0], punchOk[0], closed);
      ReleaseAllMeans(one.0, planned[1..], punchOk[1..], closed);
      var t := ReleaseAll(d, planned, punchOk, closed).0;
      assert t == ReleaseAll(one.0, planned[1..], punchOk[1..], closed).0;
      GivesBackBoth(d, one.0, t, planned, punchOk);
      KeepsLengths(d, t, planned, punchOk);
      forall k | 0 <= k < |planned| && planned[k].start < planned[k].end && punchOk[k] && !closed
        ensures Broken(t, planned[k])
      {
        if k == 0 {
          StaysBroken(one.0, t, planned[1..], punchOk[1..], planned[0]);
        } else {
          assert planned[k] == planned[1..][k - 1];
        }
      }
      assert forall k :: 1 <= k < |planned| ==> planned[k] == planned[1..][k - 1] && punchOk[k] == punchOk[1..][k - 1];
    }
  }

  lemma NothingGivenBack(d: DiskState)
    requires Disk.Valid(d)
    ensures OnlyGivesBack(d, d, [], [])
  {
  }

  lemma KeepsLengths(d: DiskState, t: DiskState, planned: seq<ShmExtent>, punchOk: seq<bool>)
    requires |punchOk| == |planned| && OnlyGivesBack(d, t, planned, punchOk)
    ensures |t.owner| == |d.owner|
  {
  }

  lemma StaysBroken(d: DiskState, t: DiskState, planned: seq<ShmExtent>, punchOk: seq<bool>, p: ShmExtent)
    requires |punchOk| == |planned| && OnlyGivesBack(d, t, planned, punchOk)
    requires p.end <= |d.owner| && p.gen > 0 && Broken(d, p)
    ensures Broken(t, p)
  {
    var x :| Inside(p, x) && d.owner[x] != p.gen;
    assert t.owner[x] != p.gen;
  }

  lemma GivesBackBoth(d: DiskState, m: DiskState, t: DiskState, planned: seq<ShmExtent>, punchOk: seq<bool>)
    requires |punchOk| == |planned| > 0
    requires OnlyGivesBack(d, m, [planned[0]], [punchOk[0]]) && OnlyGivesBack(m, t, planned[1..], punchOk[1..])
    ensures OnlyGivesBack(d, t, planned, punchOk)
  {
    forall x | 0 <= x < |d.owner| && !(t.owner[x] == d.owner[x] && t.overlay[x] == d.overlay[x])
      ensures t.owner[x] == 0 && t.overlay[x] == 0 && GivenBack(planned, punchOk, d.owner[x], x)
    {
      if !(m.owner[x] == d.owner[x] && m.overlay[x] == d.overlay[x]) {
        var k :| 0 <= k < 1 && Inside([planned[0]][k], x) && [planned[0]][k].gen == d.owner[x] && [punchOk[0]][k];
        assert Inside(planned[0], x) && planned[0].gen == d.owner[x] && punchOk[0];
      } else {
        var k :| 0 <= k < |planned[1..]| && Inside(planned[1..][k], x) && planned[1..][k].gen == m.owner[x]
          && punchOk[1..][k];
        assert Inside(planned[k + 1], x) && planned[k + 1].gen == d.owner[x] && punchOk[k + 1];
      }
    }
  }

  lemma ReleaseAllOne(d: DiskState, p: ShmExtent, punchOk: bool, closed: bool)
    requires Disk.Valid(d) && p.end <= |d.image|
    ensures ReleaseAll(d, [p], [punchOk], closed) == ReleaseOne(d, p, punchOk, closed)
  {
  }
}
