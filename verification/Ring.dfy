/** The two fixed-capacity rings (the writer's history and the capture journal) share one shape:
    an array, the slot written next, and the number of slots in use. */
module Ring {

  /** The last n elements of a list. */
  ghost function LastN<T>(s: seq<T>, n: nat): seq<T> {
    if |s| <= n then s else s[|s| - n..]
  }

  lemma LastNPush<T>(s: seq<T>, n: nat, x: T)
    requires n > 0
    ensures LastN(LastN(s, n) + [x], n) == LastN(s + [x], n)
  {
  }

  lemma LastNAppend<T>(a: seq<T>, b: seq<T>, n: nat)
    ensures LastN(LastN(a, n) + b, n) == LastN(a + b, n)
  {
  }

  /** The slot that is k places past the start of a ring of n slots. */
  ghost function Slot(k: nat, n: nat): nat
    requires k < 2 * n
  {
    if k < n then k else k - n
  }

  lemma MulMono(n: nat, a: nat, b: nat)
    requires a <= b
    ensures n * a <= n * b
  {
  }

  lemma SlotIsMod(k: nat, n: nat)
    requires k < 2 * n
    ensures k % n == Slot(k, n)
  {
    var q := k / n;
    assert k == n * q + k % n;
    if q >= 2 {
      MulMono(n, 2, q);
    }
  }

  /** What a ring holds, oldest first. */
  ghost function Contents<T>(items: seq<T>, head: nat, count: nat): (c: seq<T>)
    requires head < |items| && count <= |items|
    ensures |c| == count
    ensures forall i :: 0 <= i < count ==> c[i] == items[Slot(head + |items| - count + i, |items|)]
  {
    seq(count, i requires 0 <= i < count => items[Slot(head + |items| - count + i, |items|)])
  }

  /** Writing at head and advancing keeps exactly the newest |items| elements. */
  lemma Push<T>(items: seq<T>, head: nat, count: nat, x: T)
    requires head < |items| && count <= |items|
    ensures var n := |items|;
      && Slot(head + 1, n) < n
      && Contents(items[head := x], Slot(head + 1, n), if count < n then count + 1 else count)
         == LastN(Contents(items, head, count) + [x], n)
  {
    var n := |items|;
    var c' := Contents(items[head := x], Slot(head + 1, n), if count < n then count + 1 else count);
    var want := LastN(Contents(items, head, count) + [x], n);
    assert |c'| == |want|;
    forall i | 0 <= i < |c'| ensures c'[i] == want[i] {
      if count < n {
        assert want == Contents(items, head, count) + [x];
      } else {
        assert want == Contents(items, head, count)[1..] + [x];
      }
    }
  }
}
