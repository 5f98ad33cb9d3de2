/** The end of a write's life in the overlay: once the writer has handled it and its release went through, it
    never again holds all of its range there. */
module Releases {
  import opened Disk
  import opened Overlay
  import opened Types
  import opened Writing
  import opened Protocol
  import opened Reads

  /** Every byte of write k's range is held by write k. */
  ghost predicate Holding(s: State, k: nat)
    requires Shape(s) && 0 < k <= |s.acked|
  {
    forall x: nat :: x < |s.w.disk.owner| && CoversByte(s.acked[k - 1], x) ==> s.w.disk.owner[x] == k
  }

  /** The release of the write at hand, byte by byte: it uncovers the image on the whole of the write's range if
      the write still holds all of it, and otherwise, or when it fails, changes nothing. */
  lemma LetGoMeans(s: State, ok: bool, cap: nat)
    requires Sound(s) && s.busy
    ensures s.taken <= |s.acked| && Current(s).event == s.acked[s.taken - 1]
    ensures var t := Next(s, LetGo(ok), cap);
      && Disk.Valid(t.w.disk) && |t.w.disk.image| == |s.w.disk.image|
      && t.w == s.w.(disk := t.w.disk)
      && (!ok || !Holding(s, s.taken) ==> t.w.disk == s.w.disk)
      && (ok && Holding(s, s.taken) ==>
            && t.w.disk.image == s.w.disk.image
            && forall x: nat :: x < |s.w.disk.image| ==>
                if CoversByte(s.acked[s.taken - 1], x)
                then t.w.disk.owner[x] == 0 && View(t.w.disk, x) == s.w.disk.image[x]
                else t.w.disk.owner[x] == s.w.disk.owner[x] && View(t.w.disk, x) == View(s.w.disk, x))
  {
    hide Conveyed, Clean;
    SubmittedIsAcked(s, s.taken - 1);
    var p := Current(s).event.staged;
    assert p == ShmExtent(p.start, p.end, s.taken) && p.start < p.end;
    assert Owns(s.w.disk, p.start, p.end - p.start, p.gen) <==> Holding(s, s.taken);
  }

  /** No step gives write k a byte it does not hold. */
  lemma NotHeldStays(s: State, step: Step, cap: nat, k: nat, x: nat)
    requires Sound(s) && Enabled(s, step) && 0 < k <= |s.acked| && x < |s.w.disk.owner|
    requires s.w.disk.owner[x] != k
    ensures var t := Next(s, step, cap);
      s.acked <= t.acked && |t.w.disk.owner| == |s.w.disk.owner| && t.w.disk.owner[x] != k
  {
    hide Conveyed, Clean, NewerOverlap;
  }

  lemma {:induction false} NeverHeldAgain(s: State, steps: seq<Step>, t: State, cap: nat, k: nat, x: nat)
    requires Sound(s) && Reaches(s, steps, t, cap) && 0 < k <= |s.acked| && x < |s.w.disk.owner|
    requires s.w.disk.owner[x] != k
    ensures Sound(t) && s.acked <= t.acked && x < |t.w.disk.owner| && t.w.disk.owner[x] != k
    decreases |steps|
  {
    hide Sound, Next, Enabled;
    if steps != [] {
      SoundNext(s, steps[0], cap);
      NotHeldStays(s, steps[0], cap, k, x);
      NeverHeldAgain(Next(s, steps[0], cap), steps[1..], t, cap, k, x);
    }
  }

  /** After the release some byte of the write's range is not its own. */
  lemma LetGoBreaks(s: State, cap: nat) returns (x: nat)
    requires Sound(s) && s.busy && Sound(Next(s, LetGo(true), cap))
    ensures 0 < s.taken <= |s.acked| && x < |s.w.disk.owner| == |Next(s, LetGo(true), cap).w.disk.owner|
    ensures Next(s, LetGo(true), cap).acked == s.acked
    ensures CoversByte(s.acked[s.taken - 1], x) && Next(s, LetGo(true), cap).w.disk.owner[x] != s.taken
  {
    LetGoMeans(s, true, cap);
    hide Conveyed, Clean, Finish;
    var ev := s.acked[s.taken - 1];
    if Holding(s, s.taken) {
      x := ev.offset;
      assert CoversByte(ev, x);
    } else {
      x :| x < |s.w.disk.owner| && CoversByte(ev, x) && s.w.disk.owner[x] != s.taken;
    }
  }

  lemma ReachableSound(image0: seq<byte>, steps: seq<Step>, s: State, cap: nat)
    requires Reaches(Init(image0), steps, s, cap) && cap > 0
    ensures Sound(s)
  {
    ReachableInv(image0, steps, s, cap);
  }

  /** In every run: once the release of a handled write has gone through, that write never again holds all of
      its range in the overlay. */
  lemma ReleasedForGood(image0: seq<byte>, before: seq<Step>, s: State, after: seq<Step>, t: State, cap: nat)
    requires Reaches(Init(image0), before, s, cap) && cap > 0 && s.busy
    requires Shape(s) && Reaches(Next(s, LetGo(true), cap), after, t, cap)
    ensures Shape(t) && 0 < s.taken <= |s.acked| <= |t.acked| && !Holding(t, s.taken)
  {
    hide Reaches, Sound, Next, CoversByte;
    ReachableSound(image0, before, s, cap);
    SoundNext(s, LetGo(true), cap);
    var x := LetGoBreaks(s, cap);
    NeverHeldAgain(Next(s, LetGo(true), cap), after, t, cap, s.taken, x);
    NotHolding(t, s.taken, x);
  }

  lemma NotHolding(t: State, k: nat, x: nat)
    requires Sound(t) && 0 < k <= |t.acked| && x < |t.w.disk.owner|
    requires CoversByte(t.acked[k - 1], x) && t.w.disk.owner[x] != k
    ensures Shape(t) && !Holding(t, k)
  {
  }
}
