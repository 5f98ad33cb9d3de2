/** The NTFS update-sequence fixup of ntfs.go. The last two bytes of every sector of a record are swapped
    for the update sequence number when it is written; the fixup checks them and puts them back. */
module Fixup {
  import opened Disk

  datatype FixupError = NoError | InvalidSectorSize | InvalidGeometry | InvalidArray | Mismatch

  function U16(rec: seq<byte>, i: nat): nat
    requires i + 2 <= |rec|
  {
    var low: nat, high: nat := rec[i], rec[i + 1];
    low + 256 * high
  }

  /** Where sector k ends. */
  function SectorEnd(stride: nat, k: nat): nat {
    stride * (k + 1)
  }

  /** The two bytes at i become the two at from, one after the other: where the pairs overlap, the second
      byte is read after the first has been written. */
  function Restore(rec: seq<byte>, i: nat, from: nat): (r: seq<byte>)
    requires i + 2 <= |rec| && from + 2 <= |rec|
    ensures |r| == |rec|
    ensures forall x :: 0 <= x < |rec| && x != i && x != i + 1 ==> r[x] == rec[x]
    ensures r[i] == rec[from] && r[i + 1] == if from + 1 == i then rec[from] else rec[from + 1]
  {
    var first := rec[i := rec[from]];
    first[i + 1 := first[from + 1]]
  }

  /** Sector k's trailer sits in bounds, and so does its replacement in the array at off. */
  ghost predicate SectorFits(rec: seq<byte>, stride: nat, off: nat, sectors: nat) {
    stride >= 2 && stride * sectors == |rec| && off + 2 * (sectors + 1) <= |rec|
  }

  lemma MulLess(a: nat, b: nat, c: nat)
    requires b < c
    ensures a * b + a <= a * c
  {
    assert a * c == a * b + a * (c - b);
    assert c - b == 1 || a * (c - b) >= a;
  }

  /** Sectors end at least a sector apart, the first at its own length and none past the record. */
  lemma TrailersApart(stride: nat, j: nat, k: nat)
    requires j < k
    ensures SectorEnd(stride, j) + stride <= SectorEnd(stride, k)
  {
    MulLess(stride, j + 1, k + 1);
  }

  lemma TrailerInBounds(stride: nat, k: nat, sectors: nat)
    requires stride >= 2 && k < sectors
    ensures 2 <= stride <= SectorEnd(stride, k) <= stride * sectors
  {
    MulLess(stride, k, sectors);
    MulLess(stride, 0, k + 1);
  }

  /** Checks and restores the trailers of sectors k, k + 1, ...; the record as far as it was changed, and
      whether every trailer matched. */
  function FixFrom(rec: seq<byte>, stride: nat, off: nat, k: nat, sectors: nat): (r: (seq<byte>, bool))
    requires SectorFits(rec, stride, off, sectors) && k <= sectors
    ensures |r.0| == |rec|
    decreases sectors - k
  {
    if k == sectors then (rec, true)
    else
      TrailerInBounds(stride, k, sectors);
      var t := SectorEnd(stride, k) - 2;
      if rec[t] != rec[off] || rec[t + 1] != rec[off + 1] then (rec, false)
      else FixFrom(Restore(rec, t, off + 2 + 2 * k), stride, off, k + 1, sectors)
  }

  /** One unfolding of FixFrom. */
  lemma FixHead(rec: seq<byte>, stride: nat, off: nat, k: nat, sectors: nat)
    requires SectorFits(rec, stride, off, sectors) && k <= sectors
    ensures k == sectors ==> FixFrom(rec, stride, off, k, sectors) == (rec, true)
    ensures k < sectors ==>
      var t := SectorEnd(stride, k) - 2;
      && 0 <= t && t + 2 <= |rec|
      && FixFrom(rec, stride, off, k, sectors) ==
         if rec[t] != rec[off] || rec[t + 1] != rec[off + 1] then (rec, false)
         else FixFrom(Restore(rec, t, off + 2 + 2 * k), stride, off, k + 1, sectors)
  {
    if k < sectors {
      TrailerInBounds(stride, k, sectors);
    }
  }

  // ---------- The header ----------

  /** The record is made of whole sectors and has room for a header. */
  predicate WholeSectors(rec: seq<byte>, stride: nat) {
    stride > 0 && |rec| >= 8 && |rec| % stride == 0
  }

  /** Bytes 4 and 5 of the header, low byte first, give the array's offset, and bytes 6 and 7 how many pairs of
      bytes it has. */
  ghost predicate Names(rec: seq<byte>, off: nat, count: nat) {
    |rec| >= 8 && off == rec[4] as nat + 256 * (rec[5] as nat) && count == rec[6] as nat + 256 * (rec[7] as nat)
  }

  /** The header names an array that lies behind the header and inside the record, and has a pair for the update
      sequence number and one for each sector. */
  ghost predicate NamesArray(rec: seq<byte>, stride: nat, off: nat) {
    && WholeSectors(rec, stride) && Names(rec, off, |rec| / stride + 1)
    && 8 <= off && off + 2 * (|rec| / stride + 1) <= |rec|
  }

  lemma ArrayFits(rec: seq<byte>, stride: nat, off: nat)
    requires NamesArray(rec, stride, off) && stride != 1
    ensures SectorFits(rec, stride, off, |rec| / stride)
  {
    var q := |rec| / stride;
    assert |rec| == stride * q + |rec| % stride;
  }

  method RestoreTrailer(record: array<byte>, trailer: nat, repl: nat)
    requires trailer + 2 <= record.Length && repl + 2 <= record.Length
    modifies record
    ensures record[..] == Restore(old(record[..]), trailer, repl)
  {
    record[trailer] := record[repl];
    record[trailer + 1] := record[repl + 1];
  }

  /** The loop over the sectors. */
  method RestoreTrailers(record: array<byte>, stride: nat, usaOff: nat, sectors: nat) returns (ok: bool)
    requires SectorFits(record[..], stride, usaOff, sectors)
    modifies record
    ensures (record[..], ok) == FixFrom(old(record[..]), stride, usaOff, 0, sectors)
  {
    hide SectorEnd, FixFrom, Restore;
    var i := 0;
    while i < sectors
      invariant 0 <= i <= sectors
      invariant SectorFits(record[..], stride, usaOff, sectors)
      invariant FixFrom(old(record[..]), stride, usaOff, 0, sectors)
        == FixFrom(record[..], stride, usaOff, i, sectors)
    {
      FixHead(record[..], stride, usaOff, i, sectors);
      TrailerInBounds(stride, i, sectors);
      var trailer := SectorEnd(stride, i) - 2;
      if record[trailer] != record[usaOff] || record[trailer + 1] != record[usaOff + 1] {
        return false;
      }
      RestoreTrailer(record, trailer, usaOff + 2 + 2 * i);
      i := i + 1;
    }
    FixHead(record[..], stride, usaOff, sectors, sectors);
    return true;
  }

  // ---------- What the fixup promises ----------

  /** The array ends before the first trailer, as it does in every record NTFS writes. */
  ghost predicate ArrayInFirstSector(stride: nat, off: nat, sectors: nat) {
    off + 2 * (sectors + 1) <= stride - 2
  }

  /** x is one of the two trailer bytes of sector k. */
  ghost predicate InTrailer(stride: nat, k: nat, x: int) {
    x == SectorEnd(stride, k) - 2 || x == SectorEnd(stride, k) - 1
  }

  ghost predicate Matches(rec: seq<byte>, stride: nat, off: nat, k: nat, sectors: nat)
    requires SectorFits(rec, stride, off, sectors) && k < sectors
  {
    TrailerInBounds(stride, k, sectors);
    var t := SectorEnd(stride, k) - 2;
    rec[t] == rec[off] && rec[t + 1] == rec[off + 1]
  }

  /** Restoring one trailer leaves the array and every later trailer alone. */
  lemma PutKeepsLater(rec: seq<byte>, stride: nat, off: nat, k: nat, sectors: nat, j: nat)
    requires SectorFits(rec, stride, off, sectors) && ArrayInFirstSector(stride, off, sectors) && k < j < sectors
    ensures 2 <= SectorEnd(stride, k) <= |rec|
    ensures var r := Restore(rec, SectorEnd(stride, k) - 2, off + 2 + 2 * k);
      && SectorFits(r, stride, off, sectors)
      && Matches(r, stride, off, j, sectors) == Matches(rec, stride, off, j, sectors)
  {
    TrailerInBounds(stride, k, sectors);
    TrailerInBounds(stride, j, sectors);
    TrailersApart(stride, k, j);
    hide SectorEnd;
  }

  /** With the array in the first sector the fixup succeeds exactly when every remaining trailer carries
      the update sequence number. */
  lemma {:induction false} FixSucceedsIff(rec: seq<byte>, stride: nat, off: nat, k: nat, sectors: nat)
    requires SectorFits(rec, stride, off, sectors) && ArrayInFirstSector(stride, off, sectors) && k <= sectors
    ensures FixFrom(rec, stride, off, k, sectors).1
      <==> forall j :: k <= j < sectors ==> Matches(rec, stride, off, j, sectors)
    decreases sectors - k
  {
    if k < sectors {
      TrailerInBounds(stride, k, sectors);
      if Matches(rec, stride, off, k, sectors) {
        var r := Restore(rec, SectorEnd(stride, k) - 2, off + 2 + 2 * k);
        FixSucceedsIff(r, stride, off, k + 1, sectors);
        forall j | k + 1 <= j < sectors
          ensures Matches(r, stride, off, j, sectors) == Matches(rec, stride, off, j, sectors)
        {
          PutKeepsLater(rec, stride, off, k, sectors, j);
        }
      }
    }
  }

  /** The fixup changes nothing but trailers. */
  lemma {:induction false} FixedElsewhere(rec: seq<byte>, stride: nat, off: nat, k: nat, sectors: nat, x: nat)
    requires SectorFits(rec, stride, off, sectors) && k <= sectors
    requires FixFrom(rec, stride, off, k, sectors).1 && x < |rec|
    requires forall j :: k <= j < sectors ==> !InTrailer(stride, j, x)
    ensures FixFrom(rec, stride, off, k, sectors).0[x] == rec[x]
    decreases sectors - k
  {
    FixHead(rec, stride, off, k, sectors);
    hide FixFrom, SectorEnd;
    if k < sectors {
      assert !InTrailer(stride, k, x);
      var r := Restore(rec, SectorEnd(stride, k) - 2, off + 2 + 2 * k);
      FixedElsewhere(r, stride, off, k + 1, sectors, x);
    }
  }

  /** A trailer byte comes from its place in the array. */
  lemma {:induction false} FixedTrailer(rec: seq<byte>, stride: nat, off: nat, k: nat, sectors: nat, j: nat, x: nat)
    requires SectorFits(rec, stride, off, sectors) && ArrayInFirstSector(stride, off, sectors)
    requires k <= j < sectors && x < |rec| && InTrailer(stride, j, x)
    requires FixFrom(rec, stride, off, k, sectors).1
    ensures FixFrom(rec, stride, off, k, sectors).0[x] == rec[off + 2 + 2 * j + (x - (SectorEnd(stride, j) - 2))]
    decreases sectors - k
  {
    hide FixFrom, SectorEnd;
    FixHead(rec, stride, off, k, sectors);
    TrailerInBounds(stride, k, sectors);
    var t := SectorEnd(stride, k) - 2;
    var r := Restore(rec, t, off + 2 + 2 * k);
    if k == j {
      forall m | k < m < sectors ensures !InTrailer(stride, m, x) {
        TrailersApart(stride, k, m);
      }
      FixedElsewhere(r, stride, off, k + 1, sectors, x);
      assert r[x] == rec[off + 2 + 2 * k + (x - t)];
    } else {
      FixedTrailer(r, stride, off, k + 1, sectors, j, x);
    }
  }

  /** What a writer does before it stores a record: the trailers go into the array, behind the update
      sequence number, and the number goes into the trailers. */
  ghost predicate Protects(stored: seq<byte>, rec: seq<byte>, stride: nat, off: nat, sectors: nat)
    requires SectorFits(rec, stride, off, sectors)
  {
    && SectorFits(stored, stride, off, sectors) && |stored| == |rec|
    && (forall k :: 0 <= k < sectors ==> Matches(stored, stride, off, k, sectors))
    && (forall k, x :: 0 <= k < sectors && 0 <= x < |rec| && InTrailer(stride, k, x) ==>
          stored[off + 2 + 2 * k + (x - (SectorEnd(stride, k) - 2))] == rec[x])
    && (forall x :: 0 <= x < |rec| && Untouched(x, stride, off, sectors) ==> stored[x] == rec[x])
  }

  /** x is in neither the array nor a trailer. */
  ghost predicate Untouched(x: int, stride: nat, off: nat, sectors: nat) {
    !(off <= x < off + 2 * (sectors + 1)) && forall k :: 0 <= k < sectors ==> !InTrailer(stride, k, x)
  }

  /** The fixup gives back the protected record, except for the array itself. */
  lemma FixupUndoesProtection(stored: seq<byte>, rec: seq<byte>, stride: nat, off: nat, sectors: nat)
    requires SectorFits(rec, stride, off, sectors) && ArrayInFirstSector(stride, off, sectors)
    requires Protects(stored, rec, stride, off, sectors)
    ensures var fixed := FixFrom(stored, stride, off, 0, sectors);
      && fixed.1
      && forall x :: 0 <= x < |rec| && !(off <= x < off + 2 * (sectors + 1)) ==> fixed.0[x] == rec[x]
  {
    FixSucceedsIff(stored, stride, off, 0, sectors);
    forall x | 0 <= x < |rec| && !(off <= x < off + 2 * (sectors + 1))
      ensures FixFrom(stored, stride, off, 0, sectors).0[x] == rec[x]
    {
      if k :| 0 <= k < sectors && InTrailer(stride, k, x) {
        FixedTrailer(stored, stride, off, 0, sectors, k, x);
      } else {
        FixedElsewhere(stored, stride, off, 0, sectors, x);
        assert Untouched(x, stride, off, sectors);
      }
    }
  }

  // ---------- The bytes of an accepted record ----------

  /** The last two bytes of each sector. */
  lemma TrailerBytes(stride: nat, k: nat, x: nat)
    requires stride >= 2
    ensures InTrailer(stride, k, x) <==> x / stride == k && x % stride >= stride - 2
  {
    var q, r := x / stride, x % stride;
    assert x == stride * q + r;
    if InTrailer(stride, k, x) {
      if q < k {
        MulLess(stride, q, k);
      } else if k < q {
        MulLess(stride, k, q);
      }
    }
  }

  /** The last two bytes of every sector are the array's first two. */
  ghost predicate TrailersCarry(rec: seq<byte>, stride: nat, off: nat)
    requires stride >= 2 && off + 2 <= |rec|
  {
    forall x: nat :: x < |rec| && x % stride >= stride - 2 ==> rec[x] == rec[off + (x % stride - (stride - 2))]
  }

  /** Where in the array at off the last bytes of a sector are kept. */
  ghost function Kept(stride: nat, off: nat, x: nat): int
    requires stride >= 2
  {
    off + 2 + 2 * (x / stride) + (x % stride - (stride - 2))
  }

  /** The last two bytes of each sector have become the array's pair for it, and no other byte has changed. */
  ghost predicate TrailersRestored(was: seq<byte>, rec: seq<byte>, stride: nat, off: nat)
    requires stride >= 2
  {
    && |rec| == |was|
    && forall x: nat :: x < |rec| ==>
        if x % stride >= stride - 2 then 0 <= Kept(stride, off, x) < |was| && rec[x] == was[Kept(stride, off, x)]
        else rec[x] == was[x]
  }

  lemma FixedBytes(was: seq<byte>, stride: nat, off: nat, sectors: nat)
    requires SectorFits(was, stride, off, sectors) && ArrayInFirstSector(stride, off, sectors)
    ensures var fixed := FixFrom(was, stride, off, 0, sectors);
      && (fixed.1 <==> TrailersCarry(was, stride, off))
      && (fixed.1 ==> TrailersRestored(was, fixed.0, stride, off))
  {
    hide FixFrom;
    FixSucceedsIff(was, stride, off, 0, sectors);
    MatchesMeans(was, stride, off, sectors);
    if FixFrom(was, stride, off, 0, sectors).1 {
      forall x: nat | x < |was|
        ensures var rec := FixFrom(was, stride, off, 0, sectors).0;
          if x % stride >= stride - 2 then 0 <= Kept(stride, off, x) < |was| && rec[x] == was[Kept(stride, off, x)]
          else rec[x] == was[x]
      {
        FixedByte(was, stride, off, sectors, x);
      }
    }
  }

  lemma FixedByte(was: seq<byte>, stride: nat, off: nat, sectors: nat, x: nat)
    requires SectorFits(was, stride, off, sectors) && ArrayInFirstSector(stride, off, sectors) && x < |was|
    requires FixFrom(was, stride, off, 0, sectors).1
    ensures var rec := FixFrom(was, stride, off, 0, sectors).0;
      if x % stride >= stride - 2 then 0 <= Kept(stride, off, x) < |was| && rec[x] == was[Kept(stride, off, x)]
      else rec[x] == was[x]
  {
    hide FixFrom, SectorEnd, InTrailer, Kept;
    if x % stride >= stride - 2 {
      FixedTrailerByte(was, stride, off, sectors, x);
    } else {
      forall j | 0 <= j < sectors ensures !InTrailer(stride, j, x) {
        TrailerBytes(stride, j, x);
      }
      FixedElsewhere(was, stride, off, 0, sectors, x);
    }
  }

  lemma FixedTrailerByte(was: seq<byte>, stride: nat, off: nat, sectors: nat, x: nat)
    requires SectorFits(was, stride, off, sectors) && ArrayInFirstSector(stride, off, sectors) && x < |was|
    requires FixFrom(was, stride, off, 0, sectors).1 && x % stride >= stride - 2
    ensures 0 <= Kept(stride, off, x) < |was|
    ensures FixFrom(was, stride, off, 0, sectors).0[x] == was[Kept(stride, off, x)]
  {
    hide FixFrom, SectorEnd, InTrailer, ArrayInFirstSector, Kept, SectorFits;
    var k := KeptFor(was, stride, off, sectors, x);
    FixedTrailer(was, stride, off, 0, sectors, k, x);
  }

  lemma KeptFor(was: seq<byte>, stride: nat, off: nat, sectors: nat, x: nat) returns (k: nat)
    requires SectorFits(was, stride, off, sectors) && x < |was| && x % stride >= stride - 2
    ensures k < sectors && InTrailer(stride, k, x)
    ensures 0 <= Kept(stride, off, x) == off + 2 + 2 * k + (x - (SectorEnd(stride, k) - 2)) < |was|
  {
    InSector(stride, sectors, x);
    k := x / stride;
    hide SectorEnd, InTrailer;
    TrailerBytes(stride, k, x);
    SectorEndIs(stride, k, x);
  }

  lemma InSector(stride: nat, sectors: nat, x: nat)
    requires stride >= 2 && x < stride * sectors
    ensures x / stride < sectors
  {
    var q := x / stride;
    assert x == stride * q + x % stride;
    if sectors < q {
      MulLess(stride, sectors, q);
    }
  }

  lemma SectorEndIs(stride: nat, k: nat, x: nat)
    requires stride >= 2 && x / stride == k
    ensures x - (SectorEnd(stride, k) - 2) == x % stride - (stride - 2)
  {
    assert x == stride * k + x % stride;
    assert stride * (k + 1) == stride * k + stride;
  }

  lemma MatchesMeans(rec: seq<byte>, stride: nat, off: nat, sectors: nat)
    requires SectorFits(rec, stride, off, sectors)
    ensures TrailersCarry(rec, stride, off) <==> forall j :: 0 <= j < sectors ==> Matches(rec, stride, off, j, sectors)
  {
    hide SectorEnd;
    if forall j :: 0 <= j < sectors ==> Matches(rec, stride, off, j, sectors) {
      forall x: nat | x < |rec| && x % stride >= stride - 2
        ensures rec[x] == rec[off + (x % stride - (stride - 2))]
      {
        InSector(stride, sectors, x);
        SectorEndIs(stride, x / stride, x);
        assert Matches(rec, stride, off, x / stride, sectors);
      }
    }
    if TrailersCarry(rec, stride, off) {
      forall j | 0 <= j < sectors ensures Matches(rec, stride, off, j, sectors) {
        TrailerInBounds(stride, j, sectors);
        var t := SectorEnd(stride, j) - 2;
        TrailerBytes(stride, j, t);
        TrailerBytes(stride, j, t + 1);
        SectorEndIs(stride, j, t);
        SectorEndIs(stride, j, t + 1);
      }
    }
  }

  // ---------- The fixup itself ----------

  /** In place, on the array the record was read into; a record that fails keeps the sectors already
      restored. A one-byte sector would put the first trailer in front of the record. */
  method ApplyNTFSFixup(record: array<byte>, bytesPerSector: nat) returns (err: FixupError)
    requires bytesPerSector != 1
    modifies record
    ensures err == InvalidSectorSize <==> bytesPerSector == 0
    ensures err == InvalidGeometry <==>
      bytesPerSector > 0 && (record.Length < 8 || record.Length % bytesPerSector != 0)
    ensures err == InvalidArray <==>
      && bytesPerSector > 0 && record.Length >= 8 && record.Length % bytesPerSector == 0
      && var off := old(record[4]) as nat + 256 * (old(record[5]) as nat);
         var count := old(record[6]) as nat + 256 * (old(record[7]) as nat);
         off < 8 || count != record.Length / bytesPerSector + 1 || off + 2 * count > record.Length
    ensures err != NoError && err != Mismatch ==> record[..] == old(record[..])
    ensures forall off | NamesArray(old(record[..]), bytesPerSector, off) ::
      && SectorFits(old(record[..]), bytesPerSector, off, record.Length / bytesPerSector)
      && FixFrom(old(record[..]), bytesPerSector, off, 0, record.Length / bytesPerSector)
         == (record[..], err == NoError)
    ensures forall off | NamesArray(old(record[..]), bytesPerSector, off) ::
      ArrayInFirstSector(bytesPerSector, off, record.Length / bytesPerSector) ==>
        && (err == NoError <==> TrailersCarry(old(record[..]), bytesPerSector, off))
        && (err == NoError ==> TrailersRestored(old(record[..]), record[..], bytesPerSector, off))
  {
    hide FixFrom, SectorFits;
    if bytesPerSector == 0 {
      return InvalidSectorSize;
    }
    var stride := bytesPerSector;
    if record.Length == 0 || record.Length % stride != 0 || record.Length < 8 {
      return InvalidGeometry;
    }
    ghost var was := record[..];
    var usaOff, usaCount := U16(record[..], 4), U16(record[..], 6);
    var sectors := record.Length / stride;
    if usaOff < 8 || usaCount != sectors + 1 || usaOff + usaCount * 2 > record.Length {
      return InvalidArray;
    }
    assert NamesArray(was, stride, usaOff);
    ArrayFits(was, stride, usaOff);
    var restored := RestoreTrailers(record, stride, usaOff, sectors);
    if ArrayInFirstSector(stride, usaOff, sectors) {
      FixedBytes(was, stride, usaOff, sectors);
    }
    return if restored then NoError else Mismatch;
  }

  /** A protected record is accepted and given back, wherever in front of the first trailer its array lies. */
  method ProtectedIsRestored(record: array<byte>, stride: nat, off: nat, ghost rec: seq<byte>)
    returns (err: FixupError)
    requires WholeSectors(record[..], stride) && stride >= 2 && |rec| == record.Length
    requires 8 <= off && ArrayInFirstSector(stride, off, record.Length / stride)
    requires Names(record[..], off, record.Length / stride + 1)
    requires SectorFits(rec, stride, off, |rec| / stride) && Protects(record[..], rec, stride, off, |rec| / stride)
    modifies record
    ensures err == NoError
    ensures forall x :: 0 <= x < |rec| && !(off <= x < off + 2 * (|rec| / stride + 1)) ==> record[x] == rec[x]
  {
    hide FixFrom;
    FixupUndoesProtection(record[..], rec, stride, off, |rec| / stride);
    assert NamesArray(record[..], stride, off);
    err := ApplyNTFSFixup(record, stride);
  }
}
