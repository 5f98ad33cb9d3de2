/** The NTFS mapping-pairs decoder of ntfs.go and the encoding it inverts. Unsigned and signed 64-bit
    wrap-around is written out. */
module Runlist {
  import opened Disk

  datatype NTFSRun = NTFSRun(startVCN: nat, length: nat, lcn: int, sparse: bool)

  datatype RunError = InvalidHeader | UnexpectedEOF | ZeroLengthRun | NegativeLCN

  datatype Parsed = Runs(runs: seq<NTFSRun>) | Failed(error: RunError)

  // ---------- 64-bit arithmetic ----------

  function AddU64(a: nat, b: nat): nat {
    (a + b) % 0x1_0000_0000_0000_0000
  }

  function MulU64(a: nat, b: nat): nat {
    a * b % 0x1_0000_0000_0000_0000
  }

  /** int64 addition. */
  function AddI64(a: int, b: int): int {
    var s := a + b;
    if s >= 0x8000_0000_0000_0000 then s - 0x1_0000_0000_0000_0000
    else if s < -0x8000_0000_0000_0000 then s + 0x1_0000_0000_0000_0000
    else s
  }

  /** The values of n bytes: 256 to the n. */
  function Pow256(n: nat): nat {
    if n == 0 then 1 else 256 * Pow256(n - 1)
  }

  lemma {:induction false} Pow256Grows(n: nat, m: nat)
    requires n <= m
    ensures 1 <= Pow256(n) <= Pow256(m)
  {
    if n < m {
      Pow256Grows(n, m - 1);
    } else if n > 0 {
      Pow256Grows(n - 1, n - 1);
    }
  }

  lemma Pow256Bounds(n: nat)
    requires n <= 8
    ensures 1 <= Pow256(n) <= 0x1_0000_0000_0000_0000
    ensures n > 0 ==> Pow256(n) % 2 == 0
  {
    Pow256Grows(n, 8);
    assert Pow256(8) == 0x1_0000_0000_0000_0000;
  }

  /** Little-endian value. */
  function LE(s: seq<byte>): nat {
    if s == [] then 0 else s[0] + 256 * LE(s[1..])
  }

  function ToLE(v: nat, n: nat): (s: seq<byte>)
    ensures |s| == n
  {
    if n == 0 then [] else [v % 256] + ToLE(v / 256, n - 1)
  }

  lemma {:induction false} LEBound(s: seq<byte>)
    ensures LE(s) < Pow256(|s|)
  {
    if s != [] {
      LEBound(s[1..]);
    }
  }

  lemma {:induction false} LEToLE(v: nat, n: nat)
    requires v < Pow256(n)
    ensures LE(ToLE(v, n)) == v
    decreases n
  {
    if n > 0 {
      assert v / 256 < Pow256(n - 1);
      LEToLE(v / 256, n - 1);
      assert ToLE(v, n)[1..] == ToLE(v / 256, n - 1);
    }
  }

  lemma {:induction false} ToLELE(s: seq<byte>)
    ensures ToLE(LE(s), |s|) == s
  {
    if s != [] {
      ToLELE(s[1..]);
      assert LE(s) % 256 == s[0] && LE(s) / 256 == LE(s[1..]);
      assert s == [s[0]] + s[1..];
    }
  }

  /** One more byte, at the high end, as the decoder's loop adds it. */
  lemma {:induction false} LESnoc(s: seq<byte>, b: byte)
    ensures LE(s + [b]) == LE(s) + b * Pow256(|s|)
  {
    if s == [] {
      assert s + [b] == [b];
      assert [b][1..] == [];
    } else {
      assert (s + [b])[1..] == s[1..] + [b];
      LESnoc(s[1..], b);
      assert 256 * (b * Pow256(|s| - 1)) == b * (256 * Pow256(|s| - 1)) by {
        MulSwap(b, Pow256(|s| - 1));
      }
    }
  }

  lemma MulSwap(b: nat, p: nat)
    ensures 256 * (b * p) == b * (256 * p)
  {
  }

  /** Two's complement of n bytes. */
  function Signed(raw: nat, n: nat): int {
    if raw >= Pow256(n) / 2 then raw - Pow256(n) else raw
  }

  function Unsigned(delta: int, n: nat): int {
    if delta < 0 then delta + Pow256(n) else delta
  }

  // ---------- Decoding as a function ----------

  function Prepend(r: NTFSRun, p: Parsed): Parsed {
    if p.Runs? then Runs([r] + p.runs) else p
  }

  function Parse(data: seq<byte>, vcn: nat, lcn: int): Parsed
    decreases |data|
  {
    if data == [] then Failed(UnexpectedEOF)
    else if data[0] == 0 then Runs([])
    else
      var lw, ow := data[0] % 16, data[0] / 16;
      if lw == 0 || lw > 8 || ow > 8 then Failed(InvalidHeader)
      else if 1 + lw + ow > |data| then Failed(UnexpectedEOF)
      else
        var length := LE(data[1..1 + lw]);
        var rest := data[1 + lw + ow..];
        if length == 0 then Failed(ZeroLengthRun)
        else if ow == 0 then
          Prepend(NTFSRun(vcn, length, -1, true), Parse(rest, AddU64(vcn, length), lcn))
        else
          var lcn' := AddI64(lcn, Signed(LE(data[1 + lw..1 + lw + ow]), ow));
          if lcn' < 0 then Failed(NegativeLCN)
          else Prepend(NTFSRun(vcn, length, lcn', false), Parse(rest, AddU64(vcn, length), lcn'))
  }

  // ---------- Encodings ----------

  /** One mapping pair: a run length and, unless the run is sparse, the LCN relative to the one before,
      each in a field of some width. */
  datatype Pair = Pair(length: nat, lengthWidth: nat, delta: int, offsetWidth: nat)

  /** The fields are wide enough; offsetWidth 0 makes the run sparse. */
  ghost predicate FitsWidths(p: Pair) {
    && 1 <= p.lengthWidth <= 8 && 0 < p.length < Pow256(p.lengthWidth)
    && p.offsetWidth <= 8
    && (p.offsetWidth == 0 ==> p.delta == 0)
    && (p.offsetWidth > 0 ==> -(Pow256(p.offsetWidth) / 2) <= p.delta < Pow256(p.offsetWidth) / 2)
  }

  ghost function EncodePair(p: Pair): seq<byte>
    requires FitsWidths(p)
  {
    [p.offsetWidth * 16 + p.lengthWidth] + ToLE(p.length, p.lengthWidth)
      + ToLE(if p.offsetWidth == 0 then 0 else Unsigned(p.delta, p.offsetWidth), p.offsetWidth)
  }

  ghost predicate AllFit(ps: seq<Pair>) {
    forall p :: p in ps ==> FitsWidths(p)
  }

  ghost function Encode(ps: seq<Pair>): seq<byte>
    requires AllFit(ps)
  {
    if ps == [] then [] else EncodePair(ps[0]) + Encode(ps[1..])
  }

  /** Every mapped run starts at an LCN that int64 can hold and that is not negative. */
  ghost predicate LCNsFit(ps: seq<Pair>, lcn: int) {
    ps == [] ||
    if ps[0].offsetWidth == 0 then LCNsFit(ps[1..], lcn)
    else 0 <= lcn + ps[0].delta < 0x8000_0000_0000_0000 && LCNsFit(ps[1..], lcn + ps[0].delta)
  }

  /** The runs the pairs stand for. */
  ghost function Meaning(ps: seq<Pair>, vcn: nat, lcn: int): seq<NTFSRun> {
    if ps == [] then []
    else
      var p := ps[0];
      var vcn' := AddU64(vcn, p.length);
      if p.offsetWidth == 0 then [NTFSRun(vcn, p.length, -1, true)] + Meaning(ps[1..], vcn', lcn)
      else [NTFSRun(vcn, p.length, lcn + p.delta, false)] + Meaning(ps[1..], vcn', lcn + p.delta)
  }

  /** Two's complement in a sufficient field and back. */
  lemma SignedUnsigned(delta: int, n: nat)
    requires 0 < n <= 8 && -(Pow256(n) / 2) <= delta < Pow256(n) / 2
    ensures 0 <= Unsigned(delta, n) < Pow256(n) && Signed(Unsigned(delta, n), n) == delta
  {
    Pow256Bounds(n);
  }

  lemma UnsignedSigned(raw: nat, n: nat)
    requires 0 < n <= 8 && raw < Pow256(n)
    ensures -(Pow256(n) / 2) <= Signed(raw, n) < Pow256(n) / 2
    ensures Unsigned(Signed(raw, n), n) == raw
  {
    Pow256Bounds(n);
  }

  /** The fields of an encoded pair, wherever it stands. */
  lemma EncodedFields(p: Pair, rest: seq<byte>)
    requires FitsWidths(p)
    ensures var data := EncodePair(p) + rest;
      && |data| > 0 && data[0] % 16 == p.lengthWidth && data[0] / 16 == p.offsetWidth && data[0] != 0
      && 1 + p.lengthWidth + p.offsetWidth <= |data|
      && LE(data[1..1 + p.lengthWidth]) == p.length
      && (p.offsetWidth > 0 ==>
            Signed(LE(data[1 + p.lengthWidth..1 + p.lengthWidth + p.offsetWidth]), p.offsetWidth) == p.delta)
      && data[1 + p.lengthWidth + p.offsetWidth..] == rest
  {
    hide LE, ToLE, Signed, Unsigned, Pow256;
    var lw, ow := p.lengthWidth, p.offsetWidth;
    LEToLE(p.length, lw);
    if ow > 0 {
      SignedUnsigned(p.delta, ow);
      LEToLE(Unsigned(p.delta, ow), ow);
    }
    Layout(ow * 16 + lw, ToLE(p.length, lw), ToLE(if ow == 0 then 0 else Unsigned(p.delta, ow), ow), rest);
  }

  /** The parts of a header byte, two fields and what follows. */
  lemma Layout(h: byte, a: seq<byte>, b: seq<byte>, rest: seq<byte>)
    ensures var data := [h] + a + b + rest;
      && data[0] == h && data[1..1 + |a|] == a && data[1 + |a|..1 + |a| + |b|] == b
      && data[1 + |a| + |b|..] == rest && data[..1 + |a| + |b|] == [h] + a + b
  {
  }

  lemma EncodeHead(ps: seq<Pair>, trailing: seq<byte>)
    requires AllFit(ps)
    ensures Encode(ps) + [0] + trailing != []
    ensures ps == [] ==> (Encode(ps) + [0] + trailing)[0] == 0
    ensures ps != [] ==>
      && FitsWidths(ps[0]) && AllFit(ps[1..])
      && Encode(ps) + [0] + trailing == EncodePair(ps[0]) + (Encode(ps[1..]) + [0] + trailing)
  {
    hide EncodePair, FitsWidths;
    if ps == [] {
      assert Encode(ps) == [];
    } else {
      assert ps[0] in ps && forall q :: q in ps[1..] ==> q in ps;
      assert Encode(ps) == EncodePair(ps[0]) + Encode(ps[1..]);
      hide Encode;
      Assoc(EncodePair(ps[0]), Encode(ps[1..]), [0], trailing);
    }
  }

  lemma Assoc(a: seq<byte>, b: seq<byte>, c: seq<byte>, d: seq<byte>)
    ensures a + b + c + d == a + (b + c + d)
  {
  }

  lemma FitsWidthsPositive(p: Pair)
    requires FitsWidths(p)
    ensures p.length > 0 && 1 <= p.lengthWidth <= 8 && p.offsetWidth <= 8
  {
  }

  /** Decoding one encoded pair. */
  lemma DecodePair(p: Pair, rest: seq<byte>, vcn: nat, lcn: int)
    requires FitsWidths(p) && 0 <= lcn < 0x8000_0000_0000_0000
    requires p.offsetWidth > 0 ==> 0 <= lcn + p.delta < 0x8000_0000_0000_0000
    ensures Parse(EncodePair(p) + rest, vcn, lcn) ==
      if p.offsetWidth == 0
      then Prepend(NTFSRun(vcn, p.length, -1, true), Parse(rest, AddU64(vcn, p.length), lcn))
      else Prepend(NTFSRun(vcn, p.length, lcn + p.delta, false), Parse(rest, AddU64(vcn, p.length), lcn + p.delta))
  {
    hide Parse, LE, EncodePair, FitsWidths, Signed, Pow256, AddU64, Prepend;
    EncodedFields(p, rest);
    FitsWidthsPositive(p);
    ParseHead(EncodePair(p) + rest, vcn, lcn);
  }

  /** Decoding an encoding, whatever field widths it uses and whatever follows its terminator, gives
      exactly the runs encoded. */
  lemma {:induction false} DecodeEncoded(ps: seq<Pair>, trailing: seq<byte>, vcn: nat, lcn: int)
    requires AllFit(ps) && LCNsFit(ps, lcn) && 0 <= lcn < 0x8000_0000_0000_0000
    ensures Parse(Encode(ps) + [0] + trailing, vcn, lcn) == Runs(Meaning(ps, vcn, lcn))
    decreases |ps|
  {
    hide Parse, EncodePair, FitsWidths, Encode, AddU64;
    EncodeHead(ps, trailing);
    if ps == [] {
      ParseHead(Encode(ps) + [0] + trailing, vcn, lcn);
    } else {
      var p := ps[0];
      DecodePair(p, Encode(ps[1..]) + [0] + trailing, vcn, lcn);
      DecodeEncoded(ps[1..], trailing, AddU64(vcn, p.length), if p.offsetWidth == 0 then lcn else lcn + p.delta);
    }
  }

  /** The pairs an accepted runlist consists of. */
  ghost function Explain(data: seq<byte>, vcn: nat, lcn: int): seq<Pair>
    requires Parse(data, vcn, lcn).Runs?
    decreases |data|
  {
    if data[0] == 0 then []
    else
      var lw, ow := data[0] % 16, data[0] / 16;
      var length := LE(data[1..1 + lw]);
      var rest := data[1 + lw + ow..];
      if ow == 0 then [Pair(length, lw, 0, 0)] + Explain(rest, AddU64(vcn, length), lcn)
      else
        var delta := Signed(LE(data[1 + lw..1 + lw + ow]), ow);
        [Pair(length, lw, delta, ow)] + Explain(rest, AddU64(vcn, length), AddI64(lcn, delta))
  }

  /** A pair read from a buffer is the buffer's head. */
  lemma ReadPairEncodes(data: seq<byte>, lw: nat, ow: nat)
    requires 1 <= lw <= 8 && ow <= 8 && 1 + lw + ow <= |data| && data[0] == 16 * ow + lw
    requires LE(data[1..1 + lw]) > 0
    ensures var p := Pair(LE(data[1..1 + lw]), lw,
                          if ow == 0 then 0 else Signed(LE(data[1 + lw..1 + lw + ow]), ow), ow);
      FitsWidths(p) && EncodePair(p) == data[..1 + lw + ow]
  {
    hide LE, ToLE, Signed, Unsigned, Pow256;
    var a, b := data[1..1 + lw], data[1 + lw..1 + lw + ow];
    LEBound(a);
    ToLELE(a);
    LEBound(b);
    ToLELE(b);
    if ow > 0 {
      UnsignedSigned(LE(b), ow);
    } else {
      assert b == [] && ToLE(0, 0) == [];
    }
    assert data == [data[0]] + a + b + data[1 + lw + ow..];
    Layout(data[0], a, b, data[1 + lw + ow..]);
  }

  /** Only encodings are accepted: an accepted runlist is the encoding of the pairs read, then a zero
      byte, and the result is what they mean. */
  lemma AcceptedIsEncoded(data: seq<byte>, vcn: nat, lcn: int)
    requires Parse(data, vcn, lcn).Runs? && 0 <= lcn < 0x8000_0000_0000_0000
    ensures var ps := Explain(data, vcn, lcn);
      && AllFit(ps) && LCNsFit(ps, lcn)
      && |Encode(ps)| < |data| && Encode(ps) == data[..|Encode(ps)|] && data[|Encode(ps)|] == 0
      && Parse(data, vcn, lcn) == Runs(Meaning(ps, vcn, lcn))
  {
    AcceptedBytes(data, vcn, lcn);
    AcceptedMeaning(data, vcn, lcn);
  }

  /** The first pair of accepted data, and what its decoding goes on with. */
  lemma AcceptedHead(data: seq<byte>, vcn: nat, lcn: int) returns (p: Pair, rest: seq<byte>, lcn': int)
    requires Parse(data, vcn, lcn).Runs? && 0 <= lcn < 0x8000_0000_0000_0000 && data[0] != 0
    ensures |rest| < |data| && lcn' == (if p.offsetWidth == 0 then lcn else lcn + p.delta)
    ensures 0 <= lcn' < 0x8000_0000_0000_0000
    ensures Parse(rest, AddU64(vcn, p.length), lcn').Runs?
    ensures Explain(data, vcn, lcn) == [p] + Explain(rest, AddU64(vcn, p.length), lcn')
    ensures Parse(data, vcn, lcn) ==
      Prepend(if p.offsetWidth == 0 then NTFSRun(vcn, p.length, -1, true) else NTFSRun(vcn, p.length, lcn', false),
              Parse(rest, AddU64(vcn, p.length), lcn'))
  {
    hide LE, Signed, Pow256, Parse, AddU64;
    ParseHead(data, vcn, lcn);
    var lw, ow := data[0] % 16, data[0] / 16;
    var length := LE(data[1..1 + lw]);
    rest := data[1 + lw + ow..];
    if ow == 0 {
      p, lcn' := Pair(length, lw, 0, 0), lcn;
    } else {
      DeltaBounds(data[1 + lw..1 + lw + ow], ow);
      p := Pair(length, lw, Signed(LE(data[1 + lw..1 + lw + ow]), ow), ow);
      lcn' := lcn + p.delta;
    }
  }

  lemma {:induction false} AcceptedMeaning(data: seq<byte>, vcn: nat, lcn: int)
    requires Parse(data, vcn, lcn).Runs? && 0 <= lcn < 0x8000_0000_0000_0000
    ensures LCNsFit(Explain(data, vcn, lcn), lcn)
    ensures Parse(data, vcn, lcn) == Runs(Meaning(Explain(data, vcn, lcn), vcn, lcn))
    decreases |data|
  {
    hide Parse, AddU64;
    ParseHead(data, vcn, lcn);
    if data[0] != 0 {
      hide Explain, Meaning, LCNsFit;
      var p, rest, lcn' := AcceptedHead(data, vcn, lcn);
      AcceptedMeaning(rest, AddU64(vcn, p.length), lcn');
      MeaningHead(p, Explain(rest, AddU64(vcn, p.length), lcn'), vcn, lcn);
    }
  }

  lemma MeaningHead(p: Pair, tail: seq<Pair>, vcn: nat, lcn: int)
    ensures var lcn' := if p.offsetWidth == 0 then lcn else lcn + p.delta;
      && (LCNsFit([p] + tail, lcn)
          <==> LCNsFit(tail, lcn') && (p.offsetWidth > 0 ==> 0 <= lcn' < 0x8000_0000_0000_0000))
      && Meaning([p] + tail, vcn, lcn)
         == [if p.offsetWidth == 0 then NTFSRun(vcn, p.length, -1, true) else NTFSRun(vcn, p.length, lcn', false)]
            + Meaning(tail, AddU64(vcn, p.length), lcn')
  {
    assert ([p] + tail)[1..] == tail;
  }

  lemma {:induction false} AcceptedBytes(data: seq<byte>, vcn: nat, lcn: int)
    requires Parse(data, vcn, lcn).Runs?
    ensures var ps := Explain(data, vcn, lcn);
      && AllFit(ps)
      && |Encode(ps)| < |data| && Encode(ps) == data[..|Encode(ps)|] && data[|Encode(ps)|] == 0
    decreases |data|
  {
    hide LE, EncodePair, FitsWidths, Signed, Pow256, AllFit;
    if data[0] == 0 {
      NothingFits();
    } else {
      hide Encode;
      var lw, ow := data[0] % 16, data[0] / 16;
      var n := 1 + lw + ow;
      var length := LE(data[1..1 + lw]);
      ReadPairEncodes(data, lw, ow);
      var delta := if ow == 0 then 0 else Signed(LE(data[1 + lw..n]), ow);
      var p := Pair(length, lw, delta, ow);
      var lcn' := if ow == 0 then lcn else AddI64(lcn, delta);
      AcceptedBytes(data[n..], AddU64(vcn, length), lcn');
      EncodingOfTail(p, Explain(data[n..], AddU64(vcn, length), lcn'), data, n);
    }
  }

  lemma NothingFits()
    ensures AllFit([]) && Encode([]) == []
  {
  }

  lemma DeltaBounds(field: seq<byte>, ow: nat)
    requires 0 < ow == |field| <= 8
    ensures -0x8000_0000_0000_0000 <= Signed(LE(field), ow) < 0x8000_0000_0000_0000
  {
    LEBound(field);
    Pow256Bounds(ow);
  }

  lemma EncodingOfTail(p: Pair, tail: seq<Pair>, data: seq<byte>, n: nat)
    requires FitsWidths(p) && AllFit(tail) && n <= |data| && EncodePair(p) == data[..n]
    requires var m := |Encode(tail)|; m < |data[n..]| && Encode(tail) == data[n..][..m] && data[n..][m] == 0
    ensures AllFit([p] + tail)
    ensures var m := |Encode([p] + tail)|;
      m < |data| && Encode([p] + tail) == data[..m] && data[m] == 0
  {
    hide EncodePair, FitsWidths;
    assert ([p] + tail)[1..] == tail;
    var m := |Encode(tail)|;
    assert data[n..][m] == data[n + m];
    assert data[..n] + data[n..][..m] == data[..n + m];
  }

  ghost predicate IsEncoding(data: seq<byte>, ps: seq<Pair>, trailing: seq<byte>) {
    AllFit(ps) && LCNsFit(ps, 0) && data == Encode(ps) + [0] + trailing
  }

  /** The decoder accepts exactly the terminated encodings whose LCNs fit, and returns their meaning. */
  lemma DecodesExactlyEncodings(data: seq<byte>, vcn: nat, runs: seq<NTFSRun>)
    ensures Parse(data, vcn, 0) == Runs(runs)
      <==> exists ps, trailing :: IsEncoding(data, ps, trailing) && Meaning(ps, vcn, 0) == runs
  {
    hide Parse, Encode, Meaning, Explain, AllFit, LCNsFit;
    if Parse(data, vcn, 0) == Runs(runs) {
      AcceptedIsEncoded(data, vcn, 0);
      var ps := Explain(data, vcn, 0);
      var trailing := data[|Encode(ps)| + 1..];
      assert IsEncoding(data, ps, trailing);
    }
    if ps, trailing :| IsEncoding(data, ps, trailing) && Meaning(ps, vcn, 0) == runs {
      DecodeEncoded(ps, trailing, vcn, 0);
    }
  }

  /** Runs whose VCNs follow each other from vcn on, as uint64 counts, with positive lengths and
      non-negative LCNs on mapped runs. */
  ghost predicate Chained(runs: seq<NTFSRun>, vcn: nat)
    decreases |runs|
  {
    runs == [] ||
    (&& runs[0].startVCN == vcn && 0 < runs[0].length < 0x1_0000_0000_0000_0000
     && (if runs[0].sparse then runs[0].lcn == -1 else 0 <= runs[0].lcn < 0x8000_0000_0000_0000)
     && Chained(runs[1..], AddU64(vcn, runs[0].length)))
  }

  lemma {:induction false} AcceptedIsChained(data: seq<byte>, vcn: nat, lcn: int)
    requires Parse(data, vcn, lcn).Runs? && 0 <= lcn < 0x8000_0000_0000_0000
    ensures Chained(Parse(data, vcn, lcn).runs, vcn)
    decreases |data|
  {
    hide LE, Signed, Pow256;
    if data[0] != 0 {
      var lw, ow := data[0] % 16, data[0] / 16;
      var length := LE(data[1..1 + lw]);
      LEBound(data[1..1 + lw]);
      Pow256Bounds(lw);
      var lcn' := lcn;
      if ow > 0 {
        DeltaBounds(data[1 + lw..1 + lw + ow], ow);
        lcn' := AddI64(lcn, Signed(LE(data[1 + lw..1 + lw + ow]), ow));
      }
      AcceptedIsChained(data[1 + lw + ow..], AddU64(vcn, length), lcn');
      var runs := Parse(data, vcn, lcn).runs;
      assert runs[1..] == Parse(data[1 + lw + ow..], AddU64(vcn, length), lcn').runs;
    }
  }

  // ---------- Decoding as the program does it ----------

  ghost function After(runs: seq<NTFSRun>, p: Parsed): Parsed {
    if p.Runs? then Runs(runs + p.runs) else p
  }

  method ReadLE(data: seq<byte>) returns (v: nat)
    ensures v == LE(data)
  {
    v := 0;
    var weight: nat := 1;
    for j := 0 to |data|
      invariant v == LE(data[..j]) && weight == Pow256(j)
    {
      assert data[..j + 1] == data[..j] + [data[j]];
      LESnoc(data[..j], data[j]);
      v := v + data[j] * weight;
      weight := 256 * weight;
    }
    assert data[..|data|] == data;
  }

  method ParseNTFSRunlist(data: seq<byte>, startVCN: nat) returns (result: Parsed)
    ensures result == Parse(data, startVCN, 0)
  {
    hide Parse, LE;
    var runs: seq<NTFSRun> := [];
    var currentLCN, vcn, i := 0, startVCN, 0;
    assert data[0..] == data;
    AfterNothing(Parse(data, startVCN, 0));
    while i < |data|
      invariant 0 <= i <= |data|
      invariant Parse(data, startVCN, 0) == After(runs, Parse(data[i..], vcn, currentLCN))
      decreases |data| - i
    {
      ParseHead(data[i..], vcn, currentLCN);
      var header := data[i];
      ghost var at := i;
      i := i + 1;
      if header == 0 {
        assert runs + [] == runs;
        return Runs(runs);
      }
      var lengthSize, offsetSize := header % 16, header / 16;
      if lengthSize == 0 || lengthSize > 8 || offsetSize > 8 {
        return Failed(InvalidHeader);
      }
      if i + lengthSize + offsetSize > |data| {
        return Failed(UnexpectedEOF);
      }
      assert data[at..][1..1 + lengthSize] == data[i..i + lengthSize];
      assert data[at..][1 + lengthSize..1 + lengthSize + offsetSize]
        == data[i + lengthSize..i + lengthSize + offsetSize];
      assert data[at..][1 + lengthSize + offsetSize..] == data[i + lengthSize + offsetSize..];
      var runLength := ReadLE(data[i..i + lengthSize]);
      i := i + lengthSize;
      if runLength == 0 {
        return Failed(ZeroLengthRun);
      }
      var run: NTFSRun;
      if offsetSize == 0 {
        run := NTFSRun(vcn, runLength, -1, true);
      } else {
        var raw := ReadLE(data[i..i + offsetSize]);
        i := i + offsetSize;
        var delta := if raw >= Pow256(offsetSize) / 2 then raw - Pow256(offsetSize) else raw;
        currentLCN := AddI64(currentLCN, delta);
        if currentLCN < 0 {
          return Failed(NegativeLCN);
        }
        run := NTFSRun(vcn, runLength, currentLCN, false);
      }
      vcn := AddU64(vcn, runLength);
      AfterPrepend(runs, run, Parse(data[i..], vcn, currentLCN));
      runs := runs + [run];
    }
    assert data[i..] == [];
    ParseHead([], vcn, currentLCN);
    return Failed(UnexpectedEOF);
  }

  lemma AfterNothing(p: Parsed)
    ensures After([], p) == p
  {
    assert p.Runs? ==> [] + p.runs == p.runs;
  }

  lemma AfterPrepend(runs: seq<NTFSRun>, r: NTFSRun, p: Parsed)
    ensures After(runs, Prepend(r, p)) == After(runs + [r], p)
  {
    assert p.Runs? ==> runs + ([r] + p.runs) == (runs + [r]) + p.runs;
  }

  /** One unfolding of Parse. */
  lemma ParseHead(data: seq<byte>, vcn: nat, lcn: int)
    ensures data == [] ==> Parse(data, vcn, lcn) == Failed(UnexpectedEOF)
    ensures data != [] ==>
      var lw, ow := data[0] % 16, data[0] / 16;
      Parse(data, vcn, lcn) ==
        if data[0] == 0 then Runs([])
        else if lw == 0 || lw > 8 || ow > 8 then Failed(InvalidHeader)
        else if 1 + lw + ow > |data| then Failed(UnexpectedEOF)
        else
          var length := LE(data[1..1 + lw]);
          var rest := data[1 + lw + ow..];
          if length == 0 then Failed(ZeroLengthRun)
          else if ow == 0 then
            Prepend(NTFSRun(vcn, length, -1, true), Parse(rest, AddU64(vcn, length), lcn))
          else
            var lcn' := AddI64(lcn, Signed(LE(data[1 + lw..1 + lw + ow]), ow));
            if lcn' < 0 then Failed(NegativeLCN)
            else Prepend(NTFSRun(vcn, length, lcn', false), Parse(rest, AddU64(vcn, length), lcn'))
  {
  }
}
