/** mpegts.go: the streaming MPEG-TS scanner. The packet facts are those of sections 2.4.3.2 and
    2.4.3.3 of ISO/IEC 13818-1: 188 bytes, sync byte 0x47, adaptation_field_control 00 reserved. */
module Scanner {
  import opened Disk

  // The sizes appear as numerals, because the solver multiplies by numerals only: 188 bytes to a
  // packet, 10 packets or 1880 bytes to a detection window, a tail of 1879 bytes kept between
  // writes, and at most 128 packets in one chunk.

  datatype TSChunk = TSChunk(start: nat, end: nat, data: seq<byte>)

  datatype Found = Missing | At(idx: nat)

  /** A packet header at position i: the sync byte, and the two bits under mask 0x30 not both clear. */
  predicate ValidTSPacket(data: seq<byte>, i: nat) {
    i + 188 <= |data| && data[i] == 0x47 && data[i + 3] / 16 % 4 != 0
  }

  /** The p-th packet after position i. */
  predicate PacketAt(data: seq<byte>, i: nat, p: nat) {
    ValidTSPacket(data, i + 188 * p)
  }

  /** n valid packets in a row from position i on. */
  predicate Packets(data: seq<byte>, i: nat, n: nat) {
    forall p :: 0 <= p < n ==> PacketAt(data, i, p)
  }

  /** A detection window: ten packets in a row. */
  predicate Window(data: seq<byte>, i: nat) {
    Packets(data, i, 10)
  }

  /** The leftmost window at or after position from. */
  function Find(data: seq<byte>, from: nat): Found
    decreases |data| - from
  {
    if from + 1880 > |data| then Missing
    else if Window(data, from) then At(from)
    else Find(data, from + 1)
  }

  lemma PacketsFit(data: seq<byte>, i: nat, n: nat)
    requires Packets(data, i, n) && n > 0
    ensures i + 188 * n <= |data|
  {
    assert PacketAt(data, i, n - 1);
  }

  lemma {:induction false} FindIsLeftmost(data: seq<byte>, from: nat)
    ensures Find(data, from).At? ==> from <= Find(data, from).idx && Window(data, Find(data, from).idx)
    ensures forall j :: from <= j && (Find(data, from).At? ==> j < Find(data, from).idx) ==> !Window(data, j)
    decreases |data| - from
  {
    if from + 1880 > |data| {
      forall j | from <= j && Window(data, j) ensures false {
        PacketsFit(data, j, 10);
      }
    } else if !Window(data, from) {
      FindIsLeftmost(data, from + 1);
    }
  }

  /** A leftmost window is what Find finds. */
  lemma FindUnique(data: seq<byte>, i: nat)
    requires Window(data, i) && forall j :: 0 <= j < i ==> !Window(data, j)
    ensures Find(data, 0) == At(i)
  {
    FindIsLeftmost(data, 0);
  }

  /** Packets only look at the bytes they cover, so cutting a front off shifts them. */
  lemma PacketsShift(data: seq<byte>, d: nat, i: nat, n: nat)
    requires d <= |data|
    ensures Packets(data[d..], i, n) <==> Packets(data, d + i, n)
  {
    if Packets(data[d..], i, n) {
      var j := d + i;
      forall p | 0 <= p < n ensures PacketAt(data, j, p) {
        assert PacketAt(data[d..], i, p);
      }
    }
    if Packets(data, d + i, n) {
      forall p | 0 <= p < n ensures PacketAt(data[d..], i, p) {
        assert PacketAt(data, d + i, p);
      }
    }
  }

  /** Appending data decides nothing about packets that were already complete. */
  lemma PacketsAppend(data: seq<byte>, more: seq<byte>, i: nat, n: nat)
    requires i + 188 * n <= |data|
    ensures Packets(data + more, i, n) <==> Packets(data, i, n)
  {
    assert forall p :: 0 <= p < n ==> PacketAt(data + more, i, p) == PacketAt(data, i, p);
  }

  /** A row of packets split after m of them. */
  lemma PacketsSplit(data: seq<byte>, i: nat, n: nat, m: nat)
    requires m <= n
    ensures Packets(data, i, n) <==> Packets(data, i, m) && Packets(data, i + 188 * m, n - m)
  {
    var j := i + 188 * m;
    if Packets(data, i, n) {
      forall p | 0 <= p < n - m ensures PacketAt(data, j, p) {
        assert PacketAt(data, i, m + p);
      }
    }
    if Packets(data, i, m) && Packets(data, i + 188 * m, n - m) {
      forall p | m <= p < n ensures PacketAt(data, i, p) {
        assert PacketAt(data, i + 188 * m, p - m);
      }
    }
  }

  /** A found window is complete, its first packet is valid, and a buffer whose head is not has it later. */
  lemma FoundFits(data: seq<byte>)
    ensures Find(data, 0).At? ==>
      && Find(data, 0).idx + 1880 <= |data|
      && ValidTSPacket(data, Find(data, 0).idx)
      && ValidTSPacket(data[Find(data, 0).idx..], 0)
      && (!ValidTSPacket(data, 0) ==> Find(data, 0).idx > 0)
  {
    FindIsLeftmost(data, 0);
    if Find(data, 0).At? {
      var i := Find(data, 0).idx;
      PacketsFit(data, i, 10);
      assert PacketAt(data, i, 0);
    }
  }

  // ---------- Emission as a function ----------

  function Tail(data: seq<byte>): seq<byte> {
    if |data| <= 1879 then data else data[|data| - 1879..]
  }

  /** How many of the first n packets from i on are valid before the first that is not. */
  function LeadingValid(data: seq<byte>, i: nat, n: nat): (v: nat)
    ensures v <= n
    decreases n
  {
    if n == 0 || !ValidTSPacket(data, i) then 0 else 1 + LeadingValid(data, i + 188, n - 1)
  }

  lemma {:induction false} LeadingValidIs(data: seq<byte>, i: nat, n: nat)
    ensures Packets(data, i, LeadingValid(data, i, n))
    ensures Packets(data, i, n) ==> LeadingValid(data, i, n) == n
    decreases n
  {
    if n > 0 {
      assert PacketAt(data, i, 0) == ValidTSPacket(data, i);
      if ValidTSPacket(data, i) {
        LeadingValidIs(data, i + 188, n - 1);
        PacketsSplit(data, i, LeadingValid(data, i, n), 1);
        PacketsSplit(data, i, n, 1);
      }
    }
  }

  datatype Emitted = Emitted(chunks: seq<TSChunk>, rest: seq<byte>, restStart: nat)

  /** Chunks emitted earlier in front of what is emitted next. */
  ghost function Then(out: seq<TSChunk>, e: Emitted): Emitted {
    Emitted(out + e.chunks, e.rest, e.restStart)
  }

  function ChunkPackets(data: seq<byte>): nat {
    var whole := |data| / 188;
    LeadingValid(data, 0, if whole > 128 then 128 else whole)
  }

  /** Cuts whole valid packets off a buffer in chunks; where the head is no packet it moves to the next
      window, or keeps a tail that a later write may complete. */
  function EmitAll(data: seq<byte>, start: nat): Emitted
    decreases |data|
  {
    if |data| < 188 then Emitted([], data, start)
    else if !ValidTSPacket(data, 0) then
      match Find(data, 0)
      case Missing => Emitted([], Tail(data), start + |data| - |Tail(data)|)
      case At(i) =>
        FoundFits(data);
        EmitAll(data[i..], start + i)
    else
      var n := 188 * ChunkPackets(data);
      var more := EmitAll(data[n..], start + n);
      Emitted([TSChunk(start, start + n, data[..n])] + more.chunks, more.rest, more.restStart)
  }

  /** A chunk and what is emitted behind it. */
  lemma EmitCons(data: seq<byte>, start: nat)
    requires ValidTSPacket(data, 0)
    ensures var n := 188 * ChunkPackets(data);
      && 0 < n <= |data|
      && var more := EmitAll(data[n..], start + n);
         EmitAll(data, start)
         == Emitted([TSChunk(start, start + n, data[..n])] + more.chunks, more.rest, more.restStart)
  {
  }

  lemma EmitHead(out: seq<TSChunk>, data: seq<byte>, start: nat)
    requires ValidTSPacket(data, 0)
    ensures var n := 188 * ChunkPackets(data);
      && 0 < n <= |data|
      && Then(out, EmitAll(data, start))
         == Then(out + [TSChunk(start, start + n, data[..n])], EmitAll(data[n..], start + n))
  {
    var n := 188 * ChunkPackets(data);
    var more := EmitAll(data[n..], start + n);
    assert out + ([TSChunk(start, start + n, data[..n])] + more.chunks)
      == (out + [TSChunk(start, start + n, data[..n])]) + more.chunks;
  }

  /** Where emission ends: less than a packet left, or no packet at the head and no window. */
  lemma EmitStop(data: seq<byte>, start: nat)
    ensures |data| < 188 ==> EmitAll(data, start) == Emitted([], data, start)
    ensures |data| >= 188 && !ValidTSPacket(data, 0) && Find(data, 0).Missing? ==>
      EmitAll(data, start) == Emitted([], Tail(data), start + |data| - |Tail(data)|)
  {
  }

  lemma EmitSkip(data: seq<byte>, start: nat)
    requires |data| >= 188 && !ValidTSPacket(data, 0) && Find(data, 0).At?
    ensures var i := Find(data, 0).idx; i <= |data| && EmitAll(data, start) == EmitAll(data[i..], start + i)
  {
    FoundFits(data);
  }

  // ---------- The scanner as a function ----------

  datatype ScanState = ScanState(
    buffer: seq<byte>, bufferStart: nat, expected: nat, haveExpected: bool, detected: bool)

  const FRESH := ScanState([], 0, 0, false, false)

  function ResetAt(off: nat): ScanState {
    ScanState([], off, off, true, false)
  }

  function EmitFrom(data: seq<byte>, start: nat, expected: nat): (ScanState, seq<TSChunk>, bool) {
    var e := EmitAll(data, start);
    (ScanState(e.rest, e.restStart, expected, true, true), e.chunks, true)
  }

  /** One write: the new state, the chunks emitted, and whether the write counts as MPEG-TS. */
  function FeedStep(s: ScanState, off: nat, data: seq<byte>): (ScanState, seq<TSChunk>, bool) {
    if data == [] then (s, [], s.detected)
    else if s.detected then
      if off == s.expected then
        var r := EmitFrom(s.buffer + data, s.bufferStart, off + |data|);
        (r.0.(haveExpected := s.haveExpected), r.1, true)
      else
        match Find(data, 0)
        case Missing => (s, [], false)
        case At(i) =>
          FoundFits(data);
          var r := EmitFrom(data[i..], off + i, off + |data|);
          (r.0.(haveExpected := s.haveExpected), r.1, true)
    else
      var s0 := if !s.haveExpected || off != s.expected then ResetAt(off) else s;
      var all := s0.buffer + data;
      match Find(all, 0)
      case Missing =>
        (ScanState(Tail(all), s0.bufferStart + |all| - |Tail(all)|, off + |data|, true, false), [], false)
      case At(i) =>
        FoundFits(all);
        EmitFrom(all[i..], s0.bufferStart + i, off + |data|)
  }

  // ---------- The scanner as the program runs it ----------

  class TSScanner {
    var buffer: seq<byte>
    var bufferStart: nat
    var expected: nat
    var haveExpected: bool
    var detected: bool

    ghost function State(): ScanState
      reads this
    {
      ScanState(buffer, bufferStart, expected, haveExpected, detected)
    }

    constructor ()
      ensures State() == FRESH
    {
      buffer, bufferStart, expected, haveExpected, detected := [], 0, 0, false, false;
    }

    method Reset(off: nat)
      modifies this
      ensures State() == ResetAt(off)
    {
      buffer := [];
      bufferStart, expected := off, off;
      haveExpected, detected := true, false;
    }

    method Feed(off: nat, data: seq<byte>) returns (chunks: seq<TSChunk>, isMPEGTS: bool)
      modifies this
      ensures (State(), chunks, isMPEGTS) == FeedStep(old(State()), off, data)
    {
      hide EmitAll, Find;
      if |data| == 0 {
        return [], detected;
      }
      if detected {
        if off == expected {
          buffer := buffer + data;
          expected := off + |data|;
          chunks := Emit();
          return chunks, true;
        }
        var found := FindMPEGTS(data);
        if found.Missing? {
          return [], false;
        }
        buffer := data[found.idx..];
        bufferStart := off + found.idx;
        expected := off + |data|;
        chunks := Emit();
        return chunks, true;
      }
      chunks, isMPEGTS := FeedCandidate(off, data);
    }

    /** The part of Feed for a scanner that has not detected MPEG-TS yet. */
    method FeedCandidate(off: nat, data: seq<byte>) returns (chunks: seq<TSChunk>, isMPEGTS: bool)
      requires !detected && data != []
      modifies this
      ensures (State(), chunks, isMPEGTS) == FeedStep(old(State()), off, data)
    {
      hide EmitAll, Find;
      if !haveExpected || off != expected {
        Reset(off);
      }
      buffer := buffer + data;
      expected := off + |data|;
      var found := FindMPEGTS(buffer);
      if found.Missing? {
        KeepTail();
        return [], false;
      }
      if found.idx > 0 {
        buffer := buffer[found.idx..];
        bufferStart := bufferStart + found.idx;
      }
      detected := true;
      chunks := Emit();
      return chunks, true;
    }

    method KeepTail()
      modifies this`buffer, this`bufferStart
      ensures buffer == Tail(old(buffer)) && bufferStart == old(bufferStart) + |old(buffer)| - |buffer|
    {
      if |buffer| <= 1879 {
        return;
      }
      var drop := |buffer| - 1879;
      buffer := buffer[drop..];
      bufferStart := bufferStart + drop;
    }

    /** emit. The branch for a head that holds no valid packet after resynchronising is dead. */
    method Emit() returns (out: seq<TSChunk>)
      modifies this`buffer, this`bufferStart
      ensures Emitted(out, buffer, bufferStart) == EmitAll(old(buffer), old(bufferStart))
    {
      hide EmitAll, Find;
      EmitStop(buffer, bufferStart);
      out := [];
      if |buffer| < 188 {
        return;
      }
      ghost var goal := EmitAll(buffer, bufferStart);
      while |buffer| >= 188
        invariant goal == Then(out, EmitAll(buffer, bufferStart))
        decreases |buffer|
      {
        ghost var size := |buffer|;
        FoundFits(buffer);
        if !ValidTSPacket(buffer, 0) {
          var found := FindMPEGTS(buffer);
          if found.Missing? {
            EmitStop(buffer, bufferStart);
            KeepTail();
            break;
          }
          EmitSkip(buffer, bufferStart);
          if found.idx > 0 {
            buffer := buffer[found.idx..];
            bufferStart := bufferStart + found.idx;
          }
          if |buffer| < 188 {
            assert false;
          }
        }
        assert ValidTSPacket(buffer, 0) && |buffer| <= size;
        EmitHead(out, buffer, bufferStart);
        var validPackets := CountValid();
        if validPackets == 0 {
          assert false;
        }
        var n := validPackets * 188;
        var start := bufferStart;
        out := out + [TSChunk(start, start + n, buffer[..n])];
        buffer := buffer[n..];
        bufferStart := start + n;
      }
      EmitStop(buffer, bufferStart);
      assert out + [] == out;
    }

    /** The inner loop of emit: how many packets the next chunk takes. */
    method CountValid() returns (validPackets: nat)
      requires |buffer| >= 188
      ensures validPackets == ChunkPackets(buffer)
      ensures 188 * validPackets <= |buffer|
      ensures ValidTSPacket(buffer, 0) ==> validPackets > 0
    {
      hide EmitAll, Find, Packets, ValidTSPacket;
      var packetCount := |buffer| / 188;
      if packetCount > 128 {
        packetCount := 128;
      }
      validPackets := 0;
      while validPackets < packetCount && ValidTSPacket(buffer, validPackets * 188)
        invariant 0 <= validPackets <= packetCount
        invariant LeadingValid(buffer, 0, packetCount)
          == validPackets + LeadingValid(buffer, validPackets * 188, packetCount - validPackets)
      {
        validPackets := validPackets + 1;
      }
    }
  }

  /** Tries every start position in turn; only one with a sync byte is probed further. */
  method FindMPEGTS(data: seq<byte>) returns (found: Found)
    ensures found == Find(data, 0)
    ensures found.At? ==> found.idx + 1880 <= |data| && Window(data, found.idx)
  {
    if |data| < 1880 {
      return Missing;
    }
    var i := 0;
    while i + 1880 <= |data|
      invariant i <= |data|
      invariant Find(data, 0) == Find(data, i)
    {
      if data[i] == 0x47 {
        var ok := true;
        var packet := 0;
        while packet < 10 && ok
          invariant 0 <= packet <= 10
          invariant ok ==> Packets(data, i, packet)
          invariant !ok ==> !Window(data, i)
        {
          assert PacketAt(data, i, packet) == ValidTSPacket(data, i + packet * 188);
          if !ValidTSPacket(data, i + packet * 188) {
            ok := false;
          }
          packet := packet + 1;
        }
        if ok {
          PacketsFit(data, i, 10);
          return At(i);
        }
      } else {
        assert !PacketAt(data, i, 0);
      }
      i := i + 1;
    }
    return Missing;
  }
}
