/** types.go: what flows between the stages. */
module Types {
  import opened Disk
  import opened Overlay

  datatype CaptureRange = CaptureRange(seqNo: nat, start: nat, end: nat)

  datatype WriteEvent = WriteEvent(
    seqNo: nat,
    offset: nat,
    data: seq<byte>,
    staged: ShmExtent,
    touchesMFT: bool
  )

  datatype ObservedWrite = ObservedWrite(event: WriteEvent, mpegts: bool, captures: seq<CaptureRange>)

  datatype PunchRequest = PunchRequest(captureSeq: nat, start: nat, end: nat)

  /** Every capture of a list of observed writes, in order. */
  ghost function AllCaptures(events: seq<ObservedWrite>): seq<CaptureRange> {
    if events == [] then [] else AllCaptures(events[..|events| - 1]) + events[|events| - 1].captures
  }
}
