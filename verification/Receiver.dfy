/** The receiving side of an AMS connection: one thread that cuts the TCP stream into frames. */
module Receiver {
  import opened AdsConstants
  import opened Bytes
  import opened RingBuffers
  import opened Notifications
  import opened Streams

  // ---- The shared per-port slots ---------------------------------------------------------------

  const ADSERR_CLIENT_SYNCRESINVALID: uint32 := 0x754

  /** A request that lives on the stack of its caller. Its members demand the permission of the slot it is in. */
  class AmsRequest {
    const bufferLength: uint32
    const buffer: array<byte>
    const hasBytesRead: bool
    var bytesRead: nat

    constructor (buffer: array<byte>, bufferLength: uint32, hasBytesRead: bool)
      requires bufferLength <= buffer.Length
      ensures this.buffer == buffer && this.bufferLength == bufferLength && this.hasBytesRead == hasBytesRead
      ensures bytesRead == 0
    {
      this.buffer, this.bufferLength, this.hasBytesRead := buffer, bufferLength, hasBytesRead;
      bytesRead := 0;
    }

    function BufferLength(ghost slot: AmsResponse): uint32
      requires slot.Armed() && slot.request == this
      reads slot
    {
      bufferLength
    }

    function Buffer(ghost slot: AmsResponse): array<byte>
      requires slot.Armed() && slot.request == this
      reads slot
    {
      buffer
    }

    method StoreBytesRead(ghost slot: AmsResponse, n: nat)
      requires slot.Armed() && slot.request == this
      modifies this`bytesRead
      ensures bytesRead == if hasBytesRead then n else old(bytesRead)
    {
      if hasBytesRead {
        bytesRead := n;
      }
    }
  }

  /** A slot. held is the model's account of the receiver's permission to use the request: the owner gives it when it
      publishes an id, and it ends with Notify, because the caller returns, and its request is gone, as soon as it sees
      the result. */
  class AmsResponse {
    var request: AmsRequest?
    var invokeId: uint32
    var errorCode: uint32
    var held: bool
    /** Every result given to the owner so far. */
    ghost var notices: seq<uint32>

    /** There is a request, and the receiver may use it. */
    predicate Armed()
      reads this
    {
      request != null && held && request.bufferLength <= request.buffer.Length
    }

    method Notify(error: uint32)
      modifies this`errorCode, this`notices, this`held
      ensures errorCode == error && notices == old(notices) + [error] && !held
    {
      errorCode := error;
      notices := notices + [error];
      held := false;
    }

    // ---- What a reply that claims this slot meets, and may change ----

    ghost function Meets(): (m: Claimed)
      reads this
      ensures m == if request != null && held && request.bufferLength <= request.buffer.Length
                   then Waiting(request.bufferLength) else Idle
    {
      if Armed() then Waiting(request.bufferLength) else Idle
    }

    ghost function LentRequest(): set<AmsRequest>
      reads this
    {
      if Armed() then {request} else {}
    }

    ghost function LentBuffer(): set<array<byte>>
      reads this
    {
      if Armed() then {request.buffer} else {}
    }

    /** What the owner sees: the results given so far, and the buffer and the count of its request. */
    ghost function Sees(): Owner
      reads this, request, if request == null then {} else {request.buffer}
    {
      if request == null then Owner(notices, [], 0) else Owner(notices, request.buffer[..], request.bytesRead)
    }
  }

  datatype Owner = Owner(notices: seq<uint32>, buffer: seq<byte>, bytesRead: nat)

  // ---- The headers -----------------------------------------------------------------------------

  const JUNK := 1024

  function TcpLength(tcp: seq<byte>): uint32
    requires |tcp| == TCP_HEADER
  {
    Field(tcp, 2, 4)
  }

  /** The fields of the AoE header that the receiver looks at. */
  datatype AoE = AoE(targetPort: uint16, source: seq<byte>, cmdId: uint16, length: uint32, errorCode: uint32,
                     invokeId: uint32)

  function ParseAoE(h: seq<byte>): AoE
    requires |h| == AOE_HEADER
  {
    AoE(Field(h, 6, 2), h[8..16], Field(h, 16, 2), Field(h, 20, 4), Field(h, 24, 4), Field(h, 28, 4))
  }

  const DEVICE_NOTIFICATION: uint16 := 8

  /** The size of the response header of a command; None for a command id that is not known. */
  function ResponseHeader(cmdId: uint16): Option<nat> {
    if cmdId == 2 || cmdId == 9 then Some(8)
    else if cmdId == 1 || 3 <= cmdId <= 7 then Some(4)
    else None
  }

  /** The slot of a port, in 16-bit arithmetic: no other port wraps into the range. */
  function PortIndex(port: uint16): (r: Option<nat>)
    ensures r == if 30000 <= port < 30128 then Some(port - 30000) else None
  {
    var i := (port - PORT_BASE) % 0x1_0000;
    if i >= NUM_PORTS_MAX then None else Some(i)
  }

  /** Both headers of the next frame, as far as the receiver reads them, are in the stream. */
  predicate HeadersIn(input: seq<byte>) {
    |input| >= TCP_HEADER && (TcpLength(input[..TCP_HEADER]) >= AOE_HEADER ==> |input| >= TCP_HEADER + AOE_HEADER)
  }

  function NextAoE(input: seq<byte>): (h: Option<AoE>)
    requires HeadersIn(input)
  {
    if TcpLength(input[..TCP_HEADER]) < AOE_HEADER then None
    else Some(ParseAoE(input[TCP_HEADER..TCP_HEADER + AOE_HEADER]))
  }

  lemma SliceOfSlice(p: seq<byte>, at: nat, size: nat, i: nat, n: nat)
    requires at + size <= |p| && i + n <= size
    ensures p[at..at + size][i..i + n] == p[at + i..at + i + n]
  {
    var x, y := p[at..at + size][i..i + n], p[at + i..at + i + n];
    assert |x| == |y|;
    forall k | 0 <= k < |x|
      ensures x[k] == y[k]
    {
      assert x[k] == p[at..at + size][i + k] == p[at + (i + k)];
    }
  }

  /** Where the receiver finds the fields, counted from the start of a frame. */
  lemma HeaderAt(p: seq<byte>)
    ensures HeadersIn(p) <==> |p| >= 6 && (Field(p, 2, 4) >= 32 ==> |p| >= 38)
    ensures HeadersIn(p) ==>
              NextAoE(p) == if Field(p, 2, 4) < 32 then None
                            else Some(AoE(Field(p, 12, 2), p[14..22], Field(p, 22, 2), Field(p, 26, 4),
                                          Field(p, 30, 4), Field(p, 34, 4)))
  {
    hide FromLE;
    if |p| >= 6 {
      SliceOfSlice(p, 0, 6, 2, 4);
    }
    if |p| >= 38 {
      SliceOfSlice(p, 6, 32, 6, 2);
      SliceOfSlice(p, 6, 32, 8, 8);
      SliceOfSlice(p, 6, 32, 16, 2);
      SliceOfSlice(p, 6, 32, 20, 4);
      SliceOfSlice(p, 6, 32, 24, 4);
      SliceOfSlice(p, 6, 32, 28, 4);
    }
  }

  // ---- Where a pass ends -----------------------------------------------------------------------

  datatype Ending = Ending(status: Status, taken: nat, rest: Schedule)

  /** Skipping n bytes, a kilobyte at a time. */
  function Skipping(n: nat, avail: nat, schedule: Schedule): (p: Part)
    ensures p.got <= n && p.got <= avail && |p.rest| <= |schedule|
    ensures p.status == Done ==> p.got == n
    ensures p.status == Done || p.status == Lost
  {
    if n <= 1024 then Reading(n, avail, schedule, false)
    else
      var p := Reading(1024, avail, schedule, false);
      if p.status != Done then p
      else
        var q := Skipping(n - 1024, avail - 1024, p.rest);
        Part(q.status, 1024 + q.got, q.rest)
  }

  /** What the code asks of the second receive, in size_t arithmetic. */
  function Asked(length: nat, size: nat): (n: nat)
    requires size <= 8 && length < SIZES
    ensures size <= length ==> n == length - size
    ensures length < size ==> n == length + SIZES - size
  {
    (length + SIZES - size) % SIZES
  }

  /** How the guarded part of a reply goes, for a response header of the given size: taken counts the bytes it takes off
      the stream, written those of them that are stored in the caller's buffer, left the code's own count of what it
      still has to skip. */
  datatype Service = Service(status: Status, taken: nat, written: nat, left: nat, rest: Schedule)

  function Serve(size: nat, length: uint32, bufferLength: uint32, avail: nat, schedule: Schedule): (s: Service)
    requires size <= 8 && length <= size + bufferLength
    ensures s.written <= bufferLength && (s.written > 0 ==> size + s.written <= s.taken) && |s.rest| <= |schedule|
    ensures s.taken <= avail
    ensures s.status == Done ==> size <= length == s.taken && s.written == length - size
    ensures s.status == Expired ==> s.taken + s.left >= length
  {
    var h := ReadingInTime(size, avail, schedule);
    if h.status != Done then Service(h.status, h.got, 0, length, h.rest)
    else
      var n := Asked(length, size);
      var p := ReadingInTime(n, avail - size, h.rest);
      Service(if p.got > bufferLength then Undefined else p.status, size + p.got, Min(p.got, bufferLength), n, p.rest)
  }

  /** The result of a reply that is not read, because its command is not known or it carries an error. */
  function Refusal(h: AoE): Option<uint32> {
    if ResponseHeader(h.cmdId).None? then Some(ADSERR_CLIENT_SYNCRESINVALID)
    else if h.errorCode != 0 then Some(h.errorCode)
    else None
  }

  /** Whether a reply reaches the guarded part. */
  predicate Served(size: nat, h: AoE, bufferLength: uint32) {
    h.errorCode == 0 && h.length <= size + bufferLength
  }

  function Skipped(n: nat, avail: nat, schedule: Schedule): Ending {
    var j := Skipping(n, avail, schedule);
    Ending(j.status, j.got, j.rest)
  }

  /** The end of a reply for an owner that waits. */
  function ReplyEnd(h: AoE, bufferLength: uint32, avail: nat, schedule: Schedule): (e: Ending)
    ensures e.taken <= avail && |e.rest| <= |schedule| && e.status != Expired
  {
    var size := ResponseHeader(h.cmdId);
    if size.None? || !Served(size.value, h, bufferLength) then Skipped(h.length, avail, schedule)
    else
      var s := Serve(size.value, h.length, bufferLength, avail, schedule);
      if s.status != Expired then Ending(s.status, s.taken, s.rest)
      else
        var e := Skipped(s.left, avail - s.taken, s.rest);
        e.(taken := s.taken + e.taken)
  }

  /** What an owner that waits is told, if anything; stream is what follows the headers. */
  function ReplyResult(h: AoE, bufferLength: uint32, stream: seq<byte>, schedule: Schedule): Option<uint32> {
    if Refusal(h).Some? then Refusal(h)
    else if !Served(ResponseHeader(h.cmdId).value, h, bufferLength) then Some(ADSERR_DEVICE_INVALIDSIZE)
    else
      var s := Serve(ResponseHeader(h.cmdId).value, h.length, bufferLength, |stream|, schedule);
      if s.status == Done && |stream| >= 4 then Some(Field(stream, 0, 4))
      else if s.status == Expired then Some(ADSERR_CLIENT_SYNCTIMEOUT)
      else None
  }

  /** The n payload bytes behind a response header. */
  function Written(stream: seq<byte>, size: nat, n: nat): (b: seq<byte>)
    requires n > 0 ==> size + n <= |stream|
    ensures |b| == n
  {
    if n == 0 then [] else stream[size..size + n]
  }

  /** The payload bytes that reach the caller's buffer. */
  function ReplyPayload(h: AoE, bufferLength: uint32, stream: seq<byte>, schedule: Schedule): (b: seq<byte>)
    ensures |b| <= bufferLength
  {
    var size := ResponseHeader(h.cmdId);
    if size.None? || !Served(size.value, h, bufferLength) then []
    else Written(stream, size.value, Serve(size.value, h.length, bufferLength, |stream|, schedule).written)
  }

  /** The number of payload bytes that the caller is told, if it is told one. */
  function ReplyCount(h: AoE, bufferLength: uint32, avail: nat, schedule: Schedule): Option<nat> {
    var size := ResponseHeader(h.cmdId);
    if size.None? || !Served(size.value, h, bufferLength) then None
    else
      var s := Serve(size.value, h.length, bufferLength, avail, schedule);
      if s.status == Done then Some(s.written) else None
  }

  /** What a reply meets: no slot with its id, a slot with its id but no request that the receiver may use, or a caller
      with room for a payload. */
  datatype Claimed = Nobody | Idle | Waiting(bufferLength: uint32)

  /** Without a request a reply that has to be read ends the model: the code would use a null pointer, or a request
      whose owner does not wait for the receiver. */
  function AnswerEnd(h: AoE, claimed: Claimed, avail: nat, schedule: Schedule): (e: Ending)
    ensures e.taken <= avail && |e.rest| <= |schedule| && e.status != Expired
  {
    match claimed
    case Nobody => Skipped(h.length, avail, schedule)
    case Idle => if Refusal(h).Some? then Skipped(h.length, avail, schedule) else Ending(Undefined, 0, schedule)
    case Waiting(bufferLength) => ReplyEnd(h, bufferLength, avail, schedule)
  }

  lemma {:induction false} SkippingUses(n: nat, avail: nat, schedule: Schedule)
    ensures var p := Skipping(n, avail, schedule); Used(schedule, p.rest, p.status) && Used(schedule, p.rest, Done)
    decreases n
  {
    hide Reading;
    if n <= JUNK {
      ReadingUses(n, avail, schedule, false);
    } else {
      ReadingUses(JUNK, avail, schedule, false);
      var p := Reading(JUNK, avail, schedule, false);
      if p.status == Done {
        SkippingUses(n - JUNK, avail - JUNK, p.rest);
      }
    }
  }

  /** Reading both headers. */
  lemma HeadersUse(avail: nat, schedule: Schedule)
    ensures var t := Reading(TCP_HEADER, avail, schedule, false);
            && Used(schedule, t.rest, t.status) && Used(schedule, t.rest, Done)
            && (avail >= TCP_HEADER ==>
                  var a := Reading(AOE_HEADER, avail - TCP_HEADER, t.rest, false);
                  Used(schedule, a.rest, a.status) && Used(schedule, a.rest, Done))
  {
    hide Reading;
    ReadingUses(TCP_HEADER, avail, schedule, false);
    if avail >= TCP_HEADER {
      ReadingUses(AOE_HEADER, avail - TCP_HEADER, Reading(TCP_HEADER, avail, schedule, false).rest, false);
    }
  }

  predicate IsNotification(input: seq<byte>) {
    HeadersIn(input) && NextAoE(input).Some? && NextAoE(input).value.cmdId == DEVICE_NOTIFICATION
  }

  /** The schedule behind both headers. */
  function BehindHeaders(avail: nat, schedule: Schedule): Schedule
    requires avail >= TCP_HEADER + AOE_HEADER
  {
    Reading(AOE_HEADER, avail - TCP_HEADER, Reading(TCP_HEADER, avail, schedule, false).rest, false).rest
  }

  /** The part of a pass behind both headers. A notification that arrives takes what its header says; how its reads are
      cut depends on the room in its ring. */
  function PassBehind(h: AoE, claimed: Claimed, avail: nat, schedule: Schedule): (e: Ending)
    ensures |e.rest| <= |schedule| && e.status != Expired
    ensures h.cmdId != DEVICE_NOTIFICATION ==> e.taken <= TCP_HEADER + AOE_HEADER + avail
  {
    if h.cmdId == DEVICE_NOTIFICATION then Ending(Done, TCP_HEADER + AOE_HEADER + h.length, schedule)
    else
      var e := AnswerEnd(h, claimed, avail, schedule);
      Ending(e.status, TCP_HEADER + AOE_HEADER + e.taken, e.rest)
  }

  /** One pass of the receive loop: how it ends, and after how many bytes. */
  function Pass(input: seq<byte>, schedule: Schedule, claimed: Claimed): (e: Ending)
    ensures e.status == Done && !IsNotification(input) ==> e.taken <= |input|
    ensures |e.rest| <= |schedule| && (e.status == Done ==> HeadersIn(input) && |e.rest| < |schedule|)
    ensures e.status != Expired
  {
    var t := Reading(TCP_HEADER, |input|, schedule, false);
    if t.status != Done then Ending(t.status, t.got, t.rest)
    else
      var length := TcpLength(input[..TCP_HEADER]);
      if length < AOE_HEADER then
        var j := Skipping(length, |input| - TCP_HEADER, t.rest);
        Ending(j.status, TCP_HEADER + j.got, j.rest)
      else
        var a := Reading(AOE_HEADER, |input| - TCP_HEADER, t.rest, false);
        if a.status != Done then Ending(a.status, TCP_HEADER + a.got, a.rest)
        else
          var h := ParseAoE(input[TCP_HEADER..TCP_HEADER + AOE_HEADER]);
          PassBehind(h, claimed, |input| - TCP_HEADER - AOE_HEADER, a.rest)
  }

  /** The AoE header that a pass reads: None for a frame too short for one, and when the connection ends before. */
  function HeaderRead(input: seq<byte>, schedule: Schedule): (h: Option<AoE>)
    ensures h.Some? ==> HeadersIn(input) && h == NextAoE(input)
  {
    var t := Reading(TCP_HEADER, |input|, schedule, false);
    if t.status != Done || TcpLength(input[..TCP_HEADER]) < AOE_HEADER then None
    else if Reading(AOE_HEADER, |input| - TCP_HEADER, t.rest, false).status != Done then None
    else Some(ParseAoE(input[TCP_HEADER..TCP_HEADER + AOE_HEADER]))
  }

  /** A pass that ends has read the header of its frame. */
  lemma DoneHasRead(input: seq<byte>, schedule: Schedule, claimed: Claimed)
    requires Pass(input, schedule, claimed).status == Done
    ensures HeadersIn(input) && HeaderRead(input, schedule) == NextAoE(input)
  {
    hide Reading, Skipping, PassBehind, Field;
  }

  // ---- Staying at the frames -------------------------------------------------------------------

  /** A frame whose two lengths agree with its size. */
  predicate WholePacket(p: seq<byte>) {
    && HeadersIn(p)
    && |p| == TCP_HEADER + TcpLength(p[..TCP_HEADER])
    && (NextAoE(p).Some? ==> |p| == TCP_HEADER + AOE_HEADER + NextAoE(p).value.length)
  }

  /** A deadline passes when some bytes of the response header, or some of the payload behind it, have come, and not
      all of them. Or the reply is shorter than its response header, which is read from behind it. */
  ghost predicate Interrupted(size: nat, length: nat, avail: nat, schedule: Schedule)
    requires length <= avail
  {
    || MidPart(size, avail, schedule)
    || (size <= avail
        && exists j: nat :: PartDone(size, schedule, j)
                            && (size <= length ==> MidPart(length - size, avail - size, schedule[j..])))
  }

  /** The frame is an error-free reply that fits, for a caller that waits, and is interrupted. */
  ghost predicate CutShort(p: seq<byte>, avail: nat, schedule: Schedule, claimed: Claimed)
    requires WholePacket(p) && avail >= |p|
  {
    && NextAoE(p).Some? && claimed.Waiting?
    && var h := NextAoE(p).value;
       var size := ResponseHeader(h.cmdId);
       && size.Some? && Served(size.value, h, claimed.bufferLength)
       && Interrupted(size.value, h.length, avail - TCP_HEADER - AOE_HEADER, BehindHeaders(avail, schedule))
  }

  /** The guarded part of a reply leaves more to skip than the frame still has iff it is interrupted. */
  lemma SlipsIff(size: nat, length: uint32, bufferLength: uint32, avail: nat, schedule: Schedule)
    requires 0 < size <= 8 && length <= size + bufferLength && length <= avail
    requires var s := Serve(size, length, bufferLength, avail, schedule);
             size <= length || s.status == Done || s.status == Expired
    ensures var s := Serve(size, length, bufferLength, avail, schedule);
            s.status == Expired && s.taken + s.left > length <==> Interrupted(size, length, avail, schedule)
  {
    hide Reading, ReadingInTime, MidPart, PartDone;
    var h := ReadingInTime(size, avail, schedule);
    MidPartIff(size, avail, schedule);
    if size <= avail {
      PartDoneInTimeIff(size, avail, schedule);
      if h.status == Done && size <= length {
        MidPartIff(length - size, avail - size, h.rest);
      }
    }
  }

  /** What follows a frame in the stream does not change how it is read. */
  lemma HeadPacket(p: seq<byte>, behind: seq<byte>)
    requires WholePacket(p)
    ensures HeadersIn(p + behind) && NextAoE(p + behind) == NextAoE(p)
    ensures TcpLength((p + behind)[..TCP_HEADER]) == TcpLength(p[..TCP_HEADER])
  {
    assert (p + behind)[..TCP_HEADER] == p[..TCP_HEADER];
    if TcpLength(p[..TCP_HEADER]) >= AOE_HEADER {
      assert (p + behind)[TCP_HEADER..TCP_HEADER + AOE_HEADER] == p[TCP_HEADER..TCP_HEADER + AOE_HEADER];
    }
  }

  /** A pass that ends does so at the end of its frame iff no deadline cuts a part of the reply short; else it ends
      behind it. */
  lemma FramedIff(p: seq<byte>, behind: seq<byte>, schedule: Schedule, claimed: Claimed)
    requires WholePacket(p) && Pass(p + behind, schedule, claimed).status == Done
    ensures var e, avail := Pass(p + behind, schedule, claimed), |p + behind|;
            && e.taken >= |p|
            && (e.taken == |p| <==> !CutShort(p, avail, schedule, claimed))
  {
    hide Field, Reading, Skipping, ReadingInTime, Interrupted, Serve;
    HeadPacket(p, behind);
    if NextAoE(p).Some? && claimed.Waiting? {
      var h := NextAoE(p).value;
      var size, rest := ResponseHeader(h.cmdId), BehindHeaders(|p + behind|, schedule);
      if size.Some? && Served(size.value, h, claimed.bufferLength) {
        SlipsIff(size.value, h.length, claimed.bufferLength, |p + behind| - TCP_HEADER - AOE_HEADER, rest);
      }
    }
  }

  /** A frame as a device sends it; source is its address. */
  function ReplyFrame(port: uint16, source: seq<byte>, cmdId: uint16, id: uint32, error: uint32, payload: seq<byte>)
    : seq<byte>
    requires |source| == 8 && |payload| < 0x1_0000_0000 - AOE_HEADER
  {
    (LE(0, 2) + LE(AOE_HEADER + |payload|, 4)) + (LE(0, 6) + LE(port, 2) + source)
    + (LE(cmdId, 2) + LE(5, 2) + LE(|payload|, 4)) + (LE(error, 4) + LE(id, 4)) + payload
  }

  /** Every such frame is whole, and its fields are where the receiver looks. */
  lemma ReplyFrameIsWhole(port: uint16, source: seq<byte>, cmdId: uint16, id: uint32, error: uint32, payload: seq<byte>)
    requires |source| == 8 && |payload| < 0x1_0000_0000 - AOE_HEADER
    ensures var p := ReplyFrame(port, source, cmdId, id, error, payload);
            && WholePacket(p) && |p| == 38 + |payload| && p[38..] == payload
            && NextAoE(p) == Some(AoE(port, source, cmdId, |payload|, error, id))
  {
    hide LE, FromLE, Field;
    var p, n := ReplyFrame(port, source, cmdId, id, error, payload), |payload|;
    var tcp, target := LE(0, 2) + LE(AOE_HEADER + n, 4), LE(0, 6) + LE(port, 2) + source;
    var kind, end := LE(cmdId, 2) + LE(5, 2) + LE(n, 4), LE(error, 4) + LE(id, 4);
    assert At(p, 0, tcp + target + kind + end + payload);
    AtConcat(p, 0, tcp + target + kind + end, payload);
    AtConcat(p, 0, tcp + target + kind, end);
    AtConcat3(p, 0, tcp, target, kind);
    AtConcat(p, 0, LE(0, 2), LE(AOE_HEADER + n, 4));
    AtConcat3(p, 6, LE(0, 6), LE(port, 2), source);
    AtConcat3(p, 22, LE(cmdId, 2), LE(5, 2), LE(n, 4));
    AtConcat(p, 30, LE(error, 4), LE(id, 4));
    var t, a := p[..TCP_HEADER], p[TCP_HEADER..TCP_HEADER + AOE_HEADER];
    SliceOfSlice(p, 6, 32, 8, 8);
    FieldWithin(p, 0, t, 2, AOE_HEADER + n, 4);
    FieldWithin(p, 6, a, 6, port, 2);
    FieldWithin(p, 6, a, 16, cmdId, 2);
    FieldWithin(p, 6, a, 20, n, 4);
    FieldWithin(p, 6, a, 24, error, 4);
    FieldWithin(p, 6, a, 28, id, 4);
  }

  function NextHeaderOf(input: seq<byte>): Option<AoE> {
    if HeadersIn(input) then NextAoE(input) else None
  }

  /** The same in a stream that goes on. */
  lemma DeviceFrame(port: uint16, source: seq<byte>, cmdId: uint16, id: uint32, error: uint32, payload: seq<byte>,
                    behind: seq<byte>)
    requires |source| == 8 && |payload| < 0x1_0000_0000 - AOE_HEADER
    ensures var p := ReplyFrame(port, source, cmdId, id, error, payload) + behind;
            && |p| >= 38 && p[38..] == payload + behind
            && NextHeaderOf(p) == Some(AoE(port, source, cmdId, |payload|, error, id))
  {
    hide ReplyFrame, Field, LE;
    ReplyFrameIsWhole(port, source, cmdId, id, error, payload);
    HeadPacket(ReplyFrame(port, source, cmdId, id, error, payload), behind);
  }

  lemma FieldWithin(p: seq<byte>, at: nat, part: seq<byte>, i: nat, v: nat, n: nat)
    requires (n == 2 && v < 0x1_0000) || (n == 4 && v < 0x1_0000_0000)
    requires at + |part| <= |p| && part == p[at..at + |part|] && i + n <= |part| && At(p, at + i, LE(v, n))
    ensures Field(part, i, n) == v
  {
    hide LE, FromLE, Field;
    SliceOfSlice(p, at, |part|, i, n);
    FieldAt(part, i, v, n);
  }

  /** A deadline in the middle of a part does happen: a reply of four bytes, three of them read when it passes, leaves
      the next pass three bytes late. */
  lemma LateByThree(port: uint16, source: seq<byte>, id: uint32, result: seq<byte>, behind: seq<byte>,
                    bufferLength: uint32)
    requires |source| == 8 && |result| == 4 && |behind| >= 3
    ensures var p := ReplyFrame(port, source, 3, id, 0, result);
            var schedule := [Bytes(6), Bytes(32)] + [Bytes(3), TimeOut, Bytes(4)];
            Pass(p + behind, schedule, Waiting(bufferLength)) == Ending(Done, |p| + 3, [])
  {
    hide ReplyFrame, Field, Pass;
    ReplyFrameIsWhole(port, source, 3, id, 0, result);
    PacketLate(ReplyFrame(port, source, 3, id, 0, result), behind, bufferLength);
  }

  lemma PacketLate(p: seq<byte>, behind: seq<byte>, bufferLength: uint32)
    requires WholePacket(p) && NextAoE(p).Some? && |behind| >= 3
    requires NextAoE(p).value.cmdId == 3 && NextAoE(p).value.length == 4 && NextAoE(p).value.errorCode == 0
    ensures Pass(p + behind, [Bytes(6), Bytes(32)] + [Bytes(3), TimeOut, Bytes(4)], Waiting(bufferLength))
         == Ending(Done, |p| + 3, [])
  {
    hide Reading, Field, ReplyEnd, Pass;
    HeadPacket(p, behind);
    HeadersRead(p + behind, Waiting(bufferLength), [Bytes(3), TimeOut, Bytes(4)]);
    ServedLate(NextAoE(p).value, bufferLength, |behind| + 4);
  }

  /** A pass whose headers arrive in one piece each. */
  lemma HeadersRead(input: seq<byte>, claimed: Claimed, rest: Schedule)
    requires HeadersIn(input) && NextAoE(input).Some?
    ensures Pass(input, [Bytes(6), Bytes(32)] + rest, claimed)
         == PassBehind(NextAoE(input).value, claimed, |input| - TCP_HEADER - AOE_HEADER, rest)
  {
    hide Reading, Field, PassBehind;
    var s := [Bytes(6), Bytes(32)] + rest;
    ReadingWhole(6, |input|, s, false);
    assert s[1..] == [Bytes(32)] + rest;
    ReadingWhole(32, |input| - 6, s[1..], false);
    assert s[1..][1..] == rest;
  }

  lemma ServedLate(h: AoE, bufferLength: uint32, avail: nat)
    requires h.cmdId == 3 && h.length == 4 && h.errorCode == 0 && avail >= 7
    ensures ReplyEnd(h, bufferLength, avail, [Bytes(3), TimeOut, Bytes(4)]) == Ending(Done, 7, [])
  {
    hide Reading;
    var s: Schedule := [Bytes(3), TimeOut, Bytes(4)];
    ReadingStep(4, avail, s, true);
    assert s[1..] == [TimeOut, Bytes(4)];
    ReadingStep(1, avail - 3, s[1..], true);
    assert s[1..][1..] == [Bytes(4)];
    ReadingWhole(4, avail - 3, [Bytes(4)], false);
    assert Serve(4, 4, bufferLength, avail, s) == Service(Expired, 3, 0, 4, [Bytes(4)]);
  }

  lemma ReadingWhole(n: nat, avail: nat, schedule: Schedule, timed: bool)
    requires 0 < n <= avail && schedule != [] && schedule[0] == Bytes(n)
    ensures Reading(n, avail, schedule, timed) == Part(Done, n, schedule[1..])
  {
    assert Reading(0, avail - n, schedule[1..], timed) == Part(Done, 0, schedule[1..]);
  }

  // ---- Reading into a buffer -------------------------------------------------------------------

  /** A buffer and the stream it is filled from. */
  datatype Look = Look(buffer: seq<byte>, input: seq<byte>, schedule: Schedule)

  /** The first got bytes were taken off the stream, and those for which there is room are in the buffer. The code
      stores the others behind it. */
  ghost predicate Taken(b: seq<byte>, at: nat, room: nat, was: seq<byte>, got: nat, b': seq<byte>, now: seq<byte>) {
    && got <= |was| && at + Min(got, room) <= |b|
    && b' == Spliced(b, at, was[..Min(got, room)]) && now == was[got..]
  }

  /** The same, and what is left to read decides how the whole part ends. */
  ghost predicate Progress(n: nat, timed: bool, at: nat, room: nat, start: Look, got: nat, now: Look) {
    && Taken(start.buffer, at, room, start.input, got, now.buffer, now.input)
    && Still(n, |start.input|, start.schedule, timed, got, |now.input|, now.schedule)
  }

  /** A part was read as the schedule has it, and what arrived is in the buffer. */
  ghost predicate Received(n: nat, timed: bool, at: nat, room: nat, start: Look, status: Status, got: nat, now: Look) {
    && Taken(start.buffer, at, room, start.input, got, now.buffer, now.input)
    && Part(status, got, now.schedule) == Reading(n, |start.input|, start.schedule, timed)
  }

  lemma NothingYet(n: nat, timed: bool, at: nat, room: nat, start: Look)
    requires at <= |start.buffer|
    ensures Progress(n, timed, at, room, start, 0, start)
  {
    Unread(n, |start.input|, start.schedule, timed);
  }

  /** One read, and what there is room for in the buffer. */
  lemma ReadSome(n: nat, timed: bool, at: nat, room: nat, start: Look, bytes: seq<byte>, now: Look)
    requires |bytes| <= n && at + room <= |start.buffer| && start.input == bytes + now.input
    requires Reading(n, |start.input|, start.schedule, timed)
          == Later(|bytes|, Reading(n - |bytes|, |now.input|, now.schedule, timed))
    requires var m := Min(|bytes|, room);
             now.buffer == start.buffer[..at] + bytes[..m] + start.buffer[at + m..]
    ensures Progress(n, timed, at, room, start, |bytes|, now)
  {
    hide Reading, Later, Taken;
    TookSome(at, room, start.buffer, bytes, now.buffer, now.input);
  }

  lemma TookSome(at: nat, room: nat, was: seq<byte>, bytes: seq<byte>, buffer: seq<byte>, rest: seq<byte>)
    requires at + room <= |was|
    requires var m := Min(|bytes|, room); buffer == was[..at] + bytes[..m] + was[at + m..]
    ensures Taken(was, at, room, bytes + rest, |bytes|, buffer, rest)
  {
    hide Min;
    var m := Min(|bytes|, room);
    MinLeast(|bytes|, room);
    assert (bytes + rest)[..m] == bytes[..m];
    assert (bytes + rest)[|bytes|..] == rest;
  }

  lemma MinLeast(a: nat, b: nat)
    ensures Min(a, b) <= a && Min(a, b) <= b
  {
  }

  lemma TakenTwice(at: nat, room: nat, start: Look, got: nat, now: Look, more: nat, later: Look)
    requires Taken(start.buffer, at, room, start.input, got, now.buffer, now.input)
    requires Taken(now.buffer, at + Min(got, room), room - Min(got, room), now.input, more, later.buffer, later.input)
    ensures Taken(start.buffer, at, room, start.input, got + more, later.buffer, later.input)
  {
    var was := start.input;
    var first, second := was[..Min(got, room)], was[got..][..Min(more, room - Min(got, room))];
    SplicedTwice(start.buffer, at, first, second);
    assert first + second == was[..Min(got + more, room)];
  }

  lemma FurtherOn(n: nat, timed: bool, at: nat, room: nat, start: Look, got: nat, now: Look, more: nat, later: Look)
    requires Progress(n, timed, at, room, start, got, now) && got <= n
    requires Progress(n - got, timed, at + Min(got, room), room - Min(got, room), now, more, later)
    ensures Progress(n, timed, at, room, start, got + more, later)
  {
    hide Still, Taken;
    StillMore(n, |start.input|, start.schedule, timed, got, |now.input|, now.schedule, more, |later.input|,
              later.schedule);
    TakenTwice(at, room, start, got, now, more, later);
  }

  lemma Stopped(n: nat, timed: bool, at: nat, room: nat, start: Look, got: nat, now: Look, status: Status, later: Look)
    requires Progress(n, timed, at, room, start, got, now) && got <= n
    requires Received(n - got, timed, at + Min(got, room), room - Min(got, room), now, status, 0, later)
    ensures Received(n, timed, at, room, start, status, got, later)
  {
    hide Taken;
    StillEnds(n, |start.input|, start.schedule, timed, got, |now.input|, now.schedule, status, later.schedule);
    TakenTwice(at, room, start, got, now, 0, later);
  }

  lemma Complete(n: nat, timed: bool, at: nat, room: nat, start: Look, now: Look)
    requires Progress(n, timed, at, room, start, n, now)
    ensures Received(n, timed, at, room, start, Done, n, now)
  {
    StillDone(n, |start.input|, start.schedule, timed, |now.input|, now.schedule);
  }

  // ---- Short replies ---------------------------------------------------------------------------

  /** For an error-free reply that passes the size check, what the second receive is asked for fits the caller's
      buffer iff the reply is as long as its response header. */
  lemma SecondReceiveFitsIff(length: uint32, size: nat, bufferLength: uint32)
    requires 0 < size <= 8 && length <= size + bufferLength
    ensures Asked(length, size) <= bufferLength <==> length >= size
  {
  }

  /** The code stores behind the buffer iff such a reply is shorter than its response header, and the schedule brings
      that header and then more bytes than the buffer holds, before the deadline and from a stream that has them. */
  lemma OverrunIff(size: nat, length: uint32, bufferLength: uint32, avail: nat, schedule: Schedule)
    requires 0 < size <= 8 && length <= size + bufferLength
    ensures Serve(size, length, bufferLength, avail, schedule).status == Undefined
       <==> length < size && size + bufferLength < avail
            && exists j: nat :: PartDone(size, schedule, j) && Brings(bufferLength + 1, schedule[j..])
  {
    hide Reading, ReadingInTime, Asked, PartDone, Brings;
    SecondReceiveFitsIff(length, size, bufferLength);
    var h := ReadingInTime(size, avail, schedule);
    if size <= avail {
      PartDoneInTimeIff(size, avail, schedule);
      if h.status == Done && length < size {
        BringsInTimeIff(bufferLength + 1, Asked(length, size), avail - size, h.rest);
      }
    }
  }

  /** Said about the reply alone, for a stream that goes on: some schedule makes it overrun iff it is too short. */
  lemma OverrunPossibleIff(size: nat, length: uint32, bufferLength: uint32, avail: nat)
    requires 0 < size <= 8 && length <= size + bufferLength && avail > size + bufferLength
    ensures (exists schedule: Schedule :: Serve(size, length, bufferLength, avail, schedule).status == Undefined)
       <==> length < size
  {
    if length < size {
      ShortReplyOverruns(size, length, bufferLength, avail);
    } else {
      forall schedule: Schedule
        ensures Serve(size, length, bufferLength, avail, schedule).status != Undefined
      {
        OverrunIff(size, length, bufferLength, avail, schedule);
      }
    }
  }

  lemma ShortReplyOverruns(size: nat, length: uint32, bufferLength: uint32, avail: nat)
    requires 0 < size <= 8 && length < size && length <= size + bufferLength && avail > size + bufferLength
    ensures Serve(size, length, bufferLength, avail, [Bytes(size), Bytes(bufferLength + 1)]).status == Undefined
  {
    hide Reading, Asked;
    SecondReceiveFitsIff(length, size, bufferLength);
    var behind: Schedule := [Bytes(bufferLength + 1)];
    var schedule: Schedule := [Bytes(size)] + behind;
    ReadingWhole(size, avail, schedule, true);
    assert schedule[1..] == behind && schedule == [Bytes(size), Bytes(bufferLength + 1)];
    ReadingStep(Asked(length, size), avail - size, behind, true);
  }

  /** An empty reply passes the size check whatever the buffer is. */
  lemma EmptyReplyOverruns(h: AoE, size: nat, bufferLength: uint32, avail: nat)
    requires 0 < size <= 8 && h.length == h.errorCode == 0 && avail > size + bufferLength
    ensures Served(size, h, bufferLength)
    ensures Serve(size, 0, bufferLength, avail, [Bytes(size), Bytes(bufferLength + 1)]).status == Undefined
  {
    ShortReplyOverruns(size, 0, bufferLength, avail);
  }

  /** When a reply is shorter than its response header and this header comes in time, the receiver never gets to another
      frame of a stream of fewer than 2^64 bytes: it overruns the buffer, or skips the wrapped number of bytes. */
  lemma ShortReplyEndsStream(p: seq<byte>, behind: seq<byte>, schedule: Schedule, bufferLength: uint32)
    requires WholePacket(p) && NextAoE(p).Some? && |p + behind| < SIZES
    requires var h := NextAoE(p).value;
             var size := ResponseHeader(h.cmdId);
             && size.Some? && Served(size.value, h, bufferLength) && h.length < size.value
             && ReadingInTime(size.value, |p + behind| - TCP_HEADER - AOE_HEADER,
                              BehindHeaders(|p + behind|, schedule)).status == Done
    ensures Pass(p + behind, schedule, Waiting(bufferLength)).status != Done
  {
    hide Reading, ReadingInTime, Skipping, Field;
    HeadPacket(p, behind);
  }

  // ---- What the owner of a reply gets ----------------------------------------------------------

  /** Two parts come before the deadline, one behind the other. */
  ghost predicate BothInTime(first: nat, second: nat, schedule: Schedule) {
    InTime(first, schedule) && exists j: nat :: PartDone(first, schedule, j) && InTime(second, schedule[j..])
  }

  /** The deadline passes before the first part has come, or before the second one has. */
  ghost predicate OneTooLate(first: nat, second: nat, avail: nat, schedule: Schedule)
    requires first <= avail
  {
    || TooLate(first, avail, schedule)
    || (InTime(first, schedule)
        && exists j: nat :: PartDone(first, schedule, j) && TooLate(second, avail - first, schedule[j..]))
  }

  lemma ServeIff(size: nat, length: uint32, bufferLength: uint32, avail: nat, schedule: Schedule)
    requires 0 < size <= 8 && size <= length <= avail && length <= size + bufferLength
    ensures var status := Serve(size, length, bufferLength, avail, schedule).status;
            && (status == Done <==> BothInTime(size, length - size, schedule))
            && (status == Expired <==> OneTooLate(size, length - size, avail, schedule))
  {
    hide Reading, ReadingInTime, PartDone, TooLate, InTime;
    var h := ReadingInTime(size, avail, schedule);
    EndsInTimeIff(size, avail, schedule);
    PartDoneInTimeIff(size, avail, schedule);
    if h.status == Done {
      EndsInTimeIff(length - size, avail - size, h.rest);
    }
  }

  /** The size of the response header, command by command: a device's reply to a read carries the length of its data
      behind the result, that to any other command only the result. */
  ghost predicate ReplyHeader(cmdId: uint16, header: seq<byte>, result: uint32, n: nat) {
    if cmdId == 2 || cmdId == 9 then n < 0x1_0000_0000 && header == LE(result, 4) + LE(n, 4)
    else (cmdId == 1 || 3 <= cmdId <= 7) && header == LE(result, 4)
  }

  lemma ReplyHeaderIs(cmdId: uint16, header: seq<byte>, result: uint32, n: nat)
    requires ReplyHeader(cmdId, header, result, n)
    ensures ResponseHeader(cmdId) == Some(|header|) && 4 <= |header| <= 8 && header[..4] == LE(result, 4)
  {
    hide LE;
  }

  lemma FieldAt4(stream: seq<byte>, header: seq<byte>, result: uint32)
    requires |header| >= 4 && header[..4] == LE(result, 4) && |stream| >= |header| && stream[..|header|] == header
    ensures Field(stream, 0, 4) == result
  {
    hide LE, FromLE, Field;
    assert stream[0..0 + 4] == header[..4];
    FieldAt(stream, 0, result, 4);
  }

  /** A reply without an error to an owner that waits with a buffer that is large enough: if all of it comes in time,
      the owner is told the result once, finds the data at the front of its buffer and nothing else changed, and learns
      how much it is. If the deadline passes before, it is told that. */
  lemma ReplyDelivered(response: AmsResponse, port: uint16, source: seq<byte>, cmdId: uint16, id: uint32,
                       header: seq<byte>, result: uint32, d: seq<byte>, behind: seq<byte>, schedule: Schedule,
                       notices: seq<uint32>, buffer: seq<byte>, bytesRead: nat)
    requires |source| == 8 && |d| < 0x1_0000_0000 - 40 && ReplyHeader(cmdId, header, result, |d|)
    requires var p := ReplyFrame(port, source, cmdId, id, 0, header + d) + behind;
             && response.request != null && |d| <= response.request.bufferLength
             && NextHeaderOf(p).Some?
             && AmsConnection.Answers(response, NextHeaderOf(p).value, p[38..], schedule, notices, buffer, bytesRead)
    ensures BothInTime(|header|, |d|, schedule) ==>
              && response.notices == notices + [result] && response.errorCode == result
              && response.request.buffer[..] == d + buffer[|d|..]
              && response.request.bytesRead == if response.request.hasBytesRead then |d| else bytesRead
    ensures OneTooLate(|header|, |d|, |header| + |d| + |behind|, schedule) ==>
              response.notices == notices + [0x745] && response.errorCode == 0x745
    ensures !BothInTime(|header|, |d|, schedule) ==> response.request.bytesRead == bytesRead
  {
    var stream := header + d + behind;
    hide LE, Field, ReplyFrame, Serve, BothInTime, OneTooLate;
    DeviceFrame(port, source, cmdId, id, 0, header + d, behind);
    ReplyHeaderIs(cmdId, header, result, |d|);
    var h := AoE(port, source, cmdId, |header + d|, 0, id);
    ServeIff(|header|, h.length, response.request.bufferLength, |stream|, schedule);
    assert stream[..|header|] == header;
    FieldAt4(stream, header, result);
    assert stream[|header|..|header| + |d|] == d;
  }

  /** The other replies, to an owner that waits and to a slot without a request: an unknown command, an error, and a
      reply that does not fit. The owner is told which, once, and nothing else of it changes. */
  lemma ReplyRefused(response: AmsResponse, port: uint16, source: seq<byte>, cmdId: uint16, id: uint32, error: uint32,
                     payload: seq<byte>, behind: seq<byte>, meets: Claimed, schedule: Schedule, before: Owner)
    requires |source| == 8 && |payload| < 0x1_0000_0000 - 32 && meets != Nobody
    requires meets.Waiting? ==> response.request != null && meets.bufferLength == response.request.bufferLength
    requires var p := ReplyFrame(port, source, cmdId, id, error, payload) + behind;
             && NextHeaderOf(p).Some? && |p| >= 38
             && AmsConnection.Handled(response, NextHeaderOf(p).value, meets, p[38..], schedule, before)
    ensures var known, two := 1 <= cmdId <= 7 || cmdId == 9, cmdId == 2 || cmdId == 9;
            var result := if !known then Some(0x754)
                          else if error != 0 then Some(error)
                          else if meets.Waiting? && |payload| > meets.bufferLength + (if two then 8 else 4)
                          then Some(0x705)
                          else None;
            && (result.Some? ==>
                  && response.notices == before.notices + [result.value] && response.errorCode == result.value
                  && (meets.Waiting? ==>
                        && response.request.buffer[..] == before.buffer
                        && response.request.bytesRead == before.bytesRead))
            && (result.None? && meets.Idle? ==> response.notices == before.notices)
  {
    hide LE, Field, ReplyFrame, Serve;
    DeviceFrame(port, source, cmdId, id, error, payload, behind);
    assert before.buffer == [] + before.buffer[0..];
  }

  // ---- Replies without a result ----------------------------------------------------------------

  /** An owner that waits is told nothing only when the receiver's thread ends in the middle of its reply. */
  lemma NoResultEndsReceiver(h: AoE, bufferLength: uint32, stream: seq<byte>, schedule: Schedule)
    ensures ReplyResult(h, bufferLength, stream, schedule).None? ==>
              ReplyEnd(h, bufferLength, |stream|, schedule).status != Done
  {
    hide Reading, ReadingInTime, Skipping, Field, Asked;
  }

  // ---- Notifications -------------------------------------------------------------------------

  /** What waits for a dispatcher: the bytes in its ring, the count of its semaphore, and the size of the array. */
  datatype Queue = Queue(bytes: seq<byte>, sem: nat, size: nat)
  /** By the local port and the address of the sender. */
  type Queues = map<(uint16, seq<byte>), Queue>

  function Enqueued(q: Queue, payload: seq<byte>): Queue
    requires |payload| < 0x1_0000_0000
  {
    if |payload| + 4 < q.size - |q.bytes| then Queue(q.bytes + LE(|payload|, 4) + payload, q.sem + 1, q.size) else q
  }

  /** What a pass over a frame makes of the queues; stream is what follows its headers. */
  function Delivered(qs: Queues, h: AoE, stream: seq<byte>): Queues {
    var k := (h.targetPort, h.source);
    if h.cmdId == DEVICE_NOTIFICATION && k in qs && h.length <= |stream|
    then qs[k := Enqueued(qs[k], stream[..h.length])] else qs
  }

  lemma StoredIs(status: Status, h: AoE, was: Queues, stream: seq<byte>, now: Queues)
    requires h.cmdId == DEVICE_NOTIFICATION && now.Keys == was.Keys && (h.targetPort, h.source) in was
    requires forall k <- was :: k != (h.targetPort, h.source) ==> now[k] == was[k]
    requires status == Done ==>
               var k := (h.targetPort, h.source);
               h.length <= |stream| && now[k] == Enqueued(was[k], stream[..h.length])
    ensures QueuesAfter(status, Some(h), was, stream, now)
  {
    hide Enqueued;
  }

  lemma NobodyThere(status: Status, h: AoE, qs: Queues, stream: seq<byte>)
    requires (h.targetPort, h.source) !in qs
    ensures QueuesAfter(status, Some(h), qs, stream, qs)
  {
  }

  lemma QueuesKept(h: AoE, qs: Queues)
    ensures forall st: Status, stream: seq<byte> ::
              h.cmdId != DEVICE_NOTIFICATION ==> QueuesAfter(st, Some(h), qs, stream, qs)
  {
  }

  lemma PassBehindIs(h: AoE, claimed: Claimed, avail: nat, schedule: Schedule)
    ensures var n, e := TCP_HEADER + AOE_HEADER, AnswerEnd(h, claimed, avail, schedule);
            PassBehind(h, claimed, avail, schedule)
            == if h.cmdId == DEVICE_NOTIFICATION then Ending(Done, n + h.length, schedule)
               else Ending(e.status, n + e.taken, e.rest)
  {
    hide AnswerEnd;
  }

  lemma UsedShrinks(before: Schedule, after: Schedule, status: Status)
    requires Used(before, after, status)
    ensures |after| <= |before|
  {
  }

  /** Both headers were read off a stream, or a frame too short for them was skipped. */
  ghost predicate TookHeaders(claimed: Claimed, was: seq<byte>, before: Schedule, status: Status, header: Option<AoE>,
                        now: seq<byte>, schedule: Schedule)
  {
    && (status == Done || status == Lost) && Used(before, schedule, status) && header == HeaderRead(was, before)
    && match header
       case None =>
         var e := Pass(was, before, claimed);
         && status == e.status && schedule == e.rest
         && (status == Done ==> HeadersIn(was) && NextAoE(was).None? && e.taken <= |was| && now == was[e.taken..])
       case Some(h) =>
         && status == Done && HeadersIn(was) && NextAoE(was) == Some(h) && |was| >= 38 && now == was[38..]
         && schedule == BehindHeaders(|was|, before) && |schedule| < |before|
         && Pass(was, before, claimed) == PassBehind(h, claimed, |now|, schedule)
  }

  /** A buffer that was filled from the stream. */
  lemma Filled(n: nat, start: Look, status: Status, got: nat, now: Look)
    requires Received(n, false, 0, n, start, status, got, now) && |start.buffer| == n
    ensures Part(status, got, now.schedule) == Reading(n, |start.input|, start.schedule, false)
    ensures got <= |start.input| && now.input == start.input[got..]
    ensures status == Done ==> got == n && now.buffer == start.input[..n]
  {
    hide Reading;
  }

  lemma HeaderSizes()
    ensures TCP_HEADER == 6 && AOE_HEADER == 32
  {
  }

  lemma TcpLost(claimed: Claimed, was: seq<byte>, before: Schedule, t: Part, now: seq<byte>)
    requires t == Reading(6, |was|, before, false) && t.status != Done
    ensures TookHeaders(claimed, was, before, t.status, None, now, t.rest)
  {
    hide Reading, Field, Skipping, PassBehind;
    HeadersUse(|was|, before);
  }

  lemma TooShort(claimed: Claimed, was: seq<byte>, before: Schedule, t: Part, j: Part, now: seq<byte>)
    requires t == Reading(6, |was|, before, false) && t.status == Done && |was| >= 6 && TcpLength(was[..6]) < 32
    requires j == Skipping(TcpLength(was[..6]), |was| - 6, t.rest) && now == was[6..][j.got..]
    ensures TookHeaders(claimed, was, before, j.status, None, now, j.rest)
  {
    hide Reading, Field, Skipping, PassBehind;
    HeadersUse(|was|, before);
    SkippingUses(TcpLength(was[..6]), |was| - 6, t.rest);
    UsedOn(before, t.rest, j.rest, j.status);
    hide Used;
    assert was[6..][j.got..] == was[6 + j.got..];
  }

  lemma AoERead(claimed: Claimed, was: seq<byte>, before: Schedule, t: Part, a: Part, aoe: seq<byte>, now: seq<byte>)
    requires t == Reading(6, |was|, before, false) && t.status == Done && |was| >= 6 && TcpLength(was[..6]) >= 32
    requires a == Reading(32, |was| - 6, t.rest, false) && now == was[6..][a.got..]
    requires a.status == Done ==> |aoe| == 32 && aoe == was[6..][..32]
    ensures TookHeaders(claimed, was, before, a.status, if a.status == Done then Some(ParseAoE(aoe)) else None, now,
                        a.rest)
  {
    hide Reading, Field, Skipping, PassBehind, ParseAoE;
    HeadersUse(|was|, before);
    hide Used;
    if a.status == Done {
      assert was[6..][..32] == was[6..38] && was[6..][32..] == was[38..];
    }
  }

  lemma TookIs(claimed: Claimed, was: seq<byte>, before: Schedule, status: Status, header: Option<AoE>,
               now: seq<byte>, schedule: Schedule)
    requires TookHeaders(claimed, was, before, status, header, now, schedule)
    ensures (status == Done || status == Lost) && Used(before, schedule, status) && |schedule| <= |before|
    ensures header == HeaderRead(was, before)
    ensures status == Done ==> HeadersIn(was) && NextAoE(was) == header && |schedule| < |before|
    ensures header.None? ==>
              var e := Pass(was, before, claimed);
              && status == e.status && schedule == e.rest
              && (status == Done ==> e.taken <= |was| && now == was[e.taken..])
    ensures header.Some? ==>
              && status == Done && |was| >= 38 && now == was[38..] && schedule == BehindHeaders(|was|, before)
              && Pass(was, before, claimed) == PassBehind(header.value, claimed, |now|, schedule)
  {
    hide Pass, PassBehind, BehindHeaders, HeadersIn, NextAoE, HeaderRead;
  }

  function Behind38(input: seq<byte>): seq<byte> {
    if |input| >= 38 then input[38..] else []
  }

  /** The queues are now what a pass with this header makes of them; one that was cut off may have filled only the ring
      of its own dispatcher. */
  predicate QueuesAfter(status: Status, header: Option<AoE>, was: Queues, stream: seq<byte>, now: Queues) {
    match header
    case None => now == was
    case Some(h) =>
      if h.cmdId != DEVICE_NOTIFICATION then now == was
      else (status == Done ==> now == Delivered(was, h, stream))
           && now - {(h.targetPort, h.source)} == was - {(h.targetPort, h.source)}
  }

  lemma InputIs(input: seq<byte>)
    ensures TCP_HEADER + AOE_HEADER == 38 && DEVICE_NOTIFICATION == 8
    ensures |input| >= 38 ==> Behind38(input) == input[38..]
    ensures IsNotification(input) ==>
              HeadersIn(input) && NextAoE(input).Some? && NextAoE(input).value.cmdId == 8
    ensures HeadersIn(input) && NextAoE(input).Some? ==> |input| >= 38
  {
    hide Field, ParseAoE;
  }

  lemma NothingDelivered(qs: Queues)
    ensures forall st: Status, stream: seq<byte> :: QueuesAfter(st, None, qs, stream, qs)
  {
  }

  /** A notification of a device arrives with the dispatcher that is registered for its port and the device's address,
      whole and counted once, iff the ring has room for it and its length and one more byte. Nothing else changes, and
      other frames change nothing at all. */
  lemma NotificationArrives(qs: Queues, port: uint16, source: seq<byte>, cmdId: uint16, id: uint32, error: uint32,
                            payload: seq<byte>, behind: seq<byte>, k: (uint16, seq<byte>))
    requires |source| == 8 && |payload| < 0x1_0000_0000 - AOE_HEADER && k in qs
    ensures var p := ReplyFrame(port, source, cmdId, id, error, payload) + behind;
            && HeadersIn(p) && NextAoE(p).Some? && |p| >= 38
            && var now := Delivered(qs, NextAoE(p).value, p[38..]);
               && now.Keys == qs.Keys
               && (cmdId == 8 && k == (port, source) && |qs[k].bytes| + 4 + |payload| + 1 <= qs[k].size ==>
                     now[k] == Queue(qs[k].bytes + LE(|payload|, 4) + payload, qs[k].sem + 1, qs[k].size))
               && (cmdId != 8 || k != (port, source) || |qs[k].bytes| + 4 + |payload| + 1 > qs[k].size ==>
                     now[k] == qs[k])
  {
    hide LE, Field, ReplyFrame;
    var p := ReplyFrame(port, source, cmdId, id, error, payload);
    ReplyFrameIsWhole(port, source, cmdId, id, error, payload);
    HeadPacket(p, behind);
    assert (p + behind)[38..][..|payload|] == payload;
  }

  // ---- Whole runs of the receiver --------------------------------------------------------------

  /** What a pass starts with; slot is the one that its frame claims. */
  datatype Turn = Turn(input: seq<byte>, schedule: Schedule, claimed: Claimed, slot: Option<nat>, queues: Queues)

  /** A pass over turn ended, and left this in the stream. */
  predicate Follows(turn: Turn, input: seq<byte>) {
    var e := Pass(turn.input, turn.schedule, turn.claimed);
    e.status == Done && e.taken <= |turn.input| && input == turn.input[e.taken..]
  }

  /** The pass over turn did not end at a frame's end, but with the connection, or where the model stops. */
  ghost predicate Stops(turn: Turn, status: Status, rest: Schedule) {
    if IsNotification(turn.input) then status == Lost && Used(turn.schedule, rest, Lost)
    else
      var e := Pass(turn.input, turn.schedule, turn.claimed);
      status != Done && e.status == status && e.rest == rest
  }

  /** What a pass leaves in the rings. */
  predicate Leaves(turn: Turn, status: Status, queues: Queues) {
    QueuesAfter(status, HeaderRead(turn.input, turn.schedule), turn.queues, Behind38(turn.input), queues)
  }

  predicate Chain(turns: seq<Turn>) {
    forall k: nat | k + 1 < |turns| ::
      Follows(turns[k], turns[k + 1].input) && Leaves(turns[k], Done, turns[k + 1].queues)
  }

  /** What a run meets before a pass: the stream, the rings, and what each slot was told so far. */
  datatype Scene = Scene(input: seq<byte>, schedule: Schedule, queues: Queues, notices: seq<seq<uint32>>)

  /** These passes lead from one scene to the other; the last one may not have ended at a frame's end. */
  ghost predicate Ran(turns: seq<Turn>, status: Status, start: Scene, now: Scene) {
    && Chain(turns) && Heard(start.notices, turns, now.notices)
    && if turns == [] then now == start
       else
         var last := turns[|turns| - 1];
         && start == Scene(turns[0].input, turns[0].schedule, turns[0].queues, start.notices)
         && (if status == Done then Follows(last, now.input) else Stops(last, status, now.schedule))
         && Leaves(last, status, now.queues)
  }

  /** Each slot was told what these passes tell it. */
  predicate Heard(was: seq<seq<uint32>>, turns: seq<Turn>, now: seq<seq<uint32>>) {
    |now| == |was| && forall i :: 0 <= i < |was| ==> now[i] == was[i] + ToldTo(turns, i)
  }

  lemma RanNothing(start: Scene)
    ensures Ran([], Done, start, start)
  {
  }

  lemma RanOn(turns: seq<Turn>, start: Scene, turn: Turn, was: seq<seq<uint32>>, status: Status, now: Scene)
    requires Ran(turns, Done, start, Scene(turn.input, turn.schedule, turn.queues, was))
    requires Heard(was, [turn], now.notices)
    requires if status == Done then Follows(turn, now.input) else Stops(turn, status, now.schedule)
    requires Leaves(turn, status, now.queues)
    ensures Ran(turns + [turn], status, start, now)
  {
    hide Follows, Leaves, Stops, Chain, TurnTells;
    ChainOn(turns, turn);
    ToldOn(turns, turn);
    ToldOn([], turn);
    assert [] + [turn] == [turn];
  }

  lemma ChainOn(turns: seq<Turn>, turn: Turn)
    requires Chain(turns)
    requires turns != [] ==>
               var last := turns[|turns| - 1]; Follows(last, turn.input) && Leaves(last, Done, turn.queues)
    ensures Chain(turns + [turn])
  {
    hide Follows, Leaves;
  }

  /** What a reply with this header tells the slot it claims; stream is what follows its headers. */
  function Told(h: AoE, meets: Claimed, stream: seq<byte>, schedule: Schedule): (r: seq<uint32>)
    ensures |r| <= 1
  {
    var result := if meets.Waiting? then ReplyResult(h, meets.bufferLength, stream, schedule)
                  else if meets.Idle? then Refusal(h) else None;
    if result.Some? then [result.value] else []
  }

  /** What a pass tells slot i. */
  function TurnTells(turn: Turn, i: nat): (r: seq<uint32>)
    ensures |r| <= 1
  {
    var h := HeaderRead(turn.input, turn.schedule);
    if h.None? || turn.slot != Some(i) then []
    else Told(h.value, turn.claimed, Behind38(turn.input), BehindHeaders(|turn.input|, turn.schedule))
  }

  /** What a run tells slot i, in order. */
  function ToldTo(turns: seq<Turn>, i: nat): seq<uint32> {
    if turns == [] then [] else ToldTo(turns[..|turns| - 1], i) + TurnTells(turns[|turns| - 1], i)
  }

  /** What is said about a pass is said about its turn. */
  lemma TurnGoes(turn: Turn, status: Status, header: Option<AoE>, input: seq<byte>, schedule: Schedule, queues: Queues)
    requires header == HeaderRead(turn.input, turn.schedule)
    requires var e := Pass(turn.input, turn.schedule, turn.claimed);
             && (status == Done ==>
                   e.status == Done && e.taken <= |turn.input| && input == turn.input[e.taken..])
             && (header.None? || header.value.cmdId != DEVICE_NOTIFICATION ==> status == e.status && schedule == e.rest)
    requires IsNotification(turn.input) ==> (status == Done || status == Lost) && Used(turn.schedule, schedule, status)
    requires QueuesAfter(status, header, turn.queues, Behind38(turn.input), queues)
    ensures if status == Done then Follows(turn, input) else Stops(turn, status, schedule)
    ensures Leaves(turn, status, queues)
  {
    hide Pass, HeaderRead, Used, QueuesAfter, Behind38, NextAoE, HeadersIn;
  }

  lemma HeardOne(was: seq<seq<uint32>>, turn: Turn, header: Option<AoE>, claimed: Option<nat>, now: seq<seq<uint32>>)
    requires header == HeaderRead(turn.input, turn.schedule) && claimed == if header.Some? then turn.slot else None
    requires |now| == |was| && forall i: nat :: i < |was| && claimed != Some(i) ==> now[i] == was[i]
    requires claimed.Some? ==>
               var i := claimed.value;
               && i < |was|
               && now[i] == was[i] + Told(header.value, turn.claimed, Behind38(turn.input),
                                          BehindHeaders(|turn.input|, turn.schedule))
    ensures Heard(was, [turn], now)
  {
    hide Told, HeaderRead, BehindHeaders, Behind38;
    ToldOn([], turn);
    assert [] + [turn] == [turn];
  }

  lemma ToldOn(turns: seq<Turn>, turn: Turn)
    ensures forall i: nat :: ToldTo(turns + [turn], i) == ToldTo(turns, i) + TurnTells(turn, i)
  {
    hide TurnTells;
    assert (turns + [turn])[..|turns|] == turns;
  }

  function Flatten(packets: seq<seq<byte>>): seq<byte> {
    if packets == [] then [] else packets[0] + Flatten(packets[1..])
  }

  ghost predicate Late(turn: Turn, p: seq<byte>) {
    WholePacket(p) && |turn.input| >= |p| && CutShort(p, |turn.input|, turn.schedule, turn.claimed)
  }

  /** After a pass that started at a frame, the next one starts at the next frame iff the frame was not cut short. */
  lemma NextFrameIff(turn: Turn, next: seq<byte>, p: seq<byte>, rest: seq<byte>)
    requires WholePacket(p) && turn.input == p + rest && Follows(turn, next)
    ensures next == rest <==> !Late(turn, p)
  {
    hide Pass, CutShort;
    FramedIff(p, rest, turn.schedule, turn.claimed);
    var taken := Pass(turn.input, turn.schedule, turn.claimed).taken;
    if taken == |p| {
      assert (p + rest)[|p|..] == rest;
    } else {
      assert |next| < |rest|;
    }
  }

  /** Over a stream of whole frames, pass k starts exactly at frame k as long as no frame before was cut short; and the
      first one that is makes the next pass start late. */
  lemma {:induction false} InStepUntilLate(turns: seq<Turn>, packets: seq<seq<byte>>, k: nat)
    requires Chain(turns) && k < |turns| && k <= |packets| && turns[0].input == Flatten(packets)
    requires forall p <- packets :: WholePacket(p)
    requires forall j: nat | j < k :: !Late(turns[j], packets[j])
    ensures turns[k].input == Flatten(packets[k..])
    ensures k + 1 < |turns| && k < |packets| ==>
              (turns[k + 1].input == Flatten(packets[k + 1..]) <==> !Late(turns[k], packets[k]))
  {
    hide Late, Follows;
    if k == 0 {
      assert packets[0..] == packets;
    } else {
      InStepUntilLate(turns, packets, k - 1);
      assert !Late(turns[k - 1], packets[k - 1]);
    }
    if k + 1 < |turns| && k < |packets| {
      assert packets[k..][0] == packets[k] && packets[k..][1..] == packets[k + 1..];
      assert Follows(turns[k], turns[k + 1].input);
      NextFrameIff(turns[k], turns[k + 1].input, packets[k], Flatten(packets[k + 1..]));
    }
  }

  /** The notifications among some frames, put to the queues one after the other. */
  function DeliveredAll(qs: Queues, packets: seq<seq<byte>>): Queues {
    if packets == [] then qs
    else
      var n := |packets| - 1;
      var before, h := DeliveredAll(qs, packets[..n]), NextHeaderOf(packets[n]);
      if h.None? then before else Delivered(before, h.value, Behind38(packets[n]))
  }

  /** What follows a frame in the stream does not change what it brings. */
  lemma BringsItsOwn(qs: Queues, p: seq<byte>, behind: seq<byte>)
    requires WholePacket(p) && NextAoE(p).Some?
    ensures |p| >= 38 && Delivered(qs, NextAoE(p).value, Behind38(p + behind))
                      == Delivered(qs, NextAoE(p).value, Behind38(p))
  {
    hide Field, ParseAoE, Enqueued;
    var n := NextAoE(p).value.length;
    assert (p + behind)[38..][..n] == p[38..][..n];
  }

  lemma LeavesDelivered(turn: Turn, next: Turn, p: seq<byte>, rest: seq<byte>)
    requires WholePacket(p) && turn.input == p + rest && Follows(turn, next.input) && Leaves(turn, Done, next.queues)
    ensures next.queues == if NextAoE(p).None? then turn.queues
                           else Delivered(turn.queues, NextAoE(p).value, Behind38(p))
  {
    hide Pass, HeaderRead, Field, ParseAoE, Behind38, Enqueued;
    DoneHasRead(turn.input, turn.schedule, turn.claimed);
    HeadPacket(p, rest);
    if NextAoE(p).Some? {
      BringsItsOwn(turn.queues, p, rest);
    }
  }

  /** Over a stream of whole frames, before the first that is cut short, the dispatchers have what those frames brought
      them, in order, and nothing else. */
  lemma {:induction false} StreamDelivers(turns: seq<Turn>, packets: seq<seq<byte>>, k: nat)
    requires Chain(turns) && k < |turns| && k <= |packets| && turns[0].input == Flatten(packets)
    requires forall p <- packets :: WholePacket(p)
    requires forall j: nat | j < k :: !Late(turns[j], packets[j])
    ensures turns[k].queues == DeliveredAll(turns[0].queues, packets[..k])
  {
    hide Late, Follows, Leaves, Delivered, WholePacket, NextAoE, HeadersIn;
    if k > 0 {
      StreamDelivers(turns, packets, k - 1);
      InStepUntilLate(turns, packets, k - 1);
      assert packets[k - 1..][0] == packets[k - 1] && packets[k - 1..][1..] == packets[k..];
      assert packets[..k][..k - 1] == packets[..k - 1];
      assert Follows(turns[k - 1], turns[k].input) && Leaves(turns[k - 1], Done, turns[k].queues);
      LeavesDelivered(turns[k - 1], turns[k], packets[k - 1], Flatten(packets[k..]));
      PacketHasHeaders(packets[k - 1]);
    }
  }

  lemma PacketHasHeaders(p: seq<byte>)
    requires WholePacket(p)
    ensures HeadersIn(p) && NextHeaderOf(p) == NextAoE(p)
  {
  }

  // ---- The connection --------------------------------------------------------------------------

  class AmsConnection {
    const socket: Socket
    const queue: seq<AmsResponse>
    /** The dispatchers, by local port and source address. */
    const dispatcherList: map<(uint16, seq<byte>), NotificationDispatcher>

    constructor (socket: Socket, queue: seq<AmsResponse>,
                 dispatcherList: map<(uint16, seq<byte>), NotificationDispatcher>)
      ensures this.socket == socket && this.queue == queue && this.dispatcherList == dispatcherList
    {
      this.socket, this.queue, this.dispatcherList := socket, queue, dispatcherList;
    }

    /** Reads n bytes to buffer[at..], where there is room for some of them. got counts the bytes that arrived. */
    method Receive(buffer: array<byte>, at: nat, room: nat, n: nat, timed: bool) returns (status: Status, got: nat)
      requires at + room <= buffer.Length
      modifies socket, buffer
      ensures Received(n, timed, at, room, old(Look(buffer[..], socket.input, socket.schedule)), status, got,
                       Look(buffer[..], socket.input, socket.schedule))
    {
      got := 0;
      status := Done;
      ghost var start := Look(buffer[..], socket.input, socket.schedule);
      NothingYet(n, timed, at, room, start);
      hide *;
      while got < n
        invariant got <= n && status == Done
        invariant Progress(n, timed, at, room, start, got, Look(buffer[..], socket.input, socket.schedule))
        decreases |socket.schedule|
      {
        status, got := ReceiveOn(buffer, at, room, n, timed, got, start);
        if status != Done {
          return;
        }
      }
      Complete(n, timed, at, room, start, Look(buffer[..], socket.input, socket.schedule));
    }

    /** The body of the loop: one read for what is missing. start is what the loop began with. */
    method ReceiveOn(buffer: array<byte>, at: nat, room: nat, n: nat, timed: bool, got: nat, ghost start: Look)
      returns (status: Status, got': nat)
      requires at + room <= buffer.Length && got < n
      requires Progress(n, timed, at, room, start, got, Look(buffer[..], socket.input, socket.schedule))
      modifies socket, buffer
      ensures var now := Look(buffer[..], socket.input, socket.schedule);
              if status == Done then got' <= n && Progress(n, timed, at, room, start, got', now)
              else Received(n, timed, at, room, start, status, got', now)
      ensures status == Done ==> |socket.schedule| < |old(socket.schedule)|
    {
      hide *;
      ghost var before := Look(buffer[..], socket.input, socket.schedule);
      var stored := Min(got, room);
      MinLeast(got, room);
      var more;
      status, more := ReceiveMore(buffer, at + stored, room - stored, n - got, timed);
      ghost var now := Look(buffer[..], socket.input, socket.schedule);
      if status != Done {
        Stopped(n, timed, at, room, start, got, before, status, now);
        return status, got;
      }
      FurtherOn(n, timed, at, room, start, got, before, more, now);
      got' := got + more;
    }

    /** One read of n bytes at most. */
    method ReceiveMore(buffer: array<byte>, at: nat, room: nat, n: nat, timed: bool) returns (status: Status, got: nat)
      requires at + room <= buffer.Length && n > 0
      modifies socket, buffer
      ensures var start := old(Look(buffer[..], socket.input, socket.schedule));
              var now := Look(buffer[..], socket.input, socket.schedule);
              && got <= n
              && if status == Done then Progress(n, timed, at, room, start, got, now)
                 else got == 0 && Received(n, timed, at, room, start, status, 0, now)
      ensures status == Done ==> |socket.schedule| < |old(socket.schedule)|
    {
      hide Reading, Later, Progress;
      ghost var start := Look(buffer[..], socket.input, socket.schedule);
      NothingYet(n, timed, at, room, start);
      var r := socket.Read(n, timed);
      match r {
        case Closed =>
          return Lost, 0;
        case TimedOut =>
          return Expired, 0;
        case Data(bytes) =>
          CopyTo(buffer, at, bytes[..Min(|bytes|, room)]);
          ReadSome(n, timed, at, room, start, bytes, Look(buffer[..], socket.input, socket.schedule));
          return Done, |bytes|;
      }
    }

    /** The same with a deadline, which may have passed before anything is read. */
    method ReceiveInTime(buffer: array<byte>, at: nat, room: nat, n: nat) returns (status: Status, got: nat)
      requires at + room <= buffer.Length
      modifies socket, buffer
      ensures Part(status, got, socket.schedule) == ReadingInTime(n, |old(socket.input)|, old(socket.schedule))
      ensures Taken(old(buffer[..]), at, room, old(socket.input), got, buffer[..], socket.input)
    {
      hide Reading;
      var over := socket.DeadlineOver();
      if over {
        return Expired, 0;
      }
      status, got := Receive(buffer, at, room, n, true);
    }

    /** Skips n bytes, a kilobyte at a time. */
    method ReceiveJunk(n: nat) returns (status: Status, ghost taken: nat)
      modifies socket
      ensures Part(status, taken, socket.schedule) == Skipping(n, |old(socket.input)|, old(socket.schedule))
      ensures socket.input == old(socket.input)[taken..]
    {
      hide Reading;
      var buffer := new byte[JUNK];
      var bytesToRead, got := n, 0;
      ghost var was, schedule := socket.input, socket.schedule;
      taken := 0;
      while bytesToRead > JUNK
        invariant 0 <= bytesToRead <= n && taken == n - bytesToRead <= |was| && socket.input == was[taken..]
        invariant var p := Skipping(bytesToRead, |socket.input|, socket.schedule);
                  Skipping(n, |was|, schedule) == Part(p.status, taken + p.got, p.rest)
      {
        status, got := Receive(buffer, 0, JUNK, JUNK, false);
        taken := taken + got;
        if status != Done {
          return;
        }
        bytesToRead := bytesToRead - JUNK;
      }
      status, got := Receive(buffer, 0, bytesToRead, bytesToRead, false);
      taken := taken + got;
    }

    /** The guarded part: header and payload go to the caller before the deadline, or left counts what the frame still
        owes by the code's own account. */
    method ReceiveReply(ghost slot: AmsResponse, request: AmsRequest, size: nat, length: uint32)
      returns (status: Status, left: nat, result: uint32)
      requires slot.Armed() && slot.request == request
      requires 4 <= size <= 8 && length <= size + request.bufferLength
      modifies socket, request`bytesRead, request.buffer
      ensures var s := Serve(size, length, request.bufferLength, |old(socket.input)|, old(socket.schedule));
              && status == s.status && socket.schedule == s.rest && socket.input == old(socket.input)[s.taken..]
              && request.buffer[..]
                 == Written(old(socket.input), size, s.written) + old(request.buffer[..])[s.written..]
              && (status == Done ==> result == Field(old(socket.input), 0, 4)) && left == s.left
              && request.bytesRead == if status == Done && request.hasBytesRead then s.written
                                      else old(request.bytesRead)
    {
      hide FromLE, Reading, ReadingInTime, Asked;
      ghost var was := socket.input;
      ghost var before := request.buffer[..];
      var header := new byte[size];
      left, result := length, 0;
      var got;
      status, got := ReceiveInTime(header, 0, size, size);
      assert before == Written(was, size, 0) + before[0..];
      if status == Done {
        assert header[..] == was[..size] && was[..size][0..4] == was[0..4];
        result := Field(header[..], 0, 4);
        assert result == Field(was, 0, 4);
        hide Field;
        left := Asked(length, size);
        status, got := ReceivePayload(slot, request, left);
        Skip(was, size, got, request.bufferLength);
        DoneIsWhole(length, size, request.bufferLength);
      }
    }

    /** A second receive that gets all it asked for without an overrun is that of a whole reply. */
    static lemma DoneIsWhole(length: uint32, size: nat, bufferLength: uint32)
      requires size <= 8 && length <= size + bufferLength
      ensures Asked(length, size) <= bufferLength ==> Asked(length, size) == length - size
    {
    }

    static lemma Skip(was: seq<byte>, size: nat, got: nat, room: nat)
      requires size + got <= |was|
      ensures was[size..][..Min(got, room)] == Written(was, size, Min(got, room))
      ensures was[size..][got..] == was[size + got..]
    {
    }

    /** The payload goes into the caller's buffer, and its length to the caller. The code stores what does not fit
        behind the buffer. */
    method ReceivePayload(ghost slot: AmsResponse, request: AmsRequest, n: nat) returns (status: Status, got: nat)
      requires slot.Armed() && slot.request == request
      modifies socket, request`bytesRead, request.buffer
      ensures var p, room := ReadingInTime(n, |old(socket.input)|, old(socket.schedule)), request.bufferLength;
              && got == p.got && status == (if p.got > room then Undefined else p.status) && socket.schedule == p.rest
              && socket.input == old(socket.input)[got..]
              && request.buffer[..] == old(socket.input)[..Min(got, room)] + old(request.buffer[..])[Min(got, room)..]
      ensures request.bytesRead == if status == Done && request.hasBytesRead then n else old(request.bytesRead)
    {
      hide ReadingInTime;
      status, got := ReceiveInTime(request.Buffer(slot), 0, request.BufferLength(slot), n);
      if got > request.BufferLength(slot) {
        return Undefined, got;
      }
      if status == Done {
        request.StoreBytesRead(slot, n);
      }
    }

    /** The response to a request whose slot the receiver has claimed, and what it does to the owner: the result, once,
        the payload and its length. A deadline that passes in the middle of a part makes the code skip the bytes it
        has of that part a second time, behind the end of the frame. */
    static ghost predicate Answers(response: AmsResponse, h: AoE, stream: seq<byte>, schedule: Schedule,
                                   notices: seq<uint32>, buffer: seq<byte>, bytesRead: nat)
      reads response, response.request, if response.request == null then {} else {response.request.buffer}
    {
      && response.request != null && |buffer| >= response.request.bufferLength
      && var request, n := response.request, response.request.bufferLength;
         var result, payload := ReplyResult(h, n, stream, schedule), ReplyPayload(h, n, stream, schedule);
         && response.notices == notices + (if result.Some? then [result.value] else [])
         && (result.Some? ==> response.errorCode == result.value)
         && (response.held <==> result.None?)
         && request.buffer[..] == payload + buffer[|payload|..]
         && var count := ReplyCount(h, n, |stream|, schedule);
            request.bytesRead == if count.Some? && request.hasBytesRead then count.value else bytesRead
    }

    /** Slot response was claimed for a frame with this header, and its owner saw before: now it has got the answer if
        it waits, and without a request only a result that needs none. */
    static ghost predicate Handled(response: AmsResponse, h: AoE, meets: Claimed, stream: seq<byte>, schedule: Schedule,
                                   before: Owner)
      reads response, response.request, if response.request == null then {} else {response.request.buffer}
    {
      if meets.Waiting? then Answers(response, h, stream, schedule, before.notices, before.buffer, before.bytesRead)
      else
        && response.notices == before.notices + (if Refusal(h).Some? then [Refusal(h).value] else [])
        && (Refusal(h).Some? ==> response.errorCode == Refusal(h).value)
    }

    static lemma HandledTells(response: AmsResponse, h: AoE, meets: Claimed, stream: seq<byte>, schedule: Schedule,
                              before: Owner)
      requires meets != Nobody && Handled(response, h, meets, stream, schedule, before)
      requires meets.Waiting? ==> response.request != null && meets.bufferLength == response.request.bufferLength
      ensures response.notices == before.notices + Told(h, meets, stream, schedule)
    {
      hide ReplyResult, ReplyPayload, ReplyCount, Refusal;
    }

    /** Reads the rest of a response whose slot the receiver has claimed. */
    method ReceiveFrame(response: AmsResponse, size: nat, h: AoE) returns (status: Status)
      requires ResponseHeader(h.cmdId) == Some(size)
      modifies socket, response`errorCode, response`notices, response`held
      modifies response.LentRequest()`bytesRead, response.LentBuffer()
      ensures Handled(response, h, old(response.Meets()), old(socket.input), old(socket.schedule), old(response.Sees()))
      ensures var e := AnswerEnd(h, old(response.Meets()), |old(socket.input)|, old(socket.schedule));
              && status == e.status && socket.schedule == e.rest
              && (status == Done ==> socket.input == old(socket.input)[e.taken..])
    {
      hide Field, Reading, ReadingInTime, Skipping, Serve, Asked, Written;
      if h.errorCode != 0 {
        status := Refuse(response, h.errorCode, h.length);
      } else if !response.Armed() {
        status := Undefined;
      } else if h.length > size + response.request.BufferLength(response) {
        status := Refuse(response, ADSERR_DEVICE_INVALIDSIZE, h.length);
      } else {
        status := ReceiveServed(response, size, h);
      }
    }

    /** A reply without an error that fits. */
    method ReceiveServed(response: AmsResponse, size: nat, h: AoE) returns (status: Status)
      requires response.Armed() && ResponseHeader(h.cmdId) == Some(size)
      requires Served(size, h, response.request.bufferLength)
      modifies socket, response`errorCode, response`notices, response`held
      modifies response.request`bytesRead, response.request.buffer
      ensures Answers(response, h, old(socket.input), old(socket.schedule), old(response.notices),
                      old(response.request.buffer[..]), old(response.request.bytesRead))
      ensures var e := ReplyEnd(h, response.request.bufferLength, |old(socket.input)|, old(socket.schedule));
              && status == e.status && socket.schedule == e.rest
              && (status == Done ==> socket.input == old(socket.input)[e.taken..])
    {
      hide Field, Reading, ReadingInTime, Skipping, Serve, Asked, Written;
      var left, result;
      ghost var was := socket.input;
      status, left, result := ReceiveReply(response, response.request, size, h.length);
      if status == Done {
        response.Notify(result);
      } else if status == Expired {
        ghost var from := |was| - |socket.input|;
        status := Refuse(response, ADSERR_CLIENT_SYNCTIMEOUT, left);
        assert forall k: nat | from + k <= |was| :: was[from..][k..] == was[from + k..];
      }
    }

    /** Gives the owner a result, then skips n bytes. */
    method Refuse(response: AmsResponse, result: uint32, n: nat) returns (status: Status)
      modifies socket, response`errorCode, response`notices, response`held
      ensures response.errorCode == result && response.notices == old(response.notices) + [result] && !response.held
      ensures var p := Skipping(n, |old(socket.input)|, old(socket.schedule));
              status == p.status && socket.schedule == p.rest && socket.input == old(socket.input)[p.got..]
    {
      hide Skipping;
      response.Notify(result);
      ghost var taken;
      status, taken := ReceiveJunk(n);
    }

    /** Stores the length word, byte by byte. */
    method StoreLength(ring: RingBuffer, length: uint32)
      requires ring.Valid() && 4 <= ring.BytesFree()
      modifies ring`write, ring.data
      ensures ring.Valid() && ring.Contents() == old(ring.Contents()) + LE(length, 4)
    {
      hide LE, Digit;
      for i := 0 to 4
        invariant ring.Valid() && ring.Contents() == old(ring.Contents()) + LE(length, 4)[..i]
      {
        LEAt(length, 4, i);
        assert LE(length, 4)[..i + 1] == LE(length, 4)[..i] + [Digit(length, i)];
        StoreByte(ring, Digit(length, i));
      }
    }

    method StoreByte(ring: RingBuffer, b: byte)
      requires ring.Valid() && 1 <= ring.BytesFree()
      modifies ring`write, ring.data
      ensures ring.Valid() && ring.Contents() == old(ring.Contents()) + [b]
    {
      ghost var d := ring.data[..];
      ring.data[ring.write] := b;
      StoreBehindHeld(d, ring.data[..], ring.write, ring.read, ring.write, ring.write + 1);
      assert Window(ring.data[..], ring.write, 1) == [b];
      ring.Write(1);
    }

    /** The chunk loop: the payload goes to the ring in runs that do not pass the end of the array. */
    method StorePayload(ring: RingBuffer, length: nat) returns (status: Status)
      requires ring.Valid() && length <= ring.BytesFree()
      modifies socket, ring`write, ring.data
      ensures ring.Valid() && (status == Done || status == Lost) && Used(old(socket.schedule), socket.schedule, status)
      ensures status == Done ==> length <= |old(socket.input)| && socket.input == old(socket.input)[length..]
      ensures status == Done ==> ring.Contents() == old(ring.Contents()) + old(socket.input)[..length]
      ensures old(ring.Contents()) <= ring.Contents() <= old(ring.Contents()) + old(socket.input)
    {
      ghost var was, held, schedule := socket.input, ring.Contents(), socket.schedule;
      assert Used(schedule, schedule, Done);
      hide *;
      var bytesLeft := length;
      var chunk := ring.WriteChunk();
      while bytesLeft > chunk
        invariant ring.Valid() && 0 <= bytesLeft <= length && length - bytesLeft <= |was|
        invariant socket.input == was[length - bytesLeft..]
        invariant ring.Contents() == held + was[..length - bytesLeft] && bytesLeft <= ring.BytesFree()
        invariant chunk == ring.WriteChunk() && Used(schedule, socket.schedule, Done)
        decreases bytesLeft
      {
        ghost var mid := socket.schedule;
        status := StoreNext(ring, chunk, held, was, length - bytesLeft);
        UsedOn(schedule, mid, socket.schedule, status);
        if status != Done {
          return;
        }
        bytesLeft := bytesLeft - chunk;
        chunk := ring.WriteChunk();
      }
      ghost var mid := socket.schedule;
      status := StoreNext(ring, bytesLeft, held, was, length - bytesLeft);
      UsedOn(schedule, mid, socket.schedule, status);
    }

    /** Copies one notification into a dispatcher's ring, behind its length: all of it or, when the ring
        is too full, nothing. Only a lost connection leaves a frame half written, and then uncounted. */
    method ReceiveNotification(dispatcher: NotificationDispatcher, length: uint32)
      returns (status: Status, stored: bool)
      requires dispatcher.ring.Valid()
      modifies socket, dispatcher`sem, dispatcher.ring`write, dispatcher.ring.data
      ensures dispatcher.ring.Valid() && (status == Done || status == Lost) && (stored ==> status == Done)
      ensures Used(old(socket.schedule), socket.schedule, status)
      ensures status == Done ==> length <= |old(socket.input)| && socket.input == old(socket.input)[length..]
      ensures status == Done ==> stored == (length + 4 <= old(dispatcher.ring.BytesFree()))
      ensures dispatcher.sem == old(dispatcher.sem) + if stored then 1 else 0
      ensures stored ==> dispatcher.ring.Contents()
                         == old(dispatcher.ring.Contents()) + LE(length, 4) + old(socket.input)[..length]
      ensures status == Done && !stored ==> dispatcher.ring.Contents() == old(dispatcher.ring.Contents())
      ensures old(dispatcher.ring.Contents()) <= dispatcher.ring.Contents()
      ensures dispatcher.ring.Contents() <= old(dispatcher.ring.Contents()) + LE(length, 4) + old(socket.input)
    {
      hide LE;
      var ring := dispatcher.ring;
      stored := false;
      if length + 4 > ring.BytesFree() {
        ghost var taken;
        status, taken := ReceiveJunk(length);
        SkippingUses(length, |old(socket.input)|, old(socket.schedule));
        return;
      }
      StoreLength(ring, length);
      status := StorePayload(ring, length);
      if status == Done {
        dispatcher.Notify();
        stored := true;
      }
    }

    /** One chunk: the n bytes behind done, when the ring has gained those before. */
    method StoreNext(ring: RingBuffer, n: nat, ghost held: seq<byte>, ghost was: seq<byte>, ghost done: nat)
      returns (status: Status)
      requires ring.Valid() && n <= ring.WriteChunk() && done <= |was|
      requires socket.input == was[done..] && ring.Contents() == held + was[..done]
      modifies socket, ring`write, ring.data
      ensures ring.Valid() && (status == Done || status == Lost) && Used(old(socket.schedule), socket.schedule, status)
      ensures status == Done ==> done + n <= |was| && socket.input == was[done + n..]
      ensures status == Done ==> ring.Contents() == held + was[..done + n]
      ensures held <= ring.Contents() <= held + was
    {
      hide *;
      status := StoreChunk(ring, n);
      assert status == Done ==> was[..done + n] == was[..done] + was[done..][..n];
    }

    /** One receive straight into the ring, published when it is complete. */
    method StoreChunk(ring: RingBuffer, n: nat) returns (status: Status)
      requires ring.Valid() && n <= ring.WriteChunk()
      modifies socket, ring`write, ring.data
      ensures ring.Valid() && (status == Done || status == Lost) && Used(old(socket.schedule), socket.schedule, status)
      ensures status == Done ==> n <= |old(socket.input)| && socket.input == old(socket.input)[n..]
      ensures status == Done ==> ring.Contents() == old(ring.Contents()) + old(socket.input)[..n]
      ensures status == Lost ==> ring.Contents() == old(ring.Contents())
    {
      ghost var d, write, read := ring.data[..], ring.write, ring.read;
      var got;
      ReadingUses(n, |socket.input|, socket.schedule, false);
      status, got := Receive(ring.data, ring.write, n, n, false);
      StoreBehindHeld(d, ring.data[..], write, read, write, write + got);
      if status == Done {
        ring.Write(n);
      }
    }

    // ---- The loop ----

    /** The dispatchers with their rings: what a notification may change. */
    ghost function DispatcherObjects(): set<object>
    {
      (set k | k in dispatcherList :: dispatcherList[k])
      + (set k | k in dispatcherList :: dispatcherList[k].ring)
      + (set k | k in dispatcherList :: dispatcherList[k].ring.data)
    }

    /** The slots may be in any state. lent is what their owners lend to the receiver: the requests and their
        buffers. */
    ghost predicate SlotsReady(lent: set<object>)
      reads queue
    {
      && socket !in lent
      && |queue| == NUM_PORTS_MAX
      && (forall i, j :: 0 <= i < j < |queue| ==> queue[i] != queue[j])
      && (forall i :: 0 <= i < |queue| && queue[i].request != null ==>
            queue[i].request in lent && queue[i].request.buffer in lent)
      && (forall i :: 0 <= i < |queue| ==> queue[i] !in lent)
    }

    /** Nobody else has the dispatchers' objects. */
    ghost predicate Apart(lent: set<object>)
    {
      && socket !in DispatcherObjects() && DispatcherObjects() !! lent
      && forall slot <- queue :: slot !in DispatcherObjects()
    }

    /** Each dispatcher has a ring of its own. */
    ghost predicate RingsValid(lent: set<object>)
      reads set k | k in dispatcherList :: dispatcherList[k].ring
    {
      && (forall k :: k in dispatcherList ==> dispatcherList[k].ring.Valid() && dispatcherList[k].ring !in lent)
      && (forall k, l :: k in dispatcherList && l in dispatcherList && k != l ==>
            dispatcherList[k] != dispatcherList[l] && dispatcherList[k].ring != dispatcherList[l].ring
            && dispatcherList[k].ring.data != dispatcherList[l].ring.data)
    }

    /** What waits for the dispatcher of this port and address. */
    ghost function QueueOf(k: (uint16, seq<byte>)): Queue
      requires k in dispatcherList && dispatcherList[k].ring.Valid()
      reads dispatcherList[k], dispatcherList[k].ring, dispatcherList[k].ring.data
    {
      Queue(dispatcherList[k].ring.Contents(), dispatcherList[k].sem, dispatcherList[k].ring.data.Length)
    }

    ghost function Queues(): Queues
      requires forall k <- dispatcherList :: dispatcherList[k].ring.Valid()
      reads set k | k in dispatcherList :: dispatcherList[k]
      reads set k | k in dispatcherList :: dispatcherList[k].ring
      reads set k | k in dispatcherList :: dispatcherList[k].ring.data
    {
      map k | k in dispatcherList :: QueueOf(k)
    }

    /** The slot of the port, if it shows the id. */
    ghost function Shown(id: uint32, port: uint16): (i: Option<nat>)
      requires |queue| == NUM_PORTS_MAX
      reads queue
      ensures i.Some? ==> i.value < |queue|
      ensures i == if 30000 <= port < 30128 && queue[port - 30000].invokeId == id then Some(port - 30000) else None
    {
      if PortIndex(port).Some? && queue[PortIndex(port).value].invokeId == id then PortIndex(port) else None
    }

    ghost function SlotAt(i: Option<nat>): set<AmsResponse>
      requires |queue| == NUM_PORTS_MAX
    {
      if i.Some? && i.value < |queue| then {queue[i.value]} else {}
    }

    /** Claims the slot that waits for this id, by compare-and-swap. */
    method GetPending(id: uint32, port: uint16) returns (slot: Option<nat>)
      requires |queue| == NUM_PORTS_MAX
      modifies SlotAt(Shown(id, port))`invokeId
      ensures slot == old(Shown(id, port)) && (slot.Some? ==> queue[slot.value].invokeId == 0)
    {
      var portIndex := PortIndex(port);
      if portIndex.None? || queue[portIndex.value].invokeId != id {
        return None;
      }
      queue[portIndex.value].invokeId := 0;
      slot := portIndex;
    }

    /** The slot that a frame with this header claims, if any. */
    ghost function Claim(h: AoE): (i: Option<nat>)
      requires |queue| == NUM_PORTS_MAX
      reads queue
      ensures i.Some? ==> i.value < |queue|
      ensures i == if h.cmdId != 8 && 30000 <= h.targetPort < 30128
                      && queue[h.targetPort - 30000].invokeId == h.invokeId
                   then Some(h.targetPort - 30000) else None
    {
      if h.cmdId != DEVICE_NOTIFICATION then Shown(h.invokeId, h.targetPort) else None
    }

    /** What a frame with this header may change on the side of the callers: the slot it claims ... */
    ghost function ClaimedSlot(h: AoE): set<AmsResponse>
      requires |queue| == NUM_PORTS_MAX
      reads queue
    {
      SlotAt(Claim(h))
    }

    /** ... and, if its owner waits, the request in it and the buffer of that. */
    ghost function ClaimedRequest(h: AoE): set<AmsRequest>
      requires |queue| == NUM_PORTS_MAX
      reads queue
    {
      if Claim(h).Some? then queue[Claim(h).value].LentRequest() else {}
    }

    ghost function ClaimedBuffer(h: AoE): set<array<byte>>
      requires |queue| == NUM_PORTS_MAX
      reads queue
    {
      if Claim(h).Some? then queue[Claim(h).value].LentBuffer() else {}
    }

    /** What a reply with this header meets. */
    ghost function Meets(h: AoE): Claimed
      requires |queue| == NUM_PORTS_MAX
      reads queue
    {
      if Claim(h).Some? then queue[Claim(h).value].Meets() else Nobody
    }

    /** The same for the frame at the front of the stream. */
    ghost function NextHeader(): Option<AoE>
      reads socket
    {
      if HeadersIn(socket.input) then NextAoE(socket.input) else None
    }

    ghost function NextMeets(): Claimed
      requires |queue| == NUM_PORTS_MAX
      reads socket, queue
    {
      if NextHeader().Some? then Meets(NextHeader().value) else Nobody
    }

    ghost function NextClaim(): Option<nat>
      requires |queue| == NUM_PORTS_MAX
      reads socket, queue
    {
      if NextHeader().Some? then Claim(NextHeader().value) else None
    }

    /** What the next pass starts with. */
    ghost function NextTurn(): Turn
      requires |queue| == NUM_PORTS_MAX && forall k <- dispatcherList :: dispatcherList[k].ring.Valid()
      reads socket, queue
      reads set k | k in dispatcherList :: dispatcherList[k]
      reads set k | k in dispatcherList :: dispatcherList[k].ring
      reads set k | k in dispatcherList :: dispatcherList[k].ring.data
    {
      Turn(socket.input, socket.schedule, NextMeets(), NextClaim(), Queues())
    }

    ghost function AllNotices(): (r: seq<seq<uint32>>)
      reads queue
      ensures |r| == |queue| && forall i :: 0 <= i < |queue| ==> r[i] == queue[i].notices
    {
      seq(|queue|, i requires 0 <= i < |queue| reads queue => queue[i].notices)
    }

    ghost function Now(): Scene
      requires forall k <- dispatcherList :: dispatcherList[k].ring.Valid()
      reads socket, queue
      reads set k | k in dispatcherList :: dispatcherList[k]
      reads set k | k in dispatcherList :: dispatcherList[k].ring
      reads set k | k in dispatcherList :: dispatcherList[k].ring.data
    {
      Scene(socket.input, socket.schedule, Queues(), AllNotices())
    }

    ghost function NextSlot(): set<AmsResponse>
      requires |queue| == NUM_PORTS_MAX
      reads socket, queue
    {
      if NextHeader().Some? then ClaimedSlot(NextHeader().value) else {}
    }

    ghost function NextRequest(): set<AmsRequest>
      requires |queue| == NUM_PORTS_MAX
      reads socket, queue
    {
      if NextHeader().Some? then ClaimedRequest(NextHeader().value) else {}
    }

    ghost function NextBuffer(): set<array<byte>>
      requires |queue| == NUM_PORTS_MAX
      reads socket, queue
    {
      if NextHeader().Some? then ClaimedBuffer(NextHeader().value) else {}
    }

    /** Both headers; a frame too short for an AoE header is skipped. */
    method ReceiveHeaders(ghost claimed: Claimed) returns (status: Status, header: Option<AoE>)
      modifies socket
      ensures TookHeaders(claimed, old(socket.input), old(socket.schedule), status, header, socket.input,
                          socket.schedule)
    {
      hide *;
      header := None;
      ghost var was, before := socket.input, socket.schedule;
      var tcp := new byte[6];
      var got;
      ghost var look := Look(tcp[..], was, before);
      status, got := Receive(tcp, 0, 6, 6, false);
      Filled(6, look, status, got, Look(tcp[..], socket.input, socket.schedule));
      ghost var t := Part(status, got, socket.schedule);
      if status != Done {
        TcpLost(claimed, was, before, t, socket.input);
        return;
      }
      HeaderSizes();
      var length := TcpLength(tcp[..]);
      if length < 32 {
        ghost var taken;
        status, taken := ReceiveJunk(length);
        TooShort(claimed, was, before, t, Part(status, taken, socket.schedule), socket.input);
        return;
      }
      var aoe := new byte[32];
      look := Look(aoe[..], socket.input, socket.schedule);
      status, got := Receive(aoe, 0, 32, 32, false);
      Filled(32, look, status, got, Look(aoe[..], socket.input, socket.schedule));
      AoERead(claimed, was, before, t, Part(status, got, socket.schedule), aoe[..], socket.input);
      if status == Done {
        header := Some(ParseAoE(aoe[..]));
      }
    }

    /** The rest of a frame whose slot is claimed, by command. */
    method Respond(response: AmsResponse, h: AoE) returns (status: Status)
      modifies socket, response`errorCode, response`notices, response`held
      modifies response.LentRequest()`bytesRead, response.LentBuffer()
      ensures Handled(response, h, old(response.Meets()), old(socket.input), old(socket.schedule), old(response.Sees()))
      ensures var e := AnswerEnd(h, old(response.Meets()), |old(socket.input)|, old(socket.schedule));
              && status == e.status && socket.schedule == e.rest
              && (status == Done ==> socket.input == old(socket.input)[e.taken..])
    {
      hide Field, Reading, ReadingInTime, Skipping, Serve, Asked;
      match ResponseHeader(h.cmdId) {
        case Some(size) =>
          status := ReceiveFrame(response, size, h);
        case None =>
          ghost var before := response.Sees().buffer;
          assert before == [] + before[0..];
          status := Refuse(response, ADSERR_CLIENT_SYNCRESINVALID, h.length);
      }
    }

    /** A frame that is not a notification: the slot it claims is answered, and nothing else on the side of the callers
        is touched. */
    method ReceiveResponse(h: AoE, ghost lent: set<object>) returns (status: Status, claimed: Option<nat>)
      requires SlotsReady(lent) && h.cmdId != DEVICE_NOTIFICATION
      modifies socket, ClaimedSlot(h)`invokeId, ClaimedSlot(h)`errorCode, ClaimedSlot(h)`notices, ClaimedSlot(h)`held
      modifies ClaimedRequest(h)`bytesRead, ClaimedBuffer(h)
      ensures SlotsReady(lent) && claimed == old(Claim(h))
      ensures var e := AnswerEnd(h, old(Meets(h)), |old(socket.input)|, old(socket.schedule));
              && status == e.status && socket.schedule == e.rest
              && (status == Done ==> socket.input == old(socket.input)[e.taken..])
      ensures claimed.Some? ==>
                && queue[claimed.value].invokeId == 0
                && Handled(queue[claimed.value], h, old(Meets(h)), old(socket.input), old(socket.schedule),
                           old(queue[Claim(h).value].Sees()))
    {
      hide AnswerEnd, Refusal;
      claimed := GetPending(h.invokeId, h.targetPort);
      if claimed.None? {
        ghost var taken;
        status, taken := ReceiveJunk(h.length);
        NobodyAnswers(h, |old(socket.input)|, old(socket.schedule));
      } else {
        status := Respond(queue[claimed.value], h);
      }
    }

    static lemma NobodyAnswers(h: AoE, avail: nat, schedule: Schedule)
      ensures AnswerEnd(h, Nobody, avail, schedule) == Skipped(h.length, avail, schedule)
    {
    }

    /** Skipping changes nothing but the socket. */
    method JunkApart(n: nat, ghost lent: set<object>) returns (status: Status)
      requires SlotsReady(lent)
      modifies socket
      ensures SlotsReady(lent) && (status == Done || status == Lost)
      ensures Used(old(socket.schedule), socket.schedule, status)
      ensures status == Done ==> n <= |old(socket.input)| && socket.input == old(socket.input)[n..]
      ensures forall i :: 0 <= i < |queue| ==> unchanged(queue[i])
      ensures forall k <- dispatcherList ::
                && unchanged(dispatcherList[k]) && unchanged(dispatcherList[k].ring)
                && unchanged(dispatcherList[k].ring.data)
    {
      hide Reading, Used;
      ghost var taken;
      SkippingUses(n, |socket.input|, socket.schedule);
      status, taken := ReceiveJunk(n);
    }

    lemma QueuesAre()
      requires forall k <- dispatcherList :: dispatcherList[k].ring.Valid()
      ensures Queues().Keys == dispatcherList.Keys && forall k <- dispatcherList :: Queues()[k] == QueueOf(k)
    {
      hide AmsConnection.QueueOf;
    }

    /** A notification goes to its dispatcher's ring, if there is a dispatcher. */
    method Dispatch(h: AoE, ghost lent: set<object>) returns (status: Status)
      requires RingsValid(lent) && SlotsReady(lent) && h.cmdId == DEVICE_NOTIFICATION
      modifies socket, DispatcherObjects()
      ensures forall i :: 0 <= i < |queue| ==> unchanged(queue[i])
      ensures SlotsReady(lent) && RingsValid(lent) && (status == Done || status == Lost)
      ensures Used(old(socket.schedule), socket.schedule, status)
      ensures status == Done ==> h.length <= |old(socket.input)| && socket.input == old(socket.input)[h.length..]
      ensures QueuesAfter(status, Some(h), old(Queues()), old(socket.input), Queues())
    {
      var k := (h.targetPort, h.source);
      ghost var was := Queues();
      assert forall l <- dispatcherList :: dispatcherList[l].ring.Valid();
      assert forall l <- dispatcherList ::
          && dispatcherList[l] in DispatcherObjects() && dispatcherList[l].ring in DispatcherObjects()
          && dispatcherList[l].ring.data in DispatcherObjects();
      QueuesAre();
      hide *;
      if k in dispatcherList {
        status := Store(k, dispatcherList[k], h.length, lent);
        QueuesAre();
        StoredIs(status, h, was, old(socket.input), Queues());
      } else {
        status := JunkApart(h.length, lent);
        assert forall l <- dispatcherList :: QueueOf(l) == old(QueueOf(l));
        QueuesEqual(was);
        NobodyThere(status, h, was, old(socket.input));
      }
    }

    /** The same for a dispatcher that is there. */
    method Store(ghost k: (uint16, seq<byte>), d: NotificationDispatcher, length: uint32, ghost lent: set<object>)
      returns (status: Status)
      requires RingsValid(lent) && SlotsReady(lent) && k in dispatcherList && d == dispatcherList[k]
      modifies socket, d`sem, d.ring`write, d.ring.data
      ensures SlotsReady(lent) && RingsValid(lent) && (status == Done || status == Lost)
      ensures forall i :: 0 <= i < |queue| ==> unchanged(queue[i])
      ensures forall l <- dispatcherList :: dispatcherList[l].ring.Valid()
      ensures Used(old(socket.schedule), socket.schedule, status)
      ensures status == Done ==>
                && length <= |old(socket.input)| && socket.input == old(socket.input)[length..]
                && QueueOf(k) == Enqueued(old(QueueOf(k)), old(socket.input)[..length])
      ensures forall l <- dispatcherList :: l != k ==> QueueOf(l) == old(QueueOf(l))
    {
      hide RingBuffer.Contents, LE, Used;
      var stored;
      status, stored := ReceiveNotification(d, length);
    }

    /** What a reply may change is not what the dispatchers have. */
    lemma ClaimsApart(h: AoE, lent: set<object>)
      requires SlotsReady(lent) && Apart(lent)
      ensures |queue| == NUM_PORTS_MAX
      ensures forall k <- dispatcherList :: dispatcherList[k].ring.data !in ClaimedBuffer(h)
    {
      forall k <- dispatcherList
        ensures dispatcherList[k].ring.data in DispatcherObjects()
      {
      }
    }

    /** No slot but the claimed one is changed. */
    lemma OthersUnclaimed(h: AoE, lent: set<object>)
      requires SlotsReady(lent) && Apart(lent)
      ensures |queue| == NUM_PORTS_MAX
      ensures forall i :: 0 <= i < |queue| && Claim(h) != Some(i) ==>
                queue[i] !in ClaimedSlot(h) && queue[i] !in DispatcherObjects()
    {
      hide AmsConnection.DispatcherObjects;
    }

    /** A reply leaves the dispatchers alone. */
    method ReplyApart(h: AoE, ghost lent: set<object>) returns (status: Status, claimed: Option<nat>)
      requires SlotsReady(lent) && RingsValid(lent) && Apart(lent) && h.cmdId != DEVICE_NOTIFICATION
      modifies socket, ClaimedSlot(h)`invokeId, ClaimedSlot(h)`errorCode, ClaimedSlot(h)`notices, ClaimedSlot(h)`held
      modifies ClaimedRequest(h)`bytesRead, ClaimedBuffer(h)
      ensures SlotsReady(lent) && claimed == old(Claim(h))
      ensures var e := AnswerEnd(h, old(Meets(h)), |old(socket.input)|, old(socket.schedule));
              && status == e.status && socket.schedule == e.rest
              && (status == Done ==> socket.input == old(socket.input)[e.taken..])
      ensures claimed.Some? ==>
                && queue[claimed.value].invokeId == 0
                && Handled(queue[claimed.value], h, old(Meets(h)), old(socket.input), old(socket.schedule),
                           old(queue[Claim(h).value].Sees()))
      ensures forall k <- dispatcherList ::
                && unchanged(dispatcherList[k]) && unchanged(dispatcherList[k].ring)
                && unchanged(dispatcherList[k].ring.data)
    {
      ClaimsApart(h, lent);
      hide *;
      status, claimed := ReceiveResponse(h, lent);
    }

    /** And so the queues are as they were. */
    method Reply(h: AoE, ghost lent: set<object>) returns (status: Status, claimed: Option<nat>)
      requires SlotsReady(lent) && RingsValid(lent) && Apart(lent) && h.cmdId != DEVICE_NOTIFICATION
      modifies socket, ClaimedSlot(h)`invokeId, ClaimedSlot(h)`errorCode, ClaimedSlot(h)`notices, ClaimedSlot(h)`held
      modifies ClaimedRequest(h)`bytesRead, ClaimedBuffer(h)
      ensures SlotsReady(lent) && claimed == old(Claim(h))
      ensures var e := AnswerEnd(h, old(Meets(h)), |old(socket.input)|, old(socket.schedule));
              && status == e.status && socket.schedule == e.rest
              && (status == Done ==> socket.input == old(socket.input)[e.taken..])
      ensures claimed.Some? ==>
                && queue[claimed.value].invokeId == 0
                && Handled(queue[claimed.value], h, old(Meets(h)), old(socket.input), old(socket.schedule),
                           old(queue[Claim(h).value].Sees()))
      ensures RingsValid(lent) && Queues() == old(Queues())
    {
      assert forall k <- dispatcherList :: dispatcherList[k].ring.Valid();
      ghost var was := Queues();
      assert was.Keys == dispatcherList.Keys && forall k <- dispatcherList :: was[k] == QueueOf(k);
      hide *;
      status, claimed := ReplyApart(h, lent);
      assert forall k <- dispatcherList :: QueueOf(k) == old(QueueOf(k));
      QueuesEqual(was);
    }

    lemma QueuesEqual(was: Queues)
      requires forall k <- dispatcherList :: dispatcherList[k].ring.Valid()
      requires was.Keys == dispatcherList.Keys && forall k <- dispatcherList :: QueueOf(k) == was[k]
      ensures Queues() == was
    {
      hide AmsConnection.QueueOf;
    }

    /** What follows both headers. */
    method Handle(h: AoE, ghost lent: set<object>) returns (status: Status, claimed: Option<nat>)
      requires SlotsReady(lent) && RingsValid(lent) && Apart(lent)
      modifies socket, ClaimedSlot(h)`invokeId, ClaimedSlot(h)`errorCode, ClaimedSlot(h)`notices, ClaimedSlot(h)`held
      modifies ClaimedRequest(h)`bytesRead, ClaimedBuffer(h), DispatcherObjects()
      ensures SlotsReady(lent) && RingsValid(lent) && claimed == old(Claim(h))
      ensures var n := TCP_HEADER + AOE_HEADER;
              var e := PassBehind(h, old(Meets(h)), |old(socket.input)|, old(socket.schedule));
              && (status == Done ==>
                    e.status == Done && n <= e.taken <= n + |old(socket.input)|
                    && socket.input == old(socket.input)[e.taken - n..])
              && (h.cmdId != DEVICE_NOTIFICATION ==> status == e.status && socket.schedule == e.rest)
      ensures h.cmdId == DEVICE_NOTIFICATION ==>
                (status == Done || status == Lost) && Used(old(socket.schedule), socket.schedule, status)
      ensures |socket.schedule| <= |old(socket.schedule)|
      ensures claimed.Some? ==>
                && queue[claimed.value].invokeId == 0
                && Handled(queue[claimed.value], h, old(Meets(h)), old(socket.input), old(socket.schedule),
                           old(queue[Claim(h).value].Sees()))
      ensures QueuesAfter(status, Some(h), old(Queues()), old(socket.input), Queues())
    {
      assert |queue| == NUM_PORTS_MAX && (h.cmdId == DEVICE_NOTIFICATION ==> Claim(h) == None);
      assert forall k <- dispatcherList :: dispatcherList[k].ring.Valid();
      PassBehindIs(h, Meets(h), |socket.input|, socket.schedule);
      QueuesKept(h, Queues());
      hide *;
      if h.cmdId != DEVICE_NOTIFICATION {
        status, claimed := Reply(h, lent);
      } else {
        claimed := None;
        status := Dispatch(h, lent);
        UsedShrinks(old(socket.schedule), socket.schedule, status);
      }
    }

    /** One pass of the receive loop: where it ends, whom it answers and how, and that it touches nothing else on the
        side of the callers. */
    method RecvOnce(ghost lent: set<object>) returns (status: Status, claimed: Option<nat>, header: Option<AoE>)
      requires SlotsReady(lent) && RingsValid(lent) && Apart(lent)
      modifies socket, NextSlot()`invokeId, NextSlot()`errorCode, NextSlot()`notices, NextSlot()`held
      modifies NextRequest()`bytesRead, NextBuffer(), DispatcherObjects()
      ensures SlotsReady(lent) && RingsValid(lent) && forall k <- dispatcherList :: dispatcherList[k].ring.Valid()
      ensures header == HeaderRead(old(socket.input), old(socket.schedule))
      ensures header.Some? || status == Done ==> HeadersIn(old(socket.input)) && header == NextAoE(old(socket.input))
      ensures var e := Pass(old(socket.input), old(socket.schedule), old(NextMeets()));
              && (status == Done ==>
                    e.status == Done && e.taken <= |old(socket.input)| && socket.input == old(socket.input)[e.taken..])
              && (header.None? || header.value.cmdId != DEVICE_NOTIFICATION ==>
                    status == e.status && socket.schedule == e.rest)
      ensures |socket.schedule| <= |old(socket.schedule)|
      ensures status == Done ==> |socket.schedule| < |old(socket.schedule)|
      ensures IsNotification(old(socket.input)) ==>
                (status == Done || status == Lost) && Used(old(socket.schedule), socket.schedule, status)
      ensures claimed == if header.Some? then old(Claim(header.value)) else None
      ensures claimed.Some? ==>
                && |old(socket.input)| >= TCP_HEADER + AOE_HEADER
                && queue[claimed.value].invokeId == 0
                && Handled(queue[claimed.value], header.value, old(Meets(header.value)),
                           old(socket.input)[TCP_HEADER + AOE_HEADER..],
                           BehindHeaders(|old(socket.input)|, old(socket.schedule)),
                           old(queue[Claim(header.value).value].Sees()))
      ensures QueuesAfter(status, header, old(Queues()), Behind38(old(socket.input)), Queues())
      ensures forall i :: 0 <= i < |queue| && claimed != Some(i) ==> unchanged(queue[i])
    {
      assert |queue| == NUM_PORTS_MAX;
      assert forall k <- dispatcherList :: dispatcherList[k].ring.Valid();
      ghost var was, before := socket.input, socket.schedule;
      NextIs();
      InputIs(was);
      NothingDelivered(Queues());
      hide *;
      claimed := None;
      status, header := TakeHeaders(NextMeets(), lent);
      TookIs(old(NextMeets()), was, before, status, header, socket.input, socket.schedule);
      if header.Some? {
        status, claimed := HandleNext(header.value, was, before, lent);
      }
    }

    /** The headers, which change nothing but the socket. */
    method HeadersApart(ghost claimed: Claimed, ghost lent: set<object>) returns (status: Status, header: Option<AoE>)
      requires SlotsReady(lent) && Apart(lent)
      modifies socket
      ensures SlotsReady(lent) && |queue| == NUM_PORTS_MAX
      ensures forall i :: 0 <= i < |queue| ==> unchanged(queue[i])
      ensures forall k <- dispatcherList ::
                && unchanged(dispatcherList[k]) && unchanged(dispatcherList[k].ring)
                && unchanged(dispatcherList[k].ring.data)
      ensures TookHeaders(claimed, old(socket.input), old(socket.schedule), status, header, socket.input,
                          socket.schedule)
      ensures header.Some? ==>
                var h := header.value;
                && Claim(h) == old(Claim(h)) && Meets(h) == old(Meets(h)) && ClaimedSlot(h) == old(ClaimedSlot(h))
                && ClaimedRequest(h) == old(ClaimedRequest(h)) && ClaimedBuffer(h) == old(ClaimedBuffer(h))
                && (Claim(h).Some? ==> queue[Claim(h).value].Sees() == old(queue[Claim(h).value].Sees()))
    {
      assert |queue| == NUM_PORTS_MAX;
      hide *;
      status, header := ReceiveHeaders(claimed);
    }

    method TakeHeaders(ghost claimed: Claimed, ghost lent: set<object>) returns (status: Status, header: Option<AoE>)
      requires SlotsReady(lent) && RingsValid(lent) && Apart(lent)
      modifies socket
      ensures SlotsReady(lent) && RingsValid(lent) && Queues() == old(Queues())
      ensures forall i :: 0 <= i < |queue| ==> unchanged(queue[i])
      ensures TookHeaders(claimed, old(socket.input), old(socket.schedule), status, header, socket.input,
                          socket.schedule)
      ensures header.Some? ==>
                var h := header.value;
                && Claim(h) == old(Claim(h)) && Meets(h) == old(Meets(h)) && ClaimedSlot(h) == old(ClaimedSlot(h))
                && ClaimedRequest(h) == old(ClaimedRequest(h)) && ClaimedBuffer(h) == old(ClaimedBuffer(h))
                && (Claim(h).Some? ==> queue[Claim(h).value].Sees() == old(queue[Claim(h).value].Sees()))
    {
      assert forall k <- dispatcherList :: dispatcherList[k].ring.Valid();
      ghost var was := Queues();
      assert was.Keys == dispatcherList.Keys && forall k <- dispatcherList :: was[k] == QueueOf(k);
      hide *;
      status, header := HeadersApart(claimed, lent);
      assert forall k <- dispatcherList :: QueueOf(k) == old(QueueOf(k));
      QueuesEqual(was);
    }

    /** What follows both headers of the frame at the front of was. */
    method HandleNext(h: AoE, ghost was: seq<byte>, ghost before: Schedule, ghost lent: set<object>)
      returns (status: Status, claimed: Option<nat>)
      requires SlotsReady(lent) && RingsValid(lent) && Apart(lent) && Used(before, socket.schedule, Done)
      requires |was| >= 38 && socket.input == was[38..]
      requires Pass(was, before, Meets(h)) == PassBehind(h, Meets(h), |socket.input|, socket.schedule)
      modifies socket, ClaimedSlot(h)`invokeId, ClaimedSlot(h)`errorCode, ClaimedSlot(h)`notices, ClaimedSlot(h)`held
      modifies ClaimedRequest(h)`bytesRead, ClaimedBuffer(h), DispatcherObjects()
      ensures SlotsReady(lent) && RingsValid(lent) && claimed == old(Claim(h))
      ensures var e := Pass(was, before, old(Meets(h)));
              && (status == Done ==> e.status == Done && e.taken <= |was| && socket.input == was[e.taken..])
              && (h.cmdId != DEVICE_NOTIFICATION ==> status == e.status && socket.schedule == e.rest)
      ensures h.cmdId == DEVICE_NOTIFICATION ==>
                (status == Done || status == Lost) && Used(before, socket.schedule, status)
      ensures |socket.schedule| <= |old(socket.schedule)|
      ensures claimed.Some? ==>
                && queue[claimed.value].invokeId == 0
                && Handled(queue[claimed.value], h, old(Meets(h)), old(socket.input), old(socket.schedule),
                           old(queue[Claim(h).value].Sees()))
      ensures QueuesAfter(status, Some(h), old(Queues()), old(socket.input), Queues())
      ensures forall i :: 0 <= i < |queue| && claimed != Some(i) ==> unchanged(queue[i])
    {
      assert forall k <- dispatcherList :: dispatcherList[k].ring.Valid();
      OthersUnclaimed(h, lent);
      InputIs(was);
      hide *;
      ghost var mid, e := socket.schedule, Pass(was, before, Meets(h));
      status, claimed := Handle(h, lent);
      if status == Done {
        assert was[38..][e.taken - 38..] == was[e.taken..];
      }
      if h.cmdId == DEVICE_NOTIFICATION {
        UsedOn(before, mid, socket.schedule, status);
      }
    }

    /** What is said about the frame at the front of the stream is said about its header. */
    lemma NextIs()
      requires |queue| == NUM_PORTS_MAX
      ensures HeadersIn(socket.input) && NextAoE(socket.input).Some? ==>
                var h := NextAoE(socket.input).value;
                && NextHeader() == Some(h) && NextMeets() == Meets(h) && NextSlot() == ClaimedSlot(h)
                && NextClaim() == Claim(h)
                && NextRequest() == ClaimedRequest(h) && NextBuffer() == ClaimedBuffer(h)
    {
      hide NextAoE, HeadersIn;
    }

    /** The receiver thread: it goes on until the connection ends, or the model does. turns holds what each of its
        passes started with; they say what every slot was told and what every dispatcher has. */
    method Recv(ownIp: uint32, ghost lent: set<object>) returns (status: Status, ghost turns: seq<Turn>)
      requires SlotsReady(lent) && RingsValid(lent) && Apart(lent)
      modifies socket, queue`invokeId, queue`errorCode, queue`notices, queue`held, lent
      modifies DispatcherObjects()
      ensures RingsValid(lent) && (ownIp == 0 <==> turns == [])
      ensures Ran(turns, status, old(Now()), Now())
      ensures turns != [] ==> status != Done
    {
      assert forall k <- dispatcherList :: dispatcherList[k].ring.Valid();
      assert |queue| == NUM_PORTS_MAX;
      turns := [];
      status := Done;
      ghost var start := Now();
      RanNothing(start);
      hide *;
      while ownIp != 0 && status == Done
        invariant SlotsReady(lent) && RingsValid(lent)
        invariant forall k <- dispatcherList :: dispatcherList[k].ring.Valid()
        invariant (turns == [] ==> status == Done) && (ownIp == 0 ==> turns == [])
        invariant Ran(turns, status, start, Now())
        decreases |socket.schedule|, status == Done
      {
        ghost var turn, before, was := NextTurn(), turns, AllNotices();
        TurnStarts();
        status := RecvTurn(turn, lent);
        turns := turns + [turn];
        RanOn(before, start, turn, was, status, Now());
      }
    }

    lemma TurnStarts()
      requires |queue| == NUM_PORTS_MAX && forall k <- dispatcherList :: dispatcherList[k].ring.Valid()
      ensures var turn := NextTurn();
              && turn.input == socket.input && turn.schedule == socket.schedule && turn.queues == Queues()
              && turn.claimed == NextMeets() && turn.slot == NextClaim()
              && Now() == Scene(turn.input, turn.schedule, turn.queues, AllNotices())
      ensures NextClaim().Some? ==>
                var slot, meets := queue[NextClaim().value], NextMeets();
                && meets != Nobody
                && (meets.Waiting? ==> slot.request != null && meets.bufferLength == slot.request.bufferLength)
    {
      hide AmsConnection.Queues;
    }

    /** One pass, as a turn. */
    method RecvTurn(ghost turn: Turn, ghost lent: set<object>) returns (status: Status)
      requires SlotsReady(lent) && RingsValid(lent) && Apart(lent)
      requires |queue| == NUM_PORTS_MAX && forall k <- dispatcherList :: dispatcherList[k].ring.Valid()
      requires turn == NextTurn()
      modifies socket, queue`invokeId, queue`errorCode, queue`notices, queue`held, lent
      modifies DispatcherObjects()
      ensures SlotsReady(lent) && RingsValid(lent)
      ensures forall k <- dispatcherList :: dispatcherList[k].ring.Valid()
      ensures if status == Done then Follows(turn, socket.input) && |socket.schedule| < |old(socket.schedule)|
              else Stops(turn, status, socket.schedule) && |socket.schedule| <= |old(socket.schedule)|
      ensures Leaves(turn, status, Now().queues) && Now().input == socket.input && Now().schedule == socket.schedule
      ensures Heard(old(AllNotices()), [turn], Now().notices)
    {
      hide *;
      TouchesLent(lent);
      TurnStarts();
      NextIs();
      InputIs(turn.input);
      SeeNotices(lent);
      var claimed, header;
      status, claimed, header := RecvOnce(lent);
      TurnGoes(turn, status, header, socket.input, socket.schedule, Queues());
      NowIs();
      if claimed.Some? {
        HandledTells(queue[claimed.value], header.value, turn.claimed, Behind38(turn.input),
                     BehindHeaders(|turn.input|, turn.schedule), old(queue[Claim(header.value).value].Sees()));
      }
      HeardOne(old(AllNotices()), turn, header, claimed, AllNotices());
    }

    lemma SeeNotices(lent: set<object>)
      requires Apart(lent)
      ensures forall i :: 0 <= i < |queue| ==>
                queue[i].Sees().notices == queue[i].notices && queue[i] !in DispatcherObjects()
    {
      hide AmsConnection.DispatcherObjects;
    }

    lemma NowIs()
      requires forall k <- dispatcherList :: dispatcherList[k].ring.Valid()
      ensures Now() == Scene(socket.input, socket.schedule, Queues(), AllNotices())
    {
    }

    /** What a pass may change belongs to the slots and to what is lent. */
    lemma TouchesLent(lent: set<object>)
      requires SlotsReady(lent)
      ensures |queue| == NUM_PORTS_MAX && (forall slot <- NextSlot() :: slot in queue)
      ensures (forall request <- NextRequest() :: request in lent) && forall buffer <- NextBuffer() :: buffer in lent
    {
    }
  }
}
