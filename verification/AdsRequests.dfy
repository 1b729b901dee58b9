/** The requests of the ADS client: their headers, and how they are stacked into one TCP frame. */
module AdsRequests {
  import opened AdsConstants
  import opened Bytes
  import opened Frames

  type NetId = b: seq<byte> | |b| == 6 witness [0, 0, 0, 0, 0, 0]
  datatype AmsAddr = AmsAddr(netId: NetId, port: uint16)

  const AMS_REQUEST: uint16 := 4
  const INT_MAX := 0x7FFF_FFFF

  type Blob = d: seq<byte> | |d| < 0x1_0000_0000

  /** The AdsSync* calls, and the deletion that a notification's owner sends. */
  datatype Request =
    | Read(group: uint32, offset: uint32, length: uint32)
    | ReadDeviceInfo
    | ReadState
    | ReadWrite(group: uint32, offset: uint32, length: uint32, data: Blob)
    | Write(group: uint32, offset: uint32, data: Blob)
    | WriteControl(adsState: uint16, devState: uint16, data: Blob)
    | AddNotification(group: uint32, offset: uint32, length: uint32, mode: uint32, maxDelay: uint32, cycleTime: uint32)
    | DelNotification(hNotify: uint32)

  // ---- Encoding --------------------------------------------------------------------------------

  function CmdId(r: Request): uint16 {
    match r
    case ReadDeviceInfo => 1
    case Read(_, _, _) => 2
    case Write(_, _, _) => 3
    case ReadState => 4
    case WriteControl(_, _, _) => 5
    case AddNotification(_, _, _, _, _, _) => 6
    case DelNotification(_) => 7
    case ReadWrite(_, _, _, _) => 9
  }

  function TcpHeader(numBytes: uint32): (h: seq<byte>)
    ensures |h| == TCP_HEADER
  {
    LE(0, 2) + LE(numBytes, 4)
  }

  function AddrBytes(a: AmsAddr): (b: seq<byte>)
    ensures |b| == 8
  {
    a.netId + LE(a.port, 2)
  }

  function AoEHeader(target: AmsAddr, source: AmsAddr, cmdId: uint16, length: uint32, invokeId: uint32): (h: seq<byte>)
    ensures |h| == AOE_HEADER
  {
    AddrBytes(target) + AddrBytes(source)
    + (LE(cmdId, 2) + LE(AMS_REQUEST, 2) + LE(length, 4)) + (LE(0, 4) + LE(invokeId, 4))
  }

  /** AoERequestHeader; the other command headers below are named after their structures as well. */
  function AoERequestHeader(group: uint32, offset: uint32, length: uint32): (h: seq<byte>)
    ensures |h| == 12
  {
    LE(group, 4) + LE(offset, 4) + LE(length, 4)
  }

  function AoEReadWriteReqHeader(group: uint32, offset: uint32, readLength: uint32, writeLength: uint32): (h: seq<byte>)
    ensures |h| == 16
  {
    AoERequestHeader(group, offset, readLength) + LE(writeLength, 4)
  }

  function AdsWriteCtrlRequest(ads: uint16, dev: uint16, length: uint32): (h: seq<byte>)
    ensures |h| == 8
  {
    LE(ads, 2) + LE(dev, 2) + LE(length, 4)
  }

  function AdsAddDeviceNotificationRequest(r: Request): (h: seq<byte>)
    requires r.AddNotification?
    ensures |h| == 40
  {
    AoERequestHeader(r.group, r.offset, r.length)
    + (LE(r.mode, 4) + LE(r.maxDelay, 4) + LE(r.cycleTime, 4)) + seq(16, _ => 0)
  }

  /** What follows the AoE header. */
  function Body(r: Request): seq<byte> {
    match r
    case ReadDeviceInfo | ReadState => []
    case Read(group, offset, length) => AoERequestHeader(group, offset, length)
    case ReadWrite(group, offset, length, data) => AoEReadWriteReqHeader(group, offset, length, |data|) + data
    case Write(group, offset, data) => AoERequestHeader(group, offset, |data|) + data
    case WriteControl(ads, dev, data) => AdsWriteCtrlRequest(ads, dev, |data|) + data
    case AddNotification(_, _, _, _, _, _) => AdsAddDeviceNotificationRequest(r)
    case DelNotification(hNotify) => LE(hNotify, 4)
  }

  /** The whole frame; the lengths are cut to 32 bits, as the casts in the code do. */
  function Wire(r: Request, target: AmsAddr, source: AmsAddr, invokeId: uint32): seq<byte> {
    var body := Body(r);
    TcpHeader((AOE_HEADER + |body|) % 0x1_0000_0000)
    + AoEHeader(target, source, CmdId(r), |body| % 0x1_0000_0000, invokeId) + body
  }

  // ---- Decoding, as a device has to do it ------------------------------------------------------

  datatype Decoded = Decoded(
    tcpLength: uint32, target: AmsAddr, source: AmsAddr, cmdId: uint16, flags: uint16,
    length: uint32, errorCode: uint32, invokeId: uint32, request: Option<Request>)

  function DecodeAddr(b: seq<byte>, i: nat): AmsAddr
    requires i + 8 <= |b|
  {
    AmsAddr(b[i..i + 6], Field(b, i + 6, 2))
  }

  /** A body is accepted only when its length fields agree with its size. */
  function DecodeBody(cmdId: uint16, b: seq<byte>): Option<Request> {
    if cmdId == 1 && |b| == 0 then Some(ReadDeviceInfo)
    else if cmdId == 4 && |b| == 0 then Some(ReadState)
    else if cmdId == 2 && |b| == 12 then Some(Read(Field(b, 0, 4), Field(b, 4, 4), Field(b, 8, 4)))
    else if cmdId == 9 && |b| >= 16 && Field(b, 12, 4) == |b| - 16 then
      Some(ReadWrite(Field(b, 0, 4), Field(b, 4, 4), Field(b, 8, 4), b[16..]))
    else if cmdId == 3 && |b| >= 12 && Field(b, 8, 4) == |b| - 12 then
      Some(Write(Field(b, 0, 4), Field(b, 4, 4), b[12..]))
    else if cmdId == 5 && |b| >= 8 && Field(b, 4, 4) == |b| - 8 then
      Some(WriteControl(Field(b, 0, 2), Field(b, 2, 2), b[8..]))
    else if cmdId == 6 && |b| == 40 then
      Some(AddNotification(Field(b, 0, 4), Field(b, 4, 4), Field(b, 8, 4),
                           Field(b, 12, 4), Field(b, 16, 4), Field(b, 20, 4)))
    else if cmdId == 7 && |b| == 4 then Some(DelNotification(Field(b, 0, 4)))
    else None
  }

  function Decode(b: seq<byte>): Option<Decoded> {
    if |b| < TCP_HEADER + AOE_HEADER then None
    else
      Some(Decoded(Field(b, 2, 4), DecodeAddr(b, 6), DecodeAddr(b, 14), Field(b, 22, 2), Field(b, 24, 2),
                   Field(b, 26, 4), Field(b, 30, 4), Field(b, 34, 4), DecodeBody(Field(b, 22, 2), b[38..])))
  }

  // ---- Decoding undoes encoding ----------------------------------------------------------------

  lemma RequestHeaderFields(b: seq<byte>, group: uint32, offset: uint32, length: uint32)
    requires At(b, 0, AoERequestHeader(group, offset, length))
    ensures |b| >= 12 && Field(b, 0, 4) == group && Field(b, 4, 4) == offset && Field(b, 8, 4) == length
  {
    hide LE, FromLE, Field;
    AtConcat3(b, 0, LE(group, 4), LE(offset, 4), LE(length, 4));
    FieldAt(b, 0, group, 4);
    FieldAt(b, 4, offset, 4);
    FieldAt(b, 8, length, 4);
  }

  lemma BodyDecodes(r: Request)
    ensures DecodeBody(CmdId(r), Body(r)) == Some(r)
  {
    hide LE, FromLE, Field;
    var b := Body(r);
    assert At(b, 0, b);
    match r {
      case ReadDeviceInfo | ReadState =>
      case Read(group, offset, length) =>
        RequestHeaderFields(b, group, offset, length);
      case ReadWrite(group, offset, length, data) =>
        AtConcat(b, 0, AoEReadWriteReqHeader(group, offset, length, |data|), data);
        AtConcat(b, 0, AoERequestHeader(group, offset, length), LE(|data|, 4));
        RequestHeaderFields(b, group, offset, length);
        FieldAt(b, 12, |data|, 4);
      case Write(group, offset, data) =>
        AtConcat(b, 0, AoERequestHeader(group, offset, |data|), data);
        RequestHeaderFields(b, group, offset, |data|);
      case WriteControl(ads, dev, data) =>
        AtConcat(b, 0, AdsWriteCtrlRequest(ads, dev, |data|), data);
        AtConcat3(b, 0, LE(ads, 2), LE(dev, 2), LE(|data|, 4));
        FieldAt(b, 0, ads, 2);
        FieldAt(b, 2, dev, 2);
        FieldAt(b, 4, |data|, 4);
      case AddNotification(group, offset, length, mode, maxDelay, cycleTime) =>
        AddNotificationDecodes(b, r);
      case DelNotification(hNotify) =>
        FieldAt(b, 0, hNotify, 4);
    }
  }

  lemma AddNotificationDecodes(b: seq<byte>, r: Request)
    requires r.AddNotification? && At(b, 0, AdsAddDeviceNotificationRequest(r)) && |b| == 40
    ensures DecodeBody(6, b) == Some(r)
  {
    hide LE, FromLE, Field;
    var tail := LE(r.mode, 4) + LE(r.maxDelay, 4) + LE(r.cycleTime, 4);
    AtConcat3(b, 0, AoERequestHeader(r.group, r.offset, r.length), tail, seq(16, _ => 0));
    AtConcat3(b, 12, LE(r.mode, 4), LE(r.maxDelay, 4), LE(r.cycleTime, 4));
    RequestHeaderFields(b, r.group, r.offset, r.length);
    FieldAt(b, 12, r.mode, 4);
    FieldAt(b, 16, r.maxDelay, 4);
    FieldAt(b, 20, r.cycleTime, 4);
  }

  lemma AddrDecodes(b: seq<byte>, i: nat, a: AmsAddr)
    requires At(b, i, AddrBytes(a))
    ensures i + 8 <= |b| && DecodeAddr(b, i) == a
  {
    hide LE, FromLE, Field;
    AtConcat(b, i, a.netId, LE(a.port, 2));
    FieldAt(b, i + 6, a.port, 2);
  }

  lemma HeadersDecode(b: seq<byte>, target: AmsAddr, source: AmsAddr, cmdId: uint16, tcpLength: uint32, length: uint32,
                      invokeId: uint32)
    requires At(b, 0, TcpHeader(tcpLength)) && At(b, 6, AoEHeader(target, source, cmdId, length, invokeId))
    ensures Decode(b) == Some(Decoded(tcpLength, target, source, cmdId, 4, length, 0, invokeId,
                                      DecodeBody(cmdId, b[38..])))
  {
    hide LE, FromLE, Field, DecodeBody, DecodeAddr, AddrBytes;
    AtConcat(b, 0, LE(0, 2), LE(tcpLength, 4));
    FieldAt(b, 2, tcpLength, 4);
    var middle, end := LE(cmdId, 2) + LE(AMS_REQUEST, 2) + LE(length, 4), LE(0, 4) + LE(invokeId, 4);
    AtConcat(b, 6, AddrBytes(target) + AddrBytes(source) + middle, end);
    AtConcat3(b, 6, AddrBytes(target), AddrBytes(source), middle);
    AddrDecodes(b, 6, target);
    AddrDecodes(b, 14, source);
    AtConcat3(b, 22, LE(cmdId, 2), LE(AMS_REQUEST, 2), LE(length, 4));
    FieldAt(b, 22, cmdId, 2);
    FieldAt(b, 24, AMS_REQUEST, 2);
    FieldAt(b, 26, length, 4);
    AtConcat(b, 30, LE(0, 4), LE(invokeId, 4));
    FieldAt(b, 30, 0, 4);
    FieldAt(b, 34, invokeId, 4);
  }

  /** Every request arrives as it was made, whatever its lengths: all header fields, and the request itself. */
  lemma WireDecodes(r: Request, target: AmsAddr, source: AmsAddr, invokeId: uint32)
    ensures Decode(Wire(r, target, source, invokeId))
         == Some(Decoded((32 + |Body(r)|) % 0x1_0000_0000, target, source, CmdId(r), 4,
                         |Body(r)| % 0x1_0000_0000, 0, invokeId, Some(r)))
  {
    var b, body := Wire(r, target, source, invokeId), Body(r);
    var tcp := TcpHeader((AOE_HEADER + |body|) % 0x1_0000_0000);
    var aoe := AoEHeader(target, source, CmdId(r), |body| % 0x1_0000_0000, invokeId);
    hide Body, TcpHeader, AoEHeader, Decode, Field, LE;
    assert At(b, 0, tcp + aoe + body);
    AtConcat3(b, 0, tcp, aoe, body);
    HeadersDecode(b, target, source, CmdId(r), (AOE_HEADER + |body|) % 0x1_0000_0000, |body| % 0x1_0000_0000, invokeId);
    assert b[38..] == body;
    BodyDecodes(r);
  }

  /** The same, read off the bytes of the frame: where each command has its id and its fields. */
  lemma WireFields(r: Request, target: AmsAddr, source: AmsAddr, invokeId: uint32)
    ensures var b := Wire(r, target, source, invokeId);
            && |b| >= 38 && b[6..12] == target.netId && Field(b, 12, 2) == target.port
            && b[14..20] == source.netId && Field(b, 20, 2) == source.port
            && Field(b, 24, 2) == 4 && Field(b, 30, 4) == 0 && Field(b, 34, 4) == invokeId
            && match r
               case ReadDeviceInfo => Field(b, 22, 2) == 1 && |b| == 38
               case ReadState => Field(b, 22, 2) == 4 && |b| == 38
               case Read(group, offset, length) =>
                 && Field(b, 22, 2) == 2 && |b| == 50
                 && Field(b, 38, 4) == group && Field(b, 42, 4) == offset && Field(b, 46, 4) == length
               case Write(group, offset, data) =>
                 && Field(b, 22, 2) == 3 && |b| >= 50
                 && Field(b, 38, 4) == group && Field(b, 42, 4) == offset && Field(b, 46, 4) == |data|
                 && b[50..] == data
               case WriteControl(ads, dev, data) =>
                 && Field(b, 22, 2) == 5 && |b| >= 46
                 && Field(b, 38, 2) == ads && Field(b, 40, 2) == dev && Field(b, 42, 4) == |data| && b[46..] == data
               case AddNotification(group, offset, length, mode, maxDelay, cycleTime) =>
                 && Field(b, 22, 2) == 6 && |b| == 78
                 && Field(b, 38, 4) == group && Field(b, 42, 4) == offset && Field(b, 46, 4) == length
                 && Field(b, 50, 4) == mode && Field(b, 54, 4) == maxDelay && Field(b, 58, 4) == cycleTime
               case DelNotification(hNotify) => Field(b, 22, 2) == 7 && |b| == 42 && Field(b, 38, 4) == hNotify
               case ReadWrite(group, offset, length, data) =>
                 && Field(b, 22, 2) == 9 && |b| >= 54
                 && Field(b, 38, 4) == group && Field(b, 42, 4) == offset && Field(b, 46, 4) == length
                 && Field(b, 50, 4) == |data| && b[54..] == data
  {
    hide LE, FromLE, Wire, Body, AddrBytes;
    WireDecodes(r, target, source, invokeId);
    var b := Wire(r, target, source, invokeId);
    hide Field;
    if |b| >= 38 {
      FieldsBehind(b, 38);
    }
  }

  /** A field of what follows the headers, counted from the start of the frame. */
  lemma FieldsBehind(b: seq<byte>, at: nat)
    requires at <= |b|
    ensures forall i: nat, n: nat | at + i + n <= |b| && (n == 2 || n == 4) ::
              Field(b[at..], i, n) == Field(b, at + i, n)
  {
    forall i: nat, n: nat | at + i + n <= |b| && (n == 2 || n == 4)
      ensures Field(b[at..], i, n) == Field(b, at + i, n)
    {
      assert b[at..][i..i + n] == b[at + i..at + i + n];
    }
  }

  /** Both length fields give the true sizes iff the whole frame behind the TCP header stays below 2^32 bytes. */
  lemma LengthsTrueIff(r: Request, target: AmsAddr, source: AmsAddr, invokeId: uint32)
    ensures var b := Wire(r, target, source, invokeId);
            |b| >= 38
            && (Field(b, 2, 4) == |b| - 6 && Field(b, 26, 4) == |b| - 38 <==> |b| - 6 < 0x1_0000_0000)
  {
    hide LE, FromLE, Field, Body, DecodeAddr, DecodeBody;
    WireDecodes(r, target, source, invokeId);
  }

  // ---- Building the frame ----------------------------------------------------------------------

  /** The payload length that the constructor of the request is given. */
  function PayloadLength(r: Request): (n: nat)
    ensures n == |Body(r)|
  {
    match r
    case ReadDeviceInfo | ReadState => 0
    case Read(_, _, _) => 12
    case ReadWrite(_, _, _, data) => 16 + |data|
    case Write(_, _, data) => 12 + |data|
    case WriteControl(_, _, data) => 8 + |data|
    case AddNotification(_, _, _, _, _, _) => 40
    case DelNotification(_) => 4
  }

  /** The command part, data first and header in front of it, in a frame with just the room for all headers. */
  method BuildBody(r: Request) returns (frame: Frame)
    ensures fresh(frame) && fresh(frame.data) && frame.Valid() && frame.Contents() == Body(r)
    ensures frame.pos == TCP_HEADER + AOE_HEADER && frame.data.Length == TCP_HEADER + AOE_HEADER + PayloadLength(r)
  {
    hide LE;
    frame := new Frame(TCP_HEADER + AOE_HEADER + PayloadLength(r));
    match r {
      case ReadDeviceInfo | ReadState =>
      case Read(group, offset, length) =>
        frame.Prepend(AoERequestHeader(group, offset, length));
      case ReadWrite(group, offset, length, data) =>
        frame.Prepend(data);
        frame.Prepend(AoEReadWriteReqHeader(group, offset, length, |data|));
      case Write(group, offset, data) =>
        frame.Prepend(data);
        frame.Prepend(AoERequestHeader(group, offset, |data|));
      case WriteControl(ads, dev, data) =>
        frame.Prepend(data);
        frame.Prepend(AdsWriteCtrlRequest(ads, dev, |data|));
      case AddNotification(_, _, _, _, _, _) =>
        frame.Prepend(AdsAddDeviceNotificationRequest(r));
      case DelNotification(hNotify) =>
        frame.Prepend(LE(hNotify, 4));
    }
  }

  /** The frame as it goes to the socket. The room is used up exactly and never grew. The socket refuses
      frames of more than INT_MAX bytes; what it takes has true lengths and decodes to the request. */
  method BuildFrame(r: Request, target: AmsAddr, source: AmsAddr, invokeId: uint32)
    returns (frame: Frame, acceptable: bool)
    ensures fresh(frame) && fresh(frame.data) && frame.Valid() && frame.Contents() == Wire(r, target, source, invokeId)
    ensures frame.pos == 0 && frame.data.Length == |frame.Contents()| == 38 + PayloadLength(r)
    ensures acceptable <==> |frame.Contents()| <= 0x7FFF_FFFF
    ensures acceptable ==>
              Decode(frame.Contents()) == Some(Decoded(32 + |Body(r)|, target, source, CmdId(r), 4,
                                                       |Body(r)|, 0, invokeId, Some(r)))
  {
    hide LE, Body, TcpHeader, AoEHeader, Decode;
    frame := BuildBody(r);
    frame.Prepend(AoEHeader(target, source, CmdId(r), frame.Size() % 0x1_0000_0000, invokeId));
    frame.Prepend(TcpHeader(frame.Size() % 0x1_0000_0000));
    acceptable := frame.Size() <= INT_MAX;
    WireDecodes(r, target, source, invokeId);
    assert frame.Contents() == Wire(r, target, source, invokeId);
  }
}
