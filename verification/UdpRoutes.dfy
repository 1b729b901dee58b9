/** Adding a route on a remote device over UDP: the tagged request, and the reading of the reply. */
module UdpRoutes {
  import opened AdsConstants
  import opened Bytes
  import opened Frames
  import opened AdsRequests

  const ADSERR_DEVICE_INVALIDDATA := 0x706
  const UDP_COOKIE: uint32 := 0x7114_6603
  const RESPONSE := 0x8000_0000
  const ADDROUTE: uint32 := 6
  const HEADER := 12
  const ADDR := 8

  const PASSWORD: uint16 := 2
  const COMPUTERNAME: uint16 := 5
  const NETID: uint16 := 7
  const ROUTENAME: uint16 := 12
  const USERNAME: uint16 := 13

  // ---- Tags ------------------------------------------------------------------------------------

  type TagValue = v: seq<byte> | |v| < 0x1_0000
  datatype Tag = Tag(id: uint16, value: TagValue)

  function EncodeTag(t: Tag): (b: seq<byte>)
    ensures |b| == 4 + |t.value|
  {
    LE(t.id, 2) + LE(|t.value|, 2) + t.value
  }

  function EncodeTags(ts: seq<Tag>): seq<byte> {
    if ts == [] then [] else EncodeTag(ts[0]) + EncodeTags(ts[1..])
  }

  /** The value of a string tag: the text with its terminator, as far as a 16-bit length reaches. */
  function TextValue(text: seq<byte>): TagValue {
    (text + [0])[..(|text| + 1) % 0x1_0000]
  }

  /** A text arrives whole iff its length with the terminator fits in 16 bits; else the start of it does. */
  lemma TextWholeIff(text: seq<byte>)
    ensures TextValue(text) == text + [0] <==> |text| < 0xFFFF
    ensures TextValue(text) <= text + [0] && |TextValue(text)| == (|text| + 1) % 0x1_0000
  {
    if |text| < 0xFFFF {
      assert (text + [0])[..|text| + 1] == text + [0];
    } else {
      assert |TextValue(text)| < |text + [0]|;
    }
  }

  /** n tags from position i on; None when they run past the end. */
  function ParseTags(b: seq<byte>, i: nat, n: nat): Option<seq<Tag>>
    decreases n
  {
    if n == 0 then Some([])
    else if i + 4 > |b| then None
    else
      var id, length := Field(b, i, 2), Field(b, i + 2, 2);
      if i + 4 + length > |b| then None
      else
        var rest := ParseTags(b, i + 4 + length, n - 1);
        if rest.None? then None else Some([Tag(id, b[i + 4..i + 4 + length])] + rest.value)
  }

  lemma TagAt(b: seq<byte>, i: nat, t: Tag)
    requires At(b, i, EncodeTag(t))
    ensures i + 4 + |t.value| <= |b| && Field(b, i, 2) == t.id && Field(b, i + 2, 2) == |t.value|
    ensures b[i + 4..i + 4 + |t.value|] == t.value
  {
    hide LE, Field;
    AtConcat3(b, i, LE(t.id, 2), LE(|t.value|, 2), t.value);
    FieldAt(b, i, t.id, 2);
    FieldAt(b, i + 2, |t.value|, 2);
  }

  lemma {:induction false} TagsParse(b: seq<byte>, i: nat, ts: seq<Tag>)
    requires At(b, i, EncodeTags(ts))
    ensures ParseTags(b, i, |ts|) == Some(ts)
    decreases |ts|
  {
    hide EncodeTag, Field;
    if ts != [] {
      AtConcat(b, i, EncodeTag(ts[0]), EncodeTags(ts[1..]));
      TagAt(b, i, ts[0]);
      TagsParse(b, i + |EncodeTag(ts[0])|, ts[1..]);
      assert [ts[0]] + ts[1..] == ts;
    }
  }

  // ---- The request -----------------------------------------------------------------------------

  /** A request under construction: its end is the end of the buffer. */
  ghost predicate Growing(frame: Frame)
    reads frame
  {
    frame.size == frame.data.Length
  }

  /** Puts one tag in front: the value, its length, its id. */
  method PrependTag(frame: Frame, t: Tag)
    requires frame.Valid()
    modifies frame, frame.data
    ensures frame.Valid() && frame.Contents() == EncodeTag(t) + old(frame.Contents())
    ensures frame.data == old(frame.data) || fresh(frame.data)
    ensures old(Growing(frame)) ==> Growing(frame) && frame.size >= old(frame.size)
  {
    hide LE, Frame.Contents;
    frame.Prepend(t.value);
    frame.Prepend(LE(|t.value|, 2));
    frame.Prepend(LE(t.id, 2));
  }

  /** The tags of the request, as they lie in the frame: the last one prepended comes first. */
  function RouteTags(destNetId: NetId, destAddr: seq<byte>, routeName: seq<byte>, user: seq<byte>, password: seq<byte>)
    : (r: seq<Tag>)
    ensures |r| == 5
  {
    [Tag(ROUTENAME, TextValue(if routeName == [] then destAddr else routeName)), Tag(NETID, destNetId),
     Tag(USERNAME, TextValue(user)), Tag(PASSWORD, TextValue(password)), Tag(COMPUTERNAME, TextValue(destAddr))]
  }

  function RouteRequest(destNetId: NetId, tags: seq<Tag>): seq<byte>
    requires |tags| < 0x1_0000_0000
  {
    LE(UDP_COOKIE, 4) + LE(0, 4) + LE(ADDROUTE, 4) + AddrBytes(AmsAddr(destNetId, 0)) + LE(|tags|, 4) + EncodeTags(tags)
  }

  /** The words in front of the tags are where a device looks for them, and the tags come back as they are. */
  lemma RouteRequestParses(destNetId: NetId, tags: seq<Tag>)
    requires |tags| < 0x1_0000_0000
    ensures var b := RouteRequest(destNetId, tags);
            && |b| >= 24
            && Field(b, 0, 4) == UDP_COOKIE && Field(b, 4, 4) == 0 && Field(b, 8, 4) == ADDROUTE
            && DecodeAddr(b, 12) == AmsAddr(destNetId, 0)
            && Field(b, 20, 4) == |tags| && ParseTags(b, 24, |tags|) == Some(tags)
  {
    hide LE, Field, EncodeTags, AddrBytes, DecodeAddr;
    var b := RouteRequest(destNetId, tags);
    var words, addr := LE(UDP_COOKIE, 4) + LE(0, 4) + LE(ADDROUTE, 4), AddrBytes(AmsAddr(destNetId, 0));
    assert At(b, 0, words + addr + LE(|tags|, 4) + EncodeTags(tags));
    AtConcat(b, 0, words + addr + LE(|tags|, 4), EncodeTags(tags));
    AtConcat3(b, 0, words, addr, LE(|tags|, 4));
    AtConcat3(b, 0, LE(UDP_COOKIE, 4), LE(0, 4), LE(ADDROUTE, 4));
    FieldAt(b, 0, UDP_COOKIE, 4);
    FieldAt(b, 4, 0, 4);
    FieldAt(b, 8, ADDROUTE, 4);
    AddrDecodes(b, 12, AmsAddr(destNetId, 0));
    FieldAt(b, 20, |tags|, 4);
    TagsParse(b, 24, tags);
  }

  /** What a device finds in the datagram of a request whose texts are short enough: the three words, the address, and
      who asks for which route. */
  ghost predicate AsksForRoute(b: seq<byte>, destNetId: NetId, destAddr: seq<byte>, routeName: seq<byte>,
                               user: seq<byte>, password: seq<byte>)
    requires |destAddr| < 0xFFFF && |routeName| < 0xFFFF && |user| < 0xFFFF && |password| < 0xFFFF
  {
    && |b| >= 24
    && Field(b, 0, 4) == 0x7114_6603 && Field(b, 4, 4) == 0 && Field(b, 8, 4) == 6
    && b[12..18] == destNetId && Field(b, 18, 2) == 0 && Field(b, 20, 4) == 5
    && ParseTags(b, 24, 5) == Some([Tag(12, if routeName == [] then destAddr + [0] else routeName + [0]),
                                    Tag(7, destNetId), Tag(13, user + [0]), Tag(2, password + [0]),
                                    Tag(5, destAddr + [0])])
  }

  lemma RequestAsks(destNetId: NetId, destAddr: seq<byte>, routeName: seq<byte>, user: seq<byte>, password: seq<byte>)
    ensures |destAddr| < 0xFFFF && |routeName| < 0xFFFF && |user| < 0xFFFF && |password| < 0xFFFF ==>
              AsksForRoute(RouteRequest(destNetId, RouteTags(destNetId, destAddr, routeName, user, password)),
                           destNetId, destAddr, routeName, user, password)
  {
    hide RouteRequest, ParseTags, Field, TextValue;
    RouteRequestParses(destNetId, RouteTags(destNetId, destAddr, routeName, user, password));
    TextWholeIff(if routeName == [] then destAddr else routeName);
    TextWholeIff(destAddr);
    TextWholeIff(user);
    TextWholeIff(password);
  }

  // ---- The reply -------------------------------------------------------------------------------

  /** What one tag at position i comes to: the end of the walk, or the position behind it. */
  datatype TagStep = Ends(status: Option<int>) | Goes(next: nat)

  function StepOf(raw: seq<byte>, size: nat, i: nat): (s: TagStep)
    requires i <= size <= |raw|
    ensures s.Goes? ==> s.next <= size
  {
    if 4 > size then Ends(Some(ADSERR_DEVICE_INVALIDSIZE))
    else
      var id := Popped(raw, i, size, 2);
      var at := Beyond(i, 2, size);
      var length := Popped(raw, at, size, 2);
      var value := Beyond(at, 2, size);
      if id.None? || length.None? then Ends(None)
      else if id.value != 1 then Goes(Beyond(value, length.value, size))
      else if length.value != 4 then Ends(Some(ADSERR_DEVICE_INVALIDSIZE))
      else
        var result := Popped(raw, value, size, 4);
        Ends(if result.None? then None else Some(result.value))
  }

  /** What the loop over a reply's tags returns, for a frame that is raw[i..size]. Behind its end the code goes on with
      the old bytes of the buffer; None when it would read behind the buffer. */
  function Walk(raw: seq<byte>, size: nat, i: nat, n: nat): Option<int>
    requires i <= size <= |raw|
    decreases n
  {
    if n == 0 then Some(ADSERR_DEVICE_INVALIDDATA)
    else
      match StepOf(raw, size, i)
      case Ends(status) => status
      case Goes(next) => Walk(raw, size, next, n - 1)
  }

  /** What a list of tags means: the result is in the first tag with id 1. */
  function Verdict(ts: seq<Tag>): int {
    if ts == [] then ADSERR_DEVICE_INVALIDDATA
    else if ts[0].id != 1 then Verdict(ts[1..])
    else if |ts[0].value| != 4 then ADSERR_DEVICE_INVALIDSIZE
    else FromLE(ts[0].value)
  }

  /** Verdict, said by position. */
  lemma {:induction false} VerdictIsFirst(ts: seq<Tag>, k: nat)
    requires k <= |ts| && (forall j :: 0 <= j < k ==> ts[j].id != 1) && (k < |ts| ==> ts[k].id == 1)
    ensures k == |ts| ==> Verdict(ts) == 0x706
    ensures k < |ts| && |ts[k].value| != 4 ==> Verdict(ts) == 0x705
    ensures k < |ts| && |ts[k].value| == 4 ==> Verdict(ts) == FromLE(ts[k].value)
  {
    hide FromLE;
    if k > 0 {
      VerdictIsFirst(ts[1..], k - 1);
    }
  }

  /** On every well-formed list of tags the loop returns what the list means, whatever follows it. */
  lemma {:induction false} WalkIsVerdict(raw: seq<byte>, size: nat, i: nat, ts: seq<Tag>)
    requires i <= size <= |raw| && At(raw[..size], i, EncodeTags(ts))
    ensures Walk(raw, size, i, |ts|) == Some(Verdict(ts))
    decreases |ts|
  {
    hide EncodeTag, FromLE;
    if ts != [] {
      AtConcat(raw[..size], i, EncodeTag(ts[0]), EncodeTags(ts[1..]));
      PoppedTag(raw, size, i, ts[0]);
      WalkIsVerdict(raw, size, i + |EncodeTag(ts[0])|, ts[1..]);
    }
  }

  lemma PoppedTag(raw: seq<byte>, size: nat, i: nat, t: Tag)
    requires i <= size <= |raw| && At(raw[..size], i, EncodeTag(t))
    ensures i + 4 + |t.value| <= size
    ensures Popped(raw, i, size, 2) == Some(t.id) && Popped(raw, i + 2, size, 2) == Some(|t.value|)
    ensures |t.value| == 4 ==> Popped(raw, i + 4, size, 4) == Some(FromLE(t.value))
  {
    TagAt(raw[..size], i, t);
    assert raw[..size][i..i + 2] == raw[i..i + 2] && raw[..size][i + 2..i + 4] == raw[i + 2..i + 4];
    assert raw[..size][i + 4..i + 4 + |t.value|] == raw[i + 4..i + 4 + |t.value|];
  }

  /** What a reply gives whose words are right: behind them an address that is ignored, a count and the tags. */
  function ReplyStatus(raw: seq<byte>, size: nat): Option<int>
    requires HEADER <= size <= |raw|
  {
    var i := Beyond(HEADER, ADDR, size);
    var count := Popped(raw, i, size, 4);
    if count.None? then None else Walk(raw, size, Beyond(i, 4, size), count.value)
  }

  lemma ReplyIsVerdict(raw: seq<byte>, size: nat, tags: seq<Tag>)
    requires HEADER <= size <= |raw| && |tags| < 0x1_0000_0000
    requires At(raw[..size], HEADER + ADDR, LE(|tags|, 4) + EncodeTags(tags))
    ensures ReplyStatus(raw, size) == Some(Verdict(tags))
  {
    hide LE, FromLE, EncodeTags, Walk, Verdict;
    AtConcat(raw[..size], 20, LE(|tags|, 4), EncodeTags(tags));
    FieldAt(raw[..size], 20, |tags|, 4);
    assert raw[..size][20..24] == raw[20..24];
    WalkIsVerdict(raw, size, 24, tags);
  }

  /** The three leading words, in front of what the frame holds. */
  method PrependWords(frame: Frame, serviceId: uint32)
    requires frame.Valid() && Growing(frame)
    modifies frame, frame.data
    ensures frame.Valid() && Growing(frame) && frame.size >= old(frame.size)
    ensures frame.data == old(frame.data) || fresh(frame.data)
    ensures frame.Contents() == LE(UDP_COOKIE, 4) + LE(0, 4) + LE(serviceId, 4) + old(frame.Contents())
  {
    hide LE, Frame.Contents;
    frame.Prepend(LE(serviceId, 4));
    frame.Prepend(LE(0, 4));
    frame.Prepend(LE(UDP_COOKIE, 4));
  }

  predicate RightWords(received: seq<byte>, serviceId: uint32)
    requires |received| >= HEADER
  {
    Field(received, 0, 4) == UDP_COOKIE && Field(received, 4, 4) == 0 && Field(received, 8, 4) == RESPONSE + serviceId
  }

  /** The words of a reply to the request to add a route. */
  predicate AnswersAddRoute(received: seq<byte>) {
    |received| >= 12
    && Field(received, 0, 4) == 0x7114_6603 && Field(received, 4, 4) == 0 && Field(received, 8, 4) == 0x8000_0006
  }

  /** Checks the three words of a received reply and takes them off. A failed receive leaves an empty frame at the end
      of a buffer that has kept its size: the code then reads behind it, which is None. */
  method CheckReply(frame: Frame, serviceId: uint32) returns (status: Option<int>)
    requires frame.Valid() && serviceId < RESPONSE
    requires frame.pos == 0 || (frame.pos == frame.size == frame.data.Length && frame.size >= HEADER)
    modifies frame`pos
    ensures frame.Valid()
    ensures old(frame.pos) > 0 ==> status == None
    ensures old(frame.pos) == 0 && |old(frame.Contents())| < HEADER ==> status == Some(ADSERR_DEVICE_INVALIDSIZE)
    ensures old(frame.pos) == 0 && |old(frame.Contents())| >= HEADER ==>
              status == Some(if RightWords(old(frame.Contents()), serviceId) then 0 else ADSERR_DEVICE_INVALIDDATA)
    ensures status == Some(0) ==>
              |old(frame.Contents())| >= HEADER && frame.Contents() == old(frame.Contents())[HEADER..]
  {
    hide FromLE;
    ghost var received := frame.Contents();
    if HEADER > frame.Capacity() {
      return Some(ADSERR_DEVICE_INVALIDSIZE);
    }
    var cookie := frame.PopLetoh(4);
    if cookie.None? {
      return None;
    }
    assert frame.data[..][0..0 + 4] == received[0..0 + 4];
    if cookie.value != UDP_COOKIE {
      return Some(ADSERR_DEVICE_INVALIDDATA);
    }
    assert received[4..][..4] == received[4..4 + 4];
    var invoke := frame.PopLetoh(4);
    if invoke != Some(0) {
      return Some(ADSERR_DEVICE_INVALIDDATA);
    }
    assert received[8..][..4] == received[8..8 + 4];
    var service := frame.PopLetoh(4);
    if service != Some(RESPONSE + serviceId) {
      return Some(ADSERR_DEVICE_INVALIDDATA);
    }
    status := Some(0);
  }

  /** Sends a request and receives the reply, as far as there is room, into the same frame. Afterwards the frame holds
      what follows the reply's three words, if those are right. The datagram is empty when receiving fails; then the
      code reads behind its buffer. */
  method SendRecv(frame: Frame, serviceId: uint32, datagram: seq<byte>, memory: bool)
    returns (status: Option<int>, sent: seq<byte>, received: seq<byte>)
    requires frame.Valid() && Growing(frame) && serviceId < RESPONSE
    modifies frame, frame.data
    ensures frame.Valid() && received <= datagram && (received == [] ==> datagram == [])
    ensures datagram == [] ==> status == None
    ensures |received| == |datagram| || |received| >= if memory then 4096 else old(frame.size)
    ensures sent == LE(UDP_COOKIE, 4) + LE(0, 4) + LE(serviceId, 4) + old(frame.Contents())
    ensures 0 < |received| < HEADER ==> status == Some(ADSERR_DEVICE_INVALIDSIZE)
    ensures |received| >= HEADER ==>
              status == Some(if RightWords(received, serviceId) then 0 else ADSERR_DEVICE_INVALIDDATA)
    ensures status == Some(0) ==>
              |received| >= HEADER && frame.size == |received| && frame.pos == HEADER
              && frame.data[..frame.size] == received
    ensures frame.data == old(frame.data) || fresh(frame.data)
  {
    hide LE, FromLE, RightWords;
    PrependWords(frame, serviceId);
    sent := frame.data[frame.pos..frame.size];
    frame.Reset(4096, memory);
    received := if |datagram| <= frame.Capacity() then datagram else datagram[..frame.Capacity()];
    frame.Receive(received);
    status := CheckReply(frame, serviceId);
  }

  /** The tag loop. */
  method ReadTags(frame: Frame, count: nat) returns (status: Option<int>)
    requires frame.Valid()
    modifies frame`pos
    ensures frame.Valid() && status == Walk(frame.data[..], frame.size, old(frame.pos), count)
  {
    hide StepOf;
    ghost var raw := frame.data[..];
    var left := count;
    while left > 0
      invariant 0 <= left && frame.Valid() && frame.data[..] == raw
      invariant Walk(raw, frame.size, frame.pos, left) == Walk(raw, frame.size, old(frame.pos), count)
      decreases left
    {
      var ended;
      ended, status := ReadTag(frame, raw);
      if ended {
        return;
      }
      left := left - 1;
    }
    status := Some(ADSERR_DEVICE_INVALIDDATA);
  }

  /** The body of the loop. */
  method ReadTag(frame: Frame, ghost raw: seq<byte>) returns (ended: bool, status: Option<int>)
    requires frame.Valid() && frame.data[..] == raw
    modifies frame`pos
    ensures frame.Valid()
    ensures StepOf(raw, frame.size, old(frame.pos)) == if ended then Ends(status) else Goes(frame.pos)
  {
    hide Popped;
    ended := true;
    if 4 > frame.Capacity() {
      return true, Some(ADSERR_DEVICE_INVALIDSIZE);
    }
    var tag := frame.PopLetoh(2);
    if tag.None? {
      return true, None;
    }
    var length := frame.PopLetoh(2);
    if length.None? {
      return true, None;
    }
    if tag.value == 1 {
      if length.value != 4 {
        return true, Some(ADSERR_DEVICE_INVALIDSIZE);
      }
      status := frame.PopLetoh(4);
      return;
    }
    frame.Remove(length.value);
    ended, status := false, None;
  }

  /** The five tags, in the order of the calls. */
  method BuildTags(destNetId: NetId, destAddr: seq<byte>, routeName: seq<byte>, user: seq<byte>, password: seq<byte>)
    returns (f: Frame)
    ensures fresh(f) && fresh(f.data) && f.Valid() && Growing(f) && f.size >= 256
    ensures f.Contents() == EncodeTags(RouteTags(destNetId, destAddr, routeName, user, password))
  {
    hide LE, EncodeTag, TextValue, Frame.Contents;
    ghost var tags := RouteTags(destNetId, destAddr, routeName, user, password);
    f := new Frame(256);
    PrependTag(f, Tag(COMPUTERNAME, TextValue(destAddr)));
    assert f.Contents() == EncodeTags(tags[4..]);
    PrependTag(f, Tag(PASSWORD, TextValue(password)));
    assert f.Contents() == EncodeTags(tags[3..]);
    PrependTag(f, Tag(USERNAME, TextValue(user)));
    assert f.Contents() == EncodeTags(tags[2..]);
    PrependTag(f, Tag(NETID, destNetId));
    assert f.Contents() == EncodeTags(tags[1..]);
    PrependTag(f, Tag(ROUTENAME, TextValue(if routeName == [] then destAddr else routeName)));
  }

  /** The request: the tags, their count, the own address. */
  method BuildRequest(destNetId: NetId, destAddr: seq<byte>, routeName: seq<byte>, user: seq<byte>, password: seq<byte>)
    returns (f: Frame)
    ensures fresh(f) && fresh(f.data) && f.Valid() && Growing(f) && f.size >= 256
    ensures f.Contents() == AddrBytes(AmsAddr(destNetId, 0)) + LE(5, 4)
                            + EncodeTags(RouteTags(destNetId, destAddr, routeName, user, password))
  {
    hide LE, EncodeTags, RouteTags, AddrBytes, Frame.Contents;
    f := BuildTags(destNetId, destAddr, routeName, user, password);
    f.Prepend(LE(5, 4));
    f.Prepend(AddrBytes(AmsAddr(destNetId, 0)));
  }

  /** The whole call. The reply's words are checked first; then its tags are read, behind an address that is ignored.
      raw is the buffer: the received bytes, and old ones behind them. When the reply has well-formed tags, and there is
      room for them, the result is what they mean; else it may depend on old bytes, or be None when the code would read
      behind the buffer. */
  method AddRemoteRoute(destNetId: NetId, destAddr: seq<byte>, routeName: seq<byte>, user: seq<byte>,
                        password: seq<byte>, datagram: seq<byte>, memory: bool)
    returns (status: Option<int>, sent: seq<byte>, ghost raw: seq<byte>, received: seq<byte>)
    ensures sent == RouteRequest(destNetId, RouteTags(destNetId, destAddr, routeName, user, password))
    ensures received <= datagram && (|received| == |datagram| || |received| >= if memory then 4096 else 256)
    ensures |destAddr| < 0xFFFF && |routeName| < 0xFFFF && |user| < 0xFFFF && |password| < 0xFFFF ==>
              AsksForRoute(sent, destNetId, destAddr, routeName, user, password)
    ensures datagram == [] ==> status == None
    ensures 0 < |received| < 12 ==> status == Some(0x705)
    ensures |received| >= 12 && !AnswersAddRoute(received) ==> status == Some(0x706)
    ensures |received| >= 12 && AnswersAddRoute(received) ==>
              received <= raw && status == ReplyStatus(raw, |received|)
    ensures forall tags: seq<Tag> | |tags| < 0x1_0000_0000 && At(received, 20, LE(|tags|, 4) + EncodeTags(tags)) ::
              status == Some(if AnswersAddRoute(received) then Verdict(tags) else 0x706)
  {
    RequestAsks(destNetId, destAddr, routeName, user, password);
    WholeRequest(destNetId, destAddr, routeName, user, password);
    hide LE, FromLE, Field, EncodeTags, AddrBytes, RouteTags, RouteRequest, Verdict, RightWords, AnswersAddRoute;
    hide AsksForRoute, ReplyStatus, Frame.Contents, ParseTags;
    var f := BuildRequest(destNetId, destAddr, routeName, user, password);
    var code;
    code, sent, received := SendRecv(f, ADDROUTE, datagram, memory);
    WordsAnswer(received);
    raw := f.data[..];
    VerdictsOf(raw, received);
    if code != Some(0) {
      return code, sent, raw, received;
    }
    assert raw[..|received|] == f.data[..f.size] == received;
    status := ReadReply(f);
  }

  lemma WordsAnswer(received: seq<byte>)
    ensures |received| >= HEADER ==> (RightWords(received, ADDROUTE) <==> AnswersAddRoute(received))
  {
  }

  lemma VerdictsOf(raw: seq<byte>, received: seq<byte>)
    ensures forall tags: seq<Tag> | |tags| < 0x1_0000_0000 && At(received, 20, LE(|tags|, 4) + EncodeTags(tags)) ::
              |received| >= 24 && (received <= raw ==> ReplyStatus(raw, |received|) == Some(Verdict(tags)))
  {
    hide EncodeTags, Verdict, Walk, LE, ReplyStatus;
    forall tags: seq<Tag> | |tags| < 0x1_0000_0000 && At(received, 20, LE(|tags|, 4) + EncodeTags(tags))
      ensures |received| >= 24 && (received <= raw ==> ReplyStatus(raw, |received|) == Some(Verdict(tags)))
    {
      if received <= raw {
        assert raw[..|received|] == received;
        ReplyIsVerdict(raw, |received|, tags);
      }
    }
  }

  /** What follows the three words: an address that is ignored, the number of tags, and the tags. */
  method ReadReply(frame: Frame) returns (status: Option<int>)
    requires frame.Valid() && frame.pos == HEADER
    modifies frame`pos
    ensures status == ReplyStatus(frame.data[..], frame.size)
  {
    hide Popped, Walk;
    if ADDR + 4 > frame.Capacity() {
      assert false;
      return Some(ADSERR_DEVICE_INVALIDSIZE);
    }
    frame.Remove(ADDR);
    var count := frame.PopLetoh(4);
    if count.None? {
      return None;
    }
    status := ReadTags(frame, count.value);
  }

  lemma WholeRequest(destNetId: NetId, destAddr: seq<byte>, routeName: seq<byte>, user: seq<byte>, password: seq<byte>)
    ensures var words, addr := LE(UDP_COOKIE, 4) + LE(0, 4) + LE(ADDROUTE, 4), AddrBytes(AmsAddr(destNetId, 0));
            var tags := RouteTags(destNetId, destAddr, routeName, user, password);
            words + (addr + LE(5, 4) + EncodeTags(tags)) == RouteRequest(destNetId, tags)
  {
    hide LE, EncodeTags, AddrBytes, RouteTags;
  }
}
