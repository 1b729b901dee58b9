/** The request/response protocol over the shared per-port slots: any number of calls of AdsRequest, one
    receiver thread, a server that answers what it likes when it likes, and a clock. Every atomic access to
    shared state is one event, so a sequence of events is one interleaving. */
module SlotProtocol {
  import opened AdsConstants
  import opened Bytes

  const WAITING_FOR_RESPONSE: uint32 := 0xFFFF_FFFF
  const ID_SPACE := 0x1_0000_0000

  // ---- State -----------------------------------------------------------------------------------

  type CallId = nat

  /** Where a call of AdsRequest stands. */
  datatype Pc =
    | Numbering                 // before or inside GetInvokeId
    | Numbered                  // has an id, about to reserve the slot
    | Reserved                  // owns the slot, about to store the id
    | Published                 // id stored, frame not yet handed to the network
    | Sent                      // the whole frame is out, socket.write has not returned
    | SendFailed | SendCleared  // socket.write failed: Release, first and second store
    | Waiting                   // in wait_until
    | Woken                     // about to exchange the id with 0
    | AwaitNotify               // the receiver has the id: waiting for the result
    | Returning(code: int)      // Wait has returned: Release, first store
    | Cleared(code: int)        // Release, second store
    | Done(code: int)

  /** One call. ticket numbers the fetch_add that gave it its id, sent says that its whole frame is out.
      The rest records what happened to it: whose replies reached its buffer, which call's reply claimed it,
      the result it was given, and how often its id was claimed, taken back, and its result announced. */
  datatype Call = Call(
    slot: nat, deadline: nat, pc: Pc, ticket: nat, sent: bool,
    buffer: seq<CallId>, answeredBy: Option<CallId>, notified: Option<uint32>,
    claims: nat, takes: nat, notices: nat)

  /** holder is the call whose id the slot's invokeId is. */
  datatype Slot = Slot(request: Option<CallId>, invokeId: uint32, errorCode: uint32, holder: Option<CallId>)

  /** The receiver: idle, holding the header of a reply to call src, or with a claimed slot, first without
      and then with the request pointer loaded; or its thread has ended, maybe while it had a claimed slot. */
  datatype Receiver =
    | Idle
    | Header(id: uint32, slot: nat, src: Option<CallId>)
    | Claimed(slot: nat, src: Option<CallId>)
    | Using(slot: nat, src: Option<CallId>, request: Option<CallId>)
    | Ended(served: Option<CallId>)

  predicate HasSlot(r: Receiver) {
    r.Header? || r.Claimed? || r.Using?
  }

  datatype State = State(now: nat, fetched: nat, slots: seq<Slot>, calls: map<CallId, Call>, receiver: Receiver)

  function IdOf(ticket: nat): uint32 {
    ticket % ID_SPACE
  }

  /** The connection's counter starts at 0 and the slots start free; the stored ids start at 0, which the
      constructor of a slot does not do. */
  function Init(): State {
    State(0, 0, seq(NUM_PORTS_MAX, _ => Slot(None, 0, WAITING_FOR_RESPONSE, None)), map[], Idle)
  }

  // ---- Events ----------------------------------------------------------------------------------

  datatype Event =
    | Tick
    | Begin(c: CallId, slot: nat, tmms: nat)
    | Fetch(c: CallId)
    | Reserve(c: CallId)
    | Publish(c: CallId)
    | Transmit(c: CallId)
    | SendReturns(c: CallId)
    | SendFails(c: CallId)
    | Wake(c: CallId)
    | Exchange(c: CallId)
    | ReadResult(c: CallId)
    | ReleaseCode(c: CallId)
    | ReleaseSlot(c: CallId)
    | ServerReply(src: CallId)                 // the header of an echo of src arrives
    | ForeignReply(id: uint32, slot: nat)      // the header of something else arrives
    | CompareExchange
    | LoadRequest
    | StoreBuffer
    | NotifyOwner(error: uint32)
    | HangUp                                   // a read finds the connection closed: the receiver's thread ends

  ghost predicate At(s: State, c: CallId, pc: Pc) {
    c in s.calls && s.calls[c].pc == pc
  }

  ghost predicate WellFormed(s: State) {
    && |s.slots| == NUM_PORTS_MAX
    && (forall c :: c in s.calls ==> s.calls[c].slot < |s.slots|)
    && (HasSlot(s.receiver) ==> s.receiver.slot < |s.slots|)
  }

  ghost predicate Enabled(s: State, e: Event)
    requires WellFormed(s)
  {
    match e
    case Tick => true
    case Begin(c, slot, tmms) => c !in s.calls && slot < |s.slots|
    case Fetch(c) => At(s, c, Numbering)
    case Reserve(c) => At(s, c, Numbered)
    case Publish(c) => At(s, c, Reserved)
    case Transmit(c) => At(s, c, Published)
    case SendReturns(c) => At(s, c, Sent)
    case SendFails(c) => At(s, c, Published)
    case Wake(c) => At(s, c, Waiting)
                    && (s.slots[s.calls[c].slot].invokeId == 0 || s.now >= s.calls[c].deadline)
    case Exchange(c) => At(s, c, Woken)
    case ReadResult(c) => At(s, c, AwaitNotify) && s.slots[s.calls[c].slot].errorCode != WAITING_FOR_RESPONSE
    case ReleaseCode(c) => c in s.calls && (s.calls[c].pc.SendFailed? || s.calls[c].pc.Returning?)
    case ReleaseSlot(c) => c in s.calls && (s.calls[c].pc.SendCleared? || s.calls[c].pc.Cleared?)
    case ServerReply(src) => s.receiver.Idle? && src in s.calls && s.calls[src].sent
    case ForeignReply(id, slot) => s.receiver.Idle? && slot < |s.slots|
    case CompareExchange => s.receiver.Header?
    case LoadRequest => s.receiver.Claimed?
    case StoreBuffer => s.receiver.Using? && s.receiver.request.Some? && s.receiver.request.value in s.calls
    case NotifyOwner(error) => s.receiver.Claimed? || s.receiver.Using?
    case HangUp => !s.receiver.Ended?
  }

  function SetPc(s: State, c: CallId, pc: Pc): State
    requires c in s.calls
  {
    s.(calls := s.calls[c := s.calls[c].(pc := pc)])
  }

  function SetSlot(s: State, i: nat, slot: Slot): State
    requires i < |s.slots|
  {
    s.(slots := s.slots[i := slot])
  }

  /** The effect of an event. */
  ghost function Apply(s: State, e: Event): State
    requires WellFormed(s) && Enabled(s, e)
  {
    match e
    case Tick => s.(now := s.now + 1)
    case Begin(c, slot, tmms) =>
      s.(calls := s.calls[c := Call(slot, s.now + tmms, Numbering, 0, false, [], None, None, 0, 0, 0)])
    case Fetch(c) =>
      // fetch_add(1); 0 is not an id, so the loop goes round again
      var t := s.(fetched := s.fetched + 1);
      if IdOf(s.fetched) == 0 then t
      else t.(calls := t.calls[c := t.calls[c].(pc := Numbered, ticket := s.fetched)])
    case Reserve(c) =>
      var i := s.calls[c].slot;
      if s.slots[i].request.None? then SetPc(SetSlot(s, i, s.slots[i].(request := Some(c))), c, Reserved)
      else SetPc(s, c, Done(-1))
    case Publish(c) =>
      var i := s.calls[c].slot;
      SetPc(SetSlot(s, i, s.slots[i].(invokeId := IdOf(s.calls[c].ticket), holder := Some(c))), c, Published)
    case Transmit(c) => s.(calls := s.calls[c := s.calls[c].(pc := Sent, sent := true)])
    case SendReturns(c) => SetPc(s, c, Waiting)
    case SendFails(c) => SetPc(s, c, SendFailed)
    case Wake(c) => SetPc(s, c, Woken)
    case Exchange(c) =>
      var i := s.calls[c].slot;
      if s.slots[i].invokeId != 0 then
        var t := SetSlot(s, i, s.slots[i].(invokeId := 0, holder := None));
        var pc := Returning(ADSERR_CLIENT_SYNCTIMEOUT);
        t.(calls := t.calls[c := t.calls[c].(pc := pc, takes := t.calls[c].takes + 1)])
      else SetPc(s, c, AwaitNotify)
    case ReadResult(c) => SetPc(s, c, Returning(s.slots[s.calls[c].slot].errorCode))
    case ReleaseCode(c) =>
      var i := s.calls[c].slot;
      SetPc(SetSlot(s, i, s.slots[i].(errorCode := WAITING_FOR_RESPONSE)), c,
            if s.calls[c].pc.SendFailed? then SendCleared else Cleared(s.calls[c].pc.code))
    case ReleaseSlot(c) =>
      var i := s.calls[c].slot;
      SetPc(SetSlot(s, i, s.slots[i].(request := None)), c,
            Done(if s.calls[c].pc.SendCleared? then -1 else s.calls[c].pc.code))
    case ServerReply(src) =>
      s.(receiver := Header(IdOf(s.calls[src].ticket), s.calls[src].slot, Some(src)))
    case ForeignReply(id, slot) => s.(receiver := Header(id, slot, None))
    case CompareExchange =>
      var i := s.receiver.slot;
      if s.slots[i].invokeId == s.receiver.id then
        var t := SetSlot(s, i, s.slots[i].(invokeId := 0, holder := None)).(receiver := Claimed(i, s.receiver.src));
        if s.slots[i].holder.Some? && s.slots[i].holder.value in s.calls then
          var h := s.slots[i].holder.value;
          t.(calls := t.calls[h := t.calls[h].(claims := t.calls[h].claims + 1, answeredBy := s.receiver.src)])
        else t
      else s.(receiver := Idle)
    case LoadRequest => s.(receiver := Using(s.receiver.slot, s.receiver.src, s.slots[s.receiver.slot].request))
    case StoreBuffer =>
      var r := s.receiver.request.value;
      if s.receiver.src.Some? then
        s.(calls := s.calls[r := s.calls[r].(buffer := s.calls[r].buffer + [s.receiver.src.value])])
      else s
    case NotifyOwner(error) =>
      var i := s.receiver.slot;
      var t := SetSlot(s, i, s.slots[i].(errorCode := error)).(receiver := Idle);
      if s.slots[i].request.Some? && s.slots[i].request.value in s.calls then
        var r := s.slots[i].request.value;
        t.(calls := t.calls[r := t.calls[r].(notices := t.calls[r].notices + 1, notified := Some(error))])
      else t
    case HangUp => s.(receiver := Ended(if s.receiver.Claimed? || s.receiver.Using? then s.receiver.src else None))
  }

  // ---- Fair runs -------------------------------------------------------------------------------

  function Distance(a: nat, b: nat): nat {
    if a <= b then b - a else a - b
  }

  /** What the protocol relies on: a header whose id its slot shows echoes a frame that the server got whole, fewer
      than 2^32 fetches lie between the two ids, and no result is the waiting code. Any other header may come. */
  ghost predicate Fair(s: State, e: Event)
    requires WellFormed(s) && Enabled(s, e)
  {
    && (e.NotifyOwner? ==> e.error != 0xFFFF_FFFF)
    && (e.CompareExchange? && s.slots[s.receiver.slot].invokeId == s.receiver.id ==>
          && s.receiver.src.Some?
          && var holder := s.slots[s.receiver.slot].holder;
             (s.receiver.src.value in s.calls && holder.Some? && holder.value in s.calls ==>
                Distance(s.calls[holder.value].ticket, s.calls[s.receiver.src.value].ticket) < 0x1_0000_0000))
  }

  ghost predicate FairRun(s: State, events: seq<Event>, t: State)
    decreases |events|
  {
    if events == [] then s == t
    else && WellFormed(s) && Enabled(s, events[0]) && Fair(s, events[0])
         && FairRun(Apply(s, events[0]), events[1..], t)
  }

  // ---- The invariant ---------------------------------------------------------------------------

  predicate HasTicket(pc: Pc) {
    !pc.Numbering?
  }

  /** From Reserve to the second store of Release the call owns its slot. */
  predicate Owning(pc: Pc) {
    !(pc.Numbering? || pc.Numbered? || pc.Done?)
  }

  /** The frame is out and the caller has not taken its id back: it waits, or will. */
  predicate InFlight(pc: Pc) {
    pc.Sent? || pc.Waiting? || pc.Woken?
  }

  /** What a call has been through, from its own point of view. */
  predicate History(c: CallId, call: Call) {
    && call.claims + call.takes <= 1 && call.notices <= call.claims
    && (call.notified.Some? <==> call.notices == 1)
    && (call.claims == 0 ==> call.buffer == [] && call.answeredBy.None?)
    && (call.claims == 1 ==> call.sent && call.answeredBy == Some(c))
    && (forall x :: x in call.buffer ==> x == c)
    && match call.pc
       case Numbering | Numbered | Reserved | Published | SendFailed | SendCleared =>
         !call.sent && call.claims == call.takes == 0
       case Sent | Waiting | Woken => call.sent && call.takes == 0
       case AwaitNotify => call.sent && call.claims == 1
       case Returning(code) => call.sent && Outcome(call, code)
       case Cleared(code) => call.sent && Outcome(call, code)
       case Done(code) => if call.sent then Outcome(call, code) else code == -1 && call.claims == call.takes == 0
  }

  /** Either the reply was processed, and its result is returned, or the caller took its id back in time. */
  predicate Outcome(call: Call, code: int) {
    if call.claims == 1 then call.notified.Some? && code == call.notified.value
    else call.takes == 1 && code == ADSERR_CLIENT_SYNCTIMEOUT
  }

  /** The receiver is at work on the reply of call c and has not announced the result. */
  predicate Serving(r: Receiver, c: CallId) {
    (r.Claimed? || r.Using?) && r.src == Some(c)
  }

  ghost predicate CallInv(s: State, c: CallId)
    requires WellFormed(s) && c in s.calls
  {
    var call := s.calls[c];
    var slot := s.slots[call.slot];
    && History(c, call)
    && (HasTicket(call.pc) ==> call.ticket < s.fetched && IdOf(call.ticket) != 0)
    && (Owning(call.pc) ==> slot.request == Some(c))
    && (call.pc.Published? || call.pc.SendFailed? || call.pc.SendCleared? ==> slot.holder == Some(c))
    && (InFlight(call.pc) && call.claims == 0 ==> slot.holder == Some(c))
    && (Owning(call.pc) && call.claims + call.takes == 1 ==> slot.holder.None?)
    && (call.pc.Cleared? ==> slot.errorCode == WAITING_FOR_RESPONSE)
    && (call.claims == 1 && call.notices == 0 ==> Serving(s.receiver, c) || s.receiver == Ended(Some(c)))
    && (call.notices == 1 && (InFlight(call.pc) || call.pc.AwaitNotify?) ==>
          Some(slot.errorCode) == call.notified && slot.errorCode != WAITING_FOR_RESPONSE)
  }

  ghost predicate SlotInv(s: State, i: nat)
    requires WellFormed(s) && i < |s.slots|
  {
    var slot := s.slots[i];
    && (slot.request.Some? ==>
          && slot.request.value in s.calls
          && s.calls[slot.request.value].slot == i
          && Owning(s.calls[slot.request.value].pc))
    && (slot.holder.None? <==> slot.invokeId == 0)
    && (slot.holder.Some? ==>
          && slot.holder.value in s.calls
          && var h := s.calls[slot.holder.value];
             && h.slot == i && HasTicket(h.pc) && IdOf(h.ticket) == slot.invokeId
             && h.claims == h.takes == 0
             && (h.sent ==> InFlight(h.pc)))
    && (slot.errorCode != WAITING_FOR_RESPONSE ==>
          slot.request.Some? && slot.request.value in s.calls && s.calls[slot.request.value].notices == 1)
  }

  /** The id of the call was claimed, and no result announced. */
  predicate Unanswered(call: Call) {
    (InFlight(call.pc) || call.pc.AwaitNotify?) && call.claims == 1 && call.notices == 0
  }

  ghost predicate ReceiverInv(s: State)
    requires WellFormed(s)
  {
    var r := s.receiver;
    && (HasSlot(r) && !(r.Header? && r.src.None?) ==>
          && r.src.Some? && r.src.value in s.calls
          && var call := s.calls[r.src.value];
             && call.slot == r.slot && call.sent
             && (r.Header? ==> r.id == IdOf(call.ticket))
             && (r.Claimed? || r.Using? ==> Unanswered(call))
             && (r.Using? ==> r.request == r.src))
    && (r.Ended? && r.served.Some? ==> r.served.value in s.calls && Unanswered(s.calls[r.served.value]))
  }

  /** The call that the receiver's state is about. */
  function Subject(r: Receiver): Option<CallId> {
    if r.Idle? then None else if r.Ended? then r.served else r.src
  }

  ghost predicate TicketsDistinct(s: State) {
    forall c, d :: c in s.calls && d in s.calls && c != d && HasTicket(s.calls[c].pc) && HasTicket(s.calls[d].pc) ==>
      s.calls[c].ticket != s.calls[d].ticket
  }

  ghost predicate Inv(s: State) {
    && WellFormed(s)
    && (forall c :: c in s.calls ==> CallInv(s, c))
    && (forall i :: 0 <= i < |s.slots| ==> SlotInv(s, i))
    && ReceiverInv(s)
    && TicketsDistinct(s)
  }

  lemma SameIdSameTicket(a: nat, b: nat)
    requires IdOf(a) == IdOf(b) && Distance(a, b) < ID_SPACE
    ensures a == b
  {
  }

  /** A claim takes the id of the very call the reply echoes: ids alone could repeat, tickets do not. */
  lemma ClaimIsOwn(s: State)
    requires Inv(s) && s.receiver.Header? && Fair(s, CompareExchange)
    requires s.slots[s.receiver.slot].invokeId == s.receiver.id
    ensures s.slots[s.receiver.slot].holder == s.receiver.src
    ensures s.slots[s.receiver.slot].request == s.receiver.src && InFlight(s.calls[s.receiver.src.value].pc)
  {
    var i := s.receiver.slot;
    assert SlotInv(s, i);
    var h, src := s.slots[i].holder.value, s.receiver.src.value;
    SameIdSameTicket(s.calls[h].ticket, s.calls[src].ticket);
    assert CallInv(s, src);
  }

  /** The calls' own events; the others belong to the receiver, the server and the clock. */
  predicate ByCaller(e: Event) {
    e.Begin? || e.Fetch? || e.Reserve? || e.Publish? || e.Transmit? || e.SendReturns? || e.SendFails? || e.Wake?
    || e.Exchange? || e.ReadResult? || e.ReleaseCode? || e.ReleaseSlot?
  }

  /** The events up to the end of socket.write, and the failure path. */
  predicate ByRequest(e: Event) {
    e.Begin? || e.Fetch? || e.Reserve? || e.Publish? || e.Transmit? || e.SendReturns? || e.SendFails?
  }

  lemma WellFormedStep(s: State, e: Event)
    requires WellFormed(s) && Enabled(s, e)
    ensures WellFormed(Apply(s, e)) && |Apply(s, e).slots| == |s.slots|
    ensures forall d :: d in Apply(s, e).calls ==> d in s.calls || (e.Begin? && e.c == d)
  {
    hide WellFormed, Enabled, Apply;
    if ByRequest(e) {
      WellFormedByRequest(s, e);
    } else if ByCaller(e) {
      WellFormedByWaiter(s, e);
    } else {
      WellFormedByReceiver(s, e);
    }
  }

  lemma WellFormedByRequest(s: State, e: Event)
    requires WellFormed(s) && Enabled(s, e) && ByRequest(e)
    ensures WellFormed(Apply(s, e)) && |Apply(s, e).slots| == |s.slots|
    ensures forall d :: d in Apply(s, e).calls ==> d in s.calls || (e.Begin? && e.c == d)
  {
  }

  lemma WellFormedByWaiter(s: State, e: Event)
    requires WellFormed(s) && Enabled(s, e) && ByCaller(e) && !ByRequest(e)
    ensures WellFormed(Apply(s, e)) && |Apply(s, e).slots| == |s.slots|
    ensures forall d :: d in Apply(s, e).calls ==> d in s.calls
  {
  }

  lemma WellFormedByReceiver(s: State, e: Event)
    requires WellFormed(s) && Enabled(s, e) && !ByCaller(e)
    ensures WellFormed(Apply(s, e)) && |Apply(s, e).slots| == |s.slots|
    ensures forall d :: d in Apply(s, e).calls ==> d in s.calls
  {
  }

  /** Only a fetch gives out a ticket. */
  lemma TicketKept(s: State, e: Event, c: CallId)
    requires WellFormed(s) && Enabled(s, e) && c in Apply(s, e).calls && HasTicket(Apply(s, e).calls[c].pc)
    ensures c in s.calls
    ensures (e.Fetch? && e.c == c) || (HasTicket(s.calls[c].pc) && Apply(s, e).calls[c].ticket == s.calls[c].ticket)
  {
  }

  lemma TicketStep(s: State, e: Event)
    requires Inv(s) && Enabled(s, e)
    ensures TicketsDistinct(Apply(s, e))
  {
    var t := Apply(s, e);
    forall c, d | c in t.calls && d in t.calls && c != d && HasTicket(t.calls[c].pc) && HasTicket(t.calls[d].pc)
      ensures t.calls[c].ticket != t.calls[d].ticket
    {
      TicketKept(s, e, c);
      TicketKept(s, e, d);
      assert CallInv(s, c) && CallInv(s, d);
      hide CallInv, SlotInv;
    }
  }

  lemma RequestOwnStep(s: State, e: Event)
    requires WellFormed(s) && Enabled(s, e) && ByRequest(e) && WellFormed(Apply(s, e))
    requires !e.Begin? ==> CallInv(s, e.c) && SlotInv(s, s.calls[e.c].slot)
    ensures CallInv(Apply(s, e), e.c)
  {
  }

  lemma WaitOwnStep(s: State, e: Event)
    requires WellFormed(s) && Enabled(s, e) && ByCaller(e) && !ByRequest(e) && WellFormed(Apply(s, e))
    requires CallInv(s, e.c) && SlotInv(s, s.calls[e.c].slot)
    ensures CallInv(Apply(s, e), e.c)
  {
  }

  lemma CallerOtherStepRequest(s: State, e: Event, d: CallId)
    requires WellFormed(s) && Enabled(s, e) && ByRequest(e) && WellFormed(Apply(s, e))
    requires !e.Begin? ==> CallInv(s, e.c) && SlotInv(s, s.calls[e.c].slot)
    requires d in s.calls && d != e.c && CallInv(s, d)
    ensures CallInv(Apply(s, e), d)
  {
  }

  lemma CallerOtherStepWait(s: State, e: Event, d: CallId)
    requires WellFormed(s) && Enabled(s, e) && ByCaller(e) && !ByRequest(e) && WellFormed(Apply(s, e))
    requires !e.Begin? ==> CallInv(s, e.c) && SlotInv(s, s.calls[e.c].slot)
    requires d in s.calls && d != e.c && CallInv(s, d)
    ensures CallInv(Apply(s, e), d)
  {
  }

  lemma CallerOtherStep(s: State, e: Event, d: CallId)
    requires WellFormed(s) && Enabled(s, e) && ByCaller(e) && WellFormed(Apply(s, e))
    requires !e.Begin? ==> CallInv(s, e.c) && SlotInv(s, s.calls[e.c].slot)
    requires d in s.calls && d != e.c && CallInv(s, d)
    ensures CallInv(Apply(s, e), d)
  {
    hide *;
    if ByRequest(e) {
      CallerOtherStepRequest(s, e, d);
    } else {
      CallerOtherStepWait(s, e, d);
    }
  }

  lemma CallerOwnSlotStepRequest(s: State, e: Event, i: nat)
    requires WellFormed(s) && Enabled(s, e) && ByRequest(e) && WellFormed(Apply(s, e))
    requires !e.Begin? && i == s.calls[e.c].slot && SlotInv(s, i) && CallInv(s, e.c)
    ensures SlotInv(Apply(s, e), i)
  {
  }

  lemma CallerOwnSlotStepWait(s: State, e: Event, i: nat)
    requires WellFormed(s) && Enabled(s, e) && ByCaller(e) && !ByRequest(e) && WellFormed(Apply(s, e))
    requires !e.Begin? && i == s.calls[e.c].slot && SlotInv(s, i) && CallInv(s, e.c)
    ensures SlotInv(Apply(s, e), i)
  {
  }

  lemma CallerOwnSlotStep(s: State, e: Event, i: nat)
    requires WellFormed(s) && Enabled(s, e) && ByCaller(e) && WellFormed(Apply(s, e))
    requires !e.Begin? && i == s.calls[e.c].slot && SlotInv(s, i) && CallInv(s, e.c)
    ensures SlotInv(Apply(s, e), i)
  {
    hide *;
    if ByRequest(e) {
      CallerOwnSlotStepRequest(s, e, i);
    } else {
      CallerOwnSlotStepWait(s, e, i);
    }
  }

  lemma CallerOtherSlotStepRequest(s: State, e: Event, i: nat)
    requires WellFormed(s) && Enabled(s, e) && ByRequest(e) && WellFormed(Apply(s, e))
    requires i < |s.slots| && SlotInv(s, i) && (!e.Begin? ==> i != s.calls[e.c].slot)
    ensures SlotInv(Apply(s, e), i)
  {
  }

  lemma CallerOtherSlotStepWait(s: State, e: Event, i: nat)
    requires WellFormed(s) && Enabled(s, e) && ByCaller(e) && !ByRequest(e) && WellFormed(Apply(s, e))
    requires i < |s.slots| && SlotInv(s, i) && (!e.Begin? ==> i != s.calls[e.c].slot)
    ensures SlotInv(Apply(s, e), i)
  {
  }

  lemma CallerOtherSlotStep(s: State, e: Event, i: nat)
    requires WellFormed(s) && Enabled(s, e) && ByCaller(e) && WellFormed(Apply(s, e))
    requires i < |s.slots| && SlotInv(s, i) && (!e.Begin? ==> i != s.calls[e.c].slot)
    ensures SlotInv(Apply(s, e), i)
  {
    hide *;
    if ByRequest(e) {
      CallerOtherSlotStepRequest(s, e, i);
    } else {
      CallerOtherSlotStepWait(s, e, i);
    }
  }

  /** What a successful claim means, as ClaimIsOwn gives it. */
  ghost predicate OwnClaim(s: State, e: Event)
    requires WellFormed(s)
  {
    e.CompareExchange? && s.receiver.Header? && s.slots[s.receiver.slot].invokeId == s.receiver.id ==>
      && s.slots[s.receiver.slot].holder == s.slots[s.receiver.slot].request == s.receiver.src
      && s.receiver.src.Some? && s.receiver.src.value in s.calls && InFlight(s.calls[s.receiver.src.value].pc)
  }

  lemma ReceiverCallStep(s: State, e: Event, d: CallId)
    requires WellFormed(s) && Enabled(s, e) && !ByCaller(e) && WellFormed(Apply(s, e)) && Fair(s, e)
    requires ReceiverInv(s) && OwnClaim(s, e)
    requires d in s.calls && CallInv(s, d) && SlotInv(s, s.calls[d].slot)
    requires s.receiver.Claimed? || s.receiver.Using? ==> CallInv(s, s.receiver.src.value)
    ensures CallInv(Apply(s, e), d)
  {
  }

  lemma ReceiverSlotStep(s: State, e: Event, i: nat)
    requires WellFormed(s) && Enabled(s, e) && !ByCaller(e) && WellFormed(Apply(s, e)) && Fair(s, e)
    requires ReceiverInv(s) && OwnClaim(s, e)
    requires i < |s.slots| && SlotInv(s, i)
    requires s.receiver.Claimed? || s.receiver.Using? ==> CallInv(s, s.receiver.src.value)
    ensures SlotInv(Apply(s, e), i)
  {
  }

  lemma ReceiverByRequestStep(s: State, e: Event)
    requires WellFormed(s) && Enabled(s, e) && ByRequest(e) && WellFormed(Apply(s, e)) && ReceiverInv(s)
    requires Subject(s.receiver).Some? ==> CallInv(s, Subject(s.receiver).value)
    ensures ReceiverInv(Apply(s, e))
  {
    hide SlotInv, Fair;
  }

  lemma ReceiverByWaiterStep(s: State, e: Event)
    requires WellFormed(s) && Enabled(s, e) && ByCaller(e) && !ByRequest(e) && WellFormed(Apply(s, e)) && ReceiverInv(s)
    requires Subject(s.receiver).Some? ==>
               CallInv(s, Subject(s.receiver).value) && SlotInv(s, s.calls[Subject(s.receiver).value].slot)
    ensures ReceiverInv(Apply(s, e))
  {
    hide Fair;
  }

  lemma ReceiverOwnStep(s: State, e: Event)
    requires WellFormed(s) && Enabled(s, e) && !ByCaller(e) && WellFormed(Apply(s, e)) && Fair(s, e)
    requires ReceiverInv(s) && OwnClaim(s, e)
    requires Subject(s.receiver).Some? ==>
               CallInv(s, Subject(s.receiver).value) && SlotInv(s, s.calls[Subject(s.receiver).value].slot)
    ensures ReceiverInv(Apply(s, e))
  {
  }

  lemma ReceiverStep(s: State, e: Event)
    requires WellFormed(s) && Enabled(s, e) && WellFormed(Apply(s, e)) && Fair(s, e)
    requires ReceiverInv(s) && OwnClaim(s, e)
    requires Subject(s.receiver).Some? ==>
               CallInv(s, Subject(s.receiver).value) && SlotInv(s, s.calls[Subject(s.receiver).value].slot)
    ensures ReceiverInv(Apply(s, e))
  {
    hide *;
    if ByRequest(e) {
      ReceiverByRequestStep(s, e);
    } else if ByCaller(e) {
      ReceiverByWaiterStep(s, e);
    } else {
      ReceiverOwnStep(s, e);
    }
  }

  lemma OwnClaimStep(s: State, e: Event)
    requires Inv(s) && Enabled(s, e) && Fair(s, e)
    ensures OwnClaim(s, e)
  {
    if e.CompareExchange? && s.slots[s.receiver.slot].invokeId == s.receiver.id {
      ClaimIsOwn(s);
    }
  }

  lemma CallStep(s: State, e: Event, d: CallId)
    requires Inv(s) && Enabled(s, e) && Fair(s, e) && OwnClaim(s, e) && WellFormed(Apply(s, e))
    requires d in s.calls || (e.Begin? && e.c == d)
    ensures d in Apply(s, e).calls ==> CallInv(Apply(s, e), d)
  {
    hide SlotInv, CallInv, Apply, Fair, OwnClaim;
    if !ByCaller(e) {
      ReceiverCallStep(s, e, d);
    } else if d != e.c {
      CallerOtherStep(s, e, d);
    } else if ByRequest(e) {
      RequestOwnStep(s, e);
    } else {
      WaitOwnStep(s, e);
    }
  }

  lemma SlotStep(s: State, e: Event, i: nat)
    requires Inv(s) && Enabled(s, e) && Fair(s, e) && OwnClaim(s, e) && WellFormed(Apply(s, e)) && i < |s.slots|
    ensures i < |Apply(s, e).slots| && SlotInv(Apply(s, e), i)
  {
    hide SlotInv, CallInv, Apply, Fair, OwnClaim;
    if ByCaller(e) && !e.Begin? && i == s.calls[e.c].slot {
      CallerOwnSlotStep(s, e, i);
    } else if ByCaller(e) {
      CallerOtherSlotStep(s, e, i);
    } else {
      ReceiverSlotStep(s, e, i);
    }
  }

  lemma InvStep(s: State, e: Event)
    requires Inv(s) && Enabled(s, e) && Fair(s, e)
    ensures Inv(Apply(s, e))
  {
    hide SlotInv, CallInv, Apply, Enabled, Fair, OwnClaim, TicketsDistinct;
    WellFormedStep(s, e);
    TicketStep(s, e);
    OwnClaimStep(s, e);
    var t := Apply(s, e);
    forall d | d in t.calls
      ensures CallInv(t, d)
    {
      CallStep(s, e, d);
    }
    forall i | 0 <= i < |t.slots|
      ensures SlotInv(t, i)
    {
      SlotStep(s, e, i);
    }
    ReceiverStep(s, e);
  }

  lemma InvInit()
    ensures Inv(Init())
  {
  }

  /** Every interleaving keeps the invariant. */
  lemma {:induction false} InvRun(s: State, events: seq<Event>, t: State)
    requires Inv(s) && FairRun(s, events, t)
    ensures Inv(t)
    decreases |events|
  {
    if events != [] {
      hide Inv, Apply, Enabled, Fair;
      InvStep(s, events[0]);
      InvRun(Apply(s, events[0]), events[1..], t);
    }
  }

  ghost predicate Reachable(t: State) {
    exists events :: FairRun(Init(), events, t)
  }

  lemma ReachableInv(t: State)
    requires Reachable(t)
    ensures Inv(t)
  {
    InvInit();
    var events :| FairRun(Init(), events, t);
    InvRun(Init(), events, t);
  }

  // ---- What the invariant gives ----------------------------------------------------------------

  /** A published id is taken once: by the caller's exchange or by the receiver's compare-and-swap, never by
      both. A call whose frame went out returns only after one of them took it. */
  lemma OneTaker(t: State, c: CallId)
    requires Reachable(t) && c in t.calls
    ensures t.calls[c].claims + t.calls[c].takes <= 1
    ensures t.calls[c].pc.Done? && t.calls[c].sent ==> t.calls[c].claims + t.calls[c].takes == 1
  {
    ReachableInv(t);
    assert CallInv(t, c);
  }

  /** While the receiver works on a claimed slot, its request is that of a call still inside AdsRequest, the
      very call the reply answers, and no result has been announced for it yet. */
  lemma ReceiverUsesLiveRequest(t: State)
    requires Reachable(t) && (t.receiver.Claimed? || t.receiver.Using?)
    ensures WellFormed(t)
    ensures var slot := t.slots[t.receiver.slot];
            && slot.request.Some? && slot.request == t.receiver.src
            && slot.request.value in t.calls
            && (InFlight(t.calls[slot.request.value].pc) || t.calls[slot.request.value].pc.AwaitNotify?)
            && t.calls[slot.request.value].notices == 0
            && (t.receiver.Using? ==> t.receiver.request == slot.request)
  {
    ReachableInv(t);
    assert CallInv(t, t.receiver.src.value);
  }

  /** A call that returns a received result returns what was announced, once, for a reply to its own frame;
      only such replies ever reached its buffer. A call that timed out was never answered at all. */
  lemma OwnReplyOnly(t: State, c: CallId)
    requires Reachable(t) && c in t.calls && t.calls[c].pc.Done?
    ensures var call := t.calls[c];
            && (forall x :: x in call.buffer ==> x == c)
            && (call.claims == 1 ==>
                  call.answeredBy == Some(c) && call.notices == 1 && call.notified == Some(call.pc.code))
            && (call.takes == 1 ==> call.pc.code == 0x745 && call.notices == 0 && call.buffer == [])
            && (call.claims == call.takes == 0 ==> call.pc.code == -1 && call.notices == 0 && call.buffer == [])
  {
    ReachableInv(t);
    assert CallInv(t, c);
  }

  /** A reply that comes after its caller has given up, or a second reply, claims nothing and changes nothing. */
  lemma LateReplyIgnored(t: State, c: CallId)
    requires Reachable(t) && t.receiver.Header? && t.receiver.src == Some(c)
    requires c in t.calls && t.calls[c].claims + t.calls[c].takes == 1
    requires WellFormed(t) && Fair(t, CompareExchange)
    ensures Apply(t, CompareExchange) == t.(receiver := Idle)
  {
    ReachableInv(t);
    assert SlotInv(t, t.receiver.slot);
    if t.slots[t.receiver.slot].invokeId == t.receiver.id {
      ClaimIsOwn(t);
    }
  }

  /** The other replies are not lost: the compare-and-swap for the header of a reply to c takes c's id, for c, iff
      nobody took it before. */
  lemma ClaimsIffFirst(t: State, c: CallId, u: State)
    requires Reachable(t) && t.receiver.Header? && t.receiver.src == Some(c)
    requires WellFormed(t) && Fair(t, CompareExchange) && u == Apply(t, CompareExchange)
    ensures c in t.calls && c in u.calls
    ensures t.calls[c].claims + t.calls[c].takes == 0 ==>
              u.calls[c].claims == 1 && u.receiver == Claimed(t.calls[c].slot, Some(c))
    ensures t.calls[c].claims + t.calls[c].takes > 0 ==> u.calls == t.calls && u.receiver == Idle
  {
    ReachableInv(t);
    assert CallInv(t, c) && SlotInv(t, t.receiver.slot);
    if t.slots[t.receiver.slot].invokeId == t.receiver.id {
      ClaimIsOwn(t);
    }
  }

  /** No wake-up is lost while the connection lasts: a caller whose id the receiver took can read its result, unless the
      receiver is still working on exactly this reply, or its thread ended while it did. */
  lemma NoLostWakeUp(t: State, c: CallId)
    requires Reachable(t) && At(t, c, AwaitNotify)
    ensures WellFormed(t)
    ensures Enabled(t, ReadResult(c)) <==> !Serving(t.receiver, c) && t.receiver != Ended(Some(c))
  {
    ReachableInv(t);
    assert CallInv(t, c) && SlotInv(t, t.calls[c].slot);
  }

  // ---- How long a call waits, and who gets a slot ----------------------------------------------

  ghost predicate Run(s: State, events: seq<Event>, t: State)
    decreases |events|
  {
    if events == [] then s == t
    else WellFormed(s) && Enabled(s, events[0]) && Run(Apply(s, events[0]), events[1..], t)
  }

  function Ticks(events: seq<Event>): nat {
    if events == [] then 0 else Ticks(events[..|events| - 1]) + if events[|events| - 1].Tick? then 1 else 0
  }

  /** Whoever is between Reserve and the end of Release has the slot: that takes no assumption about the replies. */
  ghost predicate SlotsOwned(s: State)
    requires WellFormed(s)
  {
    forall c :: c in s.calls && Owning(s.calls[c].pc) ==> s.slots[s.calls[c].slot].request == Some(c)
  }

  /** Call c began n ticks ago, for the given slot and with a timeout of tmms ticks. It is awake with its id still in
      the slot, or has taken it back, only after that time. */
  ghost predicate Timed(s: State, c: CallId, slot: nat, tmms: nat, n: nat)
    requires WellFormed(s)
  {
    && c in s.calls && s.calls[c].slot == slot && s.calls[c].deadline + n == s.now + tmms
    && (s.calls[c].pc.Woken? && s.slots[slot].invokeId != 0 ==> n >= tmms)
    && (s.calls[c].takes > 0 ==> n >= tmms)
  }

  lemma OwnedStepRequest(s: State, e: Event)
    requires WellFormed(s) && SlotsOwned(s) && Enabled(s, e) && ByRequest(e) && WellFormed(Apply(s, e))
    ensures SlotsOwned(Apply(s, e))
  {
  }

  lemma OwnedStepWait(s: State, e: Event)
    requires WellFormed(s) && SlotsOwned(s) && Enabled(s, e) && ByCaller(e) && !ByRequest(e) && WellFormed(Apply(s, e))
    ensures SlotsOwned(Apply(s, e))
  {
  }

  lemma OwnedStepReceiver(s: State, e: Event)
    requires WellFormed(s) && SlotsOwned(s) && Enabled(s, e) && !ByCaller(e) && WellFormed(Apply(s, e))
    ensures SlotsOwned(Apply(s, e))
  {
  }

  lemma OwnedStep(s: State, e: Event)
    requires WellFormed(s) && SlotsOwned(s) && Enabled(s, e)
    ensures WellFormed(Apply(s, e)) && SlotsOwned(Apply(s, e))
  {
    hide SlotsOwned, Enabled, Apply;
    WellFormedStep(s, e);
    if ByRequest(e) {
      OwnedStepRequest(s, e);
    } else if ByCaller(e) {
      OwnedStepWait(s, e);
    } else {
      OwnedStepReceiver(s, e);
    }
  }

  lemma TimedStepRequest(s: State, e: Event, c: CallId, slot: nat, tmms: nat, n: nat)
    requires WellFormed(s) && SlotsOwned(s) && Enabled(s, e) && ByRequest(e) && WellFormed(Apply(s, e))
    requires Timed(s, c, slot, tmms, n)
    ensures Timed(Apply(s, e), c, slot, tmms, n)
  {
  }

  lemma TimedStepWait(s: State, e: Event, c: CallId, slot: nat, tmms: nat, n: nat)
    requires WellFormed(s) && SlotsOwned(s) && Enabled(s, e) && ByCaller(e) && !ByRequest(e) && WellFormed(Apply(s, e))
    requires Timed(s, c, slot, tmms, n)
    ensures Timed(Apply(s, e), c, slot, tmms, n)
  {
  }

  lemma TimedStepReceiver(s: State, e: Event, c: CallId, slot: nat, tmms: nat, n: nat)
    requires WellFormed(s) && SlotsOwned(s) && Enabled(s, e) && !ByCaller(e) && WellFormed(Apply(s, e))
    requires Timed(s, c, slot, tmms, n)
    ensures Timed(Apply(s, e), c, slot, tmms, n + if e.Tick? then 1 else 0)
  {
  }

  lemma TimedStep(s: State, e: Event, c: CallId, slot: nat, tmms: nat, n: nat)
    requires WellFormed(s) && SlotsOwned(s) && Enabled(s, e) && WellFormed(Apply(s, e))
    requires Timed(s, c, slot, tmms, n)
    ensures Timed(Apply(s, e), c, slot, tmms, n + if e.Tick? then 1 else 0)
  {
    hide SlotsOwned, Enabled, Apply, Timed;
    if ByRequest(e) {
      TimedStepRequest(s, e, c, slot, tmms, n);
    } else if ByCaller(e) {
      TimedStepWait(s, e, c, slot, tmms, n);
    } else {
      TimedStepReceiver(s, e, c, slot, tmms, n);
    }
  }

  /** The last event of a run. */
  lemma {:induction false} RunLast(s: State, events: seq<Event>, t: State) returns (before: State)
    requires Run(s, events, t) && events != []
    ensures Run(s, events[..|events| - 1], before) && WellFormed(before) && Enabled(before, events[|events| - 1])
    ensures t == Apply(before, events[|events| - 1])
    decreases |events|
  {
    hide WellFormed, Enabled, Apply;
    if |events| == 1 {
      before := s;
      assert events[1..] == [] && Run(s, events[..0], s);
    } else {
      var next := Apply(s, events[0]);
      before := RunLast(next, events[1..], t);
      var prefix := events[..|events| - 1];
      assert prefix[1..] == events[1..][..|events| - 2] && prefix[0] == events[0];
      assert events[1..][|events| - 2] == events[|events| - 1];
    }
  }

  lemma OwnedInit()
    ensures WellFormed(Init()) && SlotsOwned(Init())
  {
  }

  lemma {:induction false} OwnedRun(events: seq<Event>, t: State)
    requires Run(Init(), events, t)
    ensures WellFormed(t) && SlotsOwned(t)
    decreases |events|
  {
    hide SlotsOwned, WellFormed, Enabled, Apply;
    if events == [] {
      OwnedInit();
    } else {
      var before := RunLast(Init(), events, t);
      OwnedRun(events[..|events| - 1], before);
      OwnedStep(before, events[|events| - 1]);
    }
  }

  lemma BeginsTimed(s: State, c: CallId, slot: nat, tmms: nat)
    requires WellFormed(s) && Enabled(s, Begin(c, slot, tmms))
    ensures WellFormed(Apply(s, Begin(c, slot, tmms))) && Timed(Apply(s, Begin(c, slot, tmms)), c, slot, tmms, 0)
  {
  }

  lemma {:induction false} TimedRun(events: seq<Event>, i: nat, t: State, c: CallId, slot: nat, tmms: nat)
    requires Run(Init(), events, t) && i < |events| && events[i] == Begin(c, slot, tmms)
    ensures WellFormed(t) && Timed(t, c, slot, tmms, Ticks(events[i..]))
    decreases |events|
  {
    hide SlotsOwned, WellFormed, Enabled, Apply, Timed;
    var n, last := |events| - 1, events[|events| - 1];
    var before := RunLast(Init(), events, t);
    OwnedRun(events, t);
    if i == n {
      assert events[i..] == [last] && [last][..0] == [];
      BeginsTimed(before, c, slot, tmms);
    } else {
      TimedRun(events[..n], i, before, c, slot, tmms);
      OwnedRun(events[..n], before);
      TimedStep(before, last, c, slot, tmms, Ticks(events[..n][i..]));
      assert events[i..][..n - i] == events[..n][i..] && events[i..][n - i] == last;
    }
  }

  /** A call that finds its own id in the slot when it is awake, that is, one that times out, has waited for as many
      ticks as it was told to, in every run, whatever the receiver and the server do. */
  lemma NoEarlyTimeout(events: seq<Event>, i: nat, j: nat, s: State, t: State, c: CallId, slot: nat, tmms: nat)
    requires i < j < |events| && events[i] == Begin(c, slot, tmms) && events[j] == Exchange(c)
    requires Run(Init(), events[..j], s) && Run(s, [Exchange(c)], t)
    requires c in s.calls && c in t.calls && s.calls[c].takes < t.calls[c].takes
    ensures Ticks(events[i..j]) >= tmms
  {
    TimedRun(events[..j], i, s, c, slot, tmms);
    assert events[..j][i..] == events[i..j];
    assert [Exchange(c)][1..] == [];
  }

  /** A call can wake iff its id is gone from the slot or it has waited for that long. */
  lemma WakesIffTimeIsUp(events: seq<Event>, i: nat, t: State, c: CallId, slot: nat, tmms: nat)
    requires Run(Init(), events, t) && i < |events| && events[i] == Begin(c, slot, tmms) && At(t, c, Waiting)
    ensures WellFormed(t) && slot < |t.slots|
    ensures CanHappen(t, Wake(c)) <==> t.slots[slot].invokeId == 0 || Ticks(events[i..]) >= tmms
  {
    TimedRun(events, i, t, c, slot, tmms);
    CanHappenIff(t, Wake(c));
    hide Run, Apply;
  }

  ghost predicate CanHappen(t: State, e: Event) {
    exists u :: Run(t, [e], u)
  }

  lemma CanHappenIff(t: State, e: Event)
    requires WellFormed(t)
    ensures CanHappen(t, e) <==> Enabled(t, e)
  {
    hide Enabled, Apply;
    var one := [e];
    assert one[0] == e && one[1..] == [];
    if Enabled(t, e) {
      RunNothing(Apply(t, e));
      assert Run(t, one, Apply(t, e));
    }
    if u :| Run(t, one, u) {
      assert Enabled(t, one[0]);
    }
  }

  /** In a fair run that is: iff the receiver has taken its id, or it has waited for that long. */
  lemma WakesWhenAnswered(events: seq<Event>, i: nat, t: State, c: CallId, slot: nat, tmms: nat)
    requires FairRun(Init(), events, t) && i < |events| && events[i] == Begin(c, slot, tmms) && At(t, c, Waiting)
    ensures CanHappen(t, Wake(c)) <==> t.calls[c].claims == 1 || Ticks(events[i..]) >= tmms
  {
    hide Enabled, Apply, Run;
    FairIsRun(Init(), events, t);
    WakesIffTimeIsUp(events, i, t, c, slot, tmms);
    TimedRun(events, i, t, c, slot, tmms);
    assert Reachable(t);
    ReachableInv(t);
    assert CallInv(t, c) && SlotInv(t, slot);
  }

  lemma {:induction false} FairIsRun(s: State, events: seq<Event>, t: State)
    requires FairRun(s, events, t)
    ensures Run(s, events, t)
    decreases |events|
  {
    hide WellFormed, Enabled, Apply, Fair;
    if events != [] {
      FairIsRun(Apply(s, events[0]), events[1..], t);
    }
  }

  /** A call with a number gets its slot iff no other call has it, from that call's own Reserve to the end of its
      Release; otherwise it returns -1. */
  lemma ReservesIffFree(t: State, c: CallId, u: State)
    requires Reachable(t) && At(t, c, Numbered) && Run(t, [Reserve(c)], u)
    ensures c in u.calls
    ensures (forall d :: d in t.calls && t.calls[d].slot == t.calls[c].slot ==> !Owning(t.calls[d].pc)) ==>
              u.calls[c].pc == Reserved
    ensures (exists d :: d in t.calls && t.calls[d].slot == t.calls[c].slot && Owning(t.calls[d].pc)) ==>
              u.calls[c].pc == Done(-1)
  {
    ReachableInv(t);
    assert [Reserve(c)][1..] == [];
    assert SlotInv(t, t.calls[c].slot);
    forall d | d in t.calls
      ensures CallInv(t, d)
    {
    }
    hide CallInv;
    if d :| d in t.calls && t.calls[d].slot == t.calls[c].slot && Owning(t.calls[d].pc) {
      OwnerHasSlot(t, d);
    }
  }

  lemma OwnerHasSlot(t: State, d: CallId)
    requires Inv(t) && d in t.calls && Owning(t.calls[d].pc)
    ensures t.slots[t.calls[d].slot].request == Some(d)
  {
    assert CallInv(t, d);
  }

  // ---- What a run delivers ---------------------------------------------------------------------

  /** The call that the last header echoes, if any. */
  function LastEcho(events: seq<Event>): Option<CallId> {
    if events == [] then None
    else EchoAfter(events[|events| - 1], LastEcho(events[..|events| - 1]))
  }

  function EchoAfter(e: Event, before: Option<CallId>): Option<CallId> {
    match e
    case ServerReply(src) => Some(src)
    case ForeignReply(_, _) => None
    case _ => before
  }

  /** How often the receiver stored payload of a reply to c. */
  function Stores(events: seq<Event>, c: CallId): nat {
    if events == [] then 0
    else var n := |events| - 1;
         Stores(events[..n], c) + if events[n].StoreBuffer? && LastEcho(events[..n]) == Some(c) then 1 else 0
  }

  /** The results announced for replies to c. */
  function Results(events: seq<Event>, c: CallId): seq<uint32> {
    if events == [] then []
    else var n := |events| - 1;
         Results(events[..n], c)
         + if events[n].NotifyOwner? && LastEcho(events[..n]) == Some(c) then [events[n].error] else []
  }

  function BufferOf(s: State, c: CallId): seq<CallId> {
    if c in s.calls then s.calls[c].buffer else []
  }

  function ResultsOf(s: State, c: CallId): seq<uint32> {
    if c in s.calls && s.calls[c].notified.Some? then [s.calls[c].notified.value] else []
  }

  ghost predicate Echoes(s: State, src: Option<CallId>) {
    HasSlot(s.receiver) ==> s.receiver.src == src
  }

  lemma EchoStep(s: State, e: Event, src: Option<CallId>)
    requires WellFormed(s) && Enabled(s, e) && Echoes(s, src)
    ensures Echoes(Apply(s, e), EchoAfter(e, src))
  {
  }

  lemma DeliverStepCaller(s: State, e: Event, c: CallId)
    requires WellFormed(s) && Enabled(s, e) && ByCaller(e)
    ensures BufferOf(Apply(s, e), c) == BufferOf(s, c) && ResultsOf(Apply(s, e), c) == ResultsOf(s, c)
  {
  }

  lemma DeliverStepReceiver(s: State, e: Event, c: CallId, src: Option<CallId>)
    requires WellFormed(s) && Enabled(s, e) && !ByCaller(e) && ReceiverInv(s) && Echoes(s, src)
    requires s.receiver.Claimed? || s.receiver.Using? ==> CallInv(s, s.receiver.src.value)
    ensures BufferOf(Apply(s, e), c) == BufferOf(s, c) + if e.StoreBuffer? && src == Some(c) then [c] else []
    ensures ResultsOf(Apply(s, e), c) == ResultsOf(s, c) + if e.NotifyOwner? && src == Some(c) then [e.error] else []
  {
  }

  lemma {:induction false} FairLast(s: State, events: seq<Event>, t: State) returns (before: State)
    requires FairRun(s, events, t) && events != []
    ensures FairRun(s, events[..|events| - 1], before)
    ensures WellFormed(before) && Enabled(before, events[|events| - 1]) && Fair(before, events[|events| - 1])
    ensures t == Apply(before, events[|events| - 1])
    decreases |events|
  {
    hide WellFormed, Enabled, Apply, Fair;
    if |events| == 1 {
      before := s;
      assert events[1..] == [] && FairRun(s, events[..0], s);
    } else {
      var next := Apply(s, events[0]);
      before := FairLast(next, events[1..], t);
      var prefix := events[..|events| - 1];
      assert prefix[1..] == events[1..][..|events| - 2] && prefix[0] == events[0];
      assert events[1..][|events| - 2] == events[|events| - 1];
    }
  }

  /** In every run the buffer of a call holds what the receiver stored for replies to its own frame, no byte of it
      missing, and its result is the one announced for such a reply. */
  lemma {:induction false} DeliveredToOwner(events: seq<Event>, t: State, c: CallId)
    requires FairRun(Init(), events, t)
    ensures Echoes(t, LastEcho(events))
    ensures |BufferOf(t, c)| == Stores(events, c) && ResultsOf(t, c) == Results(events, c)
    decreases |events|
  {
    hide Inv, WellFormed, Enabled, Apply, Fair, BufferOf, ResultsOf, Echoes;
    if events == [] {
      NothingDeliveredYet(c);
    } else {
      var n, e := |events| - 1, events[|events| - 1];
      var before := FairLast(Init(), events, t);
      DeliveredToOwner(events[..n], before, c);
      EchoStep(before, e, LastEcho(events[..n]));
      assert Reachable(before);
      ReachableInv(before);
      DeliverStep(before, e, c, LastEcho(events[..n]));
    }
  }

  lemma NothingDeliveredYet(c: CallId)
    ensures Echoes(Init(), None) && BufferOf(Init(), c) == [] && ResultsOf(Init(), c) == []
  {
  }

  lemma DeliverStep(s: State, e: Event, c: CallId, src: Option<CallId>)
    requires Inv(s) && Enabled(s, e) && Echoes(s, src)
    ensures BufferOf(Apply(s, e), c) == BufferOf(s, c) + if e.StoreBuffer? && src == Some(c) then [c] else []
    ensures ResultsOf(Apply(s, e), c) == ResultsOf(s, c) + if e.NotifyOwner? && src == Some(c) then [e.error] else []
  {
    hide Apply, Enabled, BufferOf, ResultsOf, CallInv, SlotInv;
    if ByCaller(e) {
      DeliverStepCaller(s, e, c);
    } else {
      DeliverStepReceiver(s, e, c, src);
    }
  }

  /** What a call returns, by the events: the one result announced for a reply to its frame, the timeout, or -1 when
      its frame did not go out. */
  lemma ReturnsItsResult(events: seq<Event>, t: State, c: CallId)
    requires FairRun(Init(), events, t) && c in t.calls && t.calls[c].pc.Done?
    ensures var call := t.calls[c];
            && |Results(events, c)| <= 1
            && call.pc.code == (if Results(events, c) != [] then Results(events, c)[0]
                                else if call.sent then 0x745 else -1)
            && |call.buffer| == Stores(events, c) && (forall x <- call.buffer :: x == c)
            && (Results(events, c) == [] ==> Stores(events, c) == 0)
  {
    hide FairRun;
    DeliveredToOwner(events, t, c);
    assert Reachable(t);
    ReachableInv(t);
    assert CallInv(t, c);
  }

  /** The receiver's last event. */
  function LastStep(events: seq<Event>): Option<Event> {
    if events == [] then None
    else
      var e := events[|events| - 1];
      if ByCaller(e) || e.Tick? then LastStep(events[..|events| - 1]) else Some(e)
  }

  /** Where that leaves it. */
  predicate StageAfter(last: Option<Event>, r: Receiver) {
    match last
    case None | Some(NotifyOwner(_)) => r.Idle?
    case Some(ServerReply(src)) => r.Header? && r.src == Some(src)
    case Some(ForeignReply(id, slot)) => r == Header(id, slot, None)
    case Some(CompareExchange) => r.Idle? || r.Claimed?
    case Some(LoadRequest) | Some(StoreBuffer) => r.Using?
    case Some(HangUp) => r.Ended?
    case _ => false
  }

  lemma StageStep(s: State, e: Event, last: Option<Event>)
    requires WellFormed(s) && Enabled(s, e) && StageAfter(last, s.receiver)
    ensures StageAfter(if ByCaller(e) || e.Tick? then last else Some(e), Apply(s, e).receiver)
  {
  }

  /** In every run the receiver takes up each header, goes on with each reply until its result is announced, is ready
      for the next header then, and ends only with its connection. */
  lemma {:induction false} ReceiverStage(events: seq<Event>, t: State)
    requires Run(Init(), events, t)
    ensures StageAfter(LastStep(events), t.receiver)
    decreases |events|
  {
    hide WellFormed, Enabled, Apply;
    if events != [] {
      var before := RunLast(Init(), events, t);
      ReceiverStage(events[..|events| - 1], before);
      StageStep(before, events[|events| - 1], LastStep(events[..|events| - 1]));
    }
  }

  // ---- Who can go on ---------------------------------------------------------------------------

  ghost predicate CallerCanGoOn(t: State, c: CallId) {
    exists e :: ByCaller(e) && e.c == c && CanHappen(t, e)
  }

  /** A call's next event. */
  function NextOf(c: CallId, pc: Pc): Event {
    match pc
    case Numbering => Fetch(c)
    case Numbered => Reserve(c)
    case Reserved => Publish(c)
    case Published => Transmit(c)
    case Sent => SendReturns(c)
    case Waiting => Wake(c)
    case Woken => Exchange(c)
    case AwaitNotify => ReadResult(c)
    case SendFailed | Returning(_) => ReleaseCode(c)
    case SendCleared | Cleared(_) => ReleaseSlot(c)
    case Done(_) => Tick
  }

  lemma OnlyNext(t: State, c: CallId, e: Event)
    requires WellFormed(t) && c in t.calls && ByCaller(e) && e.c == c && Enabled(t, e)
    ensures !t.calls[c].pc.Done? && (e == NextOf(c, t.calls[c].pc) || t.calls[c].pc.Published?)
  {
  }

  lemma NextEnabledIff(t: State, c: CallId)
    requires Inv(t) && c in t.calls
    ensures WellFormed(t)
    ensures var pc := t.calls[c].pc;
            && (pc.Waiting? ==>
                  (Enabled(t, Wake(c)) <==> t.calls[c].claims == 1 || t.now >= t.calls[c].deadline))
            && (pc.AwaitNotify? ==>
                  (Enabled(t, ReadResult(c)) <==> !Serving(t.receiver, c) && t.receiver != Ended(Some(c))))
            && (!pc.Waiting? && !pc.AwaitNotify? ==> Enabled(t, NextOf(c, pc)))
  {
    assert CallInv(t, c) && SlotInv(t, t.calls[c].slot);
  }

  /** In every fair run a call is held up only while it waits for an answer within its time, and while the receiver
      works on its reply or has died over it. */
  lemma HeldUpIff(t: State, c: CallId)
    requires Reachable(t) && c in t.calls
    ensures CallerCanGoOn(t, c) <==>
            match t.calls[c].pc
            case Done(_) => false
            case Waiting => t.calls[c].claims == 1 || t.now >= t.calls[c].deadline
            case AwaitNotify => !Serving(t.receiver, c) && t.receiver != Ended(Some(c))
            case _ => true
  {
    ReachableInv(t);
    NextEnabledIff(t, c);
    hide Inv, Reachable, Enabled, CanHappen, Run;
    var next := NextOf(c, t.calls[c].pc);
    CanHappenIff(t, next);
    if e :| ByCaller(e) && e.c == c && CanHappen(t, e) {
      CanHappenIff(t, e);
      OnlyNext(t, c, e);
    }
  }

  lemma ReceiverEnabled(t: State)
    requires Inv(t) && HasSlot(t.receiver)
    ensures WellFormed(t) && (t.receiver.Header? || t.receiver.Claimed? || t.receiver.Using?)
    ensures t.receiver.Header? ==> Enabled(t, CompareExchange)
    ensures t.receiver.Claimed? ==> Enabled(t, LoadRequest)
    ensures t.receiver.Using? ==> Enabled(t, StoreBuffer)
    ensures !t.receiver.Header? ==> forall error :: Enabled(t, NotifyOwner(error))
  {
    hide CallInv, SlotInv;
  }

  /** The receiver can go on with every reply it has begun, to its end, and can announce a result at any time. */
  lemma ReceiverGoesOn(t: State)
    requires Reachable(t) && HasSlot(t.receiver)
    ensures t.receiver.Header? ==> CanHappen(t, CompareExchange)
    ensures t.receiver.Claimed? ==> CanHappen(t, LoadRequest)
    ensures t.receiver.Using? ==> CanHappen(t, StoreBuffer)
    ensures !t.receiver.Header? ==> forall error :: CanHappen(t, NotifyOwner(error))
  {
    ReachableInv(t);
    ReceiverEnabled(t);
    hide *;
    CanHappenIff(t, CompareExchange);
    CanHappenIff(t, LoadRequest);
    CanHappenIff(t, StoreBuffer);
    forall error
      ensures !t.receiver.Header? ==> CanHappen(t, NotifyOwner(error))
    {
      CanHappenIff(t, NotifyOwner(error));
    }
  }

  /** Nothing is assumed about what comes from outside: new calls, failing sends, headers of any kind, the end of the
      connection, and time that passes. */
  lemma AnythingMayCome(t: State)
    requires WellFormed(t)
    ensures CanHappen(t, Tick) && (!t.receiver.Ended? ==> CanHappen(t, HangUp))
    ensures forall c: CallId, slot: nat, tmms: nat :: c !in t.calls && slot < 128 ==> CanHappen(t, Begin(c, slot, tmms))
    ensures forall c: CallId :: At(t, c, Published) ==> CanHappen(t, Transmit(c)) && CanHappen(t, SendFails(c))
    ensures t.receiver.Idle? ==>
              && (forall c: CallId :: c in t.calls && t.calls[c].sent ==> CanHappen(t, ServerReply(c)))
              && (forall id: uint32, slot: nat :: slot < 128 ==> CanHappen(t, ForeignReply(id, slot)))
  {
    hide CanHappen;
    forall e: Event
      ensures CanHappen(t, e) <==> Enabled(t, e)
    {
      CanHappenIff(t, e);
    }
  }

  // ---- Why the assumptions are there -----------------------------------------------------------

  /** A reply with id 0 claims a slot that nobody uses: the receiver is left with a null request. */
  lemma ZeroIdClaimsFreeSlot()
    ensures exists t :: Run(Init(), [ForeignReply(0, 0), CompareExchange, LoadRequest], t)
                        && t.receiver == Using(0, None, None)
  {
    hide Run;
    var s1 := Apply(Init(), ForeignReply(0, 0));
    var s2 := Apply(s1, CompareExchange);
    var s3 := Apply(s2, LoadRequest);
    RunThree(Init(), ForeignReply(0, 0), s1, CompareExchange, s2, LoadRequest, s3);
  }

  /** The slot waits for the answer to a frame that went out and that nobody has claimed. */
  ghost predicate AwaitsReply(s: State, i: nat)
    requires WellFormed(s) && i < |s.slots|
  {
    var r := s.slots[i].request;
    r.Some? && r.value in s.calls && InFlight(s.calls[r.value].pc) && s.calls[r.value].claims == 0
  }

  /** A header that echoes no call does no harm, that is, it is ignored or takes the id of a call that waits,
      iff its id is not the slot's or the slot's id is one whose frame went out. The id 0 of a free slot and
      the id a failed send leaves behind are not. */
  lemma ForeignReplyHarmlessIff(s: State, id: uint32, i: nat)
    requires Inv(s) && s.receiver.Idle? && i < |s.slots|
    ensures s.slots[i].holder.Some? ==> s.slots[i].holder.value in s.calls
    ensures var t := Apply(Apply(s, ForeignReply(id, i)), CompareExchange);
            var holder := s.slots[i].holder;
            t.receiver.Idle? || AwaitsReply(s, i)
            <==> s.slots[i].invokeId != id || (holder.Some? && s.calls[holder.value].sent)
  {
    var slot := s.slots[i];
    assert SlotInv(s, i);
    if slot.holder.Some? {
      assert CallInv(s, slot.holder.value);
    }
    if slot.request.Some? {
      assert CallInv(s, slot.request.value);
    }
  }

  /** Without the bound on fetches: when an echo meets its id in its slot, it is the slot's own reply iff
      fewer than 2^32 fetches lie between the two ids. */
  lemma OwnReplyIffRecent(s: State)
    requires Inv(s) && s.receiver.Header? && s.receiver.src.Some?
    requires s.slots[s.receiver.slot].invokeId == s.receiver.id
    ensures s.slots[s.receiver.slot].holder.Some? && s.slots[s.receiver.slot].holder.value in s.calls
    ensures var h := s.slots[s.receiver.slot].holder.value;
            h == s.receiver.src.value
            <==> Distance(s.calls[h].ticket, s.calls[s.receiver.src.value].ticket) < 0x1_0000_0000
  {
    var i := s.receiver.slot;
    assert SlotInv(s, i) && CallInv(s, s.receiver.src.value);
    var h, src := s.slots[i].holder.value, s.receiver.src.value;
    if Distance(s.calls[h].ticket, s.calls[src].ticket) < ID_SPACE {
      SameIdSameTicket(s.calls[h].ticket, s.calls[src].ticket);
    }
  }

  /** The caller waits for a result, nobody is going to announce one, and nobody else can use its slot. */
  ghost predicate Stuck(s: State, c: CallId) {
    && WellFormed(s) && At(s, c, AwaitNotify)
    && var i := s.calls[c].slot;
       && s.slots[i].request == Some(c) && s.slots[i].invokeId == 0 && s.slots[i].errorCode == WAITING_FOR_RESPONSE
       && (HasSlot(s.receiver) && s.receiver.slot == i ==> s.receiver.Header? && s.receiver.id != 0)
       && (forall d :: d in s.calls && d != c && s.calls[d].slot == i ==> !Owning(s.calls[d].pc))
       && (forall d :: d in s.calls && s.calls[d].sent ==> HasTicket(s.calls[d].pc))
       && (forall d :: d in s.calls && HasTicket(s.calls[d].pc) ==> IdOf(s.calls[d].ticket) != 0)
  }

  /** A header with the id 0 for the slot of a stuck caller. */
  predicate Rescues(e: Event, slot: nat) {
    e == ForeignReply(0, slot)
  }

  lemma StuckOwnStep(s: State, e: Event, c: CallId)
    requires Stuck(s, c) && ByCaller(e) && !e.Begin? && e.c == c
    ensures !Enabled(s, e)
  {
  }

  lemma StuckBeginStep(s: State, e: Event, c: CallId)
    requires Stuck(s, c) && Enabled(s, e) && (e.Begin? || e.Fetch?) && e.c != c && WellFormed(Apply(s, e))
    ensures Stuck(Apply(s, e), c) && Apply(s, e).calls[c].slot == s.calls[c].slot
  {
  }

  lemma StuckRequestStep(s: State, e: Event, c: CallId)
    requires Stuck(s, c) && Enabled(s, e) && ByRequest(e) && !e.Begin? && !e.Fetch? && e.c != c
    requires WellFormed(Apply(s, e))
    ensures Stuck(Apply(s, e), c) && Apply(s, e).calls[c].slot == s.calls[c].slot
  {
  }

  lemma StuckWaitStep(s: State, e: Event, c: CallId)
    requires Stuck(s, c) && Enabled(s, e) && ByCaller(e) && !ByRequest(e) && e.c != c && WellFormed(Apply(s, e))
    ensures Stuck(Apply(s, e), c) && Apply(s, e).calls[c].slot == s.calls[c].slot
  {
  }

  lemma StuckReceiverStep(s: State, e: Event, c: CallId)
    requires Stuck(s, c) && Enabled(s, e) && !ByCaller(e) && !Rescues(e, s.calls[c].slot) && WellFormed(Apply(s, e))
    ensures Stuck(Apply(s, e), c) && Apply(s, e).calls[c].slot == s.calls[c].slot
  {
  }

  lemma StuckStep(s: State, e: Event, c: CallId)
    requires Stuck(s, c) && Enabled(s, e) && !Rescues(e, s.calls[c].slot)
    ensures Stuck(Apply(s, e), c) && Apply(s, e).calls[c].slot == s.calls[c].slot
  {
    hide Apply, Enabled;
    WellFormedStep(s, e);
    if ByCaller(e) && !e.Begin? && e.c == c {
      StuckOwnStep(s, e, c);
    } else if !ByCaller(e) {
      StuckReceiverStep(s, e, c);
    } else if e.Begin? && e.c == c {
      NoSecondBegin(s, e);
    } else if e.Begin? || e.Fetch? {
      StuckBeginStep(s, e, c);
    } else if ByRequest(e) {
      StuckRequestStep(s, e, c);
    } else {
      StuckWaitStep(s, e, c);
    }
  }

  lemma NoSecondBegin(s: State, e: Event)
    requires WellFormed(s) && Enabled(s, e) && e.Begin?
    ensures e.c !in s.calls
  {
  }

  /** Announcing a result lets the waiting caller return iff the result is not the waiting code itself. */
  lemma WakesIffRealResult(s: State, c: CallId, error: uint32)
    requires Inv(s) && Serving(s.receiver, c) && At(s, c, AwaitNotify)
    ensures var t := Apply(s, NotifyOwner(error));
            WellFormed(t)
            && (error != 0xFFFF_FFFF ==> Enabled(t, ReadResult(c)))
            && (error == 0xFFFF_FFFF ==> Stuck(t, c))
  {
    WellFormedStep(s, NotifyOwner(error));
    assert CallInv(s, c) && SlotInv(s, s.calls[c].slot);
    forall d | d in s.calls
      ensures s.calls[d].sent ==> HasTicket(s.calls[d].pc)
      ensures HasTicket(s.calls[d].pc) ==> IdOf(s.calls[d].ticket) != 0
      ensures d != c && s.calls[d].slot == s.calls[c].slot ==> !Owning(s.calls[d].pc)
    {
      assert CallInv(s, d);
    }
  }

  /** A stuck caller never returns, whatever anyone does, as long as no header with the id 0 comes for its slot. */
  lemma {:induction false} StuckForever(s: State, events: seq<Event>, t: State, c: CallId)
    requires Stuck(s, c) && Run(s, events, t)
    requires forall e <- events :: !Rescues(e, s.calls[c].slot)
    ensures At(t, c, AwaitNotify)
    decreases |events|
  {
    if events != [] {
      StuckStep(s, events[0], c);
      hide Stuck, Apply, Enabled;
      StuckForever(Apply(s, events[0]), events[1..], t, c);
    }
  }

  /** Such a header, which claims the slot because the slot shows the id 0, is the way out. */
  lemma RescuedByZeroId(s: State, c: CallId, error: uint32)
    requires Stuck(s, c) && s.receiver.Idle? && error != WAITING_FOR_RESPONSE
    ensures exists t :: Run(s, [ForeignReply(0, s.calls[c].slot), CompareExchange, NotifyOwner(error)], t)
                        && WellFormed(t) && Enabled(t, ReadResult(c))
  {
    var i := s.calls[c].slot;
    var t1 := Apply(s, ForeignReply(0, i));
    var t2 := ZeroIdClaimed(t1, c);
    ResultRead(t2, c, error);
    hide Apply, Enabled, WellFormed, Stuck;
    RunNothing(s);
    Then(s, [], s, ForeignReply(0, i));
    Then(s, [] + [ForeignReply(0, i)], t1, CompareExchange);
    Then(s, [] + [ForeignReply(0, i)] + [CompareExchange], t2, NotifyOwner(error));
    assert [] + [ForeignReply(0, i)] + [CompareExchange] + [NotifyOwner(error)]
        == [ForeignReply(0, i), CompareExchange, NotifyOwner(error)];
  }

  lemma ZeroIdClaimed(s: State, c: CallId) returns (t: State)
    requires WellFormed(s) && At(s, c, AwaitNotify) && s.receiver == Header(0, s.calls[c].slot, None)
    requires s.slots[s.calls[c].slot].request == Some(c) && s.slots[s.calls[c].slot].invokeId == 0
    ensures Enabled(s, CompareExchange) && t == Apply(s, CompareExchange)
    ensures WellFormed(t) && At(t, c, AwaitNotify) && t.receiver == Claimed(t.calls[c].slot, None)
    ensures t.calls[c].slot == s.calls[c].slot && t.slots[t.calls[c].slot].request == Some(c)
  {
    t := Apply(s, CompareExchange);
  }

  lemma ResultRead(s: State, c: CallId, error: uint32)
    requires WellFormed(s) && At(s, c, AwaitNotify) && s.receiver == Claimed(s.calls[c].slot, None)
    requires s.slots[s.calls[c].slot].request == Some(c) && error != WAITING_FOR_RESPONSE
    ensures Enabled(s, NotifyOwner(error))
    ensures var t := Apply(s, NotifyOwner(error)); WellFormed(t) && Enabled(t, ReadResult(c))
  {
  }

  // ---- When the connection is lost -------------------------------------------------------------

  /** The caller has not returned, its id is taken, and the receiver's thread is gone without a result. */
  ghost predicate Abandoned(s: State, c: CallId) {
    && WellFormed(s) && s.receiver.Ended? && c in s.calls && (InFlight(s.calls[c].pc) || s.calls[c].pc.AwaitNotify?)
    && var i := s.calls[c].slot;
       && s.slots[i].request == Some(c) && s.slots[i].invokeId == 0 && s.slots[i].errorCode == WAITING_FOR_RESPONSE
       && (forall d :: d in s.calls && d != c && s.calls[d].slot == i ==> !Owning(s.calls[d].pc))
  }

  lemma AbandonedOwnStep(s: State, e: Event, c: CallId)
    requires Abandoned(s, c) && Enabled(s, e) && ByCaller(e) && !e.Begin? && e.c == c
    ensures Abandoned(Apply(s, e), c)
  {
  }

  lemma AbandonedRequestStep(s: State, e: Event, c: CallId)
    requires Abandoned(s, c) && Enabled(s, e) && ByRequest(e) && e.c != c && WellFormed(Apply(s, e))
    ensures Abandoned(Apply(s, e), c)
  {
  }

  lemma AbandonedWaitStep(s: State, e: Event, c: CallId)
    requires Abandoned(s, c) && Enabled(s, e) && ByCaller(e) && !ByRequest(e) && e.c != c && WellFormed(Apply(s, e))
    ensures Abandoned(Apply(s, e), c)
  {
  }

  /** Nothing comes from the receiver any more. */
  lemma AbandonedReceiverStep(s: State, e: Event, c: CallId)
    requires Abandoned(s, c) && Enabled(s, e) && !ByCaller(e)
    ensures Abandoned(Apply(s, e), c)
  {
  }

  lemma AbandonedStep(s: State, e: Event, c: CallId)
    requires Abandoned(s, c) && Enabled(s, e)
    ensures Abandoned(Apply(s, e), c)
  {
    hide Apply, Enabled, Owning;
    WellFormedStep(s, e);
    if !ByCaller(e) {
      AbandonedReceiverStep(s, e, c);
    } else if e.c != c {
      if ByRequest(e) {
        AbandonedRequestStep(s, e, c);
      } else {
        AbandonedWaitStep(s, e, c);
      }
    } else if e.Begin? {
      NoSecondBegin(s, e);
    } else {
      AbandonedOwnStep(s, e, c);
    }
  }

  lemma {:induction false} AbandonedForever(s: State, events: seq<Event>, t: State, c: CallId)
    requires Abandoned(s, c) && Run(s, events, t)
    ensures Abandoned(t, c)
    decreases |events|
  {
    if events != [] {
      AbandonedStep(s, events[0], c);
      hide Abandoned, Apply, Enabled;
      AbandonedForever(Apply(s, events[0]), events[1..], t, c);
    }
  }

  lemma EndedIsAbandoned(t: State, c: CallId)
    requires Inv(t) && t.receiver == Ended(Some(c))
    ensures Abandoned(t, c)
  {
    assert CallInv(t, c) && SlotInv(t, t.calls[c].slot);
    forall d | d in t.calls && d != c && t.calls[d].slot == t.calls[c].slot
      ensures !Owning(t.calls[d].pc)
    {
      assert CallInv(t, d);
    }
  }

  /** When the receiver's thread ends while it serves a call, that call never returns, whatever anyone does. */
  lemma HangUpLosesCaller(t: State, c: CallId, events: seq<Event>, u: State)
    requires Reachable(t) && t.receiver == Ended(Some(c)) && Run(t, events, u)
    ensures c in u.calls && (InFlight(u.calls[c].pc) || u.calls[c].pc.AwaitNotify?)
  {
    ReachableInv(t);
    EndedIsAbandoned(t, c);
    AbandonedForever(t, events, u, c);
  }

  // ---- Runs that show it -----------------------------------------------------------------------

  lemma RunNothing(s: State)
    ensures Run(s, [], s)
  {
  }

  /** One more event at the end of a run. */
  lemma {:induction false} Then(s: State, events: seq<Event>, t: State, e: Event)
    requires Run(s, events, t) && WellFormed(t) && Enabled(t, e)
    ensures Run(s, events + [e], Apply(t, e))
    decreases |events|
  {
    hide Apply, Enabled, WellFormed;
    if events == [] {
      RunNothing(Apply(t, e));
      assert ([] + [e])[1..] == [];
    } else {
      Then(Apply(s, events[0]), events[1..], t, e);
      assert (events + [e])[1..] == events[1..] + [e];
    }
  }

  lemma {:induction false} RunTwice(s: State, first: seq<Event>, t: State, second: seq<Event>, u: State)
    requires Run(s, first, t) && Run(t, second, u)
    ensures Run(s, first + second, u)
    decreases |first|
  {
    hide Apply, Enabled, WellFormed;
    if first == [] {
      assert first + second == second;
    } else {
      RunTwice(Apply(s, first[0]), first[1..], t, second, u);
      assert (first + second)[1..] == first[1..] + second;
    }
  }

  /** A call that has done nothing but taking its number. */
  predicate Idling(call: Call) {
    !call.sent && (call.pc.Numbering? || call.pc == Numbered) && (HasTicket(call.pc) ==> IdOf(call.ticket) != 0)
  }

  /** n calls that only get as far as their number. */
  lemma {:induction false} Burn(s: State, c: CallId, n: nat) returns (events: seq<Event>, t: State)
    requires WellFormed(s) && forall d :: d in s.calls ==> d < c
    ensures Run(s, events, t) && WellFormed(t)
    ensures t.now == s.now && t.fetched == s.fetched + n && t.slots == s.slots && t.receiver == s.receiver
    ensures forall d :: d in s.calls ==> d in t.calls && t.calls[d] == s.calls[d]
    ensures forall d :: d in t.calls && d !in s.calls ==> d < c + n && Idling(t.calls[d])
    ensures Clean(events, false)
    decreases n
  {
    if n == 0 {
      events, t := [], s;
    } else {
      var next := BurnOne(s, c);
      hide Apply, Enabled, WellFormed, Run;
      var rest;
      rest, t := Burn(next, c + 1, n - 1);
      events := [Begin(c, 0, 0), Fetch(c)] + rest;
      Onward(s, [Begin(c, 0, 0), Fetch(c)], next, rest, t, false);
    }
  }

  lemma BurnOne(s: State, c: CallId) returns (t: State)
    requires WellFormed(s) && c !in s.calls
    ensures Run(s, [Begin(c, 0, 0), Fetch(c)], t) && WellFormed(t)
    ensures t.now == s.now && t.fetched == s.fetched + 1 && t.slots == s.slots && t.receiver == s.receiver
    ensures c in t.calls && Idling(t.calls[c]) && t.calls == s.calls[c := t.calls[c]]
  {
    hide Run;
    var s1 := Apply(s, Begin(c, 0, 0));
    t := Apply(s1, Fetch(c));
    RunBoth(s, Begin(c, 0, 0), s1, Fetch(c), t);
  }

  /** What a slot and a call look like when the call's frame is out. */
  ghost predicate FrameOut(s: State, t: State, c: CallId, i: nat)
    requires i < |s.slots|
  {
    && t.now == s.now && t.fetched == s.fetched + 1 && t.receiver == s.receiver
    && t.slots == s.slots[i := Slot(Some(c), IdOf(s.fetched), s.slots[i].errorCode, Some(c))]
    && t.calls == s.calls[c := Call(i, s.now, Sent, s.fetched, true, [], None, None, 0, 0, 0)]
  }

  function Sending(c: CallId, i: nat): seq<Event> {
    [Begin(c, i, 0), Fetch(c), Reserve(c), Publish(c), Transmit(c)]
  }

  lemma SendFrame(s: State, c: CallId, i: nat) returns (t: State)
    requires WellFormed(s) && c !in s.calls && i < |s.slots| && s.slots[i].request.None? && IdOf(s.fetched) != 0
    ensures Run(s, Sending(c, i), t) && WellFormed(t) && FrameOut(s, t, c, i)
  {
    var s2 := BeginAndFetch(s, c, i);
    t := ReserveAndSend(s, s2, c, i);
    hide Apply, Enabled, WellFormed, FrameOut;
    assert Sending(c, i) == [Begin(c, i, 0), Fetch(c)] + [Reserve(c), Publish(c), Transmit(c)];
    RunTwice(s, [Begin(c, i, 0), Fetch(c)], s2, [Reserve(c), Publish(c), Transmit(c)], t);
  }

  lemma BeginAndFetch(s: State, c: CallId, i: nat) returns (t: State)
    requires WellFormed(s) && c !in s.calls && i < |s.slots| && IdOf(s.fetched) != 0
    ensures Run(s, [Begin(c, i, 0), Fetch(c)], t) && WellFormed(t)
    ensures t == s.(fetched := s.fetched + 1,
                    calls := s.calls[c := Call(i, s.now, Numbered, s.fetched, false, [], None, None, 0, 0, 0)])
  {
    var s1 := Apply(s, Begin(c, i, 0));
    t := Apply(s1, Fetch(c));
    assert [Begin(c, i, 0), Fetch(c)][1..] == [Fetch(c)];
    RunNothing(t);
    assert Run(s1, [Fetch(c)], t);
  }

  lemma ReserveAndSend(s: State, s2: State, c: CallId, i: nat) returns (t: State)
    requires WellFormed(s) && i < |s.slots| && s.slots[i].request.None? && WellFormed(s2)
    requires s2 == s.(fetched := s.fetched + 1,
                      calls := s.calls[c := Call(i, s.now, Numbered, s.fetched, false, [], None, None, 0, 0, 0)])
    ensures Run(s2, [Reserve(c), Publish(c), Transmit(c)], t) && WellFormed(t) && FrameOut(s, t, c, i)
  {
    hide Run;
    var s3 := Apply(s2, Reserve(c));
    var s4 := Apply(s3, Publish(c));
    assert Enabled(s2, Reserve(c)) && WellFormed(s3) && Enabled(s3, Publish(c)) && WellFormed(s4);
    var slot := Slot(Some(c), IdOf(s.fetched), s.slots[i].errorCode, Some(c));
    t := SendPublished(s, s4, c, i, slot);
    hide Apply, Enabled, WellFormed, FrameOut;
    RunThree(s2, Reserve(c), s3, Publish(c), s4, Transmit(c), t);
  }

  lemma SendPublished(s: State, s4: State, c: CallId, i: nat, slot: Slot) returns (t: State)
    requires WellFormed(s) && i < |s.slots| && WellFormed(s4)
    requires slot == Slot(Some(c), IdOf(s.fetched), s.slots[i].errorCode, Some(c))
    requires s4.now == s.now && s4.fetched == s.fetched + 1 && s4.receiver == s.receiver
    requires s4.slots == s.slots[i := slot]
    requires s4.calls == s.calls[c := Call(i, s.now, Published, s.fetched, false, [], None, None, 0, 0, 0)]
    ensures Enabled(s4, Transmit(c)) && t == Apply(s4, Transmit(c)) && WellFormed(t) && FrameOut(s, t, c, i)
  {
    t := Apply(s4, Transmit(c));
  }

  lemma RunBoth(s: State, a: Event, s1: State, b: Event, t: State)
    requires WellFormed(s) && Enabled(s, a) && s1 == Apply(s, a)
    requires WellFormed(s1) && Enabled(s1, b) && t == Apply(s1, b)
    ensures Run(s, [a, b], t)
  {
    hide Apply, Enabled, WellFormed;
    RunNothing(t);
    assert [a, b][1..] == [b];
    assert Run(s1, [b], t);
  }

  lemma RunThree(s: State, a: Event, s1: State, b: Event, s2: State, c: Event, t: State)
    requires WellFormed(s) && Enabled(s, a) && s1 == Apply(s, a)
    requires WellFormed(s1) && Enabled(s1, b) && s2 == Apply(s1, b)
    requires WellFormed(s2) && Enabled(s2, c) && t == Apply(s2, c)
    ensures Run(s, [a, b, c], t)
  {
    hide Apply, Enabled, WellFormed;
    RunNothing(t);
    assert [a, b, c][1..] == [b, c] && [b, c][1..] == [c];
    assert Run(s2, [c], t);
  }

  /** The slots at rest, before a frame goes out in slot 0. */
  ghost predicate Quiet(s: State) {
    && WellFormed(s) && s.receiver.Idle? && IdOf(s.fetched) != 0
    && s.slots[0] == Slot(None, 0, WAITING_FOR_RESPONSE, None)
    && forall d :: d in s.calls ==> Idling(s.calls[d])
  }

  lemma FirstId() returns (events: seq<Event>, t: State)
    ensures Run(Init(), events, t) && Clean(events, false) && Quiet(t) && t.fetched == 1
    ensures forall d :: d in t.calls ==> d < 1
  {
    events, t := Burn(Init(), 0, 1);
  }

  /** Headers that echo no call do not come, or come with other ids than 0. */
  predicate Clean(events: seq<Event>, allowed: bool) {
    forall e <- events :: e.ForeignReply? ==> allowed && e.id != 0
  }

  lemma Onward(s: State, first: seq<Event>, t: State, second: seq<Event>, u: State, allowed: bool)
    requires Run(s, first, t) && Clean(first, allowed) && Run(t, second, u) && Clean(second, allowed)
    ensures Run(s, first + second, u) && Clean(first + second, allowed)
  {
    RunTwice(s, first, t, second, u);
  }

  /** The id that a failed send leaves in its slot: a header with that id claims the slot, and its request is gone when
      the receiver looks. */
  lemma FailedSendIdClaimed() returns (events: seq<Event>, t: State)
    ensures Run(Init(), events, t) && t.receiver == Using(0, None, None)
    ensures Clean(events, true)
  {
    var first, s := FirstId();
    var second;
    second, t := FailsAndIsClaimed(s);
    hide *;
    RunTwice(Init(), first, s, second, t);
    CleanMore(first, second);
    events := first + second;
  }

  lemma CleanMore(first: seq<Event>, second: seq<Event>)
    requires Clean(first, false) && Clean(second, true)
    ensures Clean(first + second, true)
  {
  }

  lemma FailsAndIsClaimed(s: State) returns (events: seq<Event>, t: State)
    requires Quiet(s) && s.fetched == 1 && 1 !in s.calls
    ensures Run(s, events, t) && t.receiver == Using(0, None, None) && Clean(events, true)
  {
    var s1 := BeginAndFetch(s, 1, 0);
    var s2 := SendThatFails(s, s1, 1);
    hide *;
    var s3 := LeftIdClaimed(s2, 1);
    t := RequestGone(s3, 1);
    var a, b, c := [Begin(1, 0, 0), Fetch(1)], [Reserve(1), Publish(1), SendFails(1)],
                   [ForeignReply(1, 0), CompareExchange];
    var d := [ReleaseCode(1), ReleaseSlot(1), LoadRequest];
    NoZeroId();
    Onward(s, a, s1, b, s2, true);
    Onward(s, a + b, s2, c, s3, true);
    Onward(s, a + b + c, s3, d, t, true);
    events := a + b + c + d;
  }

  lemma NoZeroId()
    ensures Clean([Begin(1, 0, 0), Fetch(1)], true) && Clean([Reserve(1), Publish(1), SendFails(1)], true)
    ensures Clean([ForeignReply(1, 0), CompareExchange], true)
    ensures Clean([ReleaseCode(1), ReleaseSlot(1), LoadRequest], true)
  {
  }

  lemma SendThatFails(s: State, s1: State, c: CallId) returns (t: State)
    requires Quiet(s) && c !in s.calls && WellFormed(s1)
    requires s1 == s.(fetched := s.fetched + 1,
                      calls := s.calls[c := Call(0, s.now, Numbered, s.fetched, false, [], None, None, 0, 0, 0)])
    ensures Run(s1, [Reserve(c), Publish(c), SendFails(c)], t) && WellFormed(t) && t.receiver.Idle?
    ensures At(t, c, Pc.SendFailed) && t.calls[c].slot == 0
    ensures t.slots[0] == Slot(Some(c), IdOf(s.fetched), WAITING_FOR_RESPONSE, Some(c))
  {
    hide IdOf, Run;
    var s2 := Apply(s1, Reserve(c));
    var s3 := Apply(s2, Publish(c));
    t := Apply(s3, SendFails(c));
    assert Enabled(s1, Reserve(c)) && WellFormed(s2) && Enabled(s2, Publish(c)) && WellFormed(s3);
    assert Enabled(s3, SendFails(c));
    RunThree(s1, Reserve(c), s2, Publish(c), s3, SendFails(c), t);
  }

  lemma LeftIdClaimed(s: State, c: CallId) returns (t: State)
    requires WellFormed(s) && s.receiver.Idle? && At(s, c, Pc.SendFailed) && s.calls[c].slot == 0
    requires s.slots[0] == Slot(Some(c), 1, WAITING_FOR_RESPONSE, Some(c))
    ensures Run(s, [ForeignReply(1, 0), CompareExchange], t) && WellFormed(t) && t.receiver == Claimed(0, None)
    ensures At(t, c, Pc.SendFailed) && t.calls[c].slot == 0 && t.slots[0].request == Some(c)
  {
    var s1 := Apply(s, ForeignReply(1, 0));
    t := Apply(s1, CompareExchange);
    RunNothing(t);
    assert [ForeignReply(1, 0), CompareExchange][1..] == [CompareExchange];
    assert Run(s1, [CompareExchange], t);
  }

  lemma RequestGone(s: State, c: CallId) returns (t: State)
    requires WellFormed(s) && s.receiver == Claimed(0, None) && At(s, c, Pc.SendFailed) && s.calls[c].slot == 0
    ensures Run(s, [ReleaseCode(c), ReleaseSlot(c), LoadRequest], t) && t.receiver == Using(0, None, None)
  {
    hide Run;
    var s1 := Apply(s, ReleaseCode(c));
    var s2 := Apply(s1, ReleaseSlot(c));
    t := Apply(s2, LoadRequest);
    assert WellFormed(s1) && Enabled(s1, ReleaseSlot(c)) && WellFormed(s2) && Enabled(s2, LoadRequest);
    RunThree(s, ReleaseCode(c), s1, ReleaseSlot(c), s2, LoadRequest, t);
  }

  /** Call 1 has slot 0, its frame is out, and all the others are idling. */
  ghost predicate Alone(s: State, pc: Pc, slot: Slot, receiver: Receiver) {
    && WellFormed(s) && At(s, 1, pc) && s.slots[0] == slot && s.receiver == receiver
    && s.calls[1].slot == 0 && s.calls[1].sent && s.calls[1].ticket == 1 && s.calls[1].deadline <= s.now
    && forall d :: d in s.calls && d != 1 ==> d < 1 && Idling(s.calls[d])
  }

  /** The slot of call 1 when it shows its id, when the id was taken, and when it is free again. */
  function Shown(): Slot {
    Slot(Some(1), 1, WAITING_FOR_RESPONSE, Some(1))
  }

  function Hidden(): Slot {
    Slot(Some(1), 0, WAITING_FOR_RESPONSE, None)
  }

  function Free(): Slot {
    Slot(None, 0, WAITING_FOR_RESPONSE, None)
  }

  lemma SendFirst(s: State) returns (t: State)
    requires Quiet(s) && s.fetched == 1 && forall d :: d in s.calls ==> d < 1
    ensures Run(s, Sending(1, 0), t) && Alone(t, Sent, Shown(), Idle) && t.fetched == 2
  {
    hide Run;
    t := SendFrame(s, 1, 0);
  }

  /** A run with an honest server in which the result is the waiting code: the caller is stuck. */
  lemma WaitingCodeSticks() returns (events: seq<Event>, t: State)
    ensures Run(Init(), events, t) && Stuck(t, 1) && Clean(events, false)
  {
    var first, s := FirstId();
    hide *;
    var s1 := SendFirst(s);
    var s2 := Answered(s1);
    t := ToldToWait(s2);
    var a, b, c := Sending(1, 0), [ServerReply(1), CompareExchange, SendReturns(1)],
                   [Wake(1), Exchange(1), NotifyOwner(WAITING_FOR_RESPONSE)];
    NothingForeign();
    Onward(Init(), first, s, a, s1, false);
    Onward(Init(), first + a, s1, b, s2, false);
    Onward(Init(), first + a + b, s2, c, t, false);
    events := first + a + b + c;
  }

  /** A run with an honest server in which the connection is lost in the middle of a reply: the caller is left alone. */
  lemma HangUpMidReply() returns (events: seq<Event>, t: State)
    ensures Run(Init(), events, t) && t.receiver == Ended(Some(1)) && Abandoned(t, 1) && Clean(events, false)
  {
    var first, s := FirstId();
    hide *;
    var s1 := SendFirst(s);
    var s2 := Answered(s1);
    t := LostMidReply(s2);
    var a, b, c := Sending(1, 0), [ServerReply(1), CompareExchange, SendReturns(1)], [Wake(1), Exchange(1), HangUp];
    NothingForeign();
    Onward(Init(), first, s, a, s1, false);
    Onward(Init(), first + a, s1, b, s2, false);
    Onward(Init(), first + a + b, s2, c, t, false);
    events := first + a + b + c;
  }

  lemma LostMidReply(s: State) returns (t: State)
    requires Alone(s, Waiting, Hidden(), Claimed(0, Some(1)))
    ensures Run(s, [Wake(1), Exchange(1), HangUp], t) && t.receiver == Ended(Some(1)) && Abandoned(t, 1)
  {
    hide Run;
    var s1 := Apply(s, Wake(1));
    assert Alone(s1, Woken, Hidden(), Claimed(0, Some(1)));
    var s2 := Apply(s1, Exchange(1));
    assert Alone(s2, AwaitNotify, Hidden(), Claimed(0, Some(1)));
    t := Apply(s2, HangUp);
    RunThree(s, Wake(1), s1, Exchange(1), s2, HangUp, t);
  }

  /** A run in which a reply with the id 0 and an error leaves that error in a free slot. The next call of the slot
      returns with it while the receiver is still busy with its real reply, and is about to write to its buffer. */
  lemma StaleResultReturnsEarly(error: uint32) returns (events: seq<Event>, t: State)
    requires error != WAITING_FOR_RESPONSE
    ensures Run(Init(), events, t) && At(t, 1, Done(error))
    ensures t.receiver == Using(0, Some(1), Some(1)) && WellFormed(t) && Enabled(t, StoreBuffer)
  {
    var first, s := FirstId();
    hide *;
    var s1 := LeavesResult(s, error);
    var s2 := SendFrame(s1, 1, 0);
    var s3 := AnsweredLate(s1, s2, error);
    var s4 := SeesStaleResult(s3, error);
    t := ReturnsEarly(s4, error);
    var a, b := [ForeignReply(0, 0), CompareExchange, NotifyOwner(error)], Sending(1, 0);
    var c, d := [SendReturns(1), ServerReply(1), CompareExchange], [LoadRequest, Wake(1), Exchange(1)];
    var e := [ReadResult(1), ReleaseCode(1), ReleaseSlot(1)];
    RunTwice(Init(), first, s, a, s1);
    RunTwice(Init(), first + a, s1, b, s2);
    RunTwice(Init(), first + a + b, s2, c, s3);
    RunTwice(Init(), first + a + b + c, s3, d, s4);
    RunTwice(Init(), first + a + b + c + d, s4, e, t);
    events := first + a + b + c + d + e;
  }

  lemma LeavesResult(s: State, error: uint32) returns (t: State)
    requires Quiet(s) && s.fetched == 1 && forall d :: d in s.calls ==> d < 1
    ensures Run(s, [ForeignReply(0, 0), CompareExchange, NotifyOwner(error)], t) && WellFormed(t)
    ensures IdOf(t.fetched) == 1 && 1 !in t.calls && t.receiver.Idle?
    ensures |t.slots| > 0 && t.slots[0] == Slot(None, 0, error, None)
  {
    hide Run;
    var s1 := Apply(s, ForeignReply(0, 0));
    var s2 := Apply(s1, CompareExchange);
    t := Apply(s2, NotifyOwner(error));
    RunThree(s, ForeignReply(0, 0), s1, CompareExchange, s2, NotifyOwner(error), t);
    assert t.slots == s.slots[0 := Slot(None, 0, error, None)];
  }

  lemma AnsweredLate(s: State, s1: State, error: uint32) returns (t: State)
    requires WellFormed(s) && WellFormed(s1) && FrameOut(s, s1, 1, 0) && s.receiver.Idle? && IdOf(s.fetched) == 1
    requires s.slots[0] == Slot(None, 0, error, None)
    ensures Run(s1, [SendReturns(1), ServerReply(1), CompareExchange], t)
    ensures Served(t, Waiting, error) && t.receiver == Claimed(0, Some(1))
  {
    hide Run;
    var s2 := Apply(s1, SendReturns(1));
    var s3 := Apply(s2, ServerReply(1));
    t := Apply(s3, CompareExchange);
    assert WellFormed(s2) && Enabled(s2, ServerReply(1)) && WellFormed(s3) && Enabled(s3, CompareExchange);
    RunThree(s1, SendReturns(1), s2, ServerReply(1), s3, CompareExchange, t);
  }

  /** Call 1 has slot 0, its id is taken, and an old result is in the slot. */
  ghost predicate Served(s: State, pc: Pc, error: uint32) {
    && WellFormed(s) && At(s, 1, pc) && s.calls[1].slot == 0 && s.slots[0] == Slot(Some(1), 0, error, None)
  }

  lemma SeesStaleResult(s: State, error: uint32) returns (t: State)
    requires Served(s, Waiting, error) && s.receiver == Claimed(0, Some(1))
    ensures Run(s, [LoadRequest, Wake(1), Exchange(1)], t)
    ensures Served(t, AwaitNotify, error) && t.receiver == Using(0, Some(1), Some(1))
  {
    hide Run;
    var s1 := Apply(s, LoadRequest);
    var s2 := Apply(s1, Wake(1));
    t := Apply(s2, Exchange(1));
    assert WellFormed(s1) && Enabled(s1, Wake(1)) && WellFormed(s2) && Enabled(s2, Exchange(1));
    RunThree(s, LoadRequest, s1, Wake(1), s2, Exchange(1), t);
  }

  lemma ReturnsEarly(s: State, error: uint32) returns (t: State)
    requires Served(s, AwaitNotify, error) && s.receiver == Using(0, Some(1), Some(1)) && error != WAITING_FOR_RESPONSE
    ensures Run(s, [ReadResult(1), ReleaseCode(1), ReleaseSlot(1)], t) && At(t, 1, Done(error))
    ensures t.receiver == s.receiver && WellFormed(t) && Enabled(t, StoreBuffer)
  {
    hide Run;
    var s1 := Apply(s, ReadResult(1));
    var s2 := Apply(s1, ReleaseCode(1));
    t := Apply(s2, ReleaseSlot(1));
    assert WellFormed(s1) && Enabled(s1, ReleaseCode(1)) && WellFormed(s2) && Enabled(s2, ReleaseSlot(1));
    RunThree(s, ReadResult(1), s1, ReleaseCode(1), s2, ReleaseSlot(1), t);
  }

  lemma NothingForeign()
    ensures forall c: CallId :: Clean(Sending(c, 0), false)
    ensures Clean([ServerReply(1), CompareExchange, SendReturns(1)], false)
    ensures Clean([ServerReply(1), CompareExchange], false)
    ensures Clean([Wake(1), Exchange(1), NotifyOwner(WAITING_FOR_RESPONSE)], false)
    ensures Clean([SendReturns(1), Wake(1), Exchange(1)], false) && Clean([ReleaseCode(1), ReleaseSlot(1)], false)
  {
  }

  lemma Answered(s: State) returns (t: State)
    requires Alone(s, Sent, Shown(), Idle)
    ensures Run(s, [ServerReply(1), CompareExchange, SendReturns(1)], t)
    ensures Alone(t, Waiting, Hidden(), Claimed(0, Some(1)))
  {
    hide Run;
    var s1 := Apply(s, ServerReply(1));
    assert Alone(s1, Sent, Shown(), Header(1, 0, Some(1)));
    var s2 := Apply(s1, CompareExchange);
    assert Alone(s2, Sent, Hidden(), Claimed(0, Some(1)));
    t := Apply(s2, SendReturns(1));
    RunThree(s, ServerReply(1), s1, CompareExchange, s2, SendReturns(1), t);
  }

  lemma ToldToWait(s: State) returns (t: State)
    requires Alone(s, Waiting, Hidden(), Claimed(0, Some(1)))
    ensures Run(s, [Wake(1), Exchange(1), NotifyOwner(WAITING_FOR_RESPONSE)], t) && Stuck(t, 1)
  {
    hide Run;
    var s1 := Apply(s, Wake(1));
    assert Alone(s1, Woken, Hidden(), Claimed(0, Some(1)));
    var s2 := Apply(s1, Exchange(1));
    assert Alone(s2, AwaitNotify, Hidden(), Claimed(0, Some(1)));
    t := Apply(s2, NotifyOwner(WAITING_FOR_RESPONSE));
    RunThree(s, Wake(1), s1, Exchange(1), s2, NotifyOwner(WAITING_FOR_RESPONSE), t);
    LeftWaiting(s2);
  }

  lemma LeftWaiting(s: State)
    requires Alone(s, AwaitNotify, Hidden(), Claimed(0, Some(1)))
    ensures Stuck(Apply(s, NotifyOwner(WAITING_FOR_RESPONSE)), 1)
  {
  }

  /** A run with an honest server in which 2^32 numbers are given out while a reply is on its way: call 1 gives up, and
      its reply claims the slot of a later call with the same id. */
  lemma OldReplyAnswersNewCall() returns (events: seq<Event>, t: State, c: CallId)
    ensures Run(Init(), events, t) && c != 1 && c in t.calls && Clean(events, false)
    ensures t.calls[c].claims == 1 && t.calls[c].answeredBy == Some(1) && t.calls[c].pc == Sent
  {
    var first, s := FirstId();
    hide *;
    var s1 := SendFirst(s);
    var s2 := GivesUp(s1);
    var s3 := GaveUp(s2);
    var last;
    last, t, c := IdComesRound(s3);
    var a, b, d := Sending(1, 0), [SendReturns(1), Wake(1), Exchange(1)], [ReleaseCode(1), ReleaseSlot(1)];
    NothingForeign();
    Onward(Init(), first, s, a, s1, false);
    Onward(Init(), first + a, s1, b, s2, false);
    Onward(Init(), first + a + b, s2, d, s3, false);
    Onward(Init(), first + a + b + d, s3, last, t, false);
    events := first + a + b + d + last;
  }

  lemma GivesUp(s: State) returns (t: State)
    requires Alone(s, Sent, Shown(), Idle)
    ensures Run(s, [SendReturns(1), Wake(1), Exchange(1)], t) && t.fetched == s.fetched
    ensures Alone(t, Returning(ADSERR_CLIENT_SYNCTIMEOUT), Hidden(), Idle)
  {
    hide Run;
    var s1 := Apply(s, SendReturns(1));
    assert Alone(s1, Waiting, Shown(), Idle);
    var s2 := Apply(s1, Wake(1));
    assert Alone(s2, Woken, Shown(), Idle);
    t := Apply(s2, Exchange(1));
    RunThree(s, SendReturns(1), s1, Wake(1), s2, Exchange(1), t);
  }

  lemma GaveUp(s: State) returns (t: State)
    requires Alone(s, Returning(ADSERR_CLIENT_SYNCTIMEOUT), Hidden(), Idle)
    ensures Run(s, [ReleaseCode(1), ReleaseSlot(1)], t) && t.fetched == s.fetched
    ensures Alone(t, Done(ADSERR_CLIENT_SYNCTIMEOUT), Free(), Idle)
  {
    var s1 := Apply(s, ReleaseCode(1));
    assert Alone(s1, Cleared(ADSERR_CLIENT_SYNCTIMEOUT), Hidden(), Idle);
    t := Apply(s1, ReleaseSlot(1));
    RunNothing(t);
    assert [ReleaseCode(1), ReleaseSlot(1)][1..] == [ReleaseSlot(1)];
    assert Run(s1, [ReleaseSlot(1)], t);
  }

  lemma IdComesRound(s: State) returns (events: seq<Event>, t: State, c: CallId)
    requires Alone(s, Done(ADSERR_CLIENT_SYNCTIMEOUT), Free(), Idle) && s.fetched == 2
    ensures Run(s, events, t) && c != 1 && c in t.calls && Clean(events, false)
    ensures t.calls[c].claims == 1 && t.calls[c].answeredBy == Some(1) && t.calls[c].pc == Sent
  {
    var burnt, s1 := Burn(s, 2, ID_SPACE - 1);
    c := ID_SPACE + 1;
    assert IdOf(s1.fetched) == 1 == IdOf(1);
    hide IdOf;
    var s2 := SendFrame(s1, c, 0);
    t := WrongClaim(s1, s2, 1, c);
    hide *;
    NothingForeign();
    Onward(s, burnt, s1, Sending(c, 0), s2, false);
    Onward(s, burnt + Sending(c, 0), s2, [ServerReply(1), CompareExchange], t, false);
    events := burnt + Sending(c, 0) + [ServerReply(1), CompareExchange];
  }

  lemma WrongClaim(s: State, s1: State, b: CallId, c: CallId) returns (t: State)
    requires WellFormed(s) && WellFormed(s1) && FrameOut(s, s1, c, 0) && s.receiver.Idle? && b != c && b in s.calls
    requires s.calls[b].sent && s.calls[b].slot == 0 && IdOf(s.calls[b].ticket) == IdOf(s.fetched)
    ensures Run(s1, [ServerReply(b), CompareExchange], t) && c in t.calls
    ensures t.calls[c].claims == 1 && t.calls[c].answeredBy == Some(b) && t.calls[c].pc == Sent
  {
    hide IdOf;
    var s2 := Apply(s1, ServerReply(b));
    t := Apply(s2, CompareExchange);
    RunNothing(t);
    assert [ServerReply(b), CompareExchange][1..] == [CompareExchange];
    assert Run(s2, [CompareExchange], t);
  }
}
