/** The receiver thread and a dispatcher thread on one ring buffer, in every interleaving. The receiver may be
    interrupted between any two stores and publications, the dispatcher between any two bytes; what it reads next is
    decided by what it has read. */
module Pipeline {
  import opened Bytes
  import opened RingBuffers
  import opened Notifications

  type Payload = p: seq<byte> | |p| < 0x1_0000_0000

  /** Where ReceiveNotification stands: storing byte i of the length word (stored but maybe not published),
      about to measure the next chunk, copying a chunk of which off bytes have arrived, about to notify. */
  datatype Producer =
    | Ready
    | StoringLength(p: Payload, i: nat, stored: bool)
    | Measuring(p: Payload, done: nat)
    | Copying(p: Payload, done: nat, chunk: nat, off: nat)
    | Notifying(p: Payload)

  /** What the dispatcher reads next: the stored length, the ignored word, the number of stamps, the head of a stamp
      with stamps still to come, the head of a sample with samples still to come in this stamp, the data of a sample
      and whom it is for, or the rest that closes the frame. full is the code's count of bytes left. */
  datatype Goal =
    | FullLength
    | Word(full: uint32)
    | StampCount(full: uint32)
    | StampHead(full: uint32, stamps: nat)
    | SampleHead(full: uint32, stamps: nat, timestamp: uint64, samples: nat)
    | SampleData(full: uint32, stamps: nat, timestamp: uint64, samples: nat, target: Option<Notification>, size: uint32)
    | Closing(full: uint32)

  /** have is the part of it that is read. */
  datatype Consumer = Waiting | Busy(goal: Goal, have: seq<byte>)

  /** data, write, read, sem and the two threads' positions are the state proper; looked counts the look-ups of
      callbacks, called holds the calls made. The rest is history: the unread rest of the dispatcher's frame, all
      payloads accepted so far, how many of them have been counted by the semaphore and how many acquired, and every
      byte the dispatcher has taken. */
  datatype State = State(
    data: seq<byte>, write: nat, read: nat, sem: nat,
    producer: Producer, consumer: Consumer, looked: nat, called: seq<Callback>,
    current: seq<byte>, accepted: seq<Payload>, counted: nat, acquired: nat, taken: seq<byte>)

  function Want(goal: Goal): nat {
    match goal
    case FullLength | Word(_) | StampCount(_) => 4
    case StampHead(_, _) => 12
    case SampleHead(_, _, _, _) => 8
    case SampleData(_, _, _, _, _, size) => size
    case Closing(full) => full
  }

  function AfterStamp(full: uint32, stamps: nat): Goal {
    if stamps > 0 then StampHead(full, stamps) else Closing(full)
  }

  function AfterSample(full: uint32, stamps: nat, timestamp: uint64, samples: nat): Goal
    requires stamps > 0
  {
    if samples > 0 then SampleHead(full, stamps, timestamp, samples) else AfterStamp(full, stamps - 1)
  }

  predicate GoalShape(goal: Goal) {
    && (goal.StampHead? || goal.SampleHead? || goal.SampleData? ==> goal.stamps > 0)
    && (goal.SampleHead? || goal.SampleData? ==> goal.samples > 0)
  }

  datatype Moved = Moved(consumer: Consumer, looked: nat, called: seq<Callback>)

  /** What the dispatcher does with what it has read, when the k-th look-up meets the registry finds(k). */
  function Move(goal: Goal, have: seq<byte>, looked: nat, called: seq<Callback>, finds: nat -> Registry): Moved
    requires |have| == Want(goal) && GoalShape(goal)
  {
    match goal
    case FullLength => Notifications.Word(have, 0); Moved(Busy(Word(FromLE(have[0..4])), []), looked, called)
    case Word(full) => Moved(Busy(StampCount(full), []), looked, called)
    case StampCount(full) =>
      Moved(Busy(AfterStamp(Sub32(full, 8), FromLE(have[0..4])), []), looked, called)
    case StampHead(full, stamps) =>
      LongWord(have, 0);
      Moved(Busy(AfterSample(Sub32(full, 12), stamps, FromLE(have[0..8]), FromLE(have[8..12])), []), looked, called)
    case SampleHead(full, stamps, timestamp, samples) =>
      Notifications.Word(have, 0); Notifications.Word(have, 4);
      var handle, size, reg := FromLE(have[0..4]), FromLE(have[4..8]), finds(looked);
      if handle in reg && size != reg[handle].size then Moved(Busy(Closing(Sub32(full, 8)), []), looked + 1, called)
      else
        var target := if handle in reg then Some(reg[handle]) else None;
        Moved(Busy(SampleData(Sub32(full, 8), stamps, timestamp, samples, target, size), []), looked + 1, called)
    case SampleData(full, stamps, timestamp, samples, target, size) =>
      Moved(Busy(AfterSample(Sub32(full, size), stamps, timestamp, samples - 1), []), looked,
            called + Call(target, timestamp, have))
    case Closing(_) => Moved(Waiting, looked, called)
  }

  function Call(target: Option<Notification>, timestamp: uint64, data: seq<byte>): seq<Callback> {
    if target.Some? then [Callback(target.value, timestamp, data)] else []
  }

  function Frame(p: Payload): seq<byte> {
    LE(|p|, 4) + p
  }

  function Frames(ps: seq<Payload>): seq<byte> {
    if ps == [] then [] else Frame(ps[0]) + Frames(ps[1..])
  }

  ghost predicate Initial(s: State) {
    && |s.data| > 0 && s.write == s.read == 0 && s.sem == 0 && s.producer.Ready? && s.consumer.Waiting?
    && s.current == []
    && s.accepted == [] && s.counted == s.acquired == s.looked == 0 && s.taken == [] && s.called == []
  }

  ghost predicate Shape(s: State) {
    && s.write < |s.data| && s.read < |s.data|
    && s.acquired <= s.counted <= |s.accepted|
    && (s.consumer.Busy? ==> GoalShape(s.consumer.goal))
  }

  // ---- Events ----------------------------------------------------------------------------------

  datatype Event =
    | Arrive(p: Payload)     // a notification header: dropped when it does not fit
    | StoreLengthByte | PublishLengthByte
    | Measure                // WriteChunk, and whether this is the last chunk
    | CopyBytes(n: nat)      // one short read into the array
    | PublishChunk
    | Release
    | Acquire
    | Consume(n: nat)        // the dispatcher takes n of the bytes it wants
    | Decide                 // it has them all, and goes on

  ghost predicate Enabled(s: State, e: Event)
    requires Shape(s)
  {
    match e
    case Arrive(p) => s.producer.Ready?
    case StoreLengthByte => s.producer.StoringLength? && !s.producer.stored && s.producer.i < 4
    case PublishLengthByte => s.producer.StoringLength? && s.producer.stored
    case Measure => s.producer.Measuring? && s.producer.done <= |s.producer.p|
    case CopyBytes(n) => s.producer.Copying? && 0 < n <= s.producer.chunk - s.producer.off
                         && s.producer.done + s.producer.chunk <= |s.producer.p|
                         && s.write + s.producer.chunk <= |s.data|
    case PublishChunk => s.producer.Copying? && s.producer.off == s.producer.chunk && s.producer.chunk <= |s.data|
    case Release => s.producer.Notifying?
    case Acquire => s.consumer.Waiting? && s.sem > 0 && s.acquired < |s.accepted|
    case Consume(n) => s.consumer.Busy? && 0 < n && |s.consumer.have| + n <= Want(s.consumer.goal) && n <= |s.data|
    case Decide => s.consumer.Busy? && |s.consumer.have| == Want(s.consumer.goal)
  }

  ghost function Apply(s: State, e: Event, finds: nat -> Registry): State
    requires Shape(s) && Enabled(s, e)
  {
    match e
    case Arrive(p) =>
      if |p| + 4 > FreeBytes(|s.data|, s.write, s.read) then s
      else s.(producer := StoringLength(p, 0, false), accepted := s.accepted + [p])
    case StoreLengthByte =>
      s.(data := s.data[s.write := Digit(|s.producer.p|, s.producer.i)], producer := s.producer.(stored := true))
    case PublishLengthByte =>
      s.(write := Advance(|s.data|, s.write, 1),
         producer := if s.producer.i < 3 then StoringLength(s.producer.p, s.producer.i + 1, false)
                     else Measuring(s.producer.p, 0))
    case Measure =>
      var left, chunk := |s.producer.p| - s.producer.done, ContiguousFree(|s.data|, s.write, s.read);
      s.(producer := Copying(s.producer.p, s.producer.done, Min(left, chunk), 0))
    case CopyBytes(n) =>
      var at, from := s.write + s.producer.off, s.producer.done + s.producer.off;
      s.(data := s.data[..at] + s.producer.p[from..from + n] + s.data[at + n..],
         producer := s.producer.(off := s.producer.off + n))
    case PublishChunk =>
      var done := s.producer.done + s.producer.chunk;
      s.(write := Advance(|s.data|, s.write, s.producer.chunk),
         producer := if done < |s.producer.p| then Measuring(s.producer.p, done) else Notifying(s.producer.p))
    case Release => s.(sem := s.sem + 1, counted := s.counted + 1, producer := Ready)
    case Acquire =>
      s.(sem := s.sem - 1, consumer := Busy(FullLength, []), acquired := s.acquired + 1,
         current := Frame(s.accepted[s.acquired]))
    case Consume(n) =>
      var bytes := Window(s.data, s.read, n);
      s.(read := Advance(|s.data|, s.read, n), consumer := Busy(s.consumer.goal, s.consumer.have + bytes),
         current := if n <= |s.current| then s.current[n..] else [], taken := s.taken + bytes)
    case Decide =>
      var m := Move(s.consumer.goal, s.consumer.have, s.looked, s.called, finds);
      s.(consumer := m.consumer, looked := m.looked, called := m.called)
  }

  // ---- The invariant ---------------------------------------------------------------------------

  /** The bytes of the frame in progress that are already published. */
  function Partial(q: Producer): seq<byte> {
    match q
    case Ready => []
    case StoringLength(p, i, _) => if i <= 4 then LE(|p|, 4)[..i] else []
    case Measuring(p, done) => if done <= |p| then LE(|p|, 4) + p[..done] else []
    case Copying(p, done, _, _) => if done <= |p| then LE(|p|, 4) + p[..done] else []
    case Notifying(p) => Frame(p)
  }

  ghost predicate ProducerInv(s: State)
    requires Shape(s)
  {
    var free := FreeBytes(|s.data|, s.write, s.read);
    && |s.accepted| == s.counted + (if s.producer.Ready? then 0 else 1)
    && (!s.producer.Ready? ==> s.producer.p == s.accepted[s.counted])
    && match s.producer
       case Ready => true
       case StoringLength(p, i, stored) =>
         i < 4 && 4 - i + |p| <= free && (stored ==> s.data[s.write] == Digit(|p|, i))
       case Measuring(p, done) => done <= |p| && |p| - done <= free
       case Copying(p, done, chunk, off) =>
         && off <= chunk && done + chunk <= |p| && |p| - done <= free
         && s.write + chunk <= |s.data| && (done < |p| ==> chunk > 0)
         && s.data[s.write..s.write + off] == p[done..done + off]
       case Notifying(p) => true
  }

  /** The ring holds the unread rest of the current frame, then the complete frames that the semaphore counts,
      then the published part of the frame in progress. Everything taken before is what was accepted before. */
  ghost predicate RingInv(s: State) {
    && Shape(s)
    && s.sem == s.counted - s.acquired
    && (s.consumer.Waiting? ==> s.current == [])
    && ProducerInv(s)
    && Held(s.data, s.write, s.read) == s.current + Frames(s.accepted[s.acquired..s.counted]) + Partial(s.producer)
    && s.taken + s.current == Frames(s.accepted[..s.acquired])
  }

  lemma {:induction false} FramesSnoc(ps: seq<Payload>, p: Payload)
    ensures Frames(ps + [p]) == Frames(ps) + Frame(p)
  {
    if ps == [] {
      assert Frames([p]) == Frame(p) + Frames([p][1..]);
    } else {
      assert (ps + [p])[1..] == ps[1..] + [p];
      FramesSnoc(ps[1..], p);
    }
  }

  /** A store by the receiver leaves everything unread as it is. */
  lemma StoresKeepUnread(s: State, e: Event, finds: nat -> Registry)
    requires RingInv(s) && Enabled(s, e) && (e.StoreLengthByte? || e.CopyBytes?)
    ensures Held(Apply(s, e, finds).data, s.write, s.read) == Held(s.data, s.write, s.read)
  {
    hide LE, Digit;
    var t := Apply(s, e, finds);
    if e.StoreLengthByte? {
      StoreBehindHeld(s.data, t.data, s.write, s.read, s.write, s.write + 1);
    } else {
      var at := s.write + s.producer.off;
      StoreBehindHeld(s.data, t.data, s.write, s.read, at, at + e.n);
    }
  }

  /** What is left of the dispatcher's frame is published. */
  lemma CurrentIsWritten(s: State, n: nat)
    requires RingInv(s) && n <= |s.current|
    ensures n <= AvailableBytes(|s.data|, s.write, s.read) && Window(s.data, s.read, n) == s.current[..n]
  {
    ReleaseDrops(s.data, s.write, s.read, n);
  }

  lemma StoreLengthStep(s: State, finds: nat -> Registry)
    requires RingInv(s) && Enabled(s, StoreLengthByte)
    ensures RingInv(Apply(s, StoreLengthByte, finds))
  {
    hide LE, Digit, Held, Frame, Frames;
    StoresKeepUnread(s, StoreLengthByte, finds);
  }

  lemma CopyStep(s: State, n: nat, finds: nat -> Registry)
    requires RingInv(s) && Enabled(s, CopyBytes(n))
    ensures RingInv(Apply(s, CopyBytes(n), finds))
  {
    hide LE, Digit, Held, Frame, Frames;
    StoresKeepUnread(s, CopyBytes(n), finds);
    var q := s.producer;
    Copied(s.data, Apply(s, CopyBytes(n), finds).data, s.write, q.off, q.p, q.done, n);
  }

  /** n more bytes of p behind those already copied. */
  lemma Copied(d: seq<byte>, e: seq<byte>, write: nat, off: nat, p: seq<byte>, done: nat, n: nat)
    requires write + off + n <= |d| && done + off + n <= |p|
    requires d[write..write + off] == p[done..done + off]
    requires e == d[..write + off] + p[done + off..done + off + n] + d[write + off + n..]
    ensures |e| == |d| && e[write..write + (off + n)] == p[done..done + (off + n)]
  {
    assert e[write..write + off + n] == d[write..write + off] + p[done + off..done + off + n];
    assert p[done..done + off + n] == p[done..done + off] + p[done + off..done + off + n];
  }

  lemma PublishLengthStep(s: State, finds: nat -> Registry)
    requires RingInv(s) && Enabled(s, PublishLengthByte)
    ensures RingInv(Apply(s, PublishLengthByte, finds))
  {
    hide Digit, LE, Held, Frames;
    PublishAppends(s.data, s.write, s.read, 1);
    var t, p, i := Apply(s, PublishLengthByte, finds), s.producer.p, s.producer.i;
    assert Partial(t.producer) == Partial(s.producer) + Window(s.data, s.write, 1) by {
      LEAt(|p|, 4, i);
      assert Window(s.data, s.write, 1) == [Digit(|p|, i)];
      assert LE(|p|, 4)[..i + 1] == LE(|p|, 4)[..i] + [Digit(|p|, i)];
      assert LE(|p|, 4)[..4] + p[..0] == LE(|p|, 4)[..4];
    }
    hide Partial;
  }

  lemma PublishChunkStep(s: State, finds: nat -> Registry)
    requires RingInv(s) && Enabled(s, PublishChunk)
    ensures RingInv(Apply(s, PublishChunk, finds))
  {
    hide Digit, LE, Held, Frames;
    var t, n := Apply(s, PublishChunk, finds), s.producer.chunk;
    PublishAppends(s.data, s.write, s.read, n);
    assert FreeBytes(|t.data|, t.write, t.read) == FreeBytes(|s.data|, s.write, s.read) - n;
    ChunkPublished(s, finds);
    hide Partial, Window;
  }

  lemma ChunkPublished(s: State, finds: nat -> Registry)
    requires Shape(s) && Enabled(s, PublishChunk) && ProducerInv(s)
    ensures Partial(Apply(s, PublishChunk, finds).producer)
         == Partial(s.producer) + Window(s.data, s.write, s.producer.chunk)
  {
    hide Digit, LE, Frames;
    var p, done, n := s.producer.p, s.producer.done, s.producer.chunk;
    assert Window(s.data, s.write, n) == p[done..done + n];
    assert p[..done + n] == p[..done] + p[done..done + n];
    assert p[..|p|] == p;
  }

  lemma ArriveStep(s: State, p: Payload, finds: nat -> Registry)
    requires RingInv(s) && Enabled(s, Arrive(p))
    ensures RingInv(Apply(s, Arrive(p), finds))
  {
    hide LE, Digit, Held, Frames;
    var t := Apply(s, Arrive(p), finds);
    assert t.accepted[..t.acquired] == s.accepted[..s.acquired];
    assert t.accepted[t.acquired..t.counted] == s.accepted[s.acquired..s.counted];
    assert LE(|p|, 4)[..0] == [];
  }

  lemma MeasureStep(s: State, finds: nat -> Registry)
    requires RingInv(s) && Enabled(s, Measure)
    ensures RingInv(Apply(s, Measure, finds))
  {
    hide LE, Digit, Held, Frames;
    assert s.data[s.write..s.write] == s.producer.p[s.producer.done..s.producer.done];
  }

  lemma ReleaseStep(s: State, finds: nat -> Registry)
    requires RingInv(s) && Enabled(s, Release)
    ensures RingInv(Apply(s, Release, finds))
  {
    hide LE, Held, Frame, Frames;
    var t, ps := Apply(s, Release, finds), s.accepted[s.acquired..s.counted];
    FramesSnoc(ps, s.producer.p);
    assert t.accepted[t.acquired..t.counted] == ps + [s.producer.p];
    assert Partial(t.producer) == [] && Partial(s.producer) == Frame(s.producer.p);
  }

  lemma AcquireStep(s: State, finds: nat -> Registry)
    requires RingInv(s) && Enabled(s, Acquire)
    ensures RingInv(Apply(s, Acquire, finds))
  {
    hide LE, Held, Frame, Partial;
    var t, ps := Apply(s, Acquire, finds), s.accepted[s.acquired..s.counted];
    assert ps[0] == s.accepted[s.acquired] && ps[1..] == s.accepted[t.acquired..t.counted];
    assert Frames(ps) == Frame(ps[0]) + Frames(ps[1..]);
    hide Frames;
    FramesSnoc(s.accepted[..s.acquired], s.accepted[s.acquired]);
    assert t.accepted[..t.acquired] == s.accepted[..s.acquired] + [s.accepted[s.acquired]];
  }

  /** Reading makes room. */
  lemma ConsumeProducer(s: State, n: nat, finds: nat -> Registry)
    requires Shape(s) && ProducerInv(s) && Enabled(s, Consume(n)) && n <= AvailableBytes(|s.data|, s.write, s.read)
    ensures Shape(Apply(s, Consume(n), finds)) && ProducerInv(Apply(s, Consume(n), finds))
  {
    hide LE, Digit, Window;
  }

  lemma ConsumeStep(s: State, n: nat, finds: nat -> Registry)
    requires RingInv(s) && Enabled(s, Consume(n)) && n <= |s.current|
    ensures RingInv(Apply(s, Consume(n), finds))
    ensures Apply(s, Consume(n), finds).consumer.have == s.consumer.have + s.current[..n]
  {
    hide LE, Held, Frame, Frames, Partial;
    CurrentIsWritten(s, n);
    ConsumeProducer(s, n, finds);
    ReleaseDrops(s.data, s.write, s.read, n);
    assert s.current == s.current[..n] + s.current[n..];
    hide Window, ProducerInv, FreeBytes;
  }

  // ---- The dispatcher's parse ------------------------------------------------------------------

  /** The parse of a payload, when k look-ups and some calls were made before. */
  function ParseFrom(p: Payload, k: nat, calls: seq<Callback>, finds: nat -> Registry): (r: Option<Visit>) {
    if |p| < 8 then None else VisitStamps(p, Visit(8, k, calls, false), FromLE(p[4..8]), finds)
  }

  /** The parse stays inside the payload, whatever happened before. */
  ghost predicate Parses(p: Payload, finds: nat -> Registry) {
    forall k: nat, calls: seq<Callback> :: ParseFrom(p, k, calls, finds).Some?
  }

  /** The parse of a list of payloads, one behind the other: how many look-ups and which calls it makes. */
  function Served(ps: seq<Payload>, finds: nat -> Registry): Option<Visit> {
    if ps == [] then Some(Visit(0, 0, [], false))
    else
      var before := Served(ps[..|ps| - 1], finds);
      if before.None? then None else ParseFrom(ps[|ps| - 1], before.value.finds, before.value.calls, finds)
  }

  /** The samples of this stamp, then the stamps behind it. */
  function SamplesThen(p: Payload, v: Visit, samples: nat, timestamp: uint64, stamps: nat, finds: nat -> Registry)
    : Option<Visit>
    requires v.pos <= |p|
  {
    var r := VisitSamples(p, v, samples, timestamp, finds);
    if r.None? then None else VisitStamps(p, r.value, stamps, finds)
  }

  /** The dispatcher is about to read what starts at position x of its payload, or the length word in front of it, and
      going on from there gives the parse of the whole payload. */
  ghost predicate OnTrack(p: Payload, x: int, goal: Goal, looked: nat, called: seq<Callback>, whole: Visit,
                          finds: nat -> Registry)
  {
    && GoalShape(goal)
    && match goal
       case FullLength => x == -4 && ParseFrom(p, looked, called, finds) == Some(whole)
       case Word(full) => x == 0 && full == |p| && ParseFrom(p, looked, called, finds) == Some(whole)
       case StampCount(full) => x == 4 && full == |p| && ParseFrom(p, looked, called, finds) == Some(whole)
       case StampHead(full, stamps) =>
         && 0 <= x <= |p| && full == |p| - x
         && VisitStamps(p, Visit(x, looked, called, false), stamps, finds) == Some(whole)
       case SampleHead(full, stamps, timestamp, samples) =>
         && 0 <= x <= |p| && full == |p| - x
         && SamplesThen(p, Visit(x, looked, called, false), samples, timestamp, stamps - 1, finds) == Some(whole)
       case SampleData(full, stamps, timestamp, samples, target, size) =>
         && 0 <= x && x + size <= |p| && full == |p| - x
         && var v := Visit(x + size, looked, called + Call(target, timestamp, p[x..x + size]), false);
            SamplesThen(p, v, samples - 1, timestamp, stamps - 1, finds) == Some(whole)
       case Closing(full) => 0 <= x <= |p| && full == |p| - x && whole.calls == called && whole.finds == looked
  }

  /** What the dispatcher wants lies in its payload. */
  lemma WantFits(p: Payload, x: int, goal: Goal, looked: nat, called: seq<Callback>, whole: Visit,
                 finds: nat -> Registry)
    requires OnTrack(p, x, goal, looked, called, whole, finds)
    ensures x + Want(goal) <= |p| && (x < 0) == goal.FullLength?
  {
    hide FromLE;
  }

  lemma AfterStampOnTrack(p: Payload, x: nat, full: uint32, stamps: nat, looked: nat, called: seq<Callback>,
                          whole: Visit, finds: nat -> Registry)
    requires x <= |p| && full == |p| - x
    requires VisitStamps(p, Visit(x, looked, called, false), stamps, finds) == Some(whole)
    ensures OnTrack(p, x, AfterStamp(full, stamps), looked, called, whole, finds)
  {
    hide VisitStamp;
  }

  lemma AfterSampleOnTrack(p: Payload, x: nat, full: uint32, stamps: nat, timestamp: uint64, samples: nat, looked: nat,
                           called: seq<Callback>, whole: Visit, finds: nat -> Registry)
    requires x <= |p| && full == |p| - x && stamps > 0
    requires SamplesThen(p, Visit(x, looked, called, false), samples, timestamp, stamps - 1, finds) == Some(whole)
    ensures OnTrack(p, x, AfterSample(full, stamps, timestamp, samples), looked, called, whole, finds)
  {
    hide VisitStamps, VisitSample;
    if samples == 0 {
      AfterStampOnTrack(p, x, full, stamps - 1, looked, called, whole, finds);
    }
  }

  /** One decision keeps the dispatcher on the track of its parse, or ends the frame with all its calls made. */
  lemma MoveOnTrack(p: Payload, x: int, goal: Goal, looked: nat, called: seq<Callback>, whole: Visit,
                    finds: nat -> Registry, have: seq<byte>)
    requires GoalShape(goal) && OnTrack(p, x, goal, looked, called, whole, finds) && |have| == Want(goal)
    requires if x < 0 then have == LE(|p|, 4) else x + |have| <= |p| && have == p[x..x + |have|]
    requires (x < 0) == goal.FullLength?
    ensures var m := Move(goal, have, looked, called, finds);
            if m.consumer.Busy? then
              m.consumer.have == [] && OnTrack(p, x + |have|, m.consumer.goal, m.looked, m.called, whole, finds)
            else x + |have| == |p| && whole.calls == m.called && whole.finds == m.looked
  {
    hide FromLE, LE, OnTrack, Move, GoalShape;
    match goal {
      case FullLength =>
        WordMove(p, x, goal, looked, called, whole, finds, have);
      case Word(_) =>
        WordMove(p, x, goal, looked, called, whole, finds, have);
      case StampCount(full) =>
        WordMove(p, x, goal, looked, called, whole, finds, have);
      case StampHead(full, stamps) =>
        StampMove(p, x, full, stamps, looked, called, whole, finds, have);
      case SampleHead(full, stamps, timestamp, samples) =>
        SampleMove(p, x, full, stamps, timestamp, samples, looked, called, whole, finds, have);
      case SampleData(full, stamps, timestamp, samples, target, size) =>
        DataMove(p, x, full, stamps, timestamp, samples, target, size, looked, called, whole, finds, have);
      case Closing(_) =>
        ClosingMove(p, x, goal, looked, called, whole, finds, have);
    }
  }

  lemma WordMove(p: Payload, x: int, goal: Goal, looked: nat, called: seq<Callback>, whole: Visit,
                 finds: nat -> Registry, have: seq<byte>)
    requires OnTrack(p, x, goal, looked, called, whole, finds) && |have| == Want(goal)
    requires goal.FullLength? || goal.Word? || goal.StampCount?
    requires if x < 0 then have == LE(|p|, 4) else x + |have| <= |p| && have == p[x..x + |have|]
    ensures var m := Move(goal, have, looked, called, finds);
            m.consumer.Busy? && m.consumer.have == []
            && OnTrack(p, x + |have|, m.consumer.goal, m.looked, m.called, whole, finds)
  {
    hide FromLE, LE, VisitStamps, SamplesThen;
    assert have[0..4] == have;
    if goal.FullLength? {
      Pow256Values();
      FromLEofLE(|p|, 4);
    } else if goal.StampCount? {
      assert have == p[4..8];
      AfterStampOnTrack(p, 8, goal.full - 8, FromLE(have[0..4]), looked, called, whole, finds);
    }
  }

  lemma DataMove(p: Payload, x: nat, full: uint32, stamps: nat, timestamp: uint64, samples: nat,
                 target: Option<Notification>, size: uint32, looked: nat, called: seq<Callback>, whole: Visit,
                 finds: nat -> Registry, have: seq<byte>)
    requires OnTrack(p, x, SampleData(full, stamps, timestamp, samples, target, size), looked, called, whole, finds)
    requires |have| == size && x + size <= |p| && have == p[x..x + size]
    ensures var m := Move(SampleData(full, stamps, timestamp, samples, target, size), have, looked, called, finds);
            m.consumer.Busy? && m.consumer.have == []
            && OnTrack(p, x + size, m.consumer.goal, m.looked, m.called, whole, finds)
  {
    hide FromLE, VisitStamps, SamplesThen;
    AfterSampleOnTrack(p, x + size, full - size, stamps, timestamp, samples - 1, looked,
                       called + Call(target, timestamp, have), whole, finds);
  }

  lemma ClosingMove(p: Payload, x: int, goal: Goal, looked: nat, called: seq<Callback>, whole: Visit,
                    finds: nat -> Registry, have: seq<byte>)
    requires OnTrack(p, x, goal, looked, called, whole, finds) && |have| == Want(goal) && goal.Closing?
    ensures var m := Move(goal, have, looked, called, finds);
            m.consumer.Waiting? && x + |have| == |p| && whole.calls == m.called && whole.finds == m.looked
  {
  }

  lemma StampMove(p: Payload, x: nat, full: uint32, stamps: nat, looked: nat, called: seq<Callback>, whole: Visit,
                  finds: nat -> Registry, have: seq<byte>)
    requires OnTrack(p, x, StampHead(full, stamps), looked, called, whole, finds)
    requires x + 12 <= |p| && have == p[x..x + 12]
    ensures var m := Move(StampHead(full, stamps), have, looked, called, finds);
            m.looked == looked && m.called == called && m.consumer.Busy? && m.consumer.have == []
            && OnTrack(p, x + 12, m.consumer.goal, looked, called, whole, finds)
  {
    hide FromLE, VisitSamples;
    LongWord(have, 0);
    assert have[0..8] == p[x..x + 8] && have[8..12] == p[x + 8..x + 12];
    AfterSampleOnTrack(p, x + 12, full - 12, stamps, FromLE(have[0..8]), FromLE(have[8..12]), looked, called, whole,
                       finds);
  }

  lemma SampleMove(p: Payload, x: nat, full: uint32, stamps: nat, timestamp: uint64, samples: nat, looked: nat,
                   called: seq<Callback>, whole: Visit, finds: nat -> Registry, have: seq<byte>)
    requires OnTrack(p, x, SampleHead(full, stamps, timestamp, samples), looked, called, whole, finds)
    requires x + 8 <= |p| && have == p[x..x + 8]
    ensures var m := Move(SampleHead(full, stamps, timestamp, samples), have, looked, called, finds);
            m.consumer.Busy? && m.consumer.have == []
            && OnTrack(p, x + 8, m.consumer.goal, m.looked, m.called, whole, finds)
  {
    hide FromLE, VisitStamp, SamplesThen;
    assert have[0..4] == p[x..x + 4] && have[4..8] == p[x + 4..x + 8];
    var v := Visit(x, looked, called, false);
    SampleFirst(p, v, samples, timestamp, stamps - 1, finds, whole);
    var next := VisitSample(p, v, timestamp, finds).value;
    if next.aborted {
      AbortedEnds(p, next, samples - 1, timestamp, stamps - 1, finds);
    } else {
      assert called + [] == called;
    }
  }

  lemma SampleFirst(p: Payload, v: Visit, samples: nat, timestamp: uint64, stamps: nat, finds: nat -> Registry,
                    whole: Visit)
    requires v.pos <= |p| && samples > 0 && !v.aborted
    requires SamplesThen(p, v, samples, timestamp, stamps, finds) == Some(whole)
    ensures var next := VisitSample(p, v, timestamp, finds);
            next.Some? && SamplesThen(p, next.value, samples - 1, timestamp, stamps, finds) == Some(whole)
  {
    hide VisitSample, VisitStamps;
  }

  lemma AbortedEnds(p: Payload, v: Visit, samples: nat, timestamp: uint64, stamps: nat, finds: nat -> Registry)
    requires v.pos <= |p| && v.aborted
    ensures SamplesThen(p, v, samples, timestamp, stamps, finds) == Some(v)
  {
  }

  // ---- Both threads together -------------------------------------------------------------------

  /** The dispatcher's frame is the last one acquired; it has read some of it, has is the last part of that, and it is
      on the track of its parse. Without a frame, the calls made are those of all frames acquired. */
  ghost predicate ParseInv(s: State, finds: nat -> Registry)
    requires Shape(s)
  {
    && (forall p <- s.accepted :: Parses(p, finds))
    && Served(s.accepted[..s.acquired], finds).Some?
    && var whole := Served(s.accepted[..s.acquired], finds).value;
       if s.consumer.Waiting? then whole.calls == s.called && whole.finds == s.looked
       else
         && s.acquired > 0
         && var p, goal, have := s.accepted[s.acquired - 1], s.consumer.goal, s.consumer.have;
            && |have| + |s.current| <= 4 + |p| && |have| <= Want(goal)
            && ReadSoFar(p, have, s.current)
            && OnTrack(p, |p| - |s.current| - |have|, goal, s.looked, s.called, whole, finds)
  }

  /** have and current are the end of the frame of p. */
  predicate ReadSoFar(p: Payload, have: seq<byte>, current: seq<byte>) {
    |have| + |current| <= 4 + |p| && Frame(p)[4 + |p| - |current| - |have|..] == have + current
  }

  ghost predicate Inv(s: State, finds: nat -> Registry) {
    RingInv(s) && ParseInv(s, finds)
  }

  /** A ring of any size can be the first one. */
  lemma StartsWithAnyRing(data: seq<byte>)
    requires data != []
    ensures exists s :: Initial(s) && s.data == data
  {
    var s := State(data, 0, 0, 0, Ready, Waiting, 0, [], [], [], 0, 0, []);
    assert Initial(s);
  }

  lemma InvInit(s: State, finds: nat -> Registry)
    requires Initial(s)
    ensures Inv(s, finds)
  {
  }

  /** The receiver's events do not touch the dispatcher's side. */
  predicate ByReceiver(e: Event) {
    !(e.Acquire? || e.Consume? || e.Decide?)
  }

  lemma ReceiverRing(s: State, e: Event, finds: nat -> Registry)
    requires RingInv(s) && Enabled(s, e) && ByReceiver(e)
    ensures RingInv(Apply(s, e, finds))
  {
    hide RingInv, Apply, Enabled;
    match e {
      case StoreLengthByte => StoreLengthStep(s, finds);
      case CopyBytes(n) => CopyStep(s, n, finds);
      case PublishLengthByte => PublishLengthStep(s, finds);
      case PublishChunk => PublishChunkStep(s, finds);
      case Arrive(p) => ArriveStep(s, p, finds);
      case Measure => MeasureStep(s, finds);
      case Release => ReleaseStep(s, finds);
    }
  }

  lemma ReceiverParse(s: State, e: Event, finds: nat -> Registry)
    requires Shape(s) && ParseInv(s, finds) && Enabled(s, e) && ByReceiver(e) && Shape(Apply(s, e, finds))
    requires e.Arrive? ==> Parses(e.p, finds)
    ensures ParseInv(Apply(s, e, finds), finds)
  {
    hide Parses, Served, OnTrack, ReadSoFar;
    var t := Apply(s, e, finds);
    assert t.accepted[..t.acquired] == s.accepted[..s.acquired];
  }

  lemma AcquireParse(s: State, finds: nat -> Registry)
    requires Inv(s, finds) && Enabled(s, Acquire) && RingInv(Apply(s, Acquire, finds))
    ensures Inv(Apply(s, Acquire, finds), finds)
  {
    hide Frames, Partial, Held, LE, ParseFrom;
    var t, p := Apply(s, Acquire, finds), s.accepted[s.acquired];
    assert t.accepted[..t.acquired][..s.acquired] == s.accepted[..s.acquired];
    assert p in s.accepted && Parses(p, finds);
    assert Frame(p)[0..] == [] + Frame(p);
  }

  lemma ConsumeParse(s: State, n: nat, finds: nat -> Registry)
    requires Inv(s, finds) && Enabled(s, Consume(n))
    ensures Inv(Apply(s, Consume(n), finds), finds)
  {
    hide Frames, Partial, Held, LE, Served, OnTrack, Parses, Frame;
    var t, p := Apply(s, Consume(n), finds), s.accepted[s.acquired - 1];
    var whole := Served(s.accepted[..s.acquired], finds).value;
    WantFits(p, |p| - |s.current| - |s.consumer.have|, s.consumer.goal, s.looked, s.called, whole, finds);
    ConsumeStep(s, n, finds);
    assert s.consumer.have + s.current == t.consumer.have + t.current;
  }

  lemma DecideRing(s: State, finds: nat -> Registry)
    requires RingInv(s) && Enabled(s, Decide)
    requires var c := Apply(s, Decide, finds).consumer;
             if c.Busy? then GoalShape(c.goal) else s.current == []
    ensures RingInv(Apply(s, Decide, finds))
  {
    hide Frames, Partial, Held, LE, Move, Frame, FreeBytes;
  }

  /** A decision on the last part of the frame of p. */
  lemma DecideMoves(p: Payload, have: seq<byte>, current: seq<byte>, goal: Goal, looked: nat, called: seq<Callback>,
                    whole: Visit, finds: nat -> Registry)
    requires ReadSoFar(p, have, current) && GoalShape(goal) && |have| == Want(goal)
    requires OnTrack(p, |p| - |current| - |have|, goal, looked, called, whole, finds)
    ensures var m := Move(goal, have, looked, called, finds);
            if m.consumer.Busy? then
              m.consumer.have == [] && GoalShape(m.consumer.goal) && ReadSoFar(p, [], current)
              && OnTrack(p, |p| - |current|, m.consumer.goal, m.looked, m.called, whole, finds)
            else current == [] && whole.calls == m.called && whole.finds == m.looked
  {
    hide LE, OnTrack, Move, ReadSoFar;
    var x, m := |p| - |current| - |have|, Move(goal, have, looked, called, finds);
    WantFits(p, x, goal, looked, called, whole, finds);
    HaveIsPart(p, have, current, x, goal, looked, called, whole, finds);
    MoveOnTrack(p, x, goal, looked, called, whole, finds, have);
    if m.consumer.Busy? {
      ShapeOnTrack(p, x + |have|, m.consumer.goal, m.looked, m.called, whole, finds);
    }
    Behind(p, have, current);
  }

  lemma DecideParse(s: State, finds: nat -> Registry)
    requires Inv(s, finds) && Enabled(s, Decide)
    ensures Inv(Apply(s, Decide, finds), finds)
  {
    hide RingInv, LE, Served, OnTrack, Parses, Move, ReadSoFar;
    ShapeIn(s);
    var p, whole := s.accepted[s.acquired - 1], Served(s.accepted[..s.acquired], finds).value;
    hide Frame;
    DecideMoves(p, s.consumer.have, s.current, s.consumer.goal, s.looked, s.called, whole, finds);
    DecideRing(s, finds);
    hide Shape;
    ShapeIn(Apply(s, Decide, finds));
    DecideKeeps(s, finds);
  }

  lemma ShapeIn(s: State)
    requires RingInv(s)
    ensures Shape(s)
  {
  }

  lemma DecideKeeps(s: State, finds: nat -> Registry)
    requires Shape(s) && ParseInv(s, finds) && Enabled(s, Decide) && s.acquired > 0 && Shape(Apply(s, Decide, finds))
    requires var p, whole := s.accepted[s.acquired - 1], Served(s.accepted[..s.acquired], finds).value;
             var m := Move(s.consumer.goal, s.consumer.have, s.looked, s.called, finds);
             if m.consumer.Busy? then
               m.consumer.have == [] && ReadSoFar(p, [], s.current)
               && OnTrack(p, |p| - |s.current|, m.consumer.goal, m.looked, m.called, whole, finds)
             else whole.calls == m.called && whole.finds == m.looked
    ensures ParseInv(Apply(s, Decide, finds), finds)
  {
    hide LE, Served, OnTrack, Parses, Move;
  }

  lemma ShapeOnTrack(p: Payload, x: int, goal: Goal, looked: nat, called: seq<Callback>, whole: Visit,
                     finds: nat -> Registry)
    requires OnTrack(p, x, goal, looked, called, whole, finds)
    ensures GoalShape(goal)
  {
  }

  lemma HaveIsPart(p: Payload, have: seq<byte>, current: seq<byte>, x: int, goal: Goal, looked: nat,
                   called: seq<Callback>, whole: Visit, finds: nat -> Registry)
    requires ReadSoFar(p, have, current) && x == |p| - |current| - |have| && |have| == Want(goal)
    requires OnTrack(p, x, goal, looked, called, whole, finds)
    ensures if x < 0 then have == LE(|p|, 4) else x + |have| <= |p| && have == p[x..x + |have|]
  {
    hide LE, FromLE, ParseFrom, VisitStamps, SamplesThen;
    var f := Frame(p);
    assert have == (have + current)[..|have|] == f[x + 4..][..|have|] == f[x + 4..x + 4 + |have|];
    if x >= 0 {
      assert f[4..] == p;
      assert f[4..][x..x + |have|] == f[x + 4..x + 4 + |have|];
    }
  }

  lemma Behind(p: Payload, have: seq<byte>, current: seq<byte>)
    requires ReadSoFar(p, have, current)
    ensures ReadSoFar(p, [], current)
  {
    hide LE;
    var i := 4 + |p| - |current| - |have|;
    assert Frame(p)[i..][|have|..] == Frame(p)[i + |have|..];
    assert (have + current)[|have|..] == current == [] + current;
  }

  lemma InvStep(s: State, e: Event, finds: nat -> Registry)
    requires Inv(s, finds) && Enabled(s, e) && (e.Arrive? ==> Parses(e.p, finds))
    ensures Inv(Apply(s, e, finds), finds)
  {
    hide RingInv, ParseInv, Apply, Enabled, Parses;
    if ByReceiver(e) {
      ReceiverRing(s, e, finds);
      ShapeOf(s, e, finds);
      ReceiverParse(s, e, finds);
    } else {
      match e {
        case Acquire => AcquireStep(s, finds); AcquireParse(s, finds);
        case Consume(n) => ConsumeParse(s, n, finds);
        case Decide => DecideParse(s, finds);
      }
    }
  }

  lemma ShapeOf(s: State, e: Event, finds: nat -> Registry)
    requires RingInv(s) && Enabled(s, e) && RingInv(Apply(s, e, finds))
    ensures Shape(s) && Shape(Apply(s, e, finds))
  {
  }

  ghost predicate Run(s: State, events: seq<Event>, t: State, finds: nat -> Registry)
    decreases |events|
  {
    if events == [] then s == t
    else Shape(s) && Enabled(s, events[0]) && Run(Apply(s, events[0], finds), events[1..], t, finds)
  }

  /** Every notification that arrives stays inside its frame when it is parsed. */
  ghost predicate Orderly(events: seq<Event>, finds: nat -> Registry) {
    forall e <- events :: e.Arrive? ==> Parses(e.p, finds)
  }

  lemma {:induction false} InvRun(s: State, events: seq<Event>, t: State, finds: nat -> Registry)
    requires Inv(s, finds) && Run(s, events, t, finds) && Orderly(events, finds)
    ensures Inv(t, finds)
    decreases |events|
  {
    if events != [] {
      hide Inv, Apply, Enabled, Parses;
      InvStep(s, events[0], finds);
      InvRun(Apply(s, events[0], finds), events[1..], t, finds);
    }
  }

  // ---- What the invariant gives ----------------------------------------------------------------

  /** In every interleaving the dispatcher takes the accepted frames, whole, in order and once each: never more
      than the counted ones, and all of them when it has caught up. */
  lemma TakenInOrder(s: State, events: seq<Event>, t: State, finds: nat -> Registry)
    requires Initial(s) && Run(s, events, t, finds) && Orderly(events, finds)
    ensures Shape(t)
    ensures t.taken + t.current == Frames(t.accepted[..t.acquired])
    ensures t.consumer.Waiting? && t.sem == 0 && t.producer.Ready? ==>
              t.taken == Frames(t.accepted) && Held(t.data, t.write, t.read) == []
  {
    hide ParseInv;
    InvInit(s, finds);
    InvRun(s, events, t, finds);
    assert t.accepted[..|t.accepted|] == t.accepted;
  }

  /** The ring never changes its size. */
  lemma {:induction false} SizeKept(s: State, events: seq<Event>, t: State, finds: nat -> Registry)
    requires Inv(s, finds) && Run(s, events, t, finds) && Orderly(events, finds)
    ensures |t.data| == |s.data|
    decreases |events|
  {
    if events != [] {
      InvStep(s, events[0], finds);
      SizeStep(s, events[0], finds);
      hide Inv, Apply, Enabled, Parses;
      SizeKept(Apply(s, events[0], finds), events[1..], t, finds);
    }
  }

  lemma SizeStep(s: State, e: Event, finds: nat -> Registry)
    requires Inv(s, finds) && Enabled(s, e)
    ensures |Apply(s, e, finds).data| == |s.data|
  {
    hide ParseInv, Held, Frames, Partial, LE, Digit, Move;
  }

  lemma {:induction false} FramesSplit(a: seq<Payload>, b: seq<Payload>)
    ensures |Frames(a + b)| == |Frames(a)| + |Frames(b)|
  {
    if a == [] {
      assert a + b == b;
    } else {
      assert (a + b)[1..] == a[1..] + b;
      FramesSplit(a[1..], b);
    }
  }

  /** Which notifications are lost: in every interleaving, one that arrives is accepted iff its frame fits beside the
      bytes that were accepted before and are not yet taken. One cell of the ring stays empty. */
  lemma AcceptedIffFits(s: State, events: seq<Event>, t: State, p: Payload, u: State, finds: nat -> Registry)
    requires Initial(s) && Run(s, events, t, finds) && Orderly(events, finds) && Run(t, [Arrive(p)], u, finds)
    ensures |t.taken| <= |Frames(t.accepted)|
    ensures u.accepted == if |Frames(t.accepted)| - |t.taken| + 4 + |p| < |s.data| then t.accepted + [p] else t.accepted
    ensures u.taken == t.taken && u.called == t.called
  {
    hide *;
    InvInit(s, finds);
    InvRun(s, events, t, finds);
    SizeKept(s, events, t, finds);
    OneArrival(t, p, u, finds);
    UnreadIsHeld(t, finds);
  }

  lemma OneArrival(t: State, p: Payload, u: State, finds: nat -> Registry)
    requires Run(t, [Arrive(p)], u, finds)
    ensures Shape(t) && t.producer.Ready?
    ensures u.accepted == if |p| + 4 > FreeBytes(|t.data|, t.write, t.read) then t.accepted else t.accepted + [p]
    ensures u.taken == t.taken && u.called == t.called
  {
    hide Shape;
    var one := [Arrive(p)];
    assert one[0] == Arrive(p) && one[1..] == [];
    assert Run(Apply(t, one[0], finds), one[1..], u, finds);
  }

  /** Between two notifications the ring holds what was accepted and not yet taken. */
  lemma UnreadIsHeld(t: State, finds: nat -> Registry)
    requires Inv(t, finds) && Shape(t) && t.producer.Ready?
    ensures |t.taken| <= |Frames(t.accepted)| && FreeBytes(|t.data|, t.write, t.read) < |t.data|
    ensures |t.data| - 1 - FreeBytes(|t.data|, t.write, t.read) == |Frames(t.accepted)| - |t.taken|
  {
    hide Held, Frames, LE, ParseInv, FreeBytes;
    var a, b := t.accepted[..t.acquired], t.accepted[t.acquired..t.counted];
    assert t.accepted == a + b;
    FramesSplit(a, b);
    assert |t.taken + t.current| == |t.taken| + |t.current|;
    assert |Held(t.data, t.write, t.read)| == |t.current| + |Frames(b)|;
  }

  /** End to end: whenever the dispatcher has finished its frame, the calls made are those of the parses of all frames
      it has acquired, in order; when it has caught up, of all frames ever accepted. */
  lemma CallsOfAllFrames(s: State, events: seq<Event>, t: State, finds: nat -> Registry)
    requires Initial(s) && Run(s, events, t, finds) && Orderly(events, finds)
    ensures Shape(t) && Served(t.accepted[..t.acquired], finds).Some?
    ensures t.consumer.Waiting? ==> t.called == Served(t.accepted[..t.acquired], finds).value.calls
    ensures t.consumer.Waiting? && t.sem == 0 && t.producer.Ready? ==>
              Served(t.accepted, finds).Some? && t.called == Served(t.accepted, finds).value.calls
  {
    hide Served, Held, Frames;
    InvInit(s, finds);
    InvRun(s, events, t, finds);
    assert t.accepted[..|t.accepted|] == t.accepted;
  }

  /** What a device sends: an ignored word, the stamps, and unused bytes. */
  datatype Message = Message(word: uint32, stamps: seq<Stamp>, slack: seq<byte>)

  predicate Sendable(m: Message) {
    Encodable(m.stamps) && |EncodePayload(m.word, m.stamps, m.slack)| < 0x1_0000_0000
  }

  function Encoded(m: Message): Payload
    requires Sendable(m)
  {
    EncodePayload(m.word, m.stamps, m.slack)
  }

  function AllEncoded(ms: seq<Message>): (ps: seq<Payload>)
    requires forall m <- ms :: Sendable(m)
    ensures |ps| == |ms|
  {
    if ms == [] then [] else AllEncoded(ms[..|ms| - 1]) + [Encoded(ms[|ms| - 1])]
  }

  /** What is due for a list of messages: the look-ups it takes and the calls. */
  function DueOfAll(ms: seq<Message>, finds: nat -> Registry): (nat, seq<Callback>) {
    if ms == [] then (0, [])
    else
      var before, all := DueOfAll(ms[..|ms| - 1], finds), AllSamples(ms[|ms| - 1].stamps);
      (before.0 + Looks(all, finds, before.0), before.1 + Due(all, finds, before.0))
  }

  /** What a device sends is parsed inside its frame, and adds exactly the calls that are due for its samples. */
  lemma EncodedParses(m: Message, finds: nat -> Registry)
    requires Sendable(m)
    ensures Parses(Encoded(m), finds)
    ensures forall k: nat, calls: seq<Callback> ::
              var r := ParseFrom(Encoded(m), k, calls, finds);
              r.Some? && r.value.calls == calls + Due(AllSamples(m.stamps), finds, k)
              && r.value.finds == k + Looks(AllSamples(m.stamps), finds, k)
  {
    hide ParseFrom, Due, AllSamples, Looks;
    forall k: nat, calls: seq<Callback>
      ensures var r := ParseFrom(Encoded(m), k, calls, finds);
              r.Some? && r.value.calls == calls + Due(AllSamples(m.stamps), finds, k)
              && r.value.finds == k + Looks(AllSamples(m.stamps), finds, k)
    {
      EncodedParsesFrom(m, k, calls, finds);
    }
  }

  lemma EncodedParsesFrom(m: Message, k: nat, calls: seq<Callback>, finds: nat -> Registry)
    requires Sendable(m)
    ensures var r := ParseFrom(Encoded(m), k, calls, finds);
            r.Some? && r.value.calls == calls + Due(AllSamples(m.stamps), finds, k)
            && r.value.finds == k + Looks(AllSamples(m.stamps), finds, k)
  {
    hide LE, FromLE, EncodeStamps, AllSamples, VisitStamps, Due, Looks, AnyMismatch;
    Pow256Values();
    var p, ts := Encoded(m), m.stamps;
    assert At(p, 0, p);
    AtConcat(p, 0, LE(m.word, 4) + LE(|ts|, 4) + EncodeStamps(ts), m.slack);
    AtConcat3(p, 0, LE(m.word, 4), LE(|ts|, 4), EncodeStamps(ts));
    NumberAt(p, 4, |ts|, 4);
    VisitEncodedStamps(p, ts, Visit(8, k, calls, false), finds);
  }

  lemma {:induction false} ServedEncoded(ms: seq<Message>, finds: nat -> Registry)
    requires forall m <- ms :: Sendable(m)
    ensures var r := Served(AllEncoded(ms), finds);
            r.Some? && r.value.finds == DueOfAll(ms, finds).0 && r.value.calls == DueOfAll(ms, finds).1
  {
    hide Sendable, Encoded, ParseFrom, Parses, Due, Looks, AllSamples;
    if ms != [] {
      var before, m := ms[..|ms| - 1], ms[|ms| - 1];
      ServedEncoded(before, finds);
      EncodedParses(m, finds);
      assert AllEncoded(ms)[..|ms| - 1] == AllEncoded(before);
    }
  }

  /** When everything that arrives is a message of a device, and whatever the interleaving: a dispatcher that has caught
      up has made exactly the calls due for the samples of the messages accepted, in their order. */
  lemma DueCalls(s: State, events: seq<Event>, t: State, finds: nat -> Registry, ms: seq<Message>)
    requires Initial(s) && Run(s, events, t, finds)
    requires forall e <- events :: e.Arrive? ==> exists m :: Sendable(m) && e.p == Encoded(m)
    requires (forall m <- ms :: Sendable(m)) && t.accepted == AllEncoded(ms)
    ensures t.consumer.Waiting? && t.sem == 0 && t.producer.Ready? ==> t.called == DueOfAll(ms, finds).1
  {
    hide Initial, Run, Served, Parses, Encoded, Sendable, DueOfAll, AllEncoded;
    forall e <- events | e.Arrive?
      ensures Parses(e.p, finds)
    {
      var m :| Sendable(m) && e.p == Encoded(m);
      EncodedParses(m, finds);
    }
    CallsOfAllFrames(s, events, t, finds);
    ServedEncoded(ms, finds);
  }

  /** The dispatcher never reads an unwritten byte: what it wants next is published, whatever is going on. */
  lemma ReadsAreWritten(t: State, finds: nat -> Registry)
    requires Inv(t, finds) && t.consumer.Busy?
    ensures Want(t.consumer.goal) - |t.consumer.have| <= AvailableBytes(|t.data|, t.write, t.read)
  {
    hide Frames, Partial, Held, LE, Served, OnTrack, Parses, Frame;
    var p := t.accepted[t.acquired - 1];
    var whole := Served(t.accepted[..t.acquired], finds).value;
    WantFits(p, |p| - |t.current| - |t.consumer.have|, t.consumer.goal, t.looked, t.called, whole, finds);
    CurrentIsWritten(t, |t.current|);
  }

  /** The receiver never waits for room: whatever it is doing, it can go on, and every chunk it measures before
      the last byte moves at least one byte, and as many as lie free up to the end of the array. */
  lemma ProducerNeverBlocks(t: State, finds: nat -> Registry)
    requires RingInv(t) && !t.producer.Ready?
    ensures match t.producer
            case StoringLength(_, _, stored) => Enabled(t, if stored then PublishLengthByte else StoreLengthByte)
            case Measuring(p, done) => Enabled(t, Measure) && Apply(t, Measure, finds).producer.Copying?
                                       && (done < |p| ==> Apply(t, Measure, finds).producer.chunk > 0)
                                       && Apply(t, Measure, finds).producer.chunk
                                          == Min(|p| - done, Min(FreeBytes(|t.data|, t.write, t.read),
                                                                 |t.data| - t.write))
            case Copying(_, _, chunk, off) => Enabled(t, if off == chunk then PublishChunk else CopyBytes(1))
            case Notifying(_) => Enabled(t, Release)
  {
  }

  /** Neither does the dispatcher: a frame that is counted can be acquired, and once it has one it can go on. */
  lemma ConsumerNeverBlocks(t: State, finds: nat -> Registry)
    requires Inv(t, finds)
    ensures match t.consumer
            case Waiting => t.acquired < t.counted ==> Enabled(t, Acquire)
            case Busy(goal, have) => Enabled(t, if |have| == Want(goal) then Decide else Consume(1))
  {
  }
}
