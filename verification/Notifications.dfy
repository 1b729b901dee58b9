/** Notification frames: their format, and the dispatcher that parses them out of the ring buffer. */
module Notifications {
  import opened Bytes
  import opened RingBuffers

  /** One registered callback: the sample size it expects and what it hands to the user. */
  datatype Notification = Notification(hNotify: uint32, size: uint32, hUser: uint32)
  type Registry = map<uint32, Notification>

  /** One call of a user callback. */
  datatype Callback = Callback(target: Notification, timestamp: uint64, data: seq<byte>)

  // ---- The format, as a structure --------------------------------------------------------------

  datatype Sample = Sample(handle: uint32, data: seq<byte>)
  datatype Stamp = Stamp(timestamp: uint64, samples: seq<Sample>)
  /** A sample together with the time of its stamp. */
  datatype TimedSample = TimedSample(timestamp: uint64, sample: Sample)

  function EncodeSample(s: Sample): seq<byte> {
    LE(s.handle, 4) + LE(|s.data|, 4) + s.data
  }

  function EncodeSamples(ss: seq<Sample>): seq<byte> {
    if ss == [] then [] else EncodeSample(ss[0]) + EncodeSamples(ss[1..])
  }

  function EncodeStamp(t: Stamp): seq<byte> {
    LE(t.timestamp, 8) + LE(|t.samples|, 4) + EncodeSamples(t.samples)
  }

  function EncodeStamps(ts: seq<Stamp>): seq<byte> {
    if ts == [] then [] else EncodeStamp(ts[0]) + EncodeStamps(ts[1..])
  }

  /** The bytes behind the stored length: an ignored word, the stamp count, the stamps, unused bytes. */
  function EncodePayload(word: uint32, ts: seq<Stamp>, slack: seq<byte>): seq<byte> {
    LE(word, 4) + LE(|ts|, 4) + EncodeStamps(ts) + slack
  }

  predicate EncodableStamp(t: Stamp) {
    |t.samples| < 0x1_0000_0000 && forall s :: s in t.samples ==> |s.data| < 0x1_0000_0000
  }

  predicate Encodable(ts: seq<Stamp>) {
    |ts| < 0x1_0000_0000 && forall t :: t in ts ==> EncodableStamp(t)
  }

  function Timed(timestamp: uint64, ss: seq<Sample>): (r: seq<TimedSample>)
    ensures |r| == |ss|
  {
    if ss == [] then [] else [TimedSample(timestamp, ss[0])] + Timed(timestamp, ss[1..])
  }

  function AllSamples(ts: seq<Stamp>): seq<TimedSample> {
    if ts == [] then [] else Timed(ts[0].timestamp, ts[0].samples) + AllSamples(ts[1..])
  }

  // ---- What has to be delivered ----------------------------------------------------------------
  // Other threads may add and remove callbacks between two look-ups, so finds(k) is the registry at
  // the moment of the k-th look-up, and sample k of the frame meets finds(k).

  predicate Mismatched(t: TimedSample, reg: Registry) {
    t.sample.handle in reg && reg[t.sample.handle].size != |t.sample.data|
  }

  predicate AnyMismatch(all: seq<TimedSample>, finds: nat -> Registry, k: nat) {
    exists i :: 0 <= i < |all| && Mismatched(all[i], finds(k + i))
  }

  /** The calls due for a run of samples: the registered ones before the first mismatch, in order. */
  function Due(all: seq<TimedSample>, finds: nat -> Registry, k: nat): seq<Callback> {
    if all == [] || Mismatched(all[0], finds(k)) then []
    else
      var s := all[0].sample;
      (if s.handle in finds(k) then [Callback(finds(k)[s.handle], all[0].timestamp, s.data)] else [])
      + Due(all[1..], finds, k + 1)
  }

  /** A mismatch ends the whole frame; otherwise the calls of two runs of samples follow each other. */
  lemma {:induction false} DueSplit(a: seq<TimedSample>, b: seq<TimedSample>, finds: nat -> Registry, k: nat)
    ensures AnyMismatch(a, finds, k) ==> Due(a + b, finds, k) == Due(a, finds, k)
    ensures !AnyMismatch(a, finds, k) ==> Due(a + b, finds, k) == Due(a, finds, k) + Due(b, finds, k + |a|)
  {
    if a == [] {
      assert a + b == b;
    } else {
      assert (a + b)[1..] == a[1..] + b;
      DueSplit(a[1..], b, finds, k + 1);
      MismatchHead(a, finds, k);
    }
  }

  /** What is due at sample i, when nothing before it was mismatched. */
  lemma DueAt(all: seq<TimedSample>, finds: nat -> Registry, k: nat, i: nat)
    requires i < |all| && !AnyMismatch(all[..i], finds, k)
    ensures var before, behind := Due(all[..i], finds, k), Due(all[i + 1..], finds, k + i + 1);
            var reg, handle, data := finds(k + i), all[i].sample.handle, all[i].sample.data;
            Due(all, finds, k)
            == if handle !in reg then before + behind
               else if reg[handle].size != |data| then before
               else before + [Callback(reg[handle], all[i].timestamp, data)] + behind
  {
    assert all == all[..i] + all[i..] && all[i..][1..] == all[i + 1..];
    DueSplit(all[..i], all[i..], finds, k);
  }

  /** How many look-ups a run of samples takes: none behind the first mismatch. */
  function Looks(all: seq<TimedSample>, finds: nat -> Registry, k: nat): nat {
    if all == [] then 0 else if Mismatched(all[0], finds(k)) then 1 else 1 + Looks(all[1..], finds, k + 1)
  }

  lemma {:induction false} LooksSplit(a: seq<TimedSample>, b: seq<TimedSample>, finds: nat -> Registry, k: nat)
    ensures AnyMismatch(a, finds, k) ==> Looks(a + b, finds, k) == Looks(a, finds, k)
    ensures !AnyMismatch(a, finds, k) ==>
              Looks(a, finds, k) == |a| && Looks(a + b, finds, k) == |a| + Looks(b, finds, k + |a|)
  {
    hide Mismatched;
    if a == [] {
      assert a + b == b;
    } else {
      assert (a + b)[1..] == a[1..] + b;
      LooksSplit(a[1..], b, finds, k + 1);
      MismatchHead(a, finds, k);
      hide AnyMismatch;
    }
  }

  lemma MismatchHead(a: seq<TimedSample>, finds: nat -> Registry, k: nat)
    requires a != []
    ensures AnyMismatch(a, finds, k) <==> Mismatched(a[0], finds(k)) || AnyMismatch(a[1..], finds, k + 1)
  {
    if AnyMismatch(a[1..], finds, k + 1) {
      var i :| 0 <= i < |a[1..]| && Mismatched(a[1..][i], finds(k + 1 + i));
      assert Mismatched(a[i + 1], finds(k + (i + 1)));
    }
    if AnyMismatch(a, finds, k) && !Mismatched(a[0], finds(k)) {
      var i :| 0 <= i < |a| && Mismatched(a[i], finds(k + i));
      assert i > 0 && Mismatched(a[1..][i - 1], finds(k + 1 + (i - 1)));
    }
  }

  lemma MismatchSplit(a: seq<TimedSample>, b: seq<TimedSample>, finds: nat -> Registry, k: nat)
    ensures AnyMismatch(a + b, finds, k) <==> AnyMismatch(a, finds, k) || AnyMismatch(b, finds, k + |a|)
  {
    if AnyMismatch(a, finds, k) {
      var i :| 0 <= i < |a| && Mismatched(a[i], finds(k + i));
      assert Mismatched((a + b)[i], finds(k + i));
    }
    if AnyMismatch(b, finds, k + |a|) {
      var i :| 0 <= i < |b| && Mismatched(b[i], finds(k + |a| + i));
      assert Mismatched((a + b)[|a| + i], finds(k + (|a| + i)));
    }
    if AnyMismatch(a + b, finds, k) {
      var i :| 0 <= i < |a + b| && Mismatched((a + b)[i], finds(k + i));
      assert if i < |a| then Mismatched(a[i], finds(k + i)) else Mismatched(b[i - |a|], finds(k + |a| + (i - |a|)));
    }
  }

  // ---- The format, as bytes --------------------------------------------------------------------

  lemma SampleLayout(s: Sample)
    requires |s.data| < 0x1_0000_0000
    ensures var b := EncodeSample(s);
            |b| >= 8 && Field(b, 0, 4) == s.handle && Field(b, 4, 4) == |s.data| && b[8..] == s.data
  {
    hide LE, Field;
    var b := EncodeSample(s);
    assert At(b, 0, LE(s.handle, 4) + LE(|s.data|, 4) + s.data);
    AtConcat3(b, 0, LE(s.handle, 4), LE(|s.data|, 4), s.data);
    FieldAt(b, 0, s.handle, 4);
    FieldAt(b, 4, |s.data|, 4);
  }

  lemma StampLayout(t: Stamp)
    requires EncodableStamp(t)
    ensures var b := EncodeStamp(t);
            |b| >= 12 && FromLE(b[..8]) == t.timestamp && Field(b, 8, 4) == |t.samples|
            && b[12..] == EncodeSamples(t.samples)
  {
    hide LE, FromLE, Field, EncodeSamples;
    var b := EncodeStamp(t);
    assert At(b, 0, LE(t.timestamp, 8) + LE(|t.samples|, 4) + EncodeSamples(t.samples));
    AtConcat3(b, 0, LE(t.timestamp, 8), LE(|t.samples|, 4), EncodeSamples(t.samples));
    FieldAt(b, 8, |t.samples|, 4);
    Pow256Values();
    NumberAt(b, 0, t.timestamp, 8);
    assert b[0..8] == b[..8];
  }

  lemma PayloadLayout(word: uint32, ts: seq<Stamp>, slack: seq<byte>)
    requires Encodable(ts)
    ensures var b := EncodePayload(word, ts, slack);
            |b| >= 8 && Field(b, 0, 4) == word && Field(b, 4, 4) == |ts| && b[8..] == EncodeStamps(ts) + slack
  {
    hide LE, Field, EncodeStamps;
    var b := EncodePayload(word, ts, slack);
    assert At(b, 0, LE(word, 4) + LE(|ts|, 4) + (EncodeStamps(ts) + slack)) by {
      assert b == LE(word, 4) + LE(|ts|, 4) + (EncodeStamps(ts) + slack);
    }
    AtConcat3(b, 0, LE(word, 4), LE(|ts|, 4), EncodeStamps(ts) + slack);
    FieldAt(b, 0, word, 4);
    FieldAt(b, 4, |ts|, 4);
  }

  // ---- Parsing raw bytes -----------------------------------------------------------------------

  /** How far a parse has come: position, look-ups made, calls made, and whether it met a mismatch. */
  datatype Visit = Visit(pos: nat, finds: nat, calls: seq<Callback>, aborted: bool)

  /** One sample at v.pos; None when it does not fit in b. */
  function VisitSample(b: seq<byte>, v: Visit, timestamp: uint64, finds: nat -> Registry): (r: Option<Visit>)
    ensures r.Some? ==> v.pos + 8 <= r.value.pos <= |b| && r.value.finds == v.finds + 1
  {
    if v.pos + 8 > |b| then None
    else
      Word(b, v.pos); Word(b, v.pos + 4);
      var handle := FromLE(b[v.pos..v.pos + 4]);
      var size := FromLE(b[v.pos + 4..v.pos + 8]);
      var reg := finds(v.finds);
      if handle in reg && size != reg[handle].size then
        Some(Visit(v.pos + 8, v.finds + 1, v.calls, true))
      else if v.pos + 8 + size > |b| then None
      else
        var data := b[v.pos + 8..v.pos + 8 + size];
        Some(Visit(v.pos + 8 + size, v.finds + 1,
                   if handle in reg then v.calls + [Callback(reg[handle], timestamp, data)] else v.calls, false))
  }

  lemma Word(b: seq<byte>, i: nat)
    requires i + 4 <= |b|
    ensures FromLE(b[i..i + 4]) < 0x1_0000_0000
  {
    Pow256Values();
  }

  lemma LongWord(b: seq<byte>, i: nat)
    requires i + 8 <= |b|
    ensures FromLE(b[i..i + 8]) < 0x1_0000_0000_0000_0000
  {
    Pow256Values();
  }

  function VisitSamples(b: seq<byte>, v: Visit, n: nat, timestamp: uint64, finds: nat -> Registry): (r: Option<Visit>)
    requires v.pos <= |b|
    ensures r.Some? ==> v.pos <= r.value.pos <= |b|
    decreases n
  {
    if n == 0 || v.aborted then Some(v)
    else
      var next := VisitSample(b, v, timestamp, finds);
      if next.None? then None else VisitSamples(b, next.value, n - 1, timestamp, finds)
  }

  /** One stamp at v.pos with all its samples. */
  function VisitStamp(b: seq<byte>, v: Visit, finds: nat -> Registry): (r: Option<Visit>)
    ensures r.Some? ==> v.pos + 12 <= r.value.pos <= |b|
  {
    if v.pos + 12 > |b| then None
    else
      LongWord(b, v.pos);
      var timestamp := FromLE(b[v.pos..v.pos + 8]);
      var numSamples := FromLE(b[v.pos + 8..v.pos + 12]);
      VisitSamples(b, v.(pos := v.pos + 12), numSamples, timestamp, finds)
  }

  function VisitStamps(b: seq<byte>, v: Visit, n: nat, finds: nat -> Registry): (r: Option<Visit>)
    requires v.pos <= |b|
    ensures r.Some? ==> v.pos <= r.value.pos <= |b|
    decreases n
  {
    if n == 0 || v.aborted then Some(v)
    else
      var next := VisitStamp(b, v, finds);
      if next.None? then None else VisitStamps(b, next.value, n - 1, finds)
  }

  /** The parse of everything behind the stored length. */
  function VisitPayload(b: seq<byte>, finds: nat -> Registry): (r: Option<Visit>)
    ensures r.Some? ==> 8 <= r.value.pos <= |b|
  {
    if |b| < 8 then None
    else VisitStamps(b, Visit(8, 0, [], false), FromLE(b[4..8]), finds)
  }

  // ---- The parse of an encoded frame -----------------------------------------------------------

  /** r is the parse, from v on, of encoded samples all that take length bytes: it makes exactly the calls
      that are due, and stops before the end only at a mismatch. */
  ghost predicate Delivers(v: Visit, r: Option<Visit>, all: seq<TimedSample>, length: nat, finds: nat -> Registry) {
    && r.Some?
    && r.value.calls == v.calls + Due(all, finds, v.finds)
    && r.value.aborted == AnyMismatch(all, finds, v.finds)
    && r.value.finds == v.finds + Looks(all, finds, v.finds)
    && r.value.pos <= v.pos + length
    && (!r.value.aborted ==> r.value.pos == v.pos + length)
  }

  lemma DeliversAppend(v: Visit, mid: Visit, r: Option<Visit>, a: seq<TimedSample>, b: seq<TimedSample>,
                       m: nat, n: nat, finds: nat -> Registry)
    requires Delivers(v, Some(mid), a, m, finds)
    requires mid.aborted ==> r == Some(mid)
    requires !mid.aborted ==> Delivers(mid, r, b, n, finds)
    ensures Delivers(v, r, a + b, m + n, finds)
  {
    DueSplit(a, b, finds, v.finds);
    LooksSplit(a, b, finds, v.finds);
    MismatchSplit(a, b, finds, v.finds);
  }

  lemma VisitEncodedSample(b: seq<byte>, s: Sample, v: Visit, timestamp: uint64, finds: nat -> Registry)
    requires |s.data| < 0x1_0000_0000 && At(b, v.pos, EncodeSample(s)) && !v.aborted
    ensures Delivers(v, VisitSample(b, v, timestamp, finds), [TimedSample(timestamp, s)], |EncodeSample(s)|, finds)
  {
    hide FromLE, LE;
    Pow256Values();
    AtConcat3(b, v.pos, LE(s.handle, 4), LE(|s.data|, 4), s.data);
    NumberAt(b, v.pos, s.handle, 4);
    NumberAt(b, v.pos + 4, |s.data|, 4);
    var one := [TimedSample(timestamp, s)];
    assert one[1..] == [];
    MismatchHead(one, finds, v.finds);
    assert Due([], finds, v.finds + 1) == [] && Looks([], finds, v.finds + 1) == 0;
  }

  lemma {:induction false} VisitEncodedSamples(b: seq<byte>, ss: seq<Sample>, v: Visit, timestamp: uint64,
                                               finds: nat -> Registry)
    requires forall s :: s in ss ==> |s.data| < 0x1_0000_0000
    requires At(b, v.pos, EncodeSamples(ss)) && !v.aborted
    ensures Delivers(v, VisitSamples(b, v, |ss|, timestamp, finds), Timed(timestamp, ss), |EncodeSamples(ss)|, finds)
    decreases |ss|
  {
    hide FromLE, LE, EncodeSample, VisitSample, Mismatched;
    if ss != [] {
      AtConcat(b, v.pos, EncodeSample(ss[0]), EncodeSamples(ss[1..]));
      VisitEncodedSample(b, ss[0], v, timestamp, finds);
      var next := VisitSample(b, v, timestamp, finds).value;
      var r := VisitSamples(b, next, |ss| - 1, timestamp, finds);
      if !next.aborted {
        VisitEncodedSamples(b, ss[1..], next, timestamp, finds);
      }
      hide Delivers, AnyMismatch, Due, Looks;
      DeliversAppend(v, next, r, [TimedSample(timestamp, ss[0])], Timed(timestamp, ss[1..]),
                     |EncodeSample(ss[0])|, |EncodeSamples(ss[1..])|, finds);
    }
  }

  lemma VisitEncodedStamp(b: seq<byte>, t: Stamp, v: Visit, finds: nat -> Registry)
    requires EncodableStamp(t) && At(b, v.pos, EncodeStamp(t)) && !v.aborted
    ensures Delivers(v, VisitStamp(b, v, finds), Timed(t.timestamp, t.samples), |EncodeStamp(t)|, finds)
  {
    hide FromLE, LE, EncodeSamples, VisitSamples, Timed, Due;
    AtConcat3(b, v.pos, LE(t.timestamp, 8), LE(|t.samples|, 4), EncodeSamples(t.samples));
    assert FromLE(b[v.pos..v.pos + 8]) == t.timestamp && FromLE(b[v.pos + 8..v.pos + 12]) == |t.samples| by {
      Pow256Values();
      NumberAt(b, v.pos, t.timestamp, 8);
      NumberAt(b, v.pos + 8, |t.samples|, 4);
    }
    VisitEncodedSamples(b, t.samples, v.(pos := v.pos + 12), t.timestamp, finds);
  }

  lemma {:induction false} VisitEncodedStamps(b: seq<byte>, ts: seq<Stamp>, v: Visit, finds: nat -> Registry)
    requires Encodable(ts)
    requires At(b, v.pos, EncodeStamps(ts)) && !v.aborted
    ensures Delivers(v, VisitStamps(b, v, |ts|, finds), AllSamples(ts), |EncodeStamps(ts)|, finds)
    decreases |ts|
  {
    hide FromLE, LE, EncodeStamp, VisitStamp, Mismatched;
    if ts != [] {
      AtConcat(b, v.pos, EncodeStamp(ts[0]), EncodeStamps(ts[1..]));
      VisitEncodedStamp(b, ts[0], v, finds);
      var next := VisitStamp(b, v, finds).value;
      var r := VisitStamps(b, next, |ts| - 1, finds);
      if !next.aborted {
        VisitEncodedStamps(b, ts[1..], next, finds);
      }
      hide Delivers, AnyMismatch, Due, Looks;
      DeliversAppend(v, next, r, Timed(ts[0].timestamp, ts[0].samples), AllSamples(ts[1..]),
                     |EncodeStamp(ts[0])|, |EncodeStamps(ts[1..])|, finds);
    }
  }

  /** Every well-formed frame is parsed within its own bytes, whatever is registered, and makes the calls due. */
  lemma EncodedFrameIsVisited(word: uint32, ts: seq<Stamp>, slack: seq<byte>, behind: seq<byte>, finds: nat -> Registry)
    requires Encodable(ts)
    ensures var r := VisitPayload(EncodePayload(word, ts, slack) + behind, finds);
            && r.Some?
            && r.value.pos <= |EncodePayload(word, ts, slack)|
            && r.value.calls == Due(AllSamples(ts), finds, 0)
            && r.value.aborted == AnyMismatch(AllSamples(ts), finds, 0)
  {
    Pow256Values();
    var frame := EncodePayload(word, ts, slack);
    var b := frame + behind;
    assert At(b, 0, frame);
    AtConcat(b, 0, LE(word, 4) + LE(|ts|, 4) + EncodeStamps(ts), slack);
    AtConcat3(b, 0, LE(word, 4), LE(|ts|, 4), EncodeStamps(ts));
    NumberAt(b, 4, |ts|, 4);
    VisitEncodedStamps(b, ts, Visit(8, 0, [], false), finds);
  }

  // ---- Staying in step -------------------------------------------------------------------------

  /** What 32-bit unsigned subtraction leaves of a. */
  function Sub32(a: uint32, b: nat): (r: uint32)
    ensures b <= a ==> r == a - b
  {
    (a - b) % 0x1_0000_0000
  }

  lemma NothingOff(a: uint32)
    ensures Sub32(a, 0) == a
  {
  }

  lemma Sub32Twice(a: uint32, b: nat, c: nat)
    ensures Sub32(Sub32(a, b), c) == Sub32(a, b + c)
  {
  }

  lemma SkipFitsIff(stored: uint32, pos: nat, available: nat)
    requires pos <= available < 0x1_0000_0000
    ensures pos + Sub32(stored, pos) <= available <==> pos <= stored <= available
    ensures pos + Sub32(stored, pos) == stored <==> pos <= stored
  {
    if pos > stored {
      Modulo(stored - pos, 0x1_0000_0000);
    }
  }

  /** b is what the ring holds behind the length word, stored is that word. The closing skip stays inside the ring iff
      the parse stayed inside the stored length and the frame inside the ring, and then ends exactly at the end of the
      frame. Otherwise what is left of the length has wrapped past anything the ring can hold, or the frame is not all
      there. */
  lemma InStepIffInsideFrame(b: seq<byte>, stored: uint32, finds: nat -> Registry)
    requires VisitPayload(b, finds).Some? && |b| < 0x1_0000_0000
    ensures var pos := VisitPayload(b, finds).value.pos;
            && (pos + Sub32(stored, pos) <= |b| <==> pos <= stored <= |b|)
            && (pos + Sub32(stored, pos) == stored <==> pos <= stored)
  {
    SkipFitsIff(stored, VisitPayload(b, finds).value.pos, |b|);
  }

  lemma Modulo(x: int, m: nat)
    requires x < 0 <= x + m
    ensures m > 0 && x % m == x + m
  {
    assert (x + m) % m == x + m - m * ((x + m) / m);
  }

  // ---- The dispatcher --------------------------------------------------------------------------

  /** How one turn of a loop went: on to the next one, a size mismatch, or not enough bytes in the ring. */
  datatype LoopStep = Next | Mismatch | Starved
  /** How a pass ended: at the end of its frame, with a skip that does not fit, or without bytes to parse. */
  datatype PassEnd = InStep | OutOfStep | Starving

  class NotificationDispatcher {
    const ring: RingBuffer
    /** The semaphore: how many complete frames wait in the ring. */
    var sem: nat
    /** Every callback made so far. */
    var called: seq<Callback>

    constructor (N: nat)
      ensures ring.Valid() && fresh(ring) && fresh(ring.data)
      ensures ring.Contents() == [] && ring.data.Length == N + 1 && called == [] && sem == 0
    {
      ring := new RingBuffer(N);
      called, sem := [], 0;
    }

    method Notify()
      modifies this`sem
      ensures sem == old(sem) + 1
    {
      sem := sem + 1;
    }

    /** Copies one sample out of the ring, byte by byte, and calls the user. */
    method NotifySample(target: Notification, timestamp: uint64)
      requires ring.Valid() && target.size <= |ring.Contents()|
      modifies this`called, ring`read
      ensures ring.Valid() && ring.Contents() == old(ring.Contents())[target.size..]
      ensures called == old(called) + [Callback(target, timestamp, old(ring.Contents())[..target.size])]
    {
      var data := CopySample(target.size);
      called := called + [Callback(target, timestamp, data[..])];
    }

    /** The bytes of one sample, in a buffer of their size. */
    method CopySample(size: uint32) returns (data: array<byte>)
      requires ring.Valid() && size <= |ring.Contents()|
      modifies ring`read
      ensures ring.Valid() && ring.Contents() == old(ring.Contents())[size..]
      ensures fresh(data) && data[..] == old(ring.Contents())[..size]
    {
      ghost var was := ring.Contents();
      hide *;
      data := new byte[size];
      for i := 0 to size
        invariant ring.Valid() && ring.Contents() == was[i..]
        invariant data[..i] == was[..i]
      {
        CopyByte(data, i, was);
      }
      assert data[..] == data[..size];
    }

    method CopyByte(data: array<byte>, i: nat, ghost was: seq<byte>)
      requires ring.Valid() && i < |was| && ring.Contents() == was[i..]
      requires data != ring.data && i < data.Length && data[..i] == was[..i]
      modifies ring`read, data
      ensures ring.Valid() && ring.Contents() == was[i + 1..] && data[..i + 1] == was[..i + 1]
    {
      hide *;
      FirstByte(was[i..]);
      data[i] := ring.ReadFromLittleEndian(1);
    }

    static lemma FirstByte(b: seq<byte>)
      requires b != []
      ensures FromLE(b[..1]) == b[0]
    {
    }

    /** A little-endian word from the front, for a ring that holds the bytes of b from pos on. None when it holds fewer,
        where the assertion in the code fails. */
    method Take(width: nat, ghost b: seq<byte>, ghost pos: nat) returns (value: Option<nat>)
      requires ring.Valid() && pos <= |b| && ring.Contents() == b[pos..]
      modifies ring`read
      ensures value == if pos + width <= |b| then Some(FromLE(b[pos..pos + width])) else None
      ensures ring.Valid() && (value.Some? ==> ring.Contents() == b[pos + width..])
    {
      if width > ring.BytesAvailable() {
        return None;
      }
      assert b[pos..][..width] == b[pos..pos + width];
      var v := ring.ReadFromLittleEndian(width);
      value := Some(v);
    }

    /** What a part of a pass has come to: next is the parse, base what was called before. */
    ghost predicate Came(step: LoopStep, b: seq<byte>, next: Option<Visit>, base: seq<Callback>)
      reads this, ring, ring.data
    {
      && ring.Valid() && base <= called && (step.Starved? <==> next.None?)
      && (next.Some? ==>
            && next.value.pos <= |b| && ring.Contents() == b[next.value.pos..] && called == base + next.value.calls
            && (step.Mismatch? <==> next.value.aborted))
    }

    static lemma SampleParts(b: seq<byte>, v: Visit, timestamp: uint64, finds: nat -> Registry)
      ensures v.pos + 8 > |b| ==> VisitSample(b, v, timestamp, finds) == None
      ensures v.pos + 8 <= |b| ==>
                var hNotify, size := FromLE(b[v.pos..v.pos + 4]), FromLE(b[v.pos + 4..v.pos + 8]);
                var reg, at, r := finds(v.finds), v.pos + 8, VisitSample(b, v, timestamp, finds);
                if hNotify in reg && size != reg[hNotify].size then r == Some(Visit(at, v.finds + 1, v.calls, true))
                else if at + size > |b| then r == None
                else
                  var data := b[at..at + size];
                  var calls := if hNotify in reg then [Callback(reg[hNotify], timestamp, data)] else [];
                  r == Some(Visit(at + size, v.finds + 1, v.calls + calls, false))
    {
      hide FromLE;
      assert v.calls + [] == v.calls;
    }

    /** The body of the sample loop; next is the parse after this sample, and base what was called before. */
    method RunSample(finds: nat -> Registry, k: nat, timestamp: uint64, fullLength: uint32, ghost b: seq<byte>,
                     ghost v: Visit, ghost next: Option<Visit>, ghost base: seq<Callback>)
      returns (step: LoopStep, left: uint32)
      requires ring.Valid() && v.pos <= |b| && ring.Contents() == b[v.pos..] && called == base + v.calls
      requires VisitSample(b, v, timestamp, finds) == next && k == v.finds
      modifies this`called, ring`read
      ensures Came(step, b, next, base) && (next.Some? ==> left == Sub32(fullLength, next.value.pos - v.pos))
    {
      SampleParts(b, v, timestamp, finds);
      hide FromLE, VisitSample, Sub32, RingBuffer.Contents, RingBuffer.BytesAvailable, RingBuffer.Valid;
      left := Sub32(fullLength, 8);
      var hNotify := Take(4, b, v.pos);
      if hNotify.None? {
        return Starved, left;
      }
      var size := Take(4, b, v.pos + 4);
      if size.None? {
        return Starved, left;
      }
      Word(b, v.pos);
      Word(b, v.pos + 4);
      step, left := RunData(finds(k), hNotify.value, size.value, timestamp, left, b, v.pos + 8);
      Sub32Twice(fullLength, 8, size.value);
    }

    /** The data of a sample, at position pos of b. */
    method RunData(reg: Registry, hNotify: uint32, size: uint32, timestamp: uint64, fullLength: uint32,
                   ghost b: seq<byte>, ghost pos: nat)
      returns (step: LoopStep, left: uint32)
      requires ring.Valid() && pos <= |b| && ring.Contents() == b[pos..]
      modifies this`called, ring`read
      ensures var mismatch := hNotify in reg && size != reg[hNotify].size;
              && ring.Valid() && (step.Mismatch? <==> mismatch)
              && (step.Starved? <==> !mismatch && pos + size > |b|)
              && left == (if step.Next? then Sub32(fullLength, size) else fullLength)
              && (!step.Starved? ==> ring.Contents() == b[if mismatch then pos else pos + size..])
              && called == old(called) + if step.Next? && hNotify in reg
                                         then [Callback(reg[hNotify], timestamp, b[pos..pos + size])] else []
    {
      hide RingBuffer.Contents, RingBuffer.BytesAvailable, RingBuffer.Valid;
      if hNotify in reg && size != reg[hNotify].size {
        return Mismatch, fullLength;
      }
      if size > ring.BytesAvailable() {
        return Starved, fullLength;
      }
      assert b[pos..][..size] == b[pos..pos + size] && b[pos..][size..] == b[pos + size..];
      if hNotify in reg {
        NotifySample(reg[hNotify], timestamp);
      } else {
        ring.Read(size);
      }
      return Next, Sub32(fullLength, size);
    }

    /** The sample loop of one stamp; inner is the parse after it. */
    method RunSamples(finds: nat -> Registry, k: nat, timestamp: uint64, numSamples: nat, fullLength: uint32,
                      ghost b: seq<byte>, ghost start: Visit, ghost inner: Option<Visit>, ghost base: seq<Callback>)
      returns (step: LoopStep, left: uint32, k': nat)
      requires ring.Valid() && start.pos <= |b| && ring.Contents() == b[start.pos..] && called == base + start.calls
      requires VisitSamples(b, start, numSamples, timestamp, finds) == inner && k == start.finds
      requires !start.aborted
      modifies this`called, ring`read
      ensures Came(step, b, inner, base)
      ensures inner.Some? ==> left == Sub32(fullLength, inner.value.pos - start.pos) && k' == inner.value.finds
    {
      hide FromLE, VisitSample, Sub32, RingBuffer.Contents, RingBuffer.Valid;
      assert Sub32(fullLength, 0) == fullLength by { NothingOff(fullLength); }
      ghost var v := start;
      step, left, k' := Next, fullLength, k;
      for sample := 0 to numSamples
        invariant ring.Valid() && start.pos <= v.pos <= |b| && ring.Contents() == b[v.pos..]
        invariant !v.aborted && VisitSamples(b, v, numSamples - sample, timestamp, finds) == inner
        invariant called == base + v.calls && k' == v.finds && left == Sub32(fullLength, v.pos - start.pos)
        invariant step == Next
      {
        ghost var next := VisitSample(b, v, timestamp, finds);
        step, left := RunSample(finds, k', timestamp, left, b, v, next, base);
        if step == Starved {
          return;
        }
        Sub32Twice(fullLength, v.pos - start.pos, next.value.pos - v.pos);
        v, k' := next.value, k' + 1;
        if step == Mismatch {
          return;
        }
      }
    }

    /** The stamp loop; visit is the parse after it. */
    method RunStamps(finds: nat -> Registry, numStamps: nat, fullLength: uint32, ghost b: seq<byte>, ghost start: Visit,
                     ghost visit: Option<Visit>, ghost base: seq<Callback>)
      returns (step: LoopStep, left: uint32)
      requires ring.Valid() && start.pos <= |b| && ring.Contents() == b[start.pos..] && called == base + start.calls
      requires VisitStamps(b, start, numStamps, finds) == visit && start.finds == 0
      requires !start.aborted
      modifies this`called, ring`read
      ensures Came(step, b, visit, base) && (visit.Some? ==> left == Sub32(fullLength, visit.value.pos - start.pos))
    {
      hide FromLE, VisitStamp, RingBuffer.Contents, RingBuffer.Valid;
      ghost var v := start;
      var k := 0;
      step, left := Next, fullLength;
      for stamp := 0 to numStamps
        invariant ring.Valid() && start.pos <= v.pos <= |b| && ring.Contents() == b[v.pos..]
        invariant !v.aborted && VisitStamps(b, v, numStamps - stamp, finds) == visit
        invariant called == base + v.calls && k == v.finds && left == Sub32(fullLength, v.pos - start.pos)
        invariant step == Next
      {
        ghost var next := VisitStamp(b, v, finds);
        step, left, k := RunStamp(finds, k, left, b, v, next, base);
        if step == Starved {
          return;
        }
        Sub32Twice(fullLength, v.pos - start.pos, next.value.pos - v.pos);
        v := next.value;
        if step == Mismatch {
          return;
        }
      }
    }

    /** The body of the stamp loop; next is the parse after this stamp. */
    method RunStamp(finds: nat -> Registry, k: nat, fullLength: uint32, ghost b: seq<byte>, ghost v: Visit,
                    ghost next: Option<Visit>, ghost base: seq<Callback>)
      returns (step: LoopStep, left: uint32, k': nat)
      requires ring.Valid() && v.pos <= |b| && ring.Contents() == b[v.pos..] && called == base + v.calls
      requires VisitStamp(b, v, finds) == next && k == v.finds && !v.aborted
      modifies this`called, ring`read
      ensures Came(step, b, next, base)
      ensures next.Some? ==> left == Sub32(fullLength, next.value.pos - v.pos) && k' == next.value.finds
    {
      hide FromLE, VisitSamples, RingBuffer.Contents, RingBuffer.Valid;
      left, k' := Sub32(fullLength, 12), k;
      var timestamp := Take(8, b, v.pos);
      if timestamp.None? {
        return Starved, left, k';
      }
      LongWord(b, v.pos);
      var numSamples := Take(4, b, v.pos + 8);
      if numSamples.None? {
        return Starved, left, k';
      }
      ghost var start := v.(pos := v.pos + 12);
      step, left, k' := RunSamples(finds, k, timestamp.value, numSamples.value, left, b, start, next, base);
      if next.Some? {
        Sub32Twice(fullLength, 12, next.value.pos - (v.pos + 12));
      }
    }

    /** One pass of the dispatcher thread over whatever the ring holds behind a stored length; finds(k) is the registry
        that the k-th look-up meets. When the parse stays inside the ring, its calls are made, and the pass ends at the
        end of the frame iff it stayed inside the stored length, and the frame inside the ring. Else an assertion in
        Read fails: at the closing skip, or in the parse. */
    method RunOnce(finds: nat -> Registry, ghost stored: uint32, ghost b: seq<byte>) returns (end: PassEnd)
      requires ring.Valid() && sem > 0 && |b| < 0x1_0000_0000
      requires ring.Contents() == LE(stored, 4) + b
      modifies this`sem, this`called, ring`read
      ensures ring.Valid() && sem == old(sem) - 1
      ensures var visit := VisitPayload(b, finds);
              && old(called) <= called && (end.Starving? <==> visit.None?)
              && (visit.Some? ==>
                    && called == old(called) + visit.value.calls && (end.InStep? <==> visit.value.pos <= stored <= |b|)
                    && ring.Contents() == b[if end.InStep? then stored else visit.value.pos..])
    {
      sem := sem - 1;
      StampsOfPayload(b, finds);
      hide *;
      var head := TakeHead(stored, b);
      if head.None? {
        return Starving;
      }
      end := RunFrame(finds, head.value.1, head.value.0, stored, b, VisitPayload(b, finds), called);
    }

    /** What follows the head of a frame; visit is the parse of all of it. */
    method RunFrame(finds: nat -> Registry, numStamps: nat, fullLength: uint32, ghost stored: uint32,
                    ghost b: seq<byte>, ghost visit: Option<Visit>, ghost base: seq<Callback>)
      returns (end: PassEnd)
      requires ring.Valid() && 8 <= |b| < 0x1_0000_0000 && ring.Contents() == b[8..] && called == base
      requires VisitStamps(b, Visit(8, 0, [], false), numStamps, finds) == visit && fullLength == Sub32(stored, 8)
      requires visit.Some? ==> visit.value.pos >= 8
      modifies this`called, ring`read
      ensures ring.Valid() && base <= called && (end.Starving? <==> visit.None?)
      ensures visit.Some? ==>
                && called == base + visit.value.calls && (end.InStep? <==> visit.value.pos <= stored <= |b|)
                && ring.Contents() == b[if end.InStep? then stored else visit.value.pos..]
    {
      hide FromLE, VisitStamps, Sub32, RingBuffer.Contents, RingBuffer.Valid;
      var step, left := RunStamps(finds, numStamps, fullLength, b, Visit(8, 0, [], false), visit, base);
      if step == Starved {
        return Starving;
      }
      Sub32Twice(stored, 8, visit.value.pos - 8);
      var inStep := CloseFrame(left, stored, b, visit.value.pos);
      end := if inStep then InStep else OutOfStep;
    }

    static lemma StampsOfPayload(b: seq<byte>, finds: nat -> Registry)
      ensures |b| < 8 ==> VisitPayload(b, finds) == None
      ensures |b| >= 8 ==>
                VisitPayload(b, finds) == VisitStamps(b, Visit(8, 0, [], false), FromLE(b[4..8]), finds)
      ensures VisitPayload(b, finds).Some? ==> VisitPayload(b, finds).value.pos >= 8
    {
    }

    /** The stored length, an ignored word and the number of stamps: what is left of the length, and that number. */
    method TakeHead(ghost stored: uint32, ghost b: seq<byte>) returns (head: Option<(uint32, uint32)>)
      requires ring.Valid() && ring.Contents() == LE(stored, 4) + b
      modifies ring`read
      ensures ring.Valid() && (head.None? <==> |b| < 8)
      ensures head.Some? ==> ring.Contents() == b[8..] && head.value == (Sub32(stored, 8), FromLE(b[4..8]))
    {
      hide FromLE, LE, Sub32, RingBuffer.Contents, RingBuffer.Valid;
      var fullLength := TakeLength(stored, b);
      assert ring.Contents() == b[0..];
      var length := Take(4, b, 0);
      if length.None? {
        return None;
      }
      var numStamps := Take(4, b, 4);
      if numStamps.None? {
        return None;
      }
      Word(b, 4);
      head := Some((Sub32(fullLength, 8), numStamps.value));
    }

    /** The closing skip, and whether the assertion in Read holds. */
    method CloseFrame(fullLength: uint32, ghost stored: uint32, ghost b: seq<byte>, ghost pos: nat)
      returns (inStep: bool)
      requires ring.Valid() && pos <= |b| && ring.Contents() == b[pos..]
      requires |b| < 0x1_0000_0000 && fullLength == Sub32(stored, pos)
      modifies ring`read
      ensures ring.Valid() && (inStep <==> pos <= stored <= |b|)
      ensures ring.Contents() == b[if inStep then stored else pos..]
    {
      hide RingBuffer.Contents, RingBuffer.Valid, Sub32;
      SkipFitsIff(stored, pos, |b|);
      inStep := fullLength <= ring.BytesAvailable();
      if inStep {
        assert b[pos..][fullLength..] == b[stored..];
        ring.Read(fullLength);
      }
    }

    /** The length word that the receiver stored in front of the frame. */
    method TakeLength(ghost stored: uint32, ghost b: seq<byte>) returns (fullLength: uint32)
      requires ring.Valid() && ring.Contents() == LE(stored, 4) + b
      modifies ring`read
      ensures ring.Valid() && ring.Contents() == b && fullLength == stored
    {
      Pow256Values();
      FromLEofLE(stored, 4);
      hide FromLE, LE, Pow256;
      assert (LE(stored, 4) + b)[..4] == LE(stored, 4) && (LE(stored, 4) + b)[4..] == b;
      fullLength := ring.ReadFromLittleEndian(4);
    }
  }
}
