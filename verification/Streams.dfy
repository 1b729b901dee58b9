/** A TCP stream read under a schedule: what every socket.read meets is an explicit input. */
module Streams {
  import opened Bytes
  import opened RingBuffers

  /** What the next look at the socket or the clock meets: bytes (none, when recv fails), the end of the deadline,
      or the end of the connection. One step may stand for several reads in a row. */
  datatype Step = Bytes(n: nat) | TimeOut | Hangup
  type Schedule = seq<Step>

  /** How a part of the code ended: everything arrived, the deadline passed, the connection is gone, or the code is
      about to use a null pointer or to write behind a buffer, which is where the model stops. */
  datatype Status = Done | Expired | Lost | Undefined

  datatype Part = Part(status: Status, got: nat, rest: Schedule)

  /** Reading n bytes while avail are in the stream; untimed reads cannot time out. */
  function Reading(n: nat, avail: nat, schedule: Schedule, timed: bool): (p: Part)
    ensures p.got <= n && p.got <= avail && |p.rest| <= |schedule|
    ensures p.status == Done <==> p.got == n
    ensures p.status == Done && n > 0 ==> |p.rest| < |schedule|
    ensures p.status != Undefined && (p.status == Expired ==> timed)
  {
    if n == 0 then Part(Done, 0, schedule)
    else if schedule == [] then Part(Lost, 0, [])
    else
      match schedule[0]
      case Bytes(k) =>
        var m := Min(k, Min(n, avail));
        var p := Reading(n - m, avail - m, schedule[1..], timed);
        Part(p.status, m + p.got, p.rest)
      case TimeOut => if timed then Part(Expired, 0, schedule[1..]) else Reading(n, avail, schedule[1..], timed)
      case Hangup => Part(Lost, 0, schedule[1..])
  }

  /** A part of which some bytes were there before. */
  function Later(got: nat, p: Part): Part {
    Part(p.status, got + p.got, p.rest)
  }

  /** After got of n bytes, what is left to read decides how it ends. */
  ghost predicate Still(n: nat, avail: nat, schedule: Schedule, timed: bool, got: nat, avail': nat,
                        schedule': Schedule) {
    got <= n && Reading(n, avail, schedule, timed) == Later(got, Reading(n - got, avail', schedule', timed))
  }

  lemma Unread(n: nat, avail: nat, schedule: Schedule, timed: bool)
    ensures Still(n, avail, schedule, timed, 0, avail, schedule)
  {
  }

  lemma StillMore(n: nat, avail: nat, schedule: Schedule, timed: bool, got: nat, avail': nat, schedule': Schedule,
                  more: nat, avail'': nat, schedule'': Schedule)
    requires Still(n, avail, schedule, timed, got, avail', schedule')
    requires Still(n - got, avail', schedule', timed, more, avail'', schedule'')
    ensures Still(n, avail, schedule, timed, got + more, avail'', schedule'')
  {
  }

  lemma StillEnds(n: nat, avail: nat, schedule: Schedule, timed: bool, got: nat, avail': nat, schedule': Schedule,
                  status: Status, rest: Schedule)
    requires Still(n, avail, schedule, timed, got, avail', schedule')
    requires Reading(n - got, avail', schedule', timed) == Part(status, 0, rest)
    ensures Reading(n, avail, schedule, timed) == Part(status, got, rest)
  {
  }

  lemma StillDone(n: nat, avail: nat, schedule: Schedule, timed: bool, avail': nat, schedule': Schedule)
    requires Still(n, avail, schedule, timed, n, avail', schedule')
    ensures Reading(n, avail, schedule, timed) == Part(Done, n, schedule')
  {
  }

  /** Reading, one look at a time. */
  lemma ReadingStep(n: nat, avail: nat, schedule: Schedule, timed: bool)
    requires n > 0
    ensures Reading(n, avail, schedule, timed)
         == if schedule == [] then Part(Lost, 0, [])
            else if schedule[0].Hangup? then Part(Lost, 0, schedule[1..])
            else if schedule[0].TimeOut? && timed then Part(Expired, 0, schedule[1..])
            else
              var m := if schedule[0].Bytes? then Min(schedule[0].n, Min(n, avail)) else 0;
              Later(m, Reading(n - m, avail - m, schedule[1..], timed))
  {
  }

  /** The same with a deadline, which may be over before anything is read. */
  function ReadingInTime(n: nat, avail: nat, schedule: Schedule): (p: Part)
    ensures p.got <= n && p.got <= avail && |p.rest| <= |schedule|
    ensures p.status == Done ==> p.got == n
    ensures p.status != Undefined
  {
    if schedule != [] && schedule[0].TimeOut? then Part(Expired, 0, schedule[1..])
    else Reading(n, avail, schedule, true)
  }

  // ---- Timeouts, said about the schedule -------------------------------------------------------

  predicate OnlyBytes(schedule: Schedule) {
    forall s <- schedule :: s.Bytes?
  }

  function Arrived(schedule: Schedule): nat {
    if schedule == [] then 0 else (if schedule[0].Bytes? then schedule[0].n else 0) + Arrived(schedule[1..])
  }

  /** Look k is the end of the deadline, and before it fewer than n bytes came, of the avail bytes there are. */
  predicate TimesOutAt(n: nat, avail: nat, schedule: Schedule, k: nat) {
    k < |schedule| && schedule[k].TimeOut? && OnlyBytes(schedule[..k]) && Min(Arrived(schedule[..k]), avail) < n
  }

  /** The deadline passes when some of n bytes, but not all of them, have come. */
  ghost predicate MidPart(n: nat, avail: nat, schedule: Schedule) {
    exists k: nat :: TimesOutAt(n, avail, schedule, k) && Min(Arrived(schedule[..k]), avail) > 0
  }

  /** The first j looks are the ones that bring n bytes. */
  ghost predicate PartDone(n: nat, schedule: Schedule, j: nat) {
    && j <= |schedule| && OnlyBytes(schedule[..j]) && Arrived(schedule[..j]) >= n
    && (forall i :: 0 <= i < j ==> Arrived(schedule[..i]) < n)
  }

  lemma FirstStep(schedule: Schedule, k: nat)
    requires 0 < k <= |schedule|
    ensures Arrived(schedule[..k])
         == (if schedule[0].Bytes? then schedule[0].n else 0) + Arrived(schedule[1..][..k - 1])
    ensures OnlyBytes(schedule[..k]) <==> schedule[0].Bytes? && OnlyBytes(schedule[1..][..k - 1])
  {
    assert schedule[..k][1..] == schedule[1..][..k - 1];
    assert schedule[..k] == [schedule[0]] + schedule[1..][..k - 1];
  }

  lemma {:induction false} TimesOutIff(n: nat, avail: nat, schedule: Schedule)
    ensures Reading(n, avail, schedule, true).status == Expired
       <==> exists k: nat :: TimesOutAt(n, avail, schedule, k)
    ensures forall k: nat | TimesOutAt(n, avail, schedule, k) ::
              Reading(n, avail, schedule, true).got == Min(Arrived(schedule[..k]), avail)
    decreases |schedule|
  {
    if n > 0 && schedule != [] && schedule[0].Bytes? {
      var b, rest := schedule[0].n, schedule[1..];
      var m := Min(b, Min(n, avail));
      var left, behind := n - m, avail - m;
      TimesOutIff(left, behind, rest);
      forall k: nat | TimesOutAt(n, avail, schedule, k)
        ensures k > 0 && m < n && TimesOutAt(left, behind, rest, k - 1)
        ensures Min(Arrived(schedule[..k]), avail) == m + Min(Arrived(rest[..k - 1]), behind)
      {
        FirstStep(schedule, k);
      }
      forall k: nat | TimesOutAt(left, behind, rest, k)
        ensures TimesOutAt(n, avail, schedule, k + 1)
      {
        FirstStep(schedule, k + 1);
      }
    } else if n > 0 && schedule != [] && schedule[0].TimeOut? {
      assert TimesOutAt(n, avail, schedule, 0);
      forall k: nat | TimesOutAt(n, avail, schedule, k)
        ensures k == 0
      {
        if k > 0 {
          FirstStep(schedule, k);
        }
      }
    } else {
      forall k: nat
        ensures !TimesOutAt(n, avail, schedule, k)
      {
        if 0 < k < |schedule| {
          FirstStep(schedule, k);
        }
      }
    }
  }

  lemma {:induction false} PartDoneIff(n: nat, avail: nat, schedule: Schedule)
    requires n <= avail
    ensures Reading(n, avail, schedule, true).status == Done <==> exists j: nat :: PartDone(n, schedule, j)
    decreases |schedule|
  {
    if n == 0 {
      assert PartDone(0, schedule, 0);
    } else if schedule != [] && schedule[0].Bytes? {
      var m, rest := Min(schedule[0].n, n), schedule[1..];
      var left := n - m;
      PartDoneIff(left, avail - m, rest);
      forall j: nat | PartDone(n, schedule, j)
        ensures j > 0 && PartDone(left, rest, j - 1)
      {
        PartDoneTail(n, schedule, j);
      }
      forall j: nat | PartDone(left, rest, j)
        ensures PartDone(n, schedule, j + 1)
      {
        PartDoneCons(n, schedule, j);
      }
    } else {
      forall j: nat
        ensures !PartDone(n, schedule, j)
      {
        if 0 < j <= |schedule| {
          FirstStep(schedule, j);
        }
      }
    }
  }

  lemma {:induction false} PartDoneRest(n: nat, avail: nat, schedule: Schedule, j: nat)
    requires n <= avail && PartDone(n, schedule, j)
    ensures Reading(n, avail, schedule, true).rest == schedule[j..]
    decreases |schedule|
  {
    if n == 0 {
      assert Arrived(schedule[..0]) >= 0;
    } else if schedule != [] && schedule[0].Bytes? {
      var m, rest := Min(schedule[0].n, n), schedule[1..];
      PartDoneTail(n, schedule, j);
      PartDoneRest(n - m, avail - m, rest, j - 1);
      assert rest[j - 1..] == schedule[j..];
    } else if 0 < j <= |schedule| {
      FirstStep(schedule, j);
    }
  }

  lemma PartDoneTail(n: nat, schedule: Schedule, j: nat)
    requires n > 0 && schedule != [] && schedule[0].Bytes? && PartDone(n, schedule, j)
    ensures j > 0 && PartDone(n - Min(schedule[0].n, n), schedule[1..], j - 1)
  {
    assert j > 0;
    FirstStep(schedule, j);
    forall i | 0 <= i < j - 1
      ensures Arrived(schedule[1..][..i]) < n - Min(schedule[0].n, n)
    {
      FirstStep(schedule, i + 1);
      assert Arrived(schedule[..i + 1]) < n;
    }
  }

  lemma PartDoneCons(n: nat, schedule: Schedule, j: nat)
    requires n > 0 && schedule != [] && schedule[0].Bytes?
    requires PartDone(n - Min(schedule[0].n, n), schedule[1..], j)
    ensures PartDone(n, schedule, j + 1)
  {
    FirstStep(schedule, j + 1);
    forall i | 0 <= i < j + 1
      ensures Arrived(schedule[..i]) < n
    {
      if i > 0 {
        FirstStep(schedule, i);
        assert Arrived(schedule[1..][..i - 1]) < n - Min(schedule[0].n, n);
      }
    }
  }

  /** The same when the deadline may be over before. */
  lemma PartDoneInTimeIff(n: nat, avail: nat, schedule: Schedule)
    requires 0 < n <= avail
    ensures ReadingInTime(n, avail, schedule).status == Done <==> exists j: nat :: PartDone(n, schedule, j)
    ensures forall j: nat | PartDone(n, schedule, j) :: ReadingInTime(n, avail, schedule).rest == schedule[j..]
  {
    PartDoneIff(n, avail, schedule);
    forall j: nat | PartDone(n, schedule, j)
      ensures Reading(n, avail, schedule, true).rest == schedule[j..]
    {
      PartDoneRest(n, avail, schedule, j);
    }
    if schedule != [] && schedule[0].TimeOut? {
      forall j: nat
        ensures !PartDone(n, schedule, j)
      {
        if 0 < j <= |schedule| {
          FirstStep(schedule, j);
        }
      }
    }
  }

  /** The deadline is not over yet, and n bytes come before it is. */
  ghost predicate InTime(n: nat, schedule: Schedule) {
    (schedule == [] || !schedule[0].TimeOut?) && exists j: nat :: PartDone(n, schedule, j)
  }

  /** The deadline is over, or will be before n bytes have come. */
  ghost predicate TooLate(n: nat, avail: nat, schedule: Schedule) {
    (schedule != [] && schedule[0].TimeOut?) || exists k: nat :: TimesOutAt(n, avail, schedule, k)
  }

  /** How a read with a deadline ends, said about the schedule. */
  lemma EndsInTimeIff(n: nat, avail: nat, schedule: Schedule)
    requires n <= avail
    ensures ReadingInTime(n, avail, schedule).status == Done <==> InTime(n, schedule)
    ensures ReadingInTime(n, avail, schedule).status == Expired <==> TooLate(n, avail, schedule)
  {
    hide PartDone;
    PartDoneIff(n, avail, schedule);
    TimesOutIff(n, avail, schedule);
  }

  /** A read with a deadline is interrupted half way iff the schedule says so. */
  lemma MidPartIff(n: nat, avail: nat, schedule: Schedule)
    ensures var p := ReadingInTime(n, avail, schedule);
            p.status == Expired && p.got > 0 <==> MidPart(n, avail, schedule)
  {
    TimesOutIff(n, avail, schedule);
    if MidPart(n, avail, schedule) {
      var k: nat :| TimesOutAt(n, avail, schedule, k) && Min(Arrived(schedule[..k]), avail) > 0;
      if k > 0 {
        FirstStep(schedule, k);
      }
    }
  }

  /** Nothing but bytes comes before at least n of them have come. */
  ghost predicate Brings(n: nat, schedule: Schedule) {
    exists k: nat :: BringsBy(n, schedule, k)
  }

  predicate BringsBy(n: nat, schedule: Schedule, k: nat) {
    k <= |schedule| && OnlyBytes(schedule[..k]) && Arrived(schedule[..k]) >= n
  }

  /** A read with a deadline gets m of n bytes iff the stream has them and the schedule brings them. */
  lemma {:induction false} BringsIff(m: nat, n: nat, avail: nat, schedule: Schedule)
    requires 0 < m <= n
    ensures Reading(n, avail, schedule, true).got >= m <==> m <= avail && Brings(m, schedule)
    decreases |schedule|
  {
    if schedule != [] && schedule[0].Bytes? {
      var b, rest := schedule[0].n, schedule[1..];
      var some := Min(b, Min(n, avail));
      if b < m {
        if some == b {
          BringsIff(m - b, n - b, avail - b, rest);
        }
        BringsTail(m, schedule);
      } else {
        assert rest == schedule[1..] && schedule[..1] == [schedule[0]];
        assert Arrived(schedule[..1]) == b + Arrived(schedule[..1][1..]);
        assert BringsBy(m, schedule, 1);
      }
    } else {
      forall k: nat
        ensures !BringsBy(m, schedule, k)
      {
        if 0 < k <= |schedule| {
          FirstStep(schedule, k);
        }
      }
    }
  }

  lemma BringsTail(m: nat, schedule: Schedule)
    requires schedule != [] && schedule[0].Bytes? && schedule[0].n < m
    ensures Brings(m, schedule) <==> Brings(m - schedule[0].n, schedule[1..])
  {
    var left, rest := m - schedule[0].n, schedule[1..];
    forall k: nat | BringsBy(m, schedule, k)
      ensures k > 0 && BringsBy(left, rest, k - 1)
    {
      if k > 0 {
        FirstStep(schedule, k);
      }
    }
    forall k: nat | BringsBy(left, rest, k)
      ensures BringsBy(m, schedule, k + 1)
    {
      FirstStep(schedule, k + 1);
    }
  }

  lemma BringsInTimeIff(m: nat, n: nat, avail: nat, schedule: Schedule)
    requires 0 < m <= n
    ensures ReadingInTime(n, avail, schedule).got >= m <==> m <= avail && Brings(m, schedule)
  {
    BringsIff(m, n, avail, schedule);
    if schedule != [] && schedule[0].TimeOut? {
      forall k: nat
        ensures !BringsBy(m, schedule, k)
      {
        if 0 < k <= |schedule| {
          FirstStep(schedule, k);
        }
      }
    }
  }

  // ---- The end of the connection ---------------------------------------------------------------

  function Hangups(schedule: Schedule): nat {
    if schedule == [] then 0 else (if schedule[0].Hangup? then 1 else 0) + Hangups(schedule[1..])
  }

  /** after is left of before; a part that was lost met a hang-up, or nothing is left. */
  ghost predicate Used(before: Schedule, after: Schedule, status: Status) {
    && |after| <= |before| && Hangups(after) <= Hangups(before)
    && (status == Lost ==> after == [] || Hangups(after) < Hangups(before))
  }

  lemma UsedOn(before: Schedule, mid: Schedule, after: Schedule, status: Status)
    requires Used(before, mid, Done) && Used(mid, after, status)
    ensures Used(before, after, status)
  {
  }

  lemma {:induction false} ReadingUses(n: nat, avail: nat, schedule: Schedule, timed: bool)
    ensures var p := Reading(n, avail, schedule, timed);
            Used(schedule, p.rest, p.status) && Used(schedule, p.rest, Done)
    decreases |schedule|
  {
    if n > 0 && schedule != [] {
      match schedule[0] {
        case Bytes(k) =>
          var m := Min(k, Min(n, avail));
          ReadingUses(n - m, avail - m, schedule[1..], timed);
        case TimeOut =>
          ReadingUses(n, avail, schedule[1..], timed);
        case Hangup =>
      }
    }
  }

  // ---- The socket ------------------------------------------------------------------------------

  datatype ReadResult = Data(bytes: seq<byte>) | TimedOut | Closed

  /** input is what the peer has sent and nobody has read yet, schedule what the reads to come will meet. */
  class Socket {
    var input: seq<byte>
    var schedule: Schedule

    constructor (input: seq<byte>, schedule: Schedule)
      ensures this.input == input && this.schedule == schedule
    {
      this.input, this.schedule := input, schedule;
    }

    /** One look at the socket, as the schedule has it: the first step of a Reading. */
    method Read(maxBytes: nat, timed: bool) returns (r: ReadResult)
      requires maxBytes > 0
      modifies this
      ensures old(schedule) != [] ==> schedule == old(schedule)[1..]
      ensures old(schedule) == [] ==> r == Closed && schedule == []
      ensures !r.Data? ==> input == old(input)
      ensures r.Data? ==> |r.bytes| <= maxBytes && old(input) == r.bytes + input && old(schedule) != []
      ensures Reading(maxBytes, |old(input)|, old(schedule), timed)
           == match r
              case Closed => Part(Lost, 0, schedule)
              case TimedOut => Part(Expired, 0, schedule)
              case Data(bytes) => Later(|bytes|, Reading(maxBytes - |bytes|, |input|, schedule, timed))
    {
      ReadingStep(maxBytes, |input|, schedule, timed);
      hide Reading;
      if schedule == [] {
        return Closed;
      }
      var step := schedule[0];
      schedule := schedule[1..];
      match step {
        case Bytes(k) =>
          var n := Min(k, Min(maxBytes, |input|));
          r := Data(input[..n]);
          input := input[n..];
        case TimeOut =>
          r := if timed then TimedOut else Data([]);
        case Hangup =>
          r := Closed;
      }
    }

    /** Takes the end of the deadline off the schedule, if it is next. */
    method DeadlineOver() returns (over: bool)
      modifies this`schedule
      ensures over <==> old(schedule) != [] && old(schedule)[0].TimeOut?
      ensures schedule == if over then old(schedule)[1..] else old(schedule)
    {
      over := schedule != [] && schedule[0].TimeOut?;
      if over {
        schedule := schedule[1..];
      }
    }
  }
}
