/** Deadlines of transfers, as io.c computes, compares and rounds them. */
module Timeouts {
  import opened Wrappers

  datatype TimeSpec = TimeSpec(sec: nat, nsec: nat)
  datatype TimeVal = TimeVal(sec: nat, usec: nat)

  predicate IsClock(t: TimeSpec) { t.nsec < 1_000_000_000 }

  /** TIMESPEC_TO_TIMEVAL */
  function ToTimeVal(t: TimeSpec): TimeVal { TimeVal(t.sec, t.nsec / 1000) }

  function Micros(t: TimeVal): nat { t.sec * 1_000_000 + t.usec }

  function Nanos(t: TimeSpec): nat { t.sec * 1_000_000_000 + t.nsec }

  /** timerisset: an unset deadline means no timeout */
  predicate IsSet(t: TimeVal) { t.sec != 0 || t.usec != 0 }

  /** The code's way to say that `a` is after `b`. */
  predicate After(a: TimeVal, b: TimeVal) {
    a.sec > b.sec || (a.sec == b.sec && a.usec > b.usec)
  }

  /** The order of the flying list: by deadline, no deadline last. */
  predicate NotLater(a: TimeVal, b: TimeVal) {
    !IsSet(b) || (IsSet(a) && !After(a, b))
  }

  predicate Normal(t: TimeVal) { t.usec <= 1_000_000 }

  /** calculate_timeout: `stored` is what the transfer's deadline was before; it stays when the
      user asks for no timeout. */
  function Deadline(now: TimeSpec, timeoutMs: nat, stored: TimeVal): TimeVal {
    if timeoutMs == 0 then stored
    else
      var sec, nsec := now.sec + timeoutMs / 1000, now.nsec + timeoutMs % 1000 * 1_000_000;
      ToTimeVal(if nsec > 1_000_000_000 then TimeSpec(sec + 1, nsec - 1_000_000_000) else TimeSpec(sec, nsec))
  }

  /** The deadline is the clock plus the timeout, rounded down to microseconds; its microseconds
      may be a full million, but only on the dot. */
  lemma DeadlineIsClockPlusTimeout(now: TimeSpec, timeoutMs: nat, stored: TimeVal)
    requires IsClock(now) && timeoutMs > 0
    ensures var d := Deadline(now, timeoutMs, stored);
            && Micros(d) == (Nanos(now) + timeoutMs * 1_000_000) / 1000
            && IsSet(d) && Normal(d)
            && (d.usec == 1_000_000 <==> now.nsec + timeoutMs % 1000 * 1_000_000 == 1_000_000_000)
  {
    var sec, nsec := now.sec + timeoutMs / 1000, now.nsec + timeoutMs % 1000 * 1_000_000;
    assert Nanos(now) + timeoutMs * 1_000_000 == sec * 1_000_000_000 + nsec;
  }

  // ---------------------------------------------------------------- the submissions of one transfer

  /** One submission: the timeout the user asks for, and what the clock shows if it is read. */
  datatype Submission = Submission(timeoutMs: nat, clock: Option<TimeSpec>)

  predicate Clocks(ss: seq<Submission>) {
    forall i :: 0 <= i < |ss| && ss[i].clock.Some? ==> IsClock(ss[i].clock.value)
  }

  /** A submission with a timeout reads the clock, and gets a deadline if that succeeds. */
  predicate GetsDeadline(s: Submission) { s.timeoutMs > 0 && s.clock.Some? }

  /** The deadline stored in a transfer, which is cleared when it is allocated and then only ever
      written by calculate_timeout. */
  function DeadlineAfter(ss: seq<Submission>): TimeVal {
    if ss == [] then TimeVal(0, 0)
    else
      var stored, s := DeadlineAfter(ss[..|ss| - 1]), ss[|ss| - 1];
      if s.timeoutMs > 0 && s.clock == None then stored
      else Deadline(if s.clock.Some? then s.clock.value else TimeSpec(0, 0), s.timeoutMs, stored)
  }

  lemma DeadlineSnoc(ss: seq<Submission>, s: Submission)
    ensures DeadlineAfter(ss + [s]) ==
            if GetsDeadline(s) then Deadline(s.clock.value, s.timeoutMs, DeadlineAfter(ss)) else DeadlineAfter(ss)
  {
    assert (ss + [s])[..|ss|] == ss;
  }

  /** Whatever the submissions, the stored deadline is normalised; it is unset exactly when no
      submission so far has got one. */
  lemma {:induction false} StoredDeadline(ss: seq<Submission>)
    requires Clocks(ss)
    ensures Normal(DeadlineAfter(ss))
    ensures IsSet(DeadlineAfter(ss)) <==> exists i :: 0 <= i < |ss| && GetsDeadline(ss[i])
  {
    if ss != [] {
      var n := |ss| - 1;
      StoredDeadline(ss[..n]);
      if GetsDeadline(ss[n]) {
        DeadlineIsClockPlusTimeout(ss[n].clock.value, ss[n].timeoutMs, DeadlineAfter(ss[..n]));
      } else {
        assert forall i :: 0 <= i < n ==> ss[..n][i] == ss[i];
      }
    }
  }

  /** A transfer that is submitted without a timeout has no deadline iff no earlier submission has
      got one: otherwise it still has that one. */
  lemma NoTimeoutMeansUnsetIff(ss: seq<Submission>, last: Submission)
    requires Clocks(ss) && last.timeoutMs == 0
    ensures !IsSet(DeadlineAfter(ss + [last])) <==> forall i :: 0 <= i < |ss| ==> !GetsDeadline(ss[i])
  {
    StoredDeadline(ss);
    DeadlineSnoc(ss, last);
  }

  /** The deadline that is left over is that of the last submission that got one. */
  lemma {:induction false} LeftOver(ss: seq<Submission>, k: nat)
    requires Clocks(ss) && k < |ss| && GetsDeadline(ss[k])
    requires forall i :: k < i < |ss| ==> !GetsDeadline(ss[i])
    ensures Micros(DeadlineAfter(ss)) == (Nanos(ss[k].clock.value) + ss[k].timeoutMs * 1_000_000) / 1000
    decreases |ss|
  {
    var n := |ss| - 1;
    if k < n {
      LeftOver(ss[..n], k);
    } else {
      DeadlineIsClockPlusTimeout(ss[n].clock.value, ss[n].timeoutMs, DeadlineAfter(ss[..n]));
    }
  }

  /** A transfer used with a timeout of a millisecond, and a hundred seconds later without one: its
      deadline lies in the past. */
  lemma StaleDeadline()
    ensures var again := DeadlineAfter([Submission(1, Some(TimeSpec(100, 0))), Submission(0, None)]);
            IsSet(again) && After(ToTimeVal(TimeSpec(200, 0)), again)
  {
    var first := [Submission(1, Some(TimeSpec(100, 0)))];
    assert (first + [Submission(0, None)])[..1] == first && first[..0] == [];
  }

  /** On normalised deadlines the order of the code is the order of time. */
  lemma AfterIsLater(a: TimeVal, now: TimeVal)
    requires Normal(a) && now.usec < 1_000_000
    ensures After(a, now) <==> Micros(a) > Micros(now)
  {
  }

  lemma NotLaterIsTimeOrder(a: TimeVal, b: TimeVal)
    requires Normal(a) && Normal(b) && IsSet(b) && NotLater(a, b)
    ensures IsSet(a) && Micros(a) <= Micros(b)
  {
  }

  // ---------------------------------------------------------------- how long to poll

  /** timersub */
  function Sub(a: TimeVal, b: TimeVal): TimeVal
    requires After(a, b) && Normal(a) && b.usec < 1_000_000
  {
    if a.usec < b.usec then TimeVal(a.sec - b.sec - 1, a.usec + 1_000_000 - b.usec)
    else TimeVal(a.sec - b.sec, a.usec - b.usec)
  }

  /** What libusb_get_next_timeout reports for the deadline it has chosen: unset when it is past. */
  function TimeLeft(deadline: TimeVal, now: TimeVal): TimeVal
    requires Normal(deadline) && now.usec < 1_000_000
  {
    if After(deadline, now) then Sub(deadline, now) else TimeVal(0, 0)
  }

  /** get_next_timeout: the smaller of the time left and what the user allows; none if expired. */
  function PollTimeout(left: TimeVal, user: TimeVal): TimeVal {
    if After(user, left) then left else user
  }

  /** The milliseconds handle_events passes to poll. */
  function PollMillis(t: TimeVal): nat {
    t.sec * 1000 + t.usec / 1000 + (if t.usec % 1000 != 0 then 1 else 0)
  }

  lemma TimeLeftIsDifference(deadline: TimeVal, now: TimeVal)
    requires Normal(deadline) && now.usec < 1_000_000
    ensures var left := TimeLeft(deadline, now);
            && (IsSet(left) <==> Micros(deadline) > Micros(now))
            && (IsSet(left) ==> Micros(now) + Micros(left) == Micros(deadline))
  {
  }

  /** When poll was given the time left of a deadline and ran out, that deadline has passed; and
      poll does not oversleep by a millisecond or more. */
  lemma PollOutlastsDeadline(deadline: TimeVal, user: TimeVal, started: TimeSpec, ended: TimeSpec)
    requires IsClock(started) && IsClock(ended) && Normal(deadline)
    requires After(deadline, ToTimeVal(started))
    requires var left := TimeLeft(deadline, ToTimeVal(started));
             && PollTimeout(left, user) == left
             && Nanos(ended) >= Nanos(started) + PollMillis(left) * 1_000_000
    ensures !After(deadline, ToTimeVal(ended))
    ensures PollMillis(TimeLeft(deadline, ToTimeVal(started))) * 1000
          < Micros(deadline) - Micros(ToTimeVal(started)) + 1000
  {
    var left := TimeLeft(deadline, ToTimeVal(started));
    TimeLeftIsDifference(deadline, ToTimeVal(started));
    assert PollMillis(left) * 1000 >= Micros(left);
    AfterIsLater(deadline, ToTimeVal(ended));
    MicrosOfClock(started);
    MicrosOfClock(ended);
  }

  /** A time in milliseconds, rounded up. */
  predicate RoundedUp(ms: nat, micros: nat) { micros <= ms * 1000 < micros + 1000 }

  function Less(a: nat, b: nat): nat { if a < b then a else b }

  /** How long it is from `now` to a deadline; nothing if it is past. */
  function ToGo(deadline: TimeVal, now: TimeVal): nat {
    if Micros(deadline) > Micros(now) then Micros(deadline) - Micros(now) else 0
  }

  lemma MillisRoundUp(t: TimeVal)
    ensures RoundedUp(PollMillis(t), Micros(t))
  {
  }

  /** Poll is given the time that is left of the deadline, or the user's if that is less. */
  lemma PollGetsTheLess(deadline: TimeVal, now: TimeVal, user: TimeVal)
    requires Normal(deadline) && now.usec < 1_000_000 && user.usec < 1_000_000
    ensures var left := TimeLeft(deadline, now);
            RoundedUp(if IsSet(left) then PollMillis(PollTimeout(left, user)) else 0,
                      Less(ToGo(deadline, now), Micros(user)))
  {
    var left := TimeLeft(deadline, now);
    TimeLeftIsDifference(deadline, now);
    MillisRoundUp(PollTimeout(left, user));
  }

  lemma MicrosOfClock(t: TimeSpec)
    requires IsClock(t)
    ensures ToTimeVal(t).usec < 1_000_000 && Micros(ToTimeVal(t)) == Nanos(t) / 1000
  {
  }
}
