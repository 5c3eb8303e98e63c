/**
 The list of transfers in flight: an intrusive circular list of libusbi.h, kept in the order of
 the transfers' deadlines by io.c.
 */
module FlyingList {
  import opened Wrappers
  import opened Timeouts

  /** A transfer with its embedded list links. The head of the list is a node of its own, whose
      other fields are never looked at. */
  class Transfer {
    var prev: Transfer?
    var next: Transfer?
    var timeoutMs: nat
    var timeout: TimeVal
    var timedOut: bool          // the flags of usbi_transfer
    var osHandles: bool
    var cancelling: bool
    var disappeared: bool
    ghost var submissions: seq<Submission>     // what the deadline comes from

    /** The deadline is the one that the submissions so far have left. */
    ghost predicate Recorded()
      reads this
    {
      Clocks(submissions) && timeout == DeadlineAfter(submissions)
    }

    constructor (timeoutMs: nat)
      ensures Recorded() && submissions == [] && this.timeoutMs == timeoutMs
    {
      prev, next, submissions := null, null, [];
      this.timeoutMs, timeout := timeoutMs, TimeVal(0, 0);
      timedOut, osHandles, cancelling, disappeared := false, false, false, false;
    }

    /** The deadline that calculate_timeout leaves, when the clock reads `clock` or not at all. */
    ghost function NewDeadline(clock: Option<TimeSpec>): TimeVal
      reads this
    {
      if timeoutMs != 0 && clock.Some? then Deadline(clock.value, timeoutMs, timeout) else timeout
    }

    /** calculate_timeout */
    method CalculateTimeout(clock: Option<TimeSpec>) returns (ok: bool)
      requires Recorded() && (clock.Some? ==> IsClock(clock.value))
      modifies `timeout, `submissions
      ensures Recorded() && timeout == old(NewDeadline(clock))
      ensures ok <==> clock.Some? || timeoutMs == 0
      ensures submissions == old(submissions) + [Submission(timeoutMs, clock)]
    {
      DeadlineSnoc(submissions, Submission(timeoutMs, clock));
      submissions := submissions + [Submission(timeoutMs, clock)];
      if timeoutMs == 0 { return true; }
      if clock == None { return false; }
      timeout := Deadline(clock.value, timeoutMs, timeout);
      ok := true;
    }
  }

  /** Everything in a transfer but its links. */
  datatype Info = Info(timeoutMs: nat, timeout: TimeVal, submissions: seq<Submission>,
                       timedOut: bool, osHandles: bool, cancelling: bool, disappeared: bool)

  ghost function InfoOf(t: Transfer): Info
    reads t
  {
    Info(t.timeoutMs, t.timeout, t.submissions, t.timedOut, t.osHandles, t.cancelling, t.disappeared)
  }

  /** A timeout that a pass at time `now` has to handle. */
  ghost predicate Due(i: Info, now: TimeVal) {
    IsSet(i.timeout) && !After(i.timeout, now) && !i.timedOut && !i.osHandles
  }

  /** A deadline that a later pass still has to handle. */
  ghost predicate Pending(i: Info) {
    IsSet(i.timeout) && !i.timedOut && !i.osHandles
  }

  /** Exactly the unflagged transfers that are due and that the OS does not time out itself are
      flagged and cancelled; nothing else changes. */
  ghost function AfterPass(i: Info, now: TimeVal, deviceGone: bool): Info {
    if Due(i, now) then i.(timedOut := true, cancelling := true, disappeared := i.disappeared || deviceGone) else i
  }

  /** Of a transfer before and after a pass at time `now`: it is flagged if it was, or if its deadline has
      come and is not the OS's affair; it is cancelled when it is flagged; and it keeps its deadline. */
  predicate Treated(was: Info, after: Info, now: TimeVal) {
    var due := IsSet(was.timeout) && !was.osHandles && Micros(was.timeout) <= Micros(now);
    && (after.timedOut <==> was.timedOut || due)
    && (after.cancelling <==> was.cancelling || (due && !was.timedOut))
    && after.timeout == was.timeout && after.osHandles == was.osHandles
  }

  lemma PassTreats(was: Info, now: TimeVal, deviceGone: bool)
    requires Normal(was.timeout) && now.usec < 1_000_000
    ensures Treated(was, AfterPass(was, now, deviceGone), now)
  {
    AfterIsLater(was.timeout, now);
  }

  // ---------------------------------------------------------------- the circular list

  /** Neighbours in `ring` point at each other. The ring starts and ends with the head. */
  ghost predicate Linked(ring: seq<Transfer>)
    reads ring
  {
    && (forall i {:trigger ring[i].next} :: 0 <= i < |ring| - 1 ==> ring[i].next == ring[i + 1])
    && (forall i {:trigger ring[i].prev} :: 1 <= i < |ring| ==> ring[i].prev == ring[i - 1])
  }

  ghost predicate Distinct(head: Transfer, items: seq<Transfer>) {
    head !in items && forall i, j :: 0 <= i < j < |items| ==> items[i] != items[j]
  }

  ghost function Ring(head: Transfer, items: seq<Transfer>): seq<Transfer> {
    [head] + items + [head]
  }

  /** In a ring of distinct nodes, only the head occurs twice: first and last. */
  lemma RingDistinct(head: Transfer, items: seq<Transfer>)
    requires Distinct(head, items)
    ensures var ring := Ring(head, items);
            && (forall i, j :: 0 <= i < j < |ring| - 1 ==> ring[i] != ring[j])
            && (forall i, j :: 1 <= i < j < |ring| ==> ring[i] != ring[j])
  {
    var ring := Ring(head, items);
    assert forall i :: 1 <= i < |ring| - 1 ==> ring[i] == items[i - 1] && ring[i] in items;
  }

  /** list_add_tail: `entry` goes in front of `pos`, the k-th node of the ring. */
  method ListAddTail(entry: Transfer, pos: Transfer, ghost head: Transfer, ghost items: seq<Transfer>, ghost k: nat,
                     ghost left: Transfer)
    requires Linked(Ring(head, items)) && Distinct(head, items)
    requires k <= |items| && left == Ring(head, items)[k] && pos == Ring(head, items)[k + 1]
    requires entry != head && entry !in items
    modifies entry`prev, entry`next, pos`prev, left`next
    ensures Linked(Ring(head, items[..k] + [entry] + items[k..]))
  {
    ghost var ring := Ring(head, items);
    RingDistinct(head, items);
    assert pos.prev == ring[k];
    assert entry !in ring;
    entry.next := pos;
    entry.prev := pos.prev;
    pos.prev.next := entry;
    pos.prev := entry;
    ghost var now := Ring(head, items[..k] + [entry] + items[k..]);
    assert now == ring[..k + 1] + [entry] + ring[k + 1..];
    forall i | 0 <= i < |now| - 1 ensures now[i].next == now[i + 1] && now[i + 1].prev == now[i] {
      ghost var j := if i <= k then i else i - 1;
      assert i != k + 1 ==> now[i] == ring[j];
      assert i != k ==> now[i + 1] == ring[if i < k then i + 1 else i];
      assert i != k && i != k + 1 ==> ring[j].next == ring[j + 1] && ring[j + 1].prev == ring[j];
    }
  }

  /** list_add: `entry` goes right behind the head. */
  method ListAdd(entry: Transfer, head: Transfer, ghost items: seq<Transfer>, ghost right: Transfer)
    requires Linked(Ring(head, items)) && Distinct(head, items)
    requires entry != head && entry !in items && right == Ring(head, items)[1]
    modifies entry`prev, entry`next, right`prev, head`next
    ensures Linked(Ring(head, [entry] + items))
  {
    ghost var ring := Ring(head, items);
    RingDistinct(head, items);
    assert ring[0] == head && ring[0].next == ring[1] && entry !in ring;
    entry.next := head.next;
    entry.prev := head;
    head.next.prev := entry;
    head.next := entry;
    ghost var now := Ring(head, [entry] + items);
    forall i | 0 <= i < |now| - 1 ensures now[i].next == now[i + 1] && now[i + 1].prev == now[i] {
      assert i >= 1 ==> now[i + 1] == ring[i];
      assert i >= 2 ==> now[i] == ring[i - 1] && ring[i - 1].next == ring[i] && ring[i].prev == ring[i - 1];
    }
  }

  /** list_del: the k-th item leaves the ring. */
  method ListDel(entry: Transfer, ghost head: Transfer, ghost items: seq<Transfer>, ghost k: nat,
                 ghost left: Transfer, ghost right: Transfer)
    requires Linked(Ring(head, items)) && Distinct(head, items)
    requires k < |items| && entry == items[k]
    requires left == Ring(head, items)[k] && right == Ring(head, items)[k + 2]
    modifies left`next, right`prev
    ensures Linked(Ring(head, items[..k] + items[k + 1..]))
  {
    ghost var ring := Ring(head, items);
    assert ring[k + 1] == entry && entry.next == ring[k + 2] && entry.prev == ring[k];
    RingDistinct(head, items);
    entry.next.prev := entry.prev;
    entry.prev.next := entry.next;
    ghost var now := Ring(head, items[..k] + items[k + 1..]);
    assert now == ring[..k + 1] + ring[k + 2..];
    forall i | 0 <= i < |now| - 1 ensures now[i].next == now[i + 1] && now[i + 1].prev == now[i] {
      ghost var j := if i <= k then i else i + 1;
      assert now[i] == ring[j] && now[i + 1] == ring[if i < k then i + 1 else i + 2];
      assert i != k ==> ring[j].next == ring[j + 1] && ring[j + 1].prev == ring[j];
    }
  }

  // ---------------------------------------------------------------- the order

  ghost predicate Sorted(ts: seq<TimeVal>) {
    forall i, j :: 0 <= i < j < |ts| ==> NotLater(ts[i], ts[j])
  }

  /** `k` is where deadline `d` belongs: behind everything that is not later. */
  ghost predicate Belongs(ts: seq<TimeVal>, d: TimeVal, k: nat) {
    && k <= |ts|
    && (forall i :: 0 <= i < k ==> NotLater(ts[i], d))
    && (k < |ts| ==> !NotLater(ts[k], d))
  }

  lemma InsertSorted(ts: seq<TimeVal>, d: TimeVal, k: nat)
    requires Sorted(ts) && Belongs(ts, d, k)
    ensures Sorted(ts[..k] + [d] + ts[k..])
  {
    var now := ts[..k] + [d] + ts[k..];
    forall i, j | 0 <= i < j < |now| ensures NotLater(now[i], now[j]) {
      if i == k {
        assert now[j] == ts[j - 1];
        assert k < j - 1 ==> NotLater(ts[k], ts[j - 1]);
      } else {
        assert now[i] == ts[if i < k then i else i - 1];
        assert j != k ==> now[j] == ts[if j < k then j else j - 1];
      }
    }
  }

  lemma RemoveSorted(ts: seq<TimeVal>, k: nat)
    requires Sorted(ts) && k < |ts|
    ensures Sorted(ts[..k] + ts[k + 1..])
  {
  }

  lemma LaterNotDue(ts: seq<TimeVal>, k: nat, now: TimeVal)
    requires Sorted(ts) && (k < |ts| ==> !IsSet(ts[k]) || After(ts[k], now))
    ensures forall i :: k <= i < |ts| ==> !IsSet(ts[i]) || After(ts[i], now)
  {
  }

  /** A place that belongs to `d` is the only one. */
  lemma BelongsUnique(ts: seq<TimeVal>, d: TimeVal, k: nat, m: nat)
    requires Belongs(ts, d, k) && Belongs(ts, d, m)
    ensures k == m
  {
  }

  // ---------------------------------------------------------------- the flying list

  /** The time left until this deadline is what poll is given: it is not more than the user allows. */
  ghost predicate Chosen(deadline: TimeVal, started: TimeSpec, user: TimeVal) {
    Normal(deadline) && IsClock(started) &&
    var left := TimeLeft(deadline, ToTimeVal(started));
    PollTimeout(left, user) == left
  }

  /** A deadline that was past, or for which poll was given the time left, is due when poll ends. */
  lemma DueWhenPollEnds(deadline: TimeVal, user: TimeVal, started: TimeSpec, ended: TimeSpec, ms: nat)
    requires Normal(deadline) && IsClock(started) && IsClock(ended) && Chosen(deadline, started, user)
    requires Nanos(ended) >= Nanos(started) + ms * 1_000_000
    requires var left := TimeLeft(deadline, ToTimeVal(started));
             ms == if IsSet(left) then PollMillis(PollTimeout(left, user)) else 0
    ensures !After(deadline, ToTimeVal(ended))
  {
    var left := TimeLeft(deadline, ToTimeVal(started));
    TimeLeftIsDifference(deadline, ToTimeVal(started));
    if IsSet(left) {
      PollOutlastsDeadline(deadline, user, started, ended);
    } else {
      MicrosOfClock(started);
      MicrosOfClock(ended);
      AfterIsLater(deadline, ToTimeVal(ended));
    }
  }

  /** Where the clock can be read, it shows a time, and poll takes the time that it is given. */
  ghost predicate ClockRuns(started: Option<TimeSpec>, ended: nat -> Option<TimeSpec>) {
    && (started.Some? ==> IsClock(started.value))
    && forall n: nat :: ended(n).Some? ==>
         && IsClock(ended(n).value)
         && (started.Some? ==> Nanos(ended(n).value) >= Nanos(started.value) + n * 1_000_000)
  }

  ghost predicate AllNormal(ts: seq<TimeVal>) {
    forall i :: 0 <= i < |ts| ==> Normal(ts[i])
  }

  /** The first pending transfer of the list has the least deadline of all pending ones. */
  lemma EarliestPending(ts: seq<TimeVal>, infos: seq<Info>, k: nat)
    requires Sorted(ts) && AllNormal(ts) && |infos| == |ts| && k < |ts| && IsSet(ts[k])
    requires forall i :: 0 <= i < |ts| ==> infos[i].timeout == ts[i]
    requires forall i :: 0 <= i < k ==> !Pending(infos[i])
    ensures forall i :: 0 <= i < |ts| && Pending(infos[i]) ==> Micros(ts[k]) <= Micros(ts[i])
  {
    forall i | 0 <= i < |ts| && Pending(infos[i]) ensures Micros(ts[k]) <= Micros(ts[i]) {
      if k < i { NotLaterIsTimeOrder(ts[k], ts[i]); }
    }
  }

  /** What the pass has not come to is not due. */
  lemma PassIsComplete(ts: seq<TimeVal>, infos: seq<Info>, k: nat, now: TimeVal)
    requires Sorted(ts) && |infos| == |ts| && forall i :: 0 <= i < |ts| ==> infos[i].timeout == ts[i]
    requires k <= |infos| && (k < |infos| ==> !IsSet(infos[k].timeout) || After(infos[k].timeout, now))
    ensures forall i, gone :: k <= i < |infos| ==> infos[i] == AfterPass(infos[i], now, gone)
  {
    LaterNotDue(ts, k, now);
  }

  /** A pass flags a transfer with no deadline of its own iff one is left over and has come. */
  lemma StaleIsFlagged(ss: seq<Submission>, i: Info, clock: TimeSpec, deviceGone: bool)
    requires Clocks(ss) && IsClock(clock)
    requires i.timeout == DeadlineAfter(ss) && !i.timedOut && !i.osHandles
    ensures AfterPass(i, ToTimeVal(clock), deviceGone).timedOut <==>
              && (exists j :: 0 <= j < |ss| && GetsDeadline(ss[j]))
              && Micros(DeadlineAfter(ss)) <= Micros(ToTimeVal(clock))
  {
    StoredDeadline(ss);
    MicrosOfClock(clock);
    AfterIsLater(DeadlineAfter(ss), ToTimeVal(clock));
  }

  /** What libusb_get_next_timeout answers: nothing to wait for, so long to wait (unset if it is
      past already), or an error. */
  datatype NextTimeout = NoDeadline | Wait(left: TimeVal) | ClockError

  class Context {
    const head: Transfer
    ghost var items: seq<Transfer>

    ghost predicate Valid()
      reads this, head, items
    {
      && Distinct(head, items) && Linked(Ring(head, items))
      && Sorted(Times(items)) && AllNormal(Times(items))
    }

    ghost function Times(items: seq<Transfer>): seq<TimeVal>
      reads items
    {
      seq(|items|, i requires 0 <= i < |items| reads items => items[i].timeout)
    }

    /** list_init */
    constructor ()
      ensures Valid() && items == [] && fresh(head)
    {
      head := new Transfer(0);
      items := [];
      new;
      head.prev, head.next := head, head;
      assert Ring(head, items) == [head, head];
    }

    twostate predicate SameData(t: Transfer)
      reads t
    {
      InfoOf(t) == old(InfoOf(t))
    }

    /** `t` becomes the k-th item. */
    method InsertBefore(t: Transfer, pos: Transfer, ghost k: nat)
      requires Valid() && t != head && t !in items && Normal(t.timeout)
      requires Belongs(Times(items), t.timeout, k) && pos == Ring(head, items)[k + 1]
      modifies this`items, head, items, t
      ensures Valid()
      ensures items == old(items)[..k] + [t] + old(items)[k..]
      ensures SameData(t) && forall u :: u in items ==> SameData(u)
    {
      ghost var ts := Times(items);
      InsertSorted(ts, t.timeout, k);
      DistinctWith(head, items, t, k);
      ListAddTail(t, pos, head, items, k, Ring(head, items)[k]);
      assert Times(items) == ts;
      items := items[..k] + [t] + items[k..];
      assert Times(items) == ts[..k] + [t.timeout] + ts[k..];
    }

    /** add_to_flying_list: in order of the deadline, and behind those with the same one. Returns
        whether the transfer is now the one to expire first. */
    method AddToFlyingList(t: Transfer) returns (r: bool, ghost k: nat)
      requires Valid() && t != head && t !in items && Normal(t.timeout)
      modifies this`items, head, items, t
      ensures Valid()
      ensures old(Belongs(Times(items), t.timeout, k))
      ensures items == old(items)[..k] + [t] + old(items)[k..]
      ensures r <==> IsSet(t.timeout) && items[0] == t
      ensures SameData(t) && forall u :: u in items ==> SameData(u)
    {
      r, k := false, 0;
      var first := true;
      EmptyWhen(head, items);

      if head.next == head {
        assert items == [];
        ListAdd(t, head, items, head);
        items := [t];
        assert Linked(Ring(head, items)) by { assert [t] + [] == [t]; }
        if IsSet(t.timeout) { r := true; }
        return;
      }
      if !IsSet(t.timeout) {
        k := |items|;
        InsertBefore(t, head, k);
        assert items[0] != t;
        return;
      }
      var cur := head.next;
      while cur != head
        invariant k <= |items| && cur == Ring(head, items)[k + 1] && (first <==> k == 0)
        invariant forall i :: 0 <= i < k ==> NotLater(items[i].timeout, t.timeout)
        decreases |items| - k
      {
        assert cur == items[k];
        if !IsSet(cur.timeout) || After(cur.timeout, t.timeout) {
          InsertBefore(t, cur, k);
          assert items[k] == t && (items[0] == t <==> k == 0);
          return first, k;
        }
        first, k := false, k + 1;
        assert Ring(head, items)[k].next == Ring(head, items)[k + 1];
        cur := cur.next;
      }
      InsertBefore(t, head, k);
      assert items[0] != t;
    }

    /** libusb_submit_transfer without the backend: the deadline is computed, the transfer joins
        the list, and it leaves again if the backend refuses it. A clock that cannot be read
        (`None`) stops the submission before that. */
    method Submit(t: Transfer, clock: Option<TimeSpec>, backendTakesIt: bool) returns (ok: bool)
      requires Valid() && t != head && t !in items
      requires t.Recorded() && (clock.Some? ==> IsClock(clock.value))
      modifies this`items, head, items, t
      ensures Valid() && t.Recorded()
      ensures ok <==> backendTakesIt && (clock.Some? || t.timeoutMs == 0)
      ensures ok ==> t in items
      ensures t.timeoutMs == old(t.timeoutMs)
      ensures t.submissions == old(t.submissions) + [Submission(t.timeoutMs, clock)]
      ensures ok ==> exists k: nat :: old(Belongs(Times(items), t.NewDeadline(clock), k))
                                && items == old(items)[..k] + [t] + old(items)[k..]
      ensures t.timeout == old(t.NewDeadline(clock))
      ensures !t.timedOut && !t.osHandles && !t.cancelling && !t.disappeared
      ensures !ok ==> items == old(items)
      ensures forall u :: u in old(items) ==> SameData(u)
    {
      ok := Prepare(t, clock);
      StoredDeadline(t.submissions);
      if ok { ok := Enter(t, backendTakesIt); }
    }

    /** The rest of it: into the list, and out again if the backend fails. */
    method Enter(t: Transfer, backendTakesIt: bool) returns (ok: bool)
      requires Valid() && t != head && t !in items && Normal(t.timeout)
      modifies this`items, head, items, t
      ensures Valid() && ok == backendTakesIt && SameData(t) && (ok ==> t in items)
      ensures ok ==> exists k: nat :: old(Belongs(Times(items), t.timeout, k))
                                && items == old(items)[..k] + [t] + old(items)[k..]
      ensures !ok ==> items == old(items)
      ensures forall u :: u in old(items) ==> SameData(u)
    {
      var first;
      ghost var k;
      first, k := AddToFlyingList(t);
      assert t == items[k] && forall u :: u in old(items) ==> u in items;
      if !backendTakesIt {
        ghost var was := items;
        Remove(t);
        RemoveInserted(head, old(items), t, k, was, items);
      }
      ok := backendTakesIt;
    }

    /** The start of libusb_submit_transfer: flags are reset and the deadline is computed. */
    method Prepare(t: Transfer, clock: Option<TimeSpec>) returns (ok: bool)
      requires Valid() && t != head && t !in items
      requires t.Recorded() && (clock.Some? ==> IsClock(clock.value))
      modifies t`timeout, t`timedOut, t`osHandles, t`cancelling, t`disappeared, t`submissions
      ensures Valid() && Times(items) == old(Times(items)) && t.Recorded()
      ensures ok <==> clock.Some? || t.timeoutMs == 0
      ensures t.timeout == old(t.NewDeadline(clock))
      ensures !t.timedOut && !t.osHandles && !t.cancelling && !t.disappeared
      ensures t.submissions == old(t.submissions) + [Submission(t.timeoutMs, clock)]
    {
      t.timedOut, t.osHandles, t.cancelling, t.disappeared := false, false, false, false;
      ok := t.CalculateTimeout(clock);
    }

    /** What the backend's cancel_transfer answers. */
    method CancelTransfer(t: Transfer, deviceGone: bool)
      modifies t`cancelling, t`disappeared
      ensures t.cancelling && t.disappeared == (old(t.disappeared) || deviceGone)
    {
      if deviceGone { t.disappeared := true; }
      t.cancelling := true;
    }

    /** handle_timeout */
    method HandleTimeout(t: Transfer, deviceGone: bool)
      modifies t`timedOut, t`cancelling, t`disappeared
      ensures t.timedOut && t.cancelling && t.disappeared == (old(t.disappeared) || deviceGone)
    {
      t.timedOut := true;
      CancelTransfer(t, deviceGone);
    }

    /** handle_timeouts_locked: one pass over the list. Because the list is in order, stopping at
        the first deadline that is not due misses nothing. An empty list needs no clock. */
    method HandleTimeouts(clock: Option<TimeSpec>, deviceGone: Transfer -> bool) returns (r: int)
      requires Valid()
      modifies items`timedOut, items`cancelling, items`disappeared
      ensures Valid()
      ensures r == (if items != [] && clock == None then -1 else 0)
      ensures forall t :: t in items ==>
                InfoOf(t) == if clock.Some? then AfterPass(old(InfoOf(t)), ToTimeVal(clock.value), deviceGone(t))
                             else old(InfoOf(t))
      ensures clock.Some? && IsClock(clock.value) ==>
                forall t :: t in items ==> Treated(old(InfoOf(t)), InfoOf(t), ToTimeVal(clock.value))
    {
      EmptyWhen(head, items);
      if head.next == head { return 0; }
      if clock == None { return -1; }
      ghost var infos := Infos();
      Pass(ToTimeVal(clock.value), deviceGone);
      if IsClock(clock.value) { AllTreated(infos, ToTimeVal(clock.value), deviceGone); }
      r := 0;
    }

    /** The pass itself, at time `now`. */
    method Pass(now: TimeVal, deviceGone: Transfer -> bool)
      requires Valid()
      modifies items`timedOut, items`cancelling, items`disappeared
      ensures Valid()
      ensures forall t :: t in items ==> InfoOf(t) == AfterPass(old(InfoOf(t)), now, deviceGone(t))
    {
      ghost var ts, infos := Times(items), Infos();
      ghost var k := PassOver(now, deviceGone, infos);
      PassIsComplete(ts, infos, k, now);
      assert Times(items) == ts;
    }

    lemma AllTreated(infos: seq<Info>, now: TimeVal, deviceGone: Transfer -> bool)
      requires Valid() && now.usec < 1_000_000 && |infos| == |items|
      requires forall i :: 0 <= i < |items| ==> InfoOf(items[i]) == AfterPass(infos[i], now, deviceGone(items[i]))
      ensures forall i :: 0 <= i < |items| ==> Treated(infos[i], InfoOf(items[i]), now)
    {
      forall i | 0 <= i < |items| ensures Treated(infos[i], InfoOf(items[i]), now) {
        assert Normal(Times(items)[i]);
        PassTreats(infos[i], now, deviceGone(items[i]));
      }
    }

    ghost function Infos(): seq<Info>
      reads this, items
    {
      seq(|items|, i requires 0 <= i < |items| reads this, items => InfoOf(items[i]))
    }

    /** The first `k` items have been passed, the others not. */
    ghost predicate Passed(infos: seq<Info>, k: nat, now: TimeVal, deviceGone: Transfer -> bool)
      reads this, items
    {
      && |infos| == |items| && k <= |items|
      && forall i :: 0 <= i < |items| ==>
           InfoOf(items[i]) == if i < k then AfterPass(infos[i], now, deviceGone(items[i])) else infos[i]
    }

    /** The round of the loop for the k-th item, said of the whole list. */
    method VisitItem(cur: Transfer, now: TimeVal, deviceGone: Transfer -> bool, ghost infos: seq<Info>, ghost k: nat)
      returns (stop: bool)
      requires Distinct(head, items) && Passed(infos, k, now, deviceGone) && k < |items| && cur == items[k]
      modifies cur`timedOut, cur`cancelling, cur`disappeared
      ensures stop ==> Passed(infos, k, now, deviceGone) && (!IsSet(infos[k].timeout) || After(infos[k].timeout, now))
      ensures !stop ==> Passed(infos, k + 1, now, deviceGone)
    {
      assert InfoOf(cur) == infos[k];
      stop := Visit(cur, now, deviceGone);
    }

    /** The loop of handle_timeouts_locked, and the place `k` where it ends. */
    method PassOver(now: TimeVal, deviceGone: Transfer -> bool, ghost infos: seq<Info>) returns (ghost k: nat)
      requires Distinct(head, items) && Linked(Ring(head, items)) && infos == Infos()
      modifies items`timedOut, items`cancelling, items`disappeared
      ensures Passed(infos, k, now, deviceGone)
      ensures k < |items| ==> !IsSet(infos[k].timeout) || After(infos[k].timeout, now)
    {
      NextItem(head, items);
      var cur := head.next;
      k := 0;
      while cur != head
        invariant k <= |items| && cur == ItemOrHead(head, items, k) && Passed(infos, k, now, deviceGone)
        decreases |items| - k
      {
        var stop := VisitItem(cur, now, deviceGone, infos, k);
        if stop { return; }
        k := k + 1;
        cur := cur.next;
      }
    }

    /** The body of that loop. */
    method Visit(cur: Transfer, now: TimeVal, deviceGone: Transfer -> bool) returns (stop: bool)
      modifies cur`timedOut, cur`cancelling, cur`disappeared
      ensures stop ==> SameData(cur) && (!IsSet(cur.timeout) || After(cur.timeout, now))
      ensures !stop ==> InfoOf(cur) == AfterPass(old(InfoOf(cur)), now, deviceGone(cur))
    {
      if !IsSet(cur.timeout) { return true; }
      if !cur.timedOut && !cur.osHandles {
        if After(cur.timeout, now) { return true; }
        HandleTimeout(cur, deviceGone(cur));
      }
      stop := false;
    }

    /** The loop of libusb_get_next_timeout: the first transfer with a deadline to handle here. */
    method FirstPending() returns (cur: Transfer, ghost k: nat)
      requires Linked(Ring(head, items)) && Distinct(head, items)
      ensures k <= |items| && cur == ItemOrHead(head, items, k)
      ensures forall i :: 0 <= i < k ==> !Pending(InfoOf(items[i]))
      ensures k < |items| ==> Pending(InfoOf(items[k]))
    {
      NextItem(head, items);
      cur := head.next;
      k := 0;
      while cur != head
        invariant 0 <= k <= |items| && cur == ItemOrHead(head, items, k)
        invariant forall i :: 0 <= i < k ==> !Pending(InfoOf(items[i]))
        decreases |items| - k
      {
        if !cur.timedOut && !cur.osHandles && IsSet(cur.timeout) { return; }
        k := k + 1;
        cur := cur.next;
      }
    }

    /** libusb_get_next_timeout: the time left until the earliest deadline that still has to be
        handled here. The clock is only read if there is one. */
    method GetNextTimeout(clock: Option<TimeSpec>) returns (r: NextTimeout, ghost k: nat)
      requires Valid() && (clock.Some? ==> IsClock(clock.value))
      ensures r == NoDeadline <==> forall i :: 0 <= i < |items| ==> !Pending(InfoOf(items[i]))
      ensures r != NoDeadline ==> k < |items| && Earliest(k)
      ensures r != NoDeadline ==>
                r == if clock == None then ClockError else Wait(TimeLeft(items[k].timeout, ToTimeVal(clock.value)))
    {
      var cur;
      cur, k := FirstPending();
      if cur == head { return NoDeadline, k; }
      IsEarliest(k);
      if clock == None { return ClockError, k; }
      r := Wait(TimeLeft(cur.timeout, ToTimeVal(clock.value)));
    }

    /** Of the deadlines that still have to be handled here, the k-th item has the earliest. */
    ghost predicate Earliest(k: nat)
      reads this, items
      requires k < |items|
    {
      && Pending(InfoOf(items[k])) && Normal(items[k].timeout)
      && forall i :: 0 <= i < |items| && Pending(InfoOf(items[i])) ==>
           Micros(items[k].timeout) <= Micros(items[i].timeout)
    }

    lemma IsEarliest(k: nat)
      requires Valid() && k < |items| && Pending(InfoOf(items[k]))
      requires forall i :: 0 <= i < k ==> !Pending(InfoOf(items[i]))
      ensures Earliest(k)
    {
      var ts, infos := Times(items), Infos();
      assert forall i :: 0 <= i < |items| ==> infos[i] == InfoOf(items[i]) && ts[i] == items[i].timeout;
      EarliestPending(ts, infos, k);
    }

    /** The milliseconds that poll is given after libusb_get_next_timeout: none, for no poll at all, when
        the earliest deadline is past. After a failed clock the code takes the error for a time that it
        never set, `garbage`. */
    function Waits(next: NextTimeout, user: TimeVal, garbage: TimeVal): nat {
      match next
      case NoDeadline => PollMillis(user)
      case Wait(left) => if IsSet(left) then PollMillis(PollTimeout(left, user)) else 0
      case ClockError => if IsSet(garbage) then PollMillis(PollTimeout(garbage, user)) else 0
    }

    /** Some transfer has a deadline that still has to be handled here. */
    ghost predicate SomePending()
      reads this, items
    {
      exists i :: 0 <= i < |items| && Pending(InfoOf(items[i]))
    }

    /** How long poll will wait: the user's time, rounded up, or the time to the earliest deadline if that is
        less. */
    method ChooseWait(user: TimeVal, garbage: TimeVal, started: Option<TimeSpec>)
      returns (ms: nat, next: NextTimeout, ghost k: nat)
      requires Valid() && (started.Some? ==> IsClock(started.value))
      ensures next == NoDeadline <==> !SomePending()
      ensures next != NoDeadline ==> k < |items| && Earliest(k)
      ensures next != NoDeadline ==>
                next == if started == None then ClockError
                        else Wait(TimeLeft(items[k].timeout, ToTimeVal(started.value)))
      ensures ms == Waits(next, user, garbage)
      ensures next == NoDeadline ==> RoundedUp(ms, Micros(user))
      ensures next.Wait? && user.usec < 1_000_000 ==>
                RoundedUp(ms, Less(ToGo(items[k].timeout, ToTimeVal(started.value)), Micros(user)))
    {
      next, k := GetNextTimeout(started);
      ms := Waits(next, user, garbage);
      MillisRoundUp(user);
      if next.Wait? && user.usec < 1_000_000 {
        PollGetsTheLess(items[k].timeout, ToTimeVal(started.value), user);
      }
    }

    /** libusb_handle_events_locked when no event arrives: the time to poll is chosen, poll runs out, and
        the timeouts are handled; or they are handled at once when the earliest deadline is past already.
        `started` is the clock before, `ended(ms)` the clock after `ms` milliseconds in poll, if they can
        be read. Exactly those transfers are flagged whose deadline has come. If the time chosen was that
        of the earliest deadline, its transfer is one of them. */
    method PollRunsOut(user: TimeVal, garbage: TimeVal, started: Option<TimeSpec>, ended: nat -> Option<TimeSpec>,
                       deviceGone: Transfer -> bool)
      returns (ms: nat, r: int, ghost k: nat)
      requires Valid() && ClockRuns(started, ended)
      modifies items`timedOut, items`cancelling, items`disappeared
      ensures Valid() && r == (if items != [] && ended(ms) == None then -1 else 0)
      ensures forall t :: t in items ==>
                InfoOf(t) == if ended(ms) == None then old(InfoOf(t))
                             else AfterPass(old(InfoOf(t)), ToTimeVal(ended(ms).value), deviceGone(t))
      ensures old(SomePending()) ==>
                && k < |items| && old(Earliest(k))
                && (started.Some? && ended(ms).Some? && Chosen(items[k].timeout, started.value, user) ==>
                      items[k].timedOut)
      ensures !old(SomePending()) ==> RoundedUp(ms, Micros(user))
      ensures old(SomePending()) && started.Some? && user.usec < 1_000_000 ==>
                k < |items| && RoundedUp(ms, Less(ToGo(items[k].timeout, ToTimeVal(started.value)), Micros(user)))
    {
      var next;
      ms, next, k := ChooseWait(user, garbage, started);
      if next.Wait? && ended(ms).Some? && Chosen(items[k].timeout, started.value, user) {
        DueWhenPollEnds(items[k].timeout, user, started.value, ended(ms).value, ms);
      }
      r := HandleTimeouts(ended(ms), deviceGone);
    }

    /** A transfer that is submitted again, without a timeout, is timed out by the next pass exactly
        when an earlier submission got a deadline and that deadline has come. */
    method ResubmitWithoutTimeout(t: Transfer, clock: TimeSpec, deviceGone: Transfer -> bool)
      requires Valid() && t != head && t !in items && t.Recorded() && t.timeoutMs == 0 && IsClock(clock)
      modifies this`items, head, items, t
      ensures Valid() && t in items
      ensures t.timedOut <==>
                && (exists i :: 0 <= i < |old(t.submissions)| && GetsDeadline(old(t.submissions)[i]))
                && Micros(DeadlineAfter(old(t.submissions))) <= Micros(ToTimeVal(clock))
    {
      ghost var ss := t.submissions;
      var ok := Submit(t, None, true);
      StaleIsFlagged(ss, InfoOf(t), clock, deviceGone(t));
      var r := HandleTimeouts(Some(clock), deviceGone);
    }

    /** The removal of a completed or failed transfer from the list. */
    method Remove(t: Transfer)
      requires Valid() && t in items
      modifies this`items, head, items
      ensures Valid()
      ensures exists k :: 0 <= k < |old(items)| && old(items)[k] == t && items == old(items)[..k] + old(items)[k + 1..]
      ensures t !in items && SameData(t) && forall u :: u in old(items) ==> SameData(u)
    {
      ghost var k :| 0 <= k < |items| && items[k] == t;
      ghost var ts := Times(items);
      RemoveSorted(ts, k);
      ListDel(t, head, items, k, Ring(head, items)[k], Ring(head, items)[k + 2]);
      assert Times(items) == ts;
      DistinctWithout(head, items, k);
      items := items[..k] + items[k + 1..];
      assert Times(items) == ts[..k] + ts[k + 1..];
    }
  }

  lemma DistinctWith(head: Transfer, items: seq<Transfer>, t: Transfer, k: nat)
    requires Distinct(head, items) && t != head && t !in items && k <= |items|
    ensures Distinct(head, items[..k] + [t] + items[k..])
  {
    var now := items[..k] + [t] + items[k..];
    assert forall i :: 0 <= i < |now| && i != k ==> now[i] == items[if i < k then i else i - 1];
  }

  lemma DistinctWithout(head: Transfer, items: seq<Transfer>, k: nat)
    requires Distinct(head, items) && k < |items|
    ensures Distinct(head, items[..k] + items[k + 1..]) && items[k] !in items[..k] + items[k + 1..]
  {
    var now := items[..k] + items[k + 1..];
    assert forall i :: 0 <= i < |now| ==> now[i] == items[if i < k then i else i + 1];
  }

  /** What went in at place k and is taken out again leaves no trace. */
  lemma RemoveInserted(head: Transfer, before: seq<Transfer>, t: Transfer, k: nat,
                       was: seq<Transfer>, after: seq<Transfer>)
    requires k <= |before| && was == before[..k] + [t] + before[k..] && Distinct(head, was)
    requires exists m :: 0 <= m < |was| && was[m] == t && after == was[..m] + was[m + 1..]
    ensures after == before
  {
    var m :| 0 <= m < |was| && was[m] == t && after == was[..m] + was[m + 1..];
    assert was[k] == t && m == k;
    assert was[..k] == before[..k] && was[k + 1..] == before[k..];
  }

  function ItemOrHead(head: Transfer, items: seq<Transfer>, k: nat): Transfer
    requires k <= |items|
  {
    if k < |items| then items[k] else head
  }

  lemma NextItem(head: Transfer, items: seq<Transfer>)
    requires Linked(Ring(head, items))
    ensures head.next == ItemOrHead(head, items, 0)
    ensures forall i :: 0 <= i < |items| ==> items[i].next == ItemOrHead(head, items, i + 1)
  {
    var ring := Ring(head, items);
    assert ring[0].next == ring[1];
    forall i | 0 <= i < |items| ensures items[i].next == ItemOrHead(head, items, i + 1) {
      assert ring[i + 1].next == ring[i + 2];
    }
  }

  /** list_empty: the head is its own successor exactly when there are no items. */
  lemma EmptyWhen(head: Transfer, items: seq<Transfer>)
    requires Linked(Ring(head, items)) && Distinct(head, items)
    ensures head.next == head <==> items == []
    ensures head.next == Ring(head, items)[1]
  {
    assert Ring(head, items)[0].next == Ring(head, items)[1];
    assert items != [] ==> Ring(head, items)[1] == items[0];
  }
}
