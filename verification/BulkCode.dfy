/** The Linux backend's code for one bulk or interrupt transfer, in its own imperative form. */
module BulkCode {
  import opened Bytes
  import opened BulkTransfer
  import opened Discarding

  /** The kernel's answer to one SUBMITURB ioctl. */
  datatype SubmitAnswer = Accepted | NoDevice | RemoteIo | OtherErrno

  /** How many requests the kernel accepts before it first refuses one. */
  function AcceptedPrefix(answer: nat -> SubmitAnswer, n: nat): (k: nat)
    ensures k <= n && (forall i :: 0 <= i < k ==> answer(i) == Accepted)
    ensures k < n ==> answer(k) != Accepted
  {
    if n == 0 then 0
    else var k := AcceptedPrefix(answer, n - 1);
         if k == n - 1 && answer(k) == Accepted then n else k
  }

  lemma {:induction false} AcceptedPrefixIs(answer: nat -> SubmitAnswer, n: nat, k: nat)
    requires k <= n && (forall i :: 0 <= i < k ==> answer(i) == Accepted)
    requires k < n ==> answer(k) != Accepted
    ensures AcceptedPrefix(answer, n) == k
  {
    if k < n { AcceptedPrefixIs(answer, n - 1, k); }
    else if n > 0 { AcceptedPrefixIs(answer, n - 1, n - 1); }
  }

  method UrbsNeeded(length: nat) returns (numUrbs: nat, lastUrbPartial: bool)
    ensures Cut(length, numUrbs)
    ensures lastUrbPartial <==> length % MAX_BULK_BUFFER_LENGTH > 0
  {
    numUrbs, lastUrbPartial := length / MAX_BULK_BUFFER_LENGTH, false;
    if length == 0 {
      numUrbs := 1;
    } else if length % MAX_BULK_BUFFER_LENGTH > 0 {
      lastUrbPartial := true;
      numUrbs := numUrbs + 1;
    }
  }

  lemma MoveIs(was: seq<byte>, now: seq<byte>, to: nat, from: nat, n: nat)
    requires from + n <= |was| == |now| && to + n <= |was|
    requires now[..to] == was[..to] && now[to + n..] == was[to + n..]
    requires now[to..to + n] == was[from..from + n]
    ensures now == Move(was, to, from, n)
  {
    assert now == now[..to] + now[to..to + n] + now[to + n..];
  }

  class Transfer {
    const length: nat
    const isIn: bool
    const interrupt: bool
    const shortNotOk: bool
    const addZeroPacket: bool
    const buffer: array<byte>

    var transferred: nat
    var timedOut: bool

    var live: bool          // the URB array is allocated
    var urbs: seq<Urb>
    var numUrbs: nat
    var numRetired: nat
    var action: ReapAction
    var status: TransferStatus

    ghost var reports: seq<Report>     // what the callback saw since the last submission
    ghost var asked: set<nat>          // DISCARDURB calls since the last submission
    ghost var given: seq<Urb>          // the kernel's side: the requests it took
    ghost var submitted: nat
    ghost var reaped: nat
    ghost var filled: seq<seq<byte>>
    ghost var halted: bool

    constructor (length: nat, isIn: bool, interrupt: bool, shortNotOk: bool, addZeroPacket: bool, buffer: array<byte>)
      requires buffer.Length == length
      ensures !live && transferred == 0 && !timedOut
      ensures this.length == length && this.isIn == isIn && this.buffer == buffer
      ensures this.interrupt == interrupt && this.shortNotOk == shortNotOk && this.addZeroPacket == addZeroPacket
    {
      this.length, this.isIn, this.interrupt := length, isIn, interrupt;
      this.shortNotOk, this.addZeroPacket, this.buffer := shortNotOk, addZeroPacket, buffer;
      transferred, timedOut, live, urbs, numUrbs, numRetired := 0, false, false, [], 0, 0;
      action, status := Normal, StatusCompleted;
      reports, asked, given, submitted, reaped, filled, halted := [], {}, [], 0, 0, [], false;
    }

    ghost function Req(): Request
      reads this
    {
      Request(length, numUrbs, given, isIn, interrupt, shortNotOk)
    }

    ghost function Ctl(): Control
      reads this
    {
      Control(transferred, timedOut, live, numRetired, action, status, asked, reports, submitted, reaped, halted)
    }

    ghost function Model(): Xfer
      reads this, buffer
    {
      Xfer(Ctl(), Memory(buffer[..], filled))
    }

    /** The table holds every request that the kernel took: pieces of the buffer, cut at 16 KB. */
    ghost predicate TableOk()
      reads this
    {
      && Table(length, numUrbs, given) && |given| == submitted
      && |urbs| == numUrbs && urbs[..submitted] == given
    }

    /** submit_bulk_transfer */
    method Submit(supportsZeroPacket: bool, submitAnswer: nat -> SubmitAnswer, discardAnswer: nat -> DiscardAnswer)
      returns (r: Code)
      requires transferred == 0 && !timedOut && buffer.Length == length
      modifies this
      ensures old(live) ==> r == ErrBusy && Model() == old(Model())
      ensures !old(live) && Unsupported(supportsZeroPacket) ==> r == ErrNotSupported && Model() == old(Model())
      ensures !old(live) && !Unsupported(supportsZeroPacket) ==>
                && Cut(length, numUrbs) && buffer[..] == old(buffer[..])
                && var k := AcceptedPrefix(submitAnswer, numUrbs);
                   if k == 0 then !live && r == (if submitAnswer(0) == NoDevice then ErrNoDevice else ErrIo)
                   else && r == Ok && TableOk() && JustSubmitted(Req(), Model(), k)
                        && (k == numUrbs ==> Partitions(length, urbs))
                        && (k < numUrbs ==> (action == CompletedEarly <==> submitAnswer(k) == RemoteIo))
                        && asked == (if action == SubmitFailed then From(0, k) else {})
    {
      if live { return ErrBusy; }
      if Unsupported(supportsZeroPacket) { return ErrNotSupported; }

      var lastUrbPartial := Allocate();
      r := HandIn(lastUrbPartial, submitAnswer, discardAnswer);
      if live && submitted == numUrbs { TableIsWhole(); }
    }

    /** When the kernel took all requests, each byte of the buffer is in exactly one of them. */
    lemma TableIsWhole()
      requires TableOk() && submitted == numUrbs
      ensures Partitions(length, urbs)
    {
      assert urbs[..submitted] == urbs;
      SplitIsPartition(length, numUrbs, urbs);
    }

    /** The first part of submit_bulk_transfer: how many requests, and an empty table for them. */
    method Allocate() returns (lastUrbPartial: bool)
      requires transferred == 0 && !timedOut
      modifies this
      ensures Cut(length, numUrbs) && TableOk() && Fresh() && submitted == 0
      ensures transferred == 0 && !timedOut
      ensures lastUrbPartial <==> length % MAX_BULK_BUFFER_LENGTH > 0
    {
      numUrbs, lastUrbPartial := UrbsNeeded(length);
      Clear();
    }

    /** An empty table and fresh counters. */
    method Clear()
      requires transferred == 0 && !timedOut
      modifies this`live, this`urbs, this`numRetired, this`action, this`status,
               this`reports, this`asked, this`given, this`submitted, this`reaped, this`halted, this`filled
      ensures Fresh() && given == [] && submitted == 0 && |urbs| == numUrbs
    {
      live, urbs := true, seq(numUrbs, (i: nat) => Urb(0, 0));
      numRetired, action, status := 0, Normal, StatusCompleted;
      Forget();
    }

    /** Nothing has happened to the transfer yet. */
    ghost method Forget()
      modifies this`reports, this`asked, this`given, this`submitted, this`reaped, this`halted, this`filled
      ensures reports == [] && asked == {} && given == [] && submitted == reaped == 0
      ensures !halted && filled == NothingYet(numUrbs)
    {
      reports, asked, given, submitted, reaped, halted, filled := [], {}, [], 0, 0, false, NothingYet(numUrbs);
    }

    /** The second part: the requests go to the kernel until it refuses one. */
    method HandIn(lastUrbPartial: bool, submitAnswer: nat -> SubmitAnswer, discardAnswer: nat -> DiscardAnswer)
      returns (r: Code)
      requires TableOk() && Fresh() && submitted == 0
      requires lastUrbPartial <==> length % MAX_BULK_BUFFER_LENGTH > 0
      modifies this`urbs, this`live, this`action, this`numRetired, this`given, this`submitted, this`asked
      ensures submitted == AcceptedPrefix(submitAnswer, numUrbs)
      ensures submitted == 0 ==> !live && r == (if submitAnswer(0) == NoDevice then ErrNoDevice else ErrIo)
      ensures submitted > 0 ==>
                && r == Ok && live && TableOk() && numRetired == numUrbs - submitted
                && action == (if submitted == numUrbs then Normal
                              else if submitAnswer(submitted) == RemoteIo then CompletedEarly else SubmitFailed)
                && asked == (if action == SubmitFailed then From(0, submitted) else {})
    {
      for i := 0 to numUrbs
        invariant Fresh() && submitted == i && TableOk()
        invariant forall j :: 0 <= j < i ==> submitAnswer(j) == Accepted
      {
        FillUrb(i, lastUrbPartial);
        if submitAnswer(i) != Accepted {
          AcceptedPrefixIs(submitAnswer, numUrbs, i);
          r := Refused(i, submitAnswer(i), discardAnswer);
          return;
        }
        Taken(i);
      }
      AcceptedPrefixIs(submitAnswer, numUrbs, numUrbs);
      return Ok;
    }

    /** One request of the table. */
    method FillUrb(i: nat, lastUrbPartial: bool)
      requires Cut(length, numUrbs) && i < numUrbs == |urbs|
      requires lastUrbPartial <==> length % MAX_BULK_BUFFER_LENGTH > 0
      modifies this`urbs
      ensures |urbs| == numUrbs && urbs[i].offset == i * 16384 && urbs[i].bufferLength == UrbLength(length, numUrbs, i)
      ensures urbs[..i] == old(urbs[..i])
    {
      var bufferLength := MAX_BULK_BUFFER_LENGTH;
      if i == numUrbs - 1 && lastUrbPartial {
        bufferLength := length % MAX_BULK_BUFFER_LENGTH;
      } else if length == 0 {
        bufferLength := 0;
      }
      urbs := urbs[i := Urb(i * MAX_BULK_BUFFER_LENGTH, bufferLength)];
    }

    /** The kernel took request `i`, as it stands in the table. */
    ghost method Taken(i: nat)
      requires i == submitted < numUrbs && TableOk()
      requires urbs[i] == Urb(i * MAX_BULK_BUFFER_LENGTH, UrbLength(length, numUrbs, i))
      modifies this`given, this`submitted
      ensures TableOk() && submitted == i + 1
    {
      TableSnoc(length, numUrbs, given, urbs[i]);
      assert urbs[..i + 1] == urbs[..i] + [urbs[i]];
      given, submitted := given + [urbs[i]], submitted + 1;
    }

    /** The kernel refused request `i`: the ones after it count as retired. */
    method Refused(i: nat, why: SubmitAnswer, discardAnswer: nat -> DiscardAnswer) returns (r: Code)
      requires live && i < numUrbs && numRetired == 0 && why != Accepted && action == Normal
      modifies this`live, this`action, this`numRetired, this`asked
      ensures i == 0 ==> !live && r == (if why == NoDevice then ErrNoDevice else ErrIo)
      ensures i > 0 ==>
                && r == Ok && live && numRetired == numUrbs - i
                && action == (if why == RemoteIo then CompletedEarly else SubmitFailed)
                && asked == old(asked) + (if action == SubmitFailed then From(0, i) else {})
    {
      r := if why == NoDevice then ErrNoDevice else ErrIo;
      if i == 0 {
        live := false;
        return;
      }
      action := if why == RemoteIo then CompletedEarly else SubmitFailed;
      numRetired := numRetired + (numUrbs - i);
      if action == CompletedEarly { return Ok; }
      var _ := DiscardUrbs(0, i, discardAnswer);
      return Ok;
    }

    predicate Unsupported(supportsZeroPacket: bool) {
      !isIn && addZeroPacket && !supportsZeroPacket
    }

    /** The state while requests are being handed in. */
    ghost predicate Fresh()
      reads this
    {
      && live && numRetired == 0 && action == Normal && status == StatusCompleted
      && transferred == 0 && !timedOut && reports == [] && asked == {} && reaped == 0 && !halted
      && filled == NothingYet(numUrbs)
    }

    method DiscardUrbs(first: nat, lastPlusOne: nat, answer: nat -> DiscardAnswer) returns (ret: Code)
      requires live
      modifies this`asked
      ensures asked == old(asked) + From(first, lastPlusOne)
      ensures Discards(first, lastPlusOne, answer, ret)
    {
      ghost var more;
      ret, more := DiscardEach(first, lastPlusOne, answer);
      asked := asked + more;
    }

    /** usbi_handle_transfer_completion, as far as the callback sees it */
    method HandleTransferCompletion(st: TransferStatus)
      modifies this`reports
      ensures reports == old(reports) + [Report(
                if st == StatusCompleted && shortNotOk && length != transferred then StatusError else st, transferred)]
    {
      var shown := st;
      if st == StatusCompleted && shortNotOk {
        if length != transferred { shown := StatusError; }
      }
      reports := reports + [Report(shown, transferred)];
    }

    /** The `completed` label: free the table, then tell the user. */
    method Complete()
      modifies this`live, this`urbs, this`reports
      ensures Ctl() == Finish(Req(), old(Ctl()))
    {
      live, urbs := false, [];
      if action == Cancelled {
        if timedOut {
          HandleTransferCompletion(StatusTimedOut);
        } else {
          HandleTransferCompletion(StatusCancelled);
        }
      } else {
        HandleTransferCompletion(status);
      }
    }

    /** The `cancel_remaining` label. */
    method CancelRest(urbIdx: nat, discardAnswer: nat -> DiscardAnswer)
      requires live && urbIdx + 1 == reaped
      modifies this`status, this`live, this`urbs, this`reports, this`asked
      ensures Ctl() == CancelRemaining(Req(), old(Ctl()))
      ensures live ==> urbs == old(urbs)
    {
      if action == Error && status == StatusCompleted { status := StatusError; }
      if numRetired == numUrbs {
        Complete();
      } else {
        var _ := DiscardUrbs(urbIdx + 1, numUrbs, discardAnswer);
      }
    }

    /** The memmove that closes the hole in front of surplus data. */
    method MoveDown(from: nat, actual: nat)
      requires from + actual <= buffer.Length && transferred + actual <= buffer.Length
      modifies buffer
      ensures buffer[..] == Move(old(buffer[..]), transferred, from, actual)
    {
      ghost var was := buffer[..];
      if from != transferred {
        forall k | 0 <= k < actual {
          buffer[transferred + k] := buffer[from + k];
        }
        assert buffer[..][transferred..transferred + actual] == was[from..from + actual];
        assert buffer[..][..transferred] == was[..transferred];
        assert buffer[..][transferred + actual..] == was[transferred + actual..];
      }
      MoveIs(was, buffer[..], transferred, from, actual);
    }

    /** handle_bulk_completion, for a request that comes back after the transfer left NORMAL */
    method ReapAbnormal(urbIdx: nat, actual: nat)
      requires live && urbIdx == reaped && action != Normal && urbIdx < |urbs|
      requires urbs[urbIdx].offset + actual <= buffer.Length && transferred + actual <= buffer.Length
      modifies this`numRetired, this`reaped, this`transferred, this`status, this`live, this`urbs, this`reports, buffer
      ensures Ctl() == RetireSurplus(Req(), Count(old(Ctl()), actual))
      ensures live ==> urbs == old(urbs)
      ensures buffer[..] == Move(old(buffer[..]), old(transferred), old(urbs)[urbIdx].offset, actual)
    {
      if actual > 0 {
        MoveDown(urbs[urbIdx].offset, actual);
      } else {
        MoveIs(buffer[..], buffer[..], transferred, urbs[urbIdx].offset, 0);
      }
      CountOne(actual);
      RetireAbnormal();
    }

    /** One more request is back. */
    method CountOne(actual: nat)
      modifies this`numRetired, this`reaped, this`transferred
      ensures Ctl() == Count(old(Ctl()), actual)
    {
      numRetired, reaped, transferred := numRetired + 1, reaped + 1, transferred + actual;
    }

    method RetireAbnormal()
      requires live && action != Normal
      modifies this`status, this`live, this`urbs, this`reports
      ensures Ctl() == RetireSurplus(Req(), old(Ctl()))
      ensures live ==> urbs == old(urbs)
    {
      if numRetired == numUrbs {
        if action != CompletedEarly && status == StatusCompleted { status := StatusError; }
        Complete();
      }
    }

    /** handle_bulk_completion, for a request that comes back while the transfer is NORMAL */
    method ReapNormal(urbIdx: nat, st: UrbStatus, actual: nat, discardAnswer: nat -> DiscardAnswer)
      requires live && urbIdx == reaped && action == Normal && urbIdx < |urbs|
      modifies this`numRetired, this`reaped, this`transferred, this`status, this`live, this`urbs, this`reports,
               this`action, this`asked, this`halted
      ensures Ctl() == RetireNormal(Req(), Count(old(Ctl()), actual), st, actual < old(urbs)[urbIdx].bufferLength)
      ensures live ==> urbs == old(urbs)
    {
      CountOne(actual);
      if st in {Good, Short, Unlinked} {
        ReapWithoutError(urbIdx, actual, discardAnswer);
      } else {
        ReapFailed(urbIdx, st, discardAnswer, actual < urbs[urbIdx].bufferLength);
      }
    }

    /** The `switch` over the failing statuses. */
    method ReapFailed(urbIdx: nat, st: UrbStatus, discardAnswer: nat -> DiscardAnswer, ghost short: bool)
      requires live && urbIdx + 1 == reaped && action == Normal && st !in {Good, Short, Unlinked}
      modifies this`status, this`live, this`urbs, this`reports, this`action, this`asked, this`halted
      ensures Ctl() == RetireNormal(Req(), old(Ctl()), st, short)
      ensures live ==> urbs == old(urbs)
    {
      match st {
        case Gone =>
          status, halted := StatusNoDevice, true;
        case Stalled =>
          if status == StatusCompleted { status := StatusStall; }
          halted := true;
        case Overran =>
          if status == StatusCompleted { status := StatusOverflow; }
          Complete();
          return;
        case Broken =>
          action := Error;
      }
      CancelRest(urbIdx, discardAnswer);
    }

    /** The code after the `switch`: last request, short request, or neither. */
    method ReapWithoutError(urbIdx: nat, actual: nat, discardAnswer: nat -> DiscardAnswer)
      requires live && urbIdx + 1 == reaped && action == Normal && urbIdx < |urbs|
      modifies this`status, this`live, this`urbs, this`reports, this`action, this`asked
      ensures Ctl() == RetireNormal(Req(), old(Ctl()), Good, actual < old(urbs)[urbIdx].bufferLength)
      ensures live ==> urbs == old(urbs)
    {
      if urbIdx == numUrbs - 1 {
        Complete();
      } else if actual < urbs[urbIdx].bufferLength {
        if action == Normal { action := CompletedEarly; }
        CancelRest(urbIdx, discardAnswer);
      }
    }

    /** handle_bulk_completion: the reaped request is the oldest one the kernel still held. */
    method HandleBulkCompletion(urbIdx: nat, st: UrbStatus, actual: nat, discardAnswer: nat -> DiscardAnswer)
      requires live && TableOk() && urbIdx == reaped && Possible(Req(), Model(), Reap(st, actual))
      modifies this, buffer
      ensures Model() == Step(old(Req()), old(Model()), Reap(st, actual))
      ensures Req() == old(Req()) && (live ==> TableOk())
    {
      assert urbs[..submitted][urbIdx] == urbs[urbIdx] == given[urbIdx];
      if action != Normal {
        ReapAbnormal(urbIdx, actual);
      } else {
        ReapNormal(urbIdx, st, actual, discardAnswer);
      }
    }

    /** op_cancel_transfer. The action changes even when there is nothing left to cancel. */
    method CancelTransfer(discardAnswer: nat -> DiscardAnswer) returns (r: Code)
      modifies this`action, this`asked
      ensures Model() == Step(Req(), old(Model()), Cancel)
      ensures if live then Discards(0, numUrbs, discardAnswer, r) else r == ErrNotFound
    {
      if !interrupt && action == Error {
      } else {
        action := Cancelled;
      }
      if !live { return ErrNotFound; }
      r := DiscardUrbs(0, numUrbs, discardAnswer);
    }

    /** handle_timeout */
    method HandleTimeout(discardAnswer: nat -> DiscardAnswer)
      modifies this`timedOut, this`action, this`asked
      ensures Model() == Step(Req(), old(Model()), Expire)
    {
      timedOut := true;
      var _ := CancelTransfer(discardAnswer);
    }
  }
}
