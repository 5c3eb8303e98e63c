/**
 That the threads get something done: a thread that waits for its transfer handles events when nobody else
 does, a completed transfer lets its thread go, and a device that is opened or closed does get opened or
 closed.
 */
module EventProgress {
  import opened Wrappers
  import opened EventProtocol
  import opened EventLiveness

  lemma {:induction false} RunAppend(s: State, es: seq<(Tid, Choice)>, fs: seq<(Tid, Choice)>)
    requires IsRun(s, es) && IsRun(Run(s, es), fs)
    ensures IsRun(s, es + fs) && Run(s, es + fs) == Run(Run(s, es), fs)
    decreases |es|
  {
    if es == [] {
      assert es + fs == fs;
    } else {
      assert (es + fs)[1..] == es[1..] + fs;
      RunAppend(Step(s, es[0].0, es[0].1), es[1..], fs);
    }
  }

  lemma RunCons(s: State, t: Tid, c: Choice, fs: seq<(Tid, Choice)>)
    requires Enabled(s, t, c) && IsRun(Step(s, t, c), fs)
    ensures IsRun(s, [(t, c)] + fs) && Run(s, [(t, c)] + fs) == Run(Step(s, t, c), fs)
  {
    assert ([(t, c)] + fs)[1..] == fs;
  }

  /** `n` steps that `t` takes by itself. */
  function Own(t: Tid, n: nat): seq<(Tid, Choice)> {
    if n == 0 then [] else [(t, Go)] + Own(t, n - 1)
  }

  // ---------------------------------------------------------------- somebody handles events

  /** The steps of a thread on its way to poll, with the events lock free and nobody changing the poll set. */
  lemma {:induction false} GoesToPoll(s: State, t: Tid, n: nat)
    requires t in s.pc && t !in s.sh.completed && n <= 4
    requires n == 4 ==> s.pc[t] == TryModify && s.sh.modifying == 0 && s.sh.owner == None
    requires n == 3 ==> s.pc[t] == TryLock && s.sh.owner == None
    requires n == 2 ==> s.pc[t] == SetActive(Handler) && s.sh.owner == Some(t)
    requires n == 1 ==> s.pc[t] == CheckDone && s.sh.owner == Some(t) && s.sh.active
    requires n == 0 ==> s.pc[t] == Poll && s.sh.owner == Some(t) && s.sh.active
    ensures IsRun(s, Own(t, n)) && t in Run(s, Own(t, n)).pc && Run(s, Own(t, n)).pc[t] == Poll
    ensures Run(s, Own(t, n)).sh.owner == Some(t) && Run(s, Own(t, n)).sh.active
    decreases n
  {
    if n > 0 {
      GoesToPoll(Step(s, t, Go), t, n - 1);
      RunCons(s, t, Go, Own(t, n - 1));
    }
  }

  lemma NobodyModifies(s: State)
    requires CountsOk(s) && forall u :: u in s.pc ==> !InRegion(s.pc[u])
    ensures s.sh.modifying == 0
  {
    assert Those(s.pc, InRegion) == {};
  }

  /** From every reachable state in which nobody is between pollfd_modify++ and pollfd_modify-- and the events
      lock is free, a thread that waits for its own transfer is in poll, with the lock and the active flag,
      after four steps of its own. */
  lemma HandlesEvents(s: State, run: seq<(Tid, Choice)>, t: Tid)
    requires Init(s) && IsRun(s, run)
    requires var r := Run(s, run);
             && t in r.pc && r.pc[t] == TryModify && t !in r.sh.completed
             && r.sh.owner == None && forall u :: u in r.pc ==> !InRegion(r.pc[u])
    ensures var r := Run(s, run);
            && IsRun(r, Own(t, 4)) && t in Run(r, Own(t, 4)).pc && Run(r, Own(t, 4)).pc[t] == Poll
            && Run(r, Own(t, 4)).sh.owner == Some(t) && Run(r, Own(t, 4)).sh.active
  {
    InitInv(s);
    RunInv(s, run);
    NobodyModifies(Run(s, run));
    GoesToPoll(Run(s, run), t, 4);
  }

  // ---------------------------------------------------------------- a transfer that is complete

  /** The handler that reaps a thread's transfer sets that thread's flag, and owes the broadcast. */
  lemma CompletionIsSeen(s: State, t: Tid, u: Tid)
    requires t in s.pc && (s.pc[t] == Poll || s.pc[t] == Handling)
    ensures Enabled(s, t, Complete(u))
    ensures u in Step(s, t, Complete(u)).sh.completed && CallbackPending(Step(s, t, Complete(u)).pc[t])
  {
  }

  lemma StaysCompleted(s: State, t: Tid, c: Choice, u: Tid)
    requires Enabled(s, t, c) && u in s.sh.completed && !(t == u && c == NewTransfer)
    ensures u in Step(s, t, c).sh.completed
  {
  }

  /** The flag stays set until the thread starts a new transfer itself. */
  lemma {:induction false} StaysCompletedInRun(s: State, es: seq<(Tid, Choice)>, u: Tid)
    requires IsRun(s, es) && u in s.sh.completed && (u, NewTransfer) !in es
    ensures u in Run(s, es).sh.completed
    decreases |es|
  {
    if es != [] {
      StaysCompleted(s, es[0].0, es[0].1, u);
      StaysCompletedInRun(Step(s, es[0].0, es[0].1), es[1..], u);
    }
  }

  /** Nobody polls for a transfer that is complete already. */
  ghost predicate PollsForSomething(s: State) {
    forall u :: u in s.pc && s.pc[u] == Poll ==> u !in s.sh.completed
  }

  lemma StepPollsForSomething(s: State, t: Tid, c: Choice)
    requires LocksOk(s) && PollsForSomething(s) && Enabled(s, t, c)
    ensures PollsForSomething(Step(s, t, c))
  {
    var s' := Step(s, t, c);
    forall u | u in s'.pc && s'.pc[u] == Poll ensures u !in s'.sh.completed {
      if u != t {
        OthersAfter(s, t, c, u);
        assert LocalOk(s.pc[u], s.sh, u) && LocalOk(s.pc[t], s.sh, t);
        OnlyOwnerCompletes(s.pc[t], s.sh, t, c);
      } else {
        IntoPoll(s.pc[t], s.sh, t, c);
      }
    }
  }

  lemma OnlyOwnerCompletes(p: PC, sh: Shared, t: Tid, c: Choice)
    requires Next(p, sh, t, c).Move?
    ensures Owns(p) || Next(p, sh, t, c).sh.completed <= sh.completed
  {
  }

  lemma IntoPoll(p: PC, sh: Shared, t: Tid, c: Choice)
    requires Next(p, sh, t, c).Move? && Next(p, sh, t, c).next == Poll
    ensures t !in Next(p, sh, t, c).sh.completed
  {
  }

  lemma {:induction false} RunPollsForSomething(s: State, es: seq<(Tid, Choice)>)
    requires Inv(s) && PollsForSomething(s) && IsRun(s, es)
    ensures Inv(Run(s, es)) && PollsForSomething(Run(s, es))
    decreases |es|
  {
    if es != [] {
      StepInv(s, es[0].0, es[0].1);
      StepPollsForSomething(s, es[0].0, es[0].1);
      RunPollsForSomething(Step(s, es[0].0, es[0].1), es[1..]);
    }
  }

  /** The places of a thread that waits for its transfer. */
  predicate Waits(p: PC) {
    || InHandler(p)
    || ((p.SetActive? || p.Clear? || p.Release? || p.BLock? || p.Cast? || p.BUnlock?) && p.f == Handler)
    || p.WLock? || p.WCheck? || p.WReadModify? || p.WReadActive? || p.WSleep? || p.Asleep? || p.Woken? || p.WUnlock?
  }

  /** How far it is from there to the end of the loop, when the transfer is complete. */
  function ToHome(p: PC): nat {
    match p
    case WReadModify => 12
    case WReadActive => 11
    case WUnlock(retry) => if retry then 10 else 1
    case TryModify => 9
    case TryLock => 8
    case SetActive(_) => 7
    case CbLock => 9
    case CbCast => 8
    case CbUnlock => 7
    case CheckDone => 6
    case Handling => 6
    case Clear(_) => 5
    case Release(_) => 4
    case BLock(_) => 3
    case Cast(_) => 2
    case BUnlock(_) => 1
    case WSleep => 4
    case Asleep => 3
    case WLock => 3
    case WCheck => 2
    case Woken => 2
    case _ => 0
  }

  /** With the waiters lock free, or its own, the thread goes on by itself and comes nearer. */
  ghost predicate ComesHome(p: PC, m: Move) {
    m.Move? && (Waits(m.next) || m.next == Idle) && m.next != Poll && ToHome(m.next) < ToHome(p)
  }

  ghost predicate MayGo(p: PC, sh: Shared, t: Tid) {
    && Waits(p) && p != Poll && p != Asleep && LocalOk(p, sh, t) && t in sh.completed
    && (sh.waiters == None || sh.waiters == Some(t))
  }

  lemma HomeInHandler(p: PC, sh: Shared, t: Tid)
    requires MayGo(p, sh, t) && InHandler(p)
    ensures ComesHome(p, HandlerMove(p, sh, t, Go))
  {
  }

  lemma HomeInLock(p: PC, sh: Shared, t: Tid)
    requires MayGo(p, sh, t) && InLock(p)
    ensures ComesHome(p, LockMove(p, sh, t))
  {
  }

  lemma HomeWaiting(p: PC, sh: Shared, t: Tid)
    requires MayGo(p, sh, t) && !InHandler(p) && !InLock(p)
    ensures ComesHome(p, WaiterMove(p, sh, t, Go)) && p != Idle && !InModifier(p)
  {
  }

  lemma HomeStep(p: PC, sh: Shared, t: Tid)
    requires MayGo(p, sh, t)
    ensures ComesHome(p, Next(p, sh, t, Go))
  {
    if InHandler(p) {
      HomeInHandler(p, sh, t);
    } else if InLock(p) {
      HomeInLock(p, sh, t);
    } else {
      HomeWaiting(p, sh, t);
    }
  }

  /** How far the holder of the waiters lock is from giving it back. */
  function ToFree(p: PC): nat {
    match p
    case WCheck => 4
    case WReadModify => 3
    case WReadActive => 2
    case CbCast => 2
    case Cast(_) => 2
    case _ => 1
  }

  lemma HolderGoesOn(p: PC, sh: Shared, t: Tid)
    requires HoldsWaiters(p) && LocalOk(p, sh, t)
    ensures var m := Next(p, sh, t, Go);
            m.Move? && (m.sh.waiters == None || (HoldsWaiters(m.next) && ToFree(m.next) < ToFree(p)))
  {
  }

  /** The thread that holds the waiters lock, if it is another one than `u`, as a number of steps. */
  ghost function InTheWay(s: State, u: Tid): nat {
    if s.sh.waiters.Some? && s.sh.waiters.value != u && s.sh.waiters.value in s.pc
    then ToFree(s.pc[s.sh.waiters.value]) else 0
  }

  lemma OthersGiveWay(s: State, u: Tid)
    requires Inv(s) && u in s.pc && s.pc[u] != Asleep && s.sh.waiters.Some? && s.sh.waiters.value != u
    ensures var w := s.sh.waiters.value;
            && w in s.pc && Enabled(s, w, Go) && u in Step(s, w, Go).pc && Step(s, w, Go).pc[u] == s.pc[u]
            && InTheWay(Step(s, w, Go), u) < InTheWay(s, u)
  {
    var w := s.sh.waiters.value;
    assert w in s.pc && LocalOk(s.pc[w], s.sh, w);
    HolderGoesOn(s.pc[w], s.sh, w);
    NextEffect(s.pc[w], s.sh, w, Go);
    OthersAfter(s, w, Go, u);
  }

  /** The run so far keeps what the next part of it needs. */
  ghost predicate Going(s: State, u: Tid) {
    Inv(s) && PollsForSomething(s) && u in s.pc && u in s.sh.completed && (Waits(s.pc[u]) || s.pc[u] == Idle)
  }

  lemma GoingStep(s: State, t: Tid, u: Tid)
    requires Going(s, u) && Enabled(s, t, Go) && u in Step(s, t, Go).pc
    requires Waits(Step(s, t, Go).pc[u]) || Step(s, t, Go).pc[u] == Idle
    ensures Going(Step(s, t, Go), u)
  {
    StepInv(s, t, Go);
    StepPollsForSomething(s, t, Go);
    StaysCompleted(s, t, Go, u);
  }

  lemma {:induction false} AidedKeepsFlag(s: State, es: seq<(Tid, Choice)>, u: Tid, helps: nat)
    requires Aided(s, es, u, helps)
    ensures (u, NewTransfer) !in es
    decreases |es|
  {
    if es != [] { AidedKeepsFlag(Step(s, es[0].0, es[0].1), es[1..], u, if es[0].1 == Go then helps else helps - 1); }
  }

  lemma WokenUp(s: State, u: Tid) returns (es: seq<(Tid, Choice)>)
    requires Going(s, u) && s.pc[u] == Asleep
    ensures IsRun(s, es) && Going(Run(s, es), u) && Run(s, es).pc[u] == Woken
  {
    if s.sh.waiters.Some? {
      es := WakeWithHeldLock(s, s.sh.waiters.value, u);
    } else {
      es := WakeWithFreeLock(s, u);
    }
    AidedKeepsFlag(s, es, u, 1);
    RunPollsForSomething(s, es);
    StaysCompletedInRun(s, es, u);
  }

  lemma {:induction false} GoesHome(s: State, u: Tid) returns (es: seq<(Tid, Choice)>)
    requires Going(s, u)
    ensures IsRun(s, es) && Going(Run(s, es), u) && Run(s, es).pc[u] == Idle
    decreases ToHome(s.pc[u]), InTheWay(s, u)
  {
    var rest: seq<(Tid, Choice)>;
    if s.pc[u] == Idle {
      es := [];
    } else if s.pc[u] == Asleep {
      es := WokenUp(s, u);
      rest := GoesHome(Run(s, es), u);
      RunAppend(s, es, rest);
      es := es + rest;
    } else if s.sh.waiters.Some? && s.sh.waiters.value != u {
      var w := s.sh.waiters.value;
      OthersGiveWay(s, u);
      GoingStep(s, w, u);
      rest := GoesHome(Step(s, w, Go), u);
      RunCons(s, w, Go, rest);
      es := [(w, Go)] + rest;
    } else {
      assert LocalOk(s.pc[u], s.sh, u);
      HomeStep(s.pc[u], s.sh, u);
      GoingStep(s, u, u);
      rest := GoesHome(Step(s, u, Go), u);
      RunCons(s, u, Go, rest);
      es := [(u, Go)] + rest;
    }
  }

  /** From every reachable state, a thread whose transfer is complete can leave its waiting loop: some run
      brings it out, and then the loop does not begin again, for the flag is still set. */
  lemma LeavesTheLoop(s: State, run: seq<(Tid, Choice)>, u: Tid) returns (es: seq<(Tid, Choice)>)
    requires Init(s) && IsRun(s, run)
    requires u in Run(s, run).pc && u in Run(s, run).sh.completed && Waits(Run(s, run).pc[u])
    ensures IsRun(Run(s, run), es)
    ensures var r := Run(Run(s, run), es);
            u in r.pc && r.pc[u] == Idle && u in r.sh.completed && !Enabled(r, u, BeginWait)
  {
    InitInv(s);
    assert PollsForSomething(s);
    RunPollsForSomething(s, run);
    es := GoesHome(Run(s, run), u);
  }

  // ---------------------------------------------------------------- opening and closing a device

  predicate Modifies(p: PC) {
    InModifier(p) || p.Acquire? || (InLock(p) && p.f != Handler)
  }

  /** How far it is to the end of usbi_fd_notification or libusb_close. */
  function ToEnd(p: PC): nat {
    match p
    case Inc(f) => if f == Notify then 11 else 18
    case Write(f) => if f == Notify then 10 else 17
    case Acquire(f) => if f == Notify then 9 else if f == CloseOuter then 16 else 13
    case SetActive(f) => if f == Notify then 8 else if f == CloseOuter then 15 else 12
    case Read(f) => if f == Notify then 7 else 14
    case Dec(_) => 6
    case Clear(f) => if f == CloseInner then 11 else 5
    case Release(f) => if f == CloseInner then 10 else 4
    case BLock(f) => if f == CloseInner then 9 else 3
    case Cast(f) => if f == CloseInner then 8 else 2
    case BUnlock(f) => if f == CloseInner then 7 else 1
    case _ => 0
  }

  ghost predicate ComesToEnd(p: PC, t: Tid, m: Move) {
    m.Move? && (Modifies(m.next) || m.next == Idle) && ToEnd(m.next) + 1 == ToEnd(p) && Alone(m.sh, t)
  }

  lemma EndInLock(p: PC, sh: Shared, t: Tid)
    requires InLock(p) && Modifies(p) && LocalOk(p, sh, t) && Alone(sh, t)
    ensures ComesToEnd(p, t, LockMove(p, sh, t))
  {
  }

  lemma EndInModifier(p: PC, sh: Shared, t: Tid)
    requires InModifier(p) && LocalOk(p, sh, t) && Alone(sh, t) && (HasByte(p) ==> sh.pipe > 0)
    ensures ComesToEnd(p, t, ModifierMove(p, sh))
  {
  }

  lemma EndStep(p: PC, sh: Shared, t: Tid)
    requires Modifies(p) && LocalOk(p, sh, t) && Alone(sh, t) && (HasByte(p) ==> sh.pipe > 0)
    ensures ComesToEnd(p, t, Next(p, sh, t, Go))
  {
    if InLock(p) {
      EndInLock(p, sh, t);
    } else {
      EndInModifier(p, sh, t);
    }
  }

  lemma {:induction false} GetsDone(s: State, t: Tid)
    requires Inv(s) && t in s.pc && Alone(s.sh, t) && (Modifies(s.pc[t]) || s.pc[t] == Idle)
    ensures IsRun(s, Own(t, ToEnd(s.pc[t]))) && t in Run(s, Own(t, ToEnd(s.pc[t]))).pc
    ensures Run(s, Own(t, ToEnd(s.pc[t]))).pc[t] == Idle
    decreases ToEnd(s.pc[t])
  {
    if s.pc[t] != Idle {
      assert LocalOk(s.pc[t], s.sh, t);
      if HasByte(s.pc[t]) { PipeHolds(s, t); }
      EndStep(s.pc[t], s.sh, t);
      StepInv(s, t, Go);
      GetsDone(Step(s, t, Go), t);
      RunCons(s, t, Go, Own(t, ToEnd(s.pc[t]) - 1));
    }
  }

  /** From every reachable state in which nobody else holds either lock, a thread that opens a device is done
      within 11 steps of its own, and one that closes a device within 18. */
  lemma ModifierGetsDone(s: State, run: seq<(Tid, Choice)>, t: Tid)
    requires Init(s) && IsRun(s, run)
    requires t in Run(s, run).pc && Modifies(Run(s, run).pc[t]) && Alone(Run(s, run).sh, t)
    ensures ToEnd(Run(s, run).pc[t]) <= 18
    ensures var r, n := Run(s, run), ToEnd(Run(s, run).pc[t]);
            IsRun(r, Own(t, n)) && t in Run(r, Own(t, n)).pc && Run(r, Own(t, n)).pc[t] == Idle
  {
    InitInv(s);
    RunInv(s, run);
    GetsDone(Run(s, run), t);
  }
}
