/**
 The multi-threaded event handling protocol of io.c, core.c and sync.c, as a state machine over
 any number of threads. Each thread runs, over and over, one of three programs: wait for its own
 transfer (`while (!completed) libusb_handle_events_completed(...)`), open a device
 (usbi_fd_notification), or close one (libusb_close). One step is one access to shared state.
 */
module EventProtocol {
  import opened Wrappers

  type Tid = nat

  /** Which call of libusb_lock_events / libusb_unlock_events a thread is in: the event handler's,
      usbi_fd_notification's, libusb_close's own, or the one do_close nests inside it. */
  datatype Frame = Handler | Notify | CloseOuter | CloseInner

  /** Where a thread stands: the name says what it does next. */
  datatype PC =
    | Idle
    // libusb_handle_events_timeout_completed, handling events
    | TryModify | TryLock | CheckDone | Poll | Handling
    | CbLock | CbCast | CbUnlock                  // the broadcast after a transfer's callback
    // libusb_lock_events and libusb_unlock_events
    | Acquire(f: Frame) | SetActive(f: Frame)
    | Clear(f: Frame) | Release(f: Frame) | BLock(f: Frame) | Cast(f: Frame) | BUnlock(f: Frame)
    // usbi_fd_notification and libusb_close
    | Inc(f: Frame) | Write(f: Frame) | Read(f: Frame) | Dec(f: Frame)
    // libusb_handle_events_timeout_completed, waiting for another thread
    | WLock | WCheck | WReadModify | WReadActive | WSleep | Asleep | Woken | WUnlock(retry: bool)

  /** What the environment decides. `Go` is the thread's own next step. */
  datatype Choice =
    | Go | BeginWait | BeginOpen | BeginClose | NewTransfer
    | Complete(who: Tid)     // a URB of `who`'s transfer is reaped and its callback runs
    | TimeOut                // poll or the timed wait runs out

  /** The state all threads share. */
  datatype Shared = Shared(
    modifying: int,          // pollfd_modify
    pipe: nat,               // bytes in the control pipe
    owner: Option<Tid>,      // events_lock, recursive
    depth: nat,
    active: bool,            // event_handler_active
    waiters: Option<Tid>,    // event_waiters_lock
    completed: set<Tid>)     // each waiting thread's own `completed` flag

  datatype State = State(pc: map<Tid, PC>, sh: Shared)

  ghost predicate Init(s: State) {
    && (forall t :: t in s.pc ==> s.pc[t] == Idle)
    && s.sh == Shared(0, 0, None, 0, false, None, s.sh.completed)
  }

  // ---------------------------------------------------------------- steps

  /** One step of one thread: it cannot go on, or it goes to `next`, leaves the shared state as
      `sh`, and may broadcast on event_waiters_cond. */
  datatype Move = Blocked | Move(next: PC, sh: Shared, casts: bool)

  function Quiet(next: PC, sh: Shared): Move {
    Move(next, sh, false)
  }

  function LockWaiters(sh: Shared, t: Tid, next: PC): Move {
    if sh.waiters == None then Quiet(next, sh.(waiters := Some(t))) else Blocked
  }

  function UnlockWaiters(sh: Shared, next: PC): Move {
    Quiet(next, sh.(waiters := None))
  }

  function LockEvents(sh: Shared, t: Tid, next: PC): Move {
    if sh.owner == None then Quiet(next, sh.(owner := Some(t), depth := 1))
    else if sh.owner == Some(t) then Quiet(next, sh.(depth := sh.depth + 1))
    else Blocked
  }

  function UnlockEvents(sh: Shared, next: PC): Move {
    Quiet(next, if sh.depth <= 1 then sh.(owner := None, depth := 0) else sh.(depth := sh.depth - 1))
  }

  /** The event handler: try the lock, poll, run callbacks. */
  function HandlerMove(p: PC, sh: Shared, t: Tid, c: Choice): Move {
    match p
    case TryModify => Quiet(if sh.modifying != 0 then WLock else TryLock, sh)
    case TryLock =>
      if sh.owner != None && sh.owner != Some(t) then Quiet(WLock, sh) else LockEvents(sh, t, SetActive(Handler))
    case CheckDone => Quiet(if t in sh.completed then Clear(Handler) else Poll, sh)
    case Poll =>
      if c == TimeOut || (c == Go && sh.pipe > 0) then Quiet(Clear(Handler), sh)
      else if c.Complete? then Quiet(CbLock, sh.(completed := sh.completed + {c.who}))
      else Blocked
    case Handling =>
      if c == Go then Quiet(Clear(Handler), sh)
      else if c.Complete? then Quiet(CbLock, sh.(completed := sh.completed + {c.who}))
      else Blocked
    case CbLock => LockWaiters(sh, t, CbCast)
    case CbCast => Move(CbUnlock, sh, true)
    case CbUnlock => UnlockWaiters(sh, Handling)
    case _ => Blocked
  }

  /** libusb_lock_events and libusb_unlock_events */
  function LockMove(p: PC, sh: Shared, t: Tid): Move {
    match p
    case Acquire(f) => LockEvents(sh, t, SetActive(f))
    case SetActive(f) =>
      Quiet(match f case Handler => CheckDone case CloseInner => Clear(CloseInner) case _ => Read(f),
            sh.(active := true))
    case Clear(f) => Quiet(Release(f), sh.(active := false))
    case Release(f) => UnlockEvents(sh, BLock(f))
    case BLock(f) => LockWaiters(sh, t, Cast(f))
    case Cast(f) => Move(BUnlock(f), sh, true)
    case BUnlock(f) => UnlockWaiters(sh, if f == CloseInner then Dec(CloseOuter) else Idle)
    case _ => Blocked
  }

  /** usbi_fd_notification and libusb_close around the lock; the read blocks on an empty pipe */
  function ModifierMove(p: PC, sh: Shared): Move {
    match p
    case Inc(f) => Quiet(Write(f), sh.(modifying := sh.modifying + 1))
    case Write(f) => Quiet(Acquire(f), sh.(pipe := sh.pipe + 1))
    case Read(f) =>
      if sh.pipe == 0 then Blocked
      else Quiet(if f == CloseOuter then Acquire(CloseInner) else Dec(f), sh.(pipe := sh.pipe - 1))
    case Dec(f) => Quiet(Clear(f), sh.(modifying := sh.modifying - 1))
    case _ => Blocked
  }

  /** Waiting for another thread to handle events. */
  function WaiterMove(p: PC, sh: Shared, t: Tid, c: Choice): Move {
    match p
    case WLock => LockWaiters(sh, t, WCheck)
    case WCheck => Quiet(if t in sh.completed then WUnlock(false) else WReadModify, sh)
    case WReadModify => Quiet(if sh.modifying != 0 then WSleep else WReadActive, sh)
    case WReadActive => Quiet(if sh.active then WSleep else WUnlock(true), sh)
    case WSleep => UnlockWaiters(sh, Asleep)
    case Asleep => if c == TimeOut then Quiet(Woken, sh) else Blocked
    case Woken => LockWaiters(sh, t, WUnlock(false))
    case WUnlock(retry) => UnlockWaiters(sh, if retry then TryModify else Idle)
    case _ => Blocked
  }

  function IdleMove(sh: Shared, t: Tid, c: Choice): Move {
    match c
    case BeginWait => if t in sh.completed then Blocked else Quiet(TryModify, sh)
    case BeginOpen => Quiet(Inc(Notify), sh)
    case BeginClose => Quiet(Inc(CloseOuter), sh)
    case NewTransfer => Quiet(Idle, sh.(completed := sh.completed - {t}))
    case _ => Blocked
  }

  /** Places in the programs above. */
  predicate InHandler(p: PC) {
    p.TryModify? || p.TryLock? || p.CheckDone? || p.Poll? || p.Handling? || p.CbLock? || p.CbCast? || p.CbUnlock?
  }

  predicate InLock(p: PC) {
    p.Acquire? || p.SetActive? || p.Clear? || p.Release? || p.BLock? || p.Cast? || p.BUnlock?
  }

  predicate InModifier(p: PC) { p.Inc? || p.Write? || p.Read? || p.Dec? }

  function Next(p: PC, sh: Shared, t: Tid, c: Choice): Move {
    if p == Idle then IdleMove(sh, t, c)
    else if InHandler(p) then HandlerMove(p, sh, t, c)
    else if InLock(p) then LockMove(p, sh, t)
    else if InModifier(p) then ModifierMove(p, sh)
    else WaiterMove(p, sh, t, c)
  }

  function Wake(pc: map<Tid, PC>): map<Tid, PC> {
    map u | u in pc :: if pc[u] == Asleep then Woken else pc[u]
  }

  predicate Enabled(s: State, t: Tid, c: Choice) {
    t in s.pc && Next(s.pc[t], s.sh, t, c).Move?
  }

  function Step(s: State, t: Tid, c: Choice): State
    requires Enabled(s, t, c)
  {
    var m := Next(s.pc[t], s.sh, t, c);
    State((if m.casts then Wake(s.pc) else s.pc)[t := m.next], m.sh)
  }

  // ---------------------------------------------------------------- what each place means

  /** Between `pollfd_modify++` and `pollfd_modify--`. */
  predicate InRegion(p: PC) {
    || p.Write? || p.Acquire? || p.Read? || p.Dec?
    || (p.SetActive? && p.f != Handler)
    || ((p.Clear? || p.Release? || p.BLock? || p.Cast? || p.BUnlock?) && p.f == CloseInner)
  }

  /** Has written its byte to the control pipe and not read it back. */
  predicate HasByte(p: PC) {
    || ((p.Acquire? || p.SetActive?) && (p.f == Notify || p.f == CloseOuter))
    || p.Read?
  }

  /** Holds events_lock. */
  predicate Owns(p: PC) {
    || p.SetActive? || p.CheckDone? || p.Poll? || p.Handling? || p.CbLock? || p.CbCast? || p.CbUnlock?
    || p.Read? || p.Dec? || p.Clear? || p.Release?
    || ((p.Acquire? || p.BLock? || p.Cast? || p.BUnlock?) && p.f == CloseInner)
  }

  /** Holds events_lock twice. */
  predicate Nested(p: PC) {
    (p.SetActive? || p.Clear? || p.Release?) && p.f == CloseInner
  }

  /** Holds events_lock with event_handler_active set. */
  predicate Handles(p: PC) {
    || p.CheckDone? || p.Poll? || p.Handling? || p.CbLock? || p.CbCast? || p.CbUnlock? || p.Read?
    || ((p.Acquire? || p.SetActive?) && p.f == CloseInner)
    || (p.Clear? && p.f != CloseOuter) || (p.Dec? && p.f != CloseOuter)
  }

  /** Holds event_waiters_lock. */
  predicate HoldsWaiters(p: PC) {
    || p.CbCast? || p.CbUnlock? || p.Cast? || p.BUnlock?
    || p.WCheck? || p.WReadModify? || p.WReadActive? || p.WSleep? || p.WUnlock?
  }

  /** Will broadcast before it can go idle or to sleep. */
  predicate Owes(p: PC) {
    Owns(p) || InRegion(p) || p.BLock? || p.Cast?
  }

  /** Has run a callback whose broadcast is still to come. */
  predicate CallbackPending(p: PC) {
    p.CbLock? || p.CbCast?
  }

  /** Has found its transfer incomplete, and sleeps or is about to. */
  predicate Committed(p: PC) {
    p.WReadModify? || p.WReadActive? || p.WSleep? || p.Asleep?
  }

  /** Frames only occur where their program puts them. */
  predicate Proper(p: PC) {
    && (p.Acquire? ==> p.f != Handler)
    && (p.Inc? || p.Write? || p.Read? || p.Dec? ==> p.f == Notify || p.f == CloseOuter)
  }

  // ---------------------------------------------------------------- what one step does

  function One(b: bool): int {
    if b then 1 else 0
  }

  /** What thread `t`, at `p`, says about the shared state. */
  ghost predicate LocalOk(p: PC, sh: Shared, t: Tid) {
    && Proper(p)
    && (Owns(p) <==> sh.owner == Some(t))
    && (HoldsWaiters(p) <==> sh.waiters == Some(t))
    && (sh.owner == None ==> sh.depth == 0 && !sh.active)
    && (sh.owner == Some(t) ==> sh.depth == 1 + One(Nested(p)) && (sh.active <==> Handles(p)))
  }

  /** The owner of a lock after `t` moved, when `had` and `has` say whether `t` held and holds it. */
  ghost predicate Handover(before: Option<Tid>, after: Option<Tid>, t: Tid, had: bool, has: bool) {
    after == (if has then Some(t) else if had then None else before) && (has && !had ==> before == None)
  }

  /** Everything a move of `t` from `p` does, said by where it was and where it is now. */
  ghost predicate Effect(p: PC, sh: Shared, t: Tid, m: Move) {
    m.Move? &&
    var p', sh' := m.next, m.sh;
    && Proper(p')
    && Handover(sh.owner, sh'.owner, t, Owns(p), Owns(p'))
    && Handover(sh.waiters, sh'.waiters, t, HoldsWaiters(p), HoldsWaiters(p'))
    && sh'.depth == (if Owns(p') then 1 + One(Nested(p')) else if Owns(p) then 0 else sh.depth)
    && (sh'.active <==> if Owns(p') then Handles(p') else !Owns(p) && sh.active)
    && sh'.modifying == sh.modifying + One(InRegion(p')) - One(InRegion(p))
    && sh'.pipe == sh.pipe + One(HasByte(p')) - One(HasByte(p))
    && (m.casts ==> HoldsWaiters(p) && HoldsWaiters(p') && !Committed(p'))
    && (Owes(p) ==> Owes(p') || m.casts)
    && (CallbackPending(p) ==> CallbackPending(p') || m.casts)
    && (p' == WSleep ==> sh.modifying != 0 || sh.active)
    && (p' == Asleep ==> p == WSleep)
    && (sh'.completed <= sh.completed || CallbackPending(p'))
    && (Committed(p') ==> t !in sh'.completed || (Committed(p) && t in sh.completed))
  }

  lemma EnterEffect(p: PC, sh: Shared, t: Tid, c: Choice)
    requires p.TryModify? || p.TryLock? || p.CheckDone?
    requires LocalOk(p, sh, t) && HandlerMove(p, sh, t, c).Move?
    ensures Effect(p, sh, t, HandlerMove(p, sh, t, c))
  {
  }

  lemma PollEffect(p: PC, sh: Shared, t: Tid, c: Choice)
    requires p.Poll? || p.Handling?
    requires LocalOk(p, sh, t) && HandlerMove(p, sh, t, c).Move?
    ensures Effect(p, sh, t, HandlerMove(p, sh, t, c))
  {
  }

  lemma CallbackEffect(p: PC, sh: Shared, t: Tid, c: Choice)
    requires p.CbLock? || p.CbCast? || p.CbUnlock?
    requires LocalOk(p, sh, t) && HandlerMove(p, sh, t, c).Move?
    ensures Effect(p, sh, t, HandlerMove(p, sh, t, c))
  {
  }

  lemma LockEffect(p: PC, sh: Shared, t: Tid)
    requires LocalOk(p, sh, t) && LockMove(p, sh, t).Move?
    ensures Effect(p, sh, t, LockMove(p, sh, t))
  {
  }

  lemma ModifierEffect(p: PC, sh: Shared, t: Tid)
    requires LocalOk(p, sh, t) && ModifierMove(p, sh).Move?
    ensures Effect(p, sh, t, ModifierMove(p, sh))
  {
  }

  lemma WaiterEffect(p: PC, sh: Shared, t: Tid, c: Choice)
    requires LocalOk(p, sh, t) && WaiterMove(p, sh, t, c).Move?
    ensures Effect(p, sh, t, WaiterMove(p, sh, t, c))
  {
  }

  lemma HandlerEffect(p: PC, sh: Shared, t: Tid, c: Choice)
    requires InHandler(p) && LocalOk(p, sh, t) && HandlerMove(p, sh, t, c).Move?
    ensures Effect(p, sh, t, HandlerMove(p, sh, t, c))
  {
    if p.TryModify? || p.TryLock? || p.CheckDone? {
      EnterEffect(p, sh, t, c);
    } else if p.Poll? || p.Handling? {
      PollEffect(p, sh, t, c);
    } else {
      CallbackEffect(p, sh, t, c);
    }
  }

  lemma IdleEffect(sh: Shared, t: Tid, c: Choice)
    requires LocalOk(Idle, sh, t) && IdleMove(sh, t, c).Move?
    ensures Effect(Idle, sh, t, IdleMove(sh, t, c))
  {
  }

  lemma NextEffect(p: PC, sh: Shared, t: Tid, c: Choice)
    requires LocalOk(p, sh, t) && Next(p, sh, t, c).Move?
    ensures Effect(p, sh, t, Next(p, sh, t, c))
  {
    if p == Idle {
      IdleEffect(sh, t, c);
    } else if InHandler(p) {
      HandlerEffect(p, sh, t, c);
    } else if InLock(p) {
      LockEffect(p, sh, t);
    } else if InModifier(p) {
      ModifierEffect(p, sh, t);
    } else {
      WaiterEffect(p, sh, t, c);
    }
  }

  // ---------------------------------------------------------------- the invariant

  /** The threads at a place with property `at`. */
  ghost function Those(pc: map<Tid, PC>, at: PC -> bool): set<Tid> {
    set u | u in pc && at(pc[u])
  }

  /** Each lock has the owner that the threads' places say, event_handler_active is set exactly
      while a thread handles events under events_lock, and every owner is a thread. */
  ghost predicate LocksOk(s: State) {
    && (forall u :: u in s.pc ==> LocalOk(s.pc[u], s.sh, u))
    && (s.sh.owner.Some? ==> s.sh.owner.value in s.pc)
    && (s.sh.waiters.Some? ==> s.sh.waiters.value in s.pc)
  }

  /** The two counters count what they are meant to count. */
  ghost predicate CountsOk(s: State) {
    && s.sh.modifying == |Those(s.pc, InRegion)|
    && s.sh.pipe == |Those(s.pc, HasByte)|
  }

  /** Whoever sleeps, or is about to, can count on a broadcast. */
  ghost predicate SleepersOk(s: State) {
    forall u :: u in s.pc && (s.pc[u] == Asleep || s.pc[u] == WSleep) ==> SomeThread(s.pc, Owes)
  }

  /** Whoever sleeps although its transfer is complete has that callback's broadcast to come. */
  ghost predicate CompletedOk(s: State) {
    forall u :: u in s.pc && Committed(s.pc[u]) && u in s.sh.completed ==> SomeThread(s.pc, CallbackPending)
  }

  ghost predicate SomeThread(pc: map<Tid, PC>, at: PC -> bool) {
    exists v :: v in pc && at(pc[v])
  }

  ghost predicate Inv(s: State) {
    LocksOk(s) && CountsOk(s) && SleepersOk(s) && CompletedOk(s)
  }

  lemma InitInv(s: State)
    requires Init(s)
    ensures Inv(s)
  {
    assert Those(s.pc, InRegion) == {} && Those(s.pc, HasByte) == {};
  }

  // ---------------------------------------------------------------- every step keeps it

  lemma ThoseAt(pc: map<Tid, PC>, t: Tid, p: PC, at: PC -> bool)
    requires t in pc
    ensures |Those(pc[t := p], at)| == |Those(pc, at)| + One(at(p)) - One(at(pc[t]))
  {
    var others := Those(pc, at) - {t};
    assert Those(pc, at) == if at(pc[t]) then others + {t} else others;
    assert Those(pc[t := p], at) == if at(p) then others + {t} else others;
  }

  /** Waking the sleepers changes nothing that a sleeping and a woken thread have in common. */
  lemma ThoseAfter(s: State, t: Tid, c: Choice, at: PC -> bool)
    requires Enabled(s, t, c) && at(Asleep) == at(Woken) && s.pc[t] != Asleep
    ensures |Those(Step(s, t, c).pc, at)| == |Those(s.pc, at)| + One(at(Step(s, t, c).pc[t])) - One(at(s.pc[t]))
  {
    var m := Next(s.pc[t], s.sh, t, c);
    assert Those(Wake(s.pc), at) == Those(s.pc, at);
    ThoseAt(if m.casts then Wake(s.pc) else s.pc, t, m.next, at);
  }

  lemma OthersAfter(s: State, t: Tid, c: Choice, u: Tid)
    requires Enabled(s, t, c) && u in s.pc && u != t
    ensures var m := Next(s.pc[t], s.sh, t, c);
            u in Step(s, t, c).pc &&
            Step(s, t, c).pc[u] == if m.casts && s.pc[u] == Asleep then Woken else s.pc[u]
  {
  }

  lemma StepLocks(s: State, t: Tid, c: Choice)
    requires LocksOk(s) && Enabled(s, t, c)
    ensures LocksOk(Step(s, t, c))
  {
    var s' := Step(s, t, c);
    NextEffect(s.pc[t], s.sh, t, c);
    forall u | u in s'.pc ensures LocalOk(s'.pc[u], s'.sh, u) {
      if u != t {
        OthersAfter(s, t, c, u);
        assert LocalOk(s.pc[u], s.sh, u) && LocalOk(s.pc[t], s.sh, t);
      }
    }
  }

  lemma StepCounts(s: State, t: Tid, c: Choice)
    requires LocksOk(s) && CountsOk(s) && Enabled(s, t, c)
    ensures CountsOk(Step(s, t, c))
  {
    NextEffect(s.pc[t], s.sh, t, c);
    if s.pc[t] == Asleep {
      ThoseAt(s.pc, t, Woken, InRegion);
      ThoseAt(s.pc, t, Woken, HasByte);
    } else {
      ThoseAfter(s, t, c, InRegion);
      ThoseAfter(s, t, c, HasByte);
    }
  }

  /** A thread that `u` counts on is still there after `t` moved, unless `t` woke everybody. */
  lemma StillThere(s: State, t: Tid, c: Choice, at: PC -> bool)
    requires Enabled(s, t, c) && SomeThread(s.pc, at) && !at(Asleep)
    requires var m := Next(s.pc[t], s.sh, t, c); !m.casts && (at(s.pc[t]) ==> at(m.next))
    ensures SomeThread(Step(s, t, c).pc, at)
  {
    var v :| v in s.pc && at(s.pc[v]);
    assert at(Step(s, t, c).pc[v]);
  }

  /** Right after a broadcast nobody sleeps or is about to. */
  lemma NobodySleeps(s: State, t: Tid, c: Choice, u: Tid)
    requires LocksOk(s) && Enabled(s, t, c) && Next(s.pc[t], s.sh, t, c).casts
    requires u in Step(s, t, c).pc
    ensures !Committed(Step(s, t, c).pc[u])
  {
    NextEffect(s.pc[t], s.sh, t, c);
    NobodyCommitted(s, t, Next(s.pc[t], s.sh, t, c), u);
  }

  /** The thread that broadcasts holds event_waiters_lock, so no other is between taking it and
      going to sleep. */
  lemma NobodyCommitted(s: State, t: Tid, m: Move, u: Tid)
    requires LocksOk(s) && t in s.pc && u in s.pc
    requires Effect(s.pc[t], s.sh, t, m) && m.casts
    ensures !Committed(Wake(s.pc)[t := m.next][u])
  {
    assert LocalOk(s.pc[t], s.sh, t) && LocalOk(s.pc[u], s.sh, u);
  }

  lemma StepSleepers(s: State, t: Tid, c: Choice)
    requires Inv(s) && Enabled(s, t, c)
    ensures SleepersOk(Step(s, t, c))
  {
    var s' := Step(s, t, c);
    forall u | u in s'.pc && (s'.pc[u] == Asleep || s'.pc[u] == WSleep) ensures SomeThread(s'.pc, Owes) {
      StepSleeper(s, t, c, u);
    }
  }

  lemma StepSleeper(s: State, t: Tid, c: Choice, u: Tid)
    requires Inv(s) && Enabled(s, t, c) && u in Step(s, t, c).pc
    requires Step(s, t, c).pc[u] == Asleep || Step(s, t, c).pc[u] == WSleep
    ensures SomeThread(Step(s, t, c).pc, Owes)
  {
    if Next(s.pc[t], s.sh, t, c).casts {
      NobodySleeps(s, t, c, u);
    } else {
      SleeperKeepsOne(s, t, c, u);
    }
  }

  lemma SleeperKeepsOne(s: State, t: Tid, c: Choice, u: Tid)
    requires Inv(s) && Enabled(s, t, c) && !Next(s.pc[t], s.sh, t, c).casts && u in Step(s, t, c).pc
    requires Step(s, t, c).pc[u] == Asleep || Step(s, t, c).pc[u] == WSleep
    ensures SomeThread(Step(s, t, c).pc, Owes)
  {
    SleeperCounted(s, t, c, u);
    NextEffect(s.pc[t], s.sh, t, c);
    StillThere(s, t, c, Owes);
  }

  lemma SleeperCounted(s: State, t: Tid, c: Choice, u: Tid)
    requires Inv(s) && Enabled(s, t, c) && !Next(s.pc[t], s.sh, t, c).casts && u in Step(s, t, c).pc
    requires Step(s, t, c).pc[u] == Asleep || Step(s, t, c).pc[u] == WSleep
    ensures SomeThread(s.pc, Owes)
  {
    if u != t {
      OthersAfter(s, t, c, u);
    } else {
      NextEffect(s.pc[t], s.sh, t, c);
      if s.pc[t] != WSleep {
        SomebodyOwes(s);
      }
    }
  }

  /** If a thread finds the event handler active, it can count on a broadcast. */
  lemma SomebodyOwes(s: State)
    requires LocksOk(s) && CountsOk(s) && (s.sh.modifying != 0 || s.sh.active)
    requires |s.pc| > 0
    ensures SomeThread(s.pc, Owes)
  {
    if s.sh.modifying != 0 {
      var v :| v in Those(s.pc, InRegion);
      assert Owes(s.pc[v]);
    } else {
      var t :| t in s.pc;
      assert LocalOk(s.pc[t], s.sh, t);
      var v := s.sh.owner.value;
      assert LocalOk(s.pc[v], s.sh, v) && Owes(s.pc[v]);
    }
  }

  lemma StepCompleted(s: State, t: Tid, c: Choice)
    requires LocksOk(s) && CompletedOk(s) && Enabled(s, t, c)
    ensures CompletedOk(Step(s, t, c))
  {
    var s' := Step(s, t, c);
    NextEffect(s.pc[t], s.sh, t, c);
    forall u | u in s'.pc && Committed(s'.pc[u]) && u in s'.sh.completed ensures SomeThread(s'.pc, CallbackPending) {
      if Next(s.pc[t], s.sh, t, c).casts {
        NobodySleeps(s, t, c, u);
      } else if CallbackPending(s'.pc[t]) {
      } else {
        StillThere(s, t, c, CallbackPending);
      }
    }
  }

  lemma StepInv(s: State, t: Tid, c: Choice)
    requires Inv(s) && Enabled(s, t, c)
    ensures Inv(Step(s, t, c))
  {
    StepLocks(s, t, c);
    StepCounts(s, t, c);
    StepSleepers(s, t, c);
    StepCompleted(s, t, c);
  }

  // ---------------------------------------------------------------- whole runs

  ghost predicate IsRun(s: State, es: seq<(Tid, Choice)>)
    decreases |es|
  {
    es == [] || (Enabled(s, es[0].0, es[0].1) && IsRun(Step(s, es[0].0, es[0].1), es[1..]))
  }

  ghost function Run(s: State, es: seq<(Tid, Choice)>): State
    requires IsRun(s, es)
    decreases |es|
  {
    if es == [] then s else Run(Step(s, es[0].0, es[0].1), es[1..])
  }

  lemma {:induction false} RunInv(s: State, es: seq<(Tid, Choice)>)
    requires Inv(s) && IsRun(s, es)
    ensures Inv(Run(s, es))
    decreases |es|
  {
    if es != [] {
      StepInv(s, es[0].0, es[0].1);
      RunInv(Step(s, es[0].0, es[0].1), es[1..]);
    }
  }

  /** No lost wakeup: in every reachable state, a thread that sleeps on event_waiters_cond has
      another thread that is going to broadcast; and if its transfer has completed meanwhile,
      the thread that ran the callback has not broadcast yet. */
  lemma NoLostWakeup(s: State, es: seq<(Tid, Choice)>, u: Tid)
    requires Init(s) && IsRun(s, es)
    requires u in Run(s, es).pc && Run(s, es).pc[u] == Asleep
    ensures SomeThread(Run(s, es).pc, Owes)
    ensures u in Run(s, es).sh.completed ==> SomeThread(Run(s, es).pc, CallbackPending)
  {
    InitInv(s);
    RunInv(s, es);
  }

  /** In every reachable state the counters are exact, at most one thread owns each lock, and
      the active flag means that its owner handles events (not merely that the lock is held). */
  lemma ReachableShape(s: State, es: seq<(Tid, Choice)>)
    requires Init(s) && IsRun(s, es)
    ensures var r := Run(s, es);
            && r.sh.modifying == |Those(r.pc, InRegion)| && r.sh.pipe == |Those(r.pc, HasByte)|
            && (forall u, v :: u in r.pc && v in r.pc && Owns(r.pc[u]) && Owns(r.pc[v]) ==> u == v)
            && (forall u, v :: u in r.pc && v in r.pc && HoldsWaiters(r.pc[u]) && HoldsWaiters(r.pc[v]) ==> u == v)
            && (r.pc.Keys != {} ==> (r.sh.active <==> SomeThread(r.pc, Handles)))
  {
    InitInv(s);
    RunInv(s, es);
    var r := Run(s, es);
    assert forall u :: u in r.pc ==> LocalOk(r.pc[u], r.sh, u);
    if r.sh.active && r.pc.Keys != {} {
      var t :| t in r.pc.Keys;
      assert LocalOk(r.pc[t], r.sh, t);
      var v := r.sh.owner.value;
      assert LocalOk(r.pc[v], r.sh, v) && Handles(r.pc[v]);
    }
  }

  // ---------------------------------------------------------------- who can go on

  /** The pipe holds a byte for everybody who wrote one and has not read it. */
  lemma PipeHolds(s: State, t: Tid)
    requires CountsOk(s) && t in s.pc && HasByte(s.pc[t])
    ensures s.sh.pipe > 0
  {
    assert t in Those(s.pc, HasByte);
  }

  /** The read that takes the byte back never blocks, and a thread that opens or closes a device
      never waits for an event handler that is blocked in poll. */
  lemma ModifierIsNotStuckBehindPoll(s: State, es: seq<(Tid, Choice)>, t: Tid)
    requires Init(s) && IsRun(s, es) && t in Run(s, es).pc
    ensures var r := Run(s, es);
            && (r.pc[t].Read? ==> Enabled(r, t, Go))
            && (r.pc[t].Acquire? && r.sh.owner.Some? && r.sh.owner != Some(t) && r.pc[t].f != CloseInner
                ==> r.sh.owner.value in r.pc
                    && (r.pc[r.sh.owner.value] == Poll ==> Enabled(r, r.sh.owner.value, Go)))
  {
    InitInv(s);
    RunInv(s, es);
    NotStuck(Run(s, es), t);
  }

  lemma NotStuck(r: State, t: Tid)
    requires LocksOk(r) && CountsOk(r) && t in r.pc
    ensures r.pc[t].Read? ==> Enabled(r, t, Go)
    ensures r.pc[t].Acquire? && r.sh.owner.Some? && r.sh.owner != Some(t) && r.pc[t].f != CloseInner
            ==> r.sh.owner.value in r.pc
                && (r.pc[r.sh.owner.value] == Poll ==> Enabled(r, r.sh.owner.value, Go))
  {
    assert LocalOk(r.pc[t], r.sh, t);
    if HasByte(r.pc[t]) { PipeHolds(r, t); }
  }

  /** The owner of events_lock can always take its next step by itself, unless it polls an empty
      pipe or waits for event_waiters_lock. */
  lemma OwnerGoesOn(s: State, v: Tid)
    requires LocksOk(s) && CountsOk(s) && v in s.pc && Owns(s.pc[v])
    requires s.sh.waiters == None && !(s.pc[v] == Poll && s.sh.pipe == 0)
    ensures Enabled(s, v, Go)
  {
    assert LocalOk(s.pc[v], s.sh, v);
    if HasByte(s.pc[v]) { PipeHolds(s, v); }
  }
}
