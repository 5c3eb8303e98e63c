/**
 No thread sleeps for ever on the library's own account: from every reachable state, a few steps of
 one or two threads wake it. Only a handler that is blocked in poll, with nobody in the control pipe,
 needs the device for that, and then one completed transfer is enough.
 */
module EventLiveness {
  import opened Wrappers
  import opened EventProtocol

  // ---------------------------------------------------------------- distances

  /** Steps until a thread gives the waiters lock back. */
  function ToRelease(p: PC): nat {
    match p
    case WCheck => 3
    case WReadModify => 2
    case WReadActive => 1
    case _ => 0
  }

  /** Steps until a thread that owes a broadcast reaches it. */
  function ToCast(p: PC): nat {
    match p
    case Write(_) => 9
    case Acquire(f) => if f == CloseInner then 5 else if f == CloseOuter then 8 else 7
    case SetActive(f) => if f == CloseInner then 4 else if f == CloseOuter then 7 else 6
    case Read(f) => if f == CloseOuter then 6 else 5
    case Dec(_) => 4
    case CheckDone => 5
    case Poll => 4
    case Handling => 4
    case CbUnlock => 5
    case BUnlock(_) => 5
    case Clear(_) => 3
    case Release(_) => 2
    case BLock(_) => 1
    case CbLock => 1
    case _ => 0
  }

  /** Past the point where a transfer has completed. */
  predicate Helped(p: PC) { p.CbLock? || p.CbCast? }

  /** What the thread `t` does next on the way to its broadcast; `u` is the one that sleeps. */
  function ChoiceAt(p: PC, sh: Shared, u: Tid): Choice {
    if p == Poll && sh.pipe == 0 then Complete(u) else Go
  }

  /** A step on the way: it broadcasts, or it comes nearer. */
  ghost predicate Approaches(p: PC, sh: Shared, u: Tid, m: Move) {
    m.Move? && (m.casts || ToCast(m.next) < ToCast(p)) && (p == Poll && sh.pipe == 0 ==> Helped(m.next))
  }

  /** Nobody else holds either lock. */
  ghost predicate Alone(sh: Shared, t: Tid) {
    (sh.owner == None || sh.owner == Some(t)) && (sh.waiters == None || sh.waiters == Some(t))
  }

  lemma HandlerApproaches(p: PC, sh: Shared, t: Tid, u: Tid)
    requires InHandler(p) && Owes(p) && LocalOk(p, sh, t) && Alone(sh, t)
    ensures Approaches(p, sh, u, HandlerMove(p, sh, t, ChoiceAt(p, sh, u)))
    ensures Helped(p) ==> var m := HandlerMove(p, sh, t, Go); m.casts || Helped(m.next)
  {
  }

  lemma LockApproaches(p: PC, sh: Shared, t: Tid, u: Tid)
    requires InLock(p) && Owes(p) && LocalOk(p, sh, t) && Alone(sh, t)
    ensures Approaches(p, sh, u, LockMove(p, sh, t))
  {
  }

  lemma ModifierApproaches(p: PC, sh: Shared, t: Tid, u: Tid)
    requires InModifier(p) && Owes(p) && LocalOk(p, sh, t) && Alone(sh, t) && (HasByte(p) ==> sh.pipe > 0)
    ensures Approaches(p, sh, u, ModifierMove(p, sh))
  {
  }

  lemma OwesWhere(p: PC)
    requires Owes(p)
    ensures InHandler(p) || InLock(p) || InModifier(p)
  {
  }

  lemma NextApproaches(p: PC, sh: Shared, t: Tid, u: Tid)
    requires Owes(p) && LocalOk(p, sh, t) && Alone(sh, t) && (HasByte(p) ==> sh.pipe > 0)
    ensures Approaches(p, sh, u, Next(p, sh, t, ChoiceAt(p, sh, u)))
    ensures Helped(p) ==> var m := Next(p, sh, t, ChoiceAt(p, sh, u)); m.casts || Helped(m.next)
  {
    OwesWhere(p);
    if InHandler(p) {
      HandlerApproaches(p, sh, t, u);
    } else if InLock(p) {
      LockApproaches(p, sh, t, u);
    } else {
      ModifierApproaches(p, sh, t, u);
    }
  }

  /** The holder of the waiters lock broadcasts, gives it back, or comes nearer to that. */
  lemma HolderApproaches(p: PC, sh: Shared, t: Tid)
    requires HoldsWaiters(p) && LocalOk(p, sh, t)
    ensures var m := Next(p, sh, t, Go);
            && m.Move?
            && (m.casts || m.sh.waiters == None || (HoldsWaiters(m.next) && ToRelease(m.next) < ToRelease(p)))
  {
  }

  // ---------------------------------------------------------------- runs

  /** A run of the threads' own steps, but for at most `helps` completions of the transfer of `u`,
      each in a handler that is blocked in poll with nobody in the control pipe. */
  ghost predicate Aided(s: State, es: seq<(Tid, Choice)>, u: Tid, helps: nat)
    decreases |es|
  {
    es == [] ||
    (var t, c := es[0].0, es[0].1;
     && Enabled(s, t, c)
     && if c == Go then Aided(Step(s, t, c), es[1..], u, helps)
        else && helps > 0 && c == Complete(u) && s.pc[t] == Poll && s.sh.pipe == 0
             && Aided(Step(s, t, c), es[1..], u, helps - 1))
  }

  lemma {:induction false} AidedIsRun(s: State, es: seq<(Tid, Choice)>, u: Tid, helps: nat)
    requires Aided(s, es, u, helps)
    ensures IsRun(s, es)
    decreases |es|
  {
    if es != [] { AidedIsRun(Step(s, es[0].0, es[0].1), es[1..], u, if es[0].1 == Go then helps else helps - 1); }
  }

  /** The run `es` from `s` wakes `u`, in at most `n` steps. */
  ghost predicate Wakes(s: State, es: seq<(Tid, Choice)>, u: Tid, helps: nat, n: nat) {
    Aided(s, es, u, helps) && IsRun(s, es) && |es| <= n && u in Run(s, es).pc && Run(s, es).pc[u] == Woken
  }

  lemma WakesCons(s: State, t: Tid, c: Choice, rest: seq<(Tid, Choice)>, u: Tid, helps: nat, left: nat, n: nat)
    requires Enabled(s, t, c) && Wakes(Step(s, t, c), rest, u, left, n)
    requires if c == Go then left == helps
             else left + 1 == helps && c == Complete(u) && s.pc[t] == Poll && s.sh.pipe == 0
    ensures Wakes(s, [(t, c)] + rest, u, helps, n + 1)
  {
    var es := [(t, c)] + rest;
    assert es[0] == (t, c) && es[1..] == rest;
  }

  /** One step of `v` on its way to a broadcast. */
  lemma StepTowardsCast(s: State, v: Tid, u: Tid)
    requires Inv(s) && u in s.pc && s.pc[u] == Asleep && v in s.pc && Owes(s.pc[v]) && Alone(s.sh, v)
    ensures var c := ChoiceAt(s.pc[v], s.sh, u);
            && u != v && Enabled(s, v, c) && u in Step(s, v, c).pc && v in Step(s, v, c).pc
            && var m := Next(s.pc[v], s.sh, v, c);
               && (Helped(s.pc[v]) || c != Go ==> m.casts || Helped(m.next))
               && if m.casts then Step(s, v, c).pc[u] == Woken
                  else && Step(s, v, c).pc[u] == Asleep && Step(s, v, c).pc[v] == m.next && Owes(m.next)
                       && ToCast(m.next) < ToCast(s.pc[v]) && Alone(m.sh, v) && Step(s, v, c).sh == m.sh
  {
    assert LocalOk(s.pc[v], s.sh, v);
    if HasByte(s.pc[v]) { PipeHolds(s, v); }
    var c := ChoiceAt(s.pc[v], s.sh, u);
    NextApproaches(s.pc[v], s.sh, v, u);
    NextEffect(s.pc[v], s.sh, v, c);
    OthersAfter(s, v, c, u);
  }

  /** A thread that owes a broadcast, with nobody else at the locks, gets there. */
  lemma {:induction false} DriveToCast(s: State, v: Tid, u: Tid, helps: nat) returns (es: seq<(Tid, Choice)>)
    requires Inv(s) && u in s.pc && s.pc[u] == Asleep && v in s.pc && Owes(s.pc[v]) && Alone(s.sh, v)
    requires helps > 0 || Helped(s.pc[v])
    ensures Wakes(s, es, u, helps, 1 + ToCast(s.pc[v]))
    decreases ToCast(s.pc[v])
  {
    var c := ChoiceAt(s.pc[v], s.sh, u);
    StepTowardsCast(s, v, u);
    var left: nat := if c == Go then helps else helps - 1;
    var rest: seq<(Tid, Choice)> := [];
    var n: nat := 0;
    if !Next(s.pc[v], s.sh, v, c).casts {
      StepInv(s, v, c);
      rest := DriveToCast(Step(s, v, c), v, u, left);
      n := 1 + ToCast(Step(s, v, c).pc[v]);
    }
    es := [(v, c)] + rest;
    WakesCons(s, v, c, rest, u, helps, left, n);
  }

  lemma WakesSooner(s: State, es: seq<(Tid, Choice)>, u: Tid, helps: nat, n: nat, m: nat)
    requires Wakes(s, es, u, helps, n) && n <= m
    ensures Wakes(s, es, u, helps, m)
  {
  }

  /** With the waiters lock free, the owner of the events lock, or else whoever owes a broadcast, is
      alone at the locks. */
  lemma SomebodyAlone(s: State, u: Tid) returns (v: Tid)
    requires Inv(s) && u in s.pc && s.pc[u] == Asleep && s.sh.waiters == None
    ensures v in s.pc && Owes(s.pc[v]) && Alone(s.sh, v)
  {
    assert SomeThread(s.pc, Owes);
    v :| v in s.pc && Owes(s.pc[v]);
    if s.sh.owner.Some? {
      v := s.sh.owner.value;
      assert LocalOk(s.pc[v], s.sh, v);
    }
  }

  lemma WakeWithFreeLock(s: State, u: Tid) returns (es: seq<(Tid, Choice)>)
    requires Inv(s) && u in s.pc && s.pc[u] == Asleep && s.sh.waiters == None
    ensures Wakes(s, es, u, 1, 10)
  {
    var v := SomebodyAlone(s, u);
    es := DriveToCast(s, v, u, 1);
    WakesSooner(s, es, u, 1, 1 + ToCast(s.pc[v]), 10);
  }

  lemma StepTowardsRelease(s: State, w: Tid, u: Tid)
    requires Inv(s) && u in s.pc && s.pc[u] == Asleep && s.sh.waiters == Some(w)
    ensures w in s.pc && u != w && Enabled(s, w, Go) && u in Step(s, w, Go).pc && w in Step(s, w, Go).pc
    ensures var m := Next(s.pc[w], s.sh, w, Go);
            if m.casts then Step(s, w, Go).pc[u] == Woken
            else && Step(s, w, Go).pc[u] == Asleep
                 && (Step(s, w, Go).sh.waiters == None
                     || (Step(s, w, Go).sh.waiters == Some(w) && ToRelease(Step(s, w, Go).pc[w]) < ToRelease(s.pc[w])))
  {
    assert w in s.pc && LocalOk(s.pc[w], s.sh, w) && LocalOk(s.pc[u], s.sh, u);
    HolderApproaches(s.pc[w], s.sh, w);
    NextEffect(s.pc[w], s.sh, w, Go);
    OthersAfter(s, w, Go, u);
  }

  /** The holder of the waiters lock broadcasts itself, or makes way for somebody who does. */
  lemma {:induction false} WakeWithHeldLock(s: State, w: Tid, u: Tid) returns (es: seq<(Tid, Choice)>)
    requires Inv(s) && u in s.pc && s.pc[u] == Asleep && s.sh.waiters == Some(w)
    ensures w in s.pc && Wakes(s, es, u, 1, 11 + ToRelease(s.pc[w]))
    decreases if w in s.pc then ToRelease(s.pc[w]) else 0
  {
    StepTowardsRelease(s, w, u);
    StepInv(s, w, Go);
    var t := Step(s, w, Go);
    var rest: seq<(Tid, Choice)> := [];
    var n: nat := 0;
    if !Next(s.pc[w], s.sh, w, Go).casts {
      if t.sh.waiters == None {
        rest := WakeWithFreeLock(t, u);
        n := 10;
      } else {
        rest := WakeWithHeldLock(t, w, u);
        n := 11 + ToRelease(t.pc[w]);
      }
    }
    es := [(w, Go)] + rest;
    WakesCons(s, w, Go, rest, u, 1, 1, n);
    WakesSooner(s, es, u, 1, n + 1, 11 + ToRelease(s.pc[w]));
  }

  /** From every reachable state, every sleeper can be woken within 14 steps: by the threads' own
      steps, and at most one completed transfer while the event handler is blocked in poll with
      nobody in the control pipe. */
  lemma SleeperCanBeWoken(s: State, run: seq<(Tid, Choice)>, u: Tid) returns (es: seq<(Tid, Choice)>)
    requires Init(s) && IsRun(s, run)
    requires u in Run(s, run).pc && Run(s, run).pc[u] == Asleep
    ensures Wakes(Run(s, run), es, u, 1, 14)
  {
    InitInv(s);
    RunInv(s, run);
    var r := Run(s, run);
    if r.sh.waiters.Some? {
      var w := r.sh.waiters.value;
      es := WakeWithHeldLock(r, w, u);
      WakesSooner(r, es, u, 1, 11 + ToRelease(r.pc[w]), 14);
    } else {
      es := WakeWithFreeLock(r, u);
      WakesSooner(r, es, u, 1, 10, 14);
    }
  }
}
