/**
 What the callback of a bulk or interrupt transfer is told, read off the events of the run: what the
 kernel gave back and when the transfer was cancelled or timed out.
 */
module BulkVerdict {
  import opened Bytes
  import opened BulkTransfer

  // ---------------------------------------------------------------- reading the events

  /** How many requests have come back, and with how many bytes. */
  function Reaps(es: seq<Event>): nat {
    if es == [] then 0 else Reaps(es[..|es| - 1]) + (if es[|es| - 1].Reap? then 1 else 0)
  }

  function Brought(es: seq<Event>): nat {
    if es == [] then 0 else Brought(es[..|es| - 1]) + (if es[|es| - 1].Reap? then es[|es| - 1].actual else 0)
  }

  predicate Bad(st: UrbStatus) { st == Gone || st == Stalled || st == Overran || st == Broken }

  /** Event `i` ends the undisturbed course of the transfer: somebody cancels it, a request comes back
      with a low-level error, or one that is not the last brings less than it was asked for. */
  predicate Disturbs(q: Request, es: seq<Event>, i: nat)
    requires i < |es|
  {
    match es[i]
    case KernelWrite(_, _) => false
    case Reap(st, actual) =>
      st == Broken || (!Bad(st) && Reaps(es[..i]) + 1 < q.n && Reaps(es[..i]) < |q.urbs|
                       && actual < q.urbs[Reaps(es[..i])].bufferLength)
    case Cancel => true
    case Expire => true
  }

  /** The kernel took all requests, and nothing before event `n` disturbed the transfer. */
  predicate Undisturbed(q: Request, es: seq<Event>, n: nat)
    requires n <= |es|
  {
    |q.urbs| == q.n && forall i :: 0 <= i < n ==> !Disturbs(q, es, i)
  }

  /** Event `i` is a request that comes back with a failure in an undisturbed transfer. */
  predicate Fails(q: Request, es: seq<Event>, i: nat)
    requires i < |es|
  {
    es[i].Reap? && Bad(es[i].st) && Undisturbed(q, es, i)
  }

  predicate FailsAt(q: Request, es: seq<Event>, i: nat, st: UrbStatus)
    requires i < |es|
  {
    Fails(q, es, i) && es[i].st == st
  }

  predicate Failed(q: Request, es: seq<Event>, n: nat, st: UrbStatus)
    requires n <= |es|
  {
    exists i :: 0 <= i < n && FailsAt(q, es, i, st)
  }

  predicate FailedAtAll(q: Request, es: seq<Event>, n: nat)
    requires n <= |es|
  {
    Failed(q, es, n, Gone) || Failed(q, es, n, Stalled) || Failed(q, es, n, Overran) || Failed(q, es, n, Broken)
  }

  /** The first failure before event `n` is `st`. */
  predicate FailedFirst(q: Request, es: seq<Event>, n: nat, st: UrbStatus)
    requires n <= |es|
  {
    exists i :: 0 <= i < n && FailsAt(q, es, i, st) && !FailedAtAll(q, es, i)
  }

  /** Event `i` cancels the transfer. A bulk transfer with a low-level error is not cancelled any more. */
  predicate Cancels(q: Request, es: seq<Event>, i: nat)
    requires i < |es|
  {
    (es[i].Cancel? || es[i].Expire?) && (q.interrupt || !Failed(q, es, i, Broken))
  }

  predicate CancelledBy(q: Request, es: seq<Event>, n: nat)
    requires n <= |es|
  {
    exists i :: 0 <= i < n && Cancels(q, es, i)
  }

  predicate ExpiredBy(es: seq<Event>, n: nat)
    requires n <= |es|
  {
    exists i :: 0 <= i < n && es[i].Expire?
  }

  /** The status of a transfer whose last request comes back with event `f`, when `refused` says that
      the kernel refused one of its requests for good. A removed device outdoes an earlier stall. */
  function Verdict(q: Request, refused: bool, es: seq<Event>, f: nat): TransferStatus
    requires f < |es|
  {
    if CancelledBy(q, es, f) then (if ExpiredBy(es, f) then StatusTimedOut else StatusCancelled)
    else if Failed(q, es, f + 1, Gone) then StatusNoDevice
    else if FailedFirst(q, es, f + 1, Stalled) then StatusStall
    else if FailedFirst(q, es, f + 1, Overran) then StatusOverflow
    else if FailedFirst(q, es, f + 1, Broken) || refused then StatusError
    else StatusCompleted
  }

  /** What the user makes of it who does not want short transfers. */
  function Seen(q: Request, st: TransferStatus, bytes: nat): TransferStatus {
    if st == StatusCompleted && q.shortNotOk && bytes != q.length then StatusError else st
  }

  // ---------------------------------------------------------------- one event more

  /** What the events before `n` say, as far as it matters. */
  datatype Digest = Digest(
    undisturbed: bool, cancelled: bool, expired: bool, failed: bool,
    gone: bool, stallFirst: bool, overranFirst: bool, brokenFirst: bool, overran: bool, broken: bool)

  function Digested(q: Request, es: seq<Event>, n: nat): Digest
    requires n <= |es|
  {
    Digest(Undisturbed(q, es, n), CancelledBy(q, es, n), ExpiredBy(es, n), FailedAtAll(q, es, n),
           Failed(q, es, n, Gone), FailedFirst(q, es, n, Stalled), FailedFirst(q, es, n, Overran),
           FailedFirst(q, es, n, Broken), Failed(q, es, n, Overran), Failed(q, es, n, Broken))
  }

  /** The same after one more event `e`, of which it is known whether it disturbs. */
  function Digests(q: Request, d: Digest, e: Event, disturbs: bool): Digest {
    var fails := e.Reap? && Bad(e.st) && d.undisturbed;
    var ends := (e.Cancel? || e.Expire?) && (q.interrupt || !d.broken);
    Digest(d.undisturbed && !disturbs, d.cancelled || ends, d.expired || e.Expire?, d.failed || fails,
           d.gone || (fails && e.st == Gone),
           d.stallFirst || (fails && e.st == Stalled && !d.failed),
           d.overranFirst || (fails && e.st == Overran && !d.failed),
           d.brokenFirst || (fails && e.st == Broken && !d.failed),
           d.overran || (fails && e.st == Overran), d.broken || (fails && e.st == Broken))
  }

  lemma FailedSnoc(q: Request, es: seq<Event>, n: nat, st: UrbStatus)
    requires n < |es|
    ensures Failed(q, es, n + 1, st) <==> Failed(q, es, n, st) || FailsAt(q, es, n, st)
  {
  }

  lemma FirstSnoc(q: Request, es: seq<Event>, n: nat, st: UrbStatus)
    requires n < |es|
    ensures FailedFirst(q, es, n + 1, st) <==>
              FailedFirst(q, es, n, st) || (FailsAt(q, es, n, st) && !FailedAtAll(q, es, n))
  {
  }

  lemma DigestSnoc(q: Request, es: seq<Event>, n: nat)
    requires n < |es|
    ensures Digested(q, es, n + 1) == Digests(q, Digested(q, es, n), es[n], Disturbs(q, es, n))
  {
    FailedSnoc(q, es, n, Gone);
    FailedSnoc(q, es, n, Stalled);
    FailedSnoc(q, es, n, Overran);
    FailedSnoc(q, es, n, Broken);
    FirstSnoc(q, es, n, Stalled);
    FirstSnoc(q, es, n, Overran);
    FirstSnoc(q, es, n, Broken);
    CancelSnoc(q, es, n);
  }

  lemma CancelSnoc(q: Request, es: seq<Event>, n: nat)
    requires n < |es|
    ensures CancelledBy(q, es, n + 1) <==> CancelledBy(q, es, n) || Cancels(q, es, n)
    ensures ExpiredBy(es, n + 1) <==> ExpiredBy(es, n) || es[n].Expire?
    ensures Undisturbed(q, es, n + 1) <==> Undisturbed(q, es, n) && !Disturbs(q, es, n)
  {
  }

  // ---------------------------------------------------------------- what the code knows

  /** What the code keeps of a transfer in flight is what the events say. */
  ghost predicate Knows(q: Request, refused: bool, d: Digest, c: Control) {
    && (c.action == Normal <==> d.undisturbed) && (c.action == Cancelled <==> d.cancelled)
    && (c.action == SubmitFailed <==> refused && !d.cancelled)
    && (c.action == Error ==> d.broken) && (!q.interrupt && d.broken ==> c.action == Error)
    && (c.timedOut <==> d.expired)
    && (c.status == StatusCompleted <==> !d.failed)
    && (c.status == StatusNoDevice <==> d.gone)
    && (c.status == StatusStall <==> d.stallFirst && !d.gone)
    && (c.status == StatusError <==> d.brokenFirst && !d.gone)
    && c.status in {StatusCompleted, StatusNoDevice, StatusStall, StatusError}
    && !d.overran && !d.overranFirst && (d.broken ==> d.failed && !d.undisturbed)
  }

  lemma KnowsAfterReap(q: Request, refused: bool, d: Digest, c: Control, st: UrbStatus, actual: nat, short: bool)
    requires Knows(q, refused, d, c) && c.live && (st == Overran ==> c.action != Normal)
    requires var e := OnReap(q, c, st, actual, short); e.live
    ensures Knows(q, refused,
                  Digests(q, d, Reap(st, actual), st == Broken || (!Bad(st) && c.reaped + 1 != q.n && short)),
                  OnReap(q, c, st, actual, short))
  {
  }

  lemma KnowsAfterCancel(q: Request, refused: bool, d: Digest, c: Control, e: Event)
    requires Knows(q, refused, d, c) && c.live && (e == Cancel || e == Expire)
    ensures Knows(q, refused, Digests(q, d, e, true), OnCancel(q, if e == Expire then c.(timedOut := true) else c))
  {
  }

  /** What is reported when the last request comes back. */
  function Told(refused: bool, d: Digest): TransferStatus {
    if d.cancelled then (if d.expired then StatusTimedOut else StatusCancelled)
    else if d.gone then StatusNoDevice
    else if d.stallFirst then StatusStall
    else if d.overranFirst then StatusOverflow
    else if d.brokenFirst || refused then StatusError
    else StatusCompleted
  }

  lemma ToldAtTheEnd(q: Request, refused: bool, d: Digest, c: Control, st: UrbStatus, actual: nat, short: bool)
    requires Knows(q, refused, d, c) && c.live && c.reports == []
    requires !OnReap(q, c, st, actual, short).live
    requires c.action == Normal && st != Overran ==> c.reaped + 1 == q.n
    ensures var d2 := Digests(q, d, Reap(st, actual), st == Broken || (!Bad(st) && c.reaped + 1 != q.n && short));
            var e := OnReap(q, c, st, actual, short);
            e.reports == [Report(Seen(q, Told(refused, d2), e.transferred), e.transferred)]
  {
  }

  // ---------------------------------------------------------------- whole runs

  /** A run is its first events and then the rest. */
  lemma {:induction false} Prefix(q: Request, x: Xfer, es: seq<Event>, n: nat)
    requires TrustedRun(q, x, es) && n <= |es|
    ensures TrustedRun(q, x, es[..n])
    ensures n < |es| ==> Trusted(q, Run(q, x, es[..n]), es[n]) && TrustedRun(q, x, es[..n + 1])
                         && Run(q, x, es[..n + 1]) == Step(q, Run(q, x, es[..n]), es[n])
    decreases n
  {
    if n > 0 {
      Prefix(q, Step(q, x, es[0]), es[1..], n - 1);
      assert es[..n][1..] == es[1..][..n - 1];
      if n < |es| { assert es[..n + 1][1..] == es[1..][..n]; }
    } else if es != [] {
      assert es[..1][1..] == [];
    }
  }

  lemma CountSnoc(es: seq<Event>, n: nat)
    requires n < |es|
    ensures Reaps(es[..n + 1]) == Reaps(es[..n]) + (if es[n].Reap? then 1 else 0)
    ensures Brought(es[..n + 1]) == Brought(es[..n]) + (if es[n].Reap? then es[n].actual else 0)
  {
    assert es[..n + 1][..n] == es[..n];
  }

  /** The counters are those of the events. */
  lemma {:induction false} CountsOfRun(q: Request, x: Xfer, k: nat, es: seq<Event>, n: nat)
    requires JustSubmitted(q, x, k) && TrustedRun(q, x, es) && n <= |es|
    ensures TrustedRun(q, x, es[..n]) && Inv(q, Run(q, x, es[..n])) && Run(q, x, es[..n]).c.submitted == k
    ensures Run(q, x, es[..n]).c.reaped == Reaps(es[..n]) && Run(q, x, es[..n]).c.transferred == Brought(es[..n])
  {
    Prefix(q, x, es, n);
    SubmittedInv(q, x, k);
    RunInv(q, x, es[..n]);
    if n > 0 {
      CountsOfRun(q, x, k, es, n - 1);
      Prefix(q, x, es, n - 1);
      CountSnoc(es, n - 1);
      CountsStep(q, Run(q, x, es[..n - 1]), es[n - 1]);
    } else {
      assert es[..0] == [];
    }
  }

  lemma CountsStep(q: Request, y: Xfer, e: Event)
    requires Trusted(q, y, e)
    ensures var d := Step(q, y, e).c;
            && d.reaped == y.c.reaped + (if e.Reap? then 1 else 0)
            && d.transferred == y.c.transferred + (if e.Reap? then e.actual else 0)
  {
  }

  /** While requests are out, the code knows what the events say. */
  lemma {:induction false} KnowsRun(q: Request, x: Xfer, k: nat, es: seq<Event>, n: nat)
    requires JustSubmitted(q, x, k) && TrustedRun(q, x, es) && n <= |es| && Reaps(es[..n]) < k
    ensures TrustedRun(q, x, es[..n])
    ensures Knows(q, x.c.action == SubmitFailed, Digested(q, es, n), Run(q, x, es[..n]).c)
  {
    CountsOfRun(q, x, k, es, n);
    if n > 0 {
      CountSnoc(es, n - 1);
      KnowsRun(q, x, k, es, n - 1);
      CountsOfRun(q, x, k, es, n - 1);
      Prefix(q, x, es, n - 1);
      DigestSnoc(q, es, n - 1);
      KnowsStep(q, x.c.action == SubmitFailed, Run(q, x, es[..n - 1]), es, n - 1);
    } else {
      assert es[..0] == [];
    }
  }

  lemma KnowsStep(q: Request, refused: bool, y: Xfer, es: seq<Event>, n: nat)
    requires n < |es| && Inv(q, y) && Trusted(q, y, es[n]) && Inv(q, Step(q, y, es[n]))
    requires y.c.reaped == Reaps(es[..n]) && y.c.live && Step(q, y, es[n]).c.live
    requires Knows(q, refused, Digested(q, es, n), y.c)
    ensures Knows(q, refused, Digests(q, Digested(q, es, n), es[n], Disturbs(q, es, n)), Step(q, y, es[n]).c)
  {
    match es[n]
    case KernelWrite(i, data) =>
    case Reap(st, actual) =>
      KnowsAfterReap(q, refused, Digested(q, es, n), y.c, st, actual, actual < q.urbs[y.c.reaped].bufferLength);
    case Cancel => KnowsAfterCancel(q, refused, Digested(q, es, n), y.c, Cancel);
    case Expire => KnowsAfterCancel(q, refused, Digested(q, es, n), y.c, Expire);
  }

  /** The report that event `f` brings, with the last request. */
  lemma ReportAt(q: Request, x: Xfer, k: nat, es: seq<Event>, f: nat)
    requires JustSubmitted(q, x, k) && TrustedRun(q, x, es)
    requires f < |es| && es[f].Reap? && Reaps(es[..f]) + 1 == k
    ensures TrustedRun(q, x, es[..f + 1])
    ensures var bytes := Brought(es[..f + 1]);
            Run(q, x, es[..f + 1]).c.reports
            == [Report(Seen(q, Verdict(q, x.c.action == SubmitFailed, es, f), bytes), bytes)]
  {
    KnowsRun(q, x, k, es, f);
    CountsOfRun(q, x, k, es, f);
    CountsOfRun(q, x, k, es, f + 1);
    CountSnoc(es, f);
    Prefix(q, x, es, f);
    DigestSnoc(q, es, f);
    var c := Run(q, x, es[..f]).c;
    assert Accounted(q, c) && c.reaped + 1 == c.submitted;
    ToldAtTheEnd(q, x.c.action == SubmitFailed, Digested(q, es, f), c, es[f].st, es[f].actual,
                 es[f].actual < q.urbs[c.reaped].bufferLength);
  }

  /** Nothing changes the report afterwards. */
  lemma {:induction false} ReportStays(q: Request, x: Xfer, k: nat, es: seq<Event>, f: nat, n: nat)
    requires JustSubmitted(q, x, k) && TrustedRun(q, x, es)
    requires f < n <= |es| && Reaps(es[..f + 1]) == k
    ensures TrustedRun(q, x, es[..f + 1]) && TrustedRun(q, x, es[..n])
    ensures Run(q, x, es[..n]).c.reports == Run(q, x, es[..f + 1]).c.reports && Reaps(es[..n]) == k
    decreases n
  {
    Prefix(q, x, es, f + 1);
    Prefix(q, x, es, n);
    if f + 1 < n {
      ReportStays(q, x, k, es, f, n - 1);
      CountsOfRun(q, x, k, es, n - 1);
      Prefix(q, x, es, n - 1);
      CountSnoc(es, n - 1);
      NothingOut(q, Run(q, x, es[..n - 1]), es[n - 1]);
    }
  }

  lemma NothingOut(q: Request, y: Xfer, e: Event)
    requires Trusted(q, y, e) && y.c.reaped == y.c.submitted
    ensures !e.Reap? && Step(q, y, e).c.reports == y.c.reports
  {
  }

  lemma {:induction false} LastReap(es: seq<Event>, k: nat, n: nat) returns (f: nat)
    requires k > 0 && n <= |es| && Reaps(es[..n]) == k
    ensures f < n && es[f].Reap? && Reaps(es[..f]) + 1 == k && Reaps(es[..f + 1]) == k
  {
    if n == 0 { assert false; }
    CountSnoc(es, n - 1);
    if es[n - 1].Reap? {
      f := n - 1;
    } else {
      f := LastReap(es, k, n - 1);
    }
  }

  /** Over every run in which all accepted requests have come back: the callback is told the verdict that
      is read off the events up to the last of them, and the number of bytes that they brought. */
  lemma ToldTheVerdict(q: Request, x: Xfer, k: nat, es: seq<Event>) returns (f: nat)
    requires JustSubmitted(q, x, k) && TrustedRun(q, x, es) && Reaps(es) == k
    ensures f < |es| && es[f].Reap? && Reaps(es[..f]) + 1 == k
    ensures var bytes := Brought(es[..f + 1]);
            Run(q, x, es).c.reports
            == [Report(Seen(q, Verdict(q, x.c.action == SubmitFailed, es, f), bytes), bytes)]
  {
    assert es[..|es|] == es;
    f := LastReap(es, k, |es|);
    ReportAt(q, x, k, es, f);
    ReportStays(q, x, k, es, f, |es|);
  }

  /** A transfer is reported as completed only if nobody cancelled it, no request failed before anything
      disturbed it, the kernel refused none for good, and, where short transfers are errors, it is whole. */
  lemma CompletedOnlyIf(q: Request, x: Xfer, k: nat, es: seq<Event>) returns (f: nat)
    requires JustSubmitted(q, x, k) && TrustedRun(q, x, es) && Reaps(es) == k
    requires exists r :: r in Run(q, x, es).c.reports && r.status == StatusCompleted
    ensures x.c.action != SubmitFailed
    ensures f < |es| && Reaps(es[..f + 1]) == k
    ensures (forall i :: 0 <= i < f ==> !Cancels(q, es, i)) && (forall i :: 0 <= i <= f ==> !Fails(q, es, i))
    ensures q.shortNotOk ==> Brought(es[..f + 1]) == q.length
  {
    f := ToldTheVerdict(q, x, k, es);
    CountSnoc(es, f);
    NoFailure(q, es, f + 1);
  }

  lemma {:induction false} NoFailure(q: Request, es: seq<Event>, n: nat)
    requires n <= |es|
    requires !FailedFirst(q, es, n, Gone) && !FailedFirst(q, es, n, Stalled)
    requires !FailedFirst(q, es, n, Overran) && !FailedFirst(q, es, n, Broken)
    ensures forall i :: 0 <= i < n ==> !Fails(q, es, i)
  {
    if n > 0 {
      NoFailure(q, es, n - 1);
      assert !FailsAt(q, es, n - 1, Gone) && !FailsAt(q, es, n - 1, Stalled);
      assert !FailsAt(q, es, n - 1, Overran) && !FailsAt(q, es, n - 1, Broken);
    }
  }

  /** A bulk IN transfer of 512 bytes whose only request fails on the bus: the user is told of an error. */
  lemma BusErrorIsTold(q: Request, x: Xfer)
    requires q.length == 512 && q.n == 1 && q.isIn && JustSubmitted(q, x, 1) && TrustedRun(q, x, [Reap(Broken, 0)])
    ensures Run(q, x, [Reap(Broken, 0)]).c.reports == [Report(StatusError, 0)]
  {
    assert [Reap(Broken, 0)][1..] == [];
  }
}
