/**
 One isochronous transfer of the Linux backend in flight: its requests go to the kernel, come back
 one at a time, and bring a result for each of their packets.
 */
module IsoCompletion {
  import opened Bytes
  import opened IsoTransfer
  import B = BulkTransfer
  import opened Discarding

  type Status = B.TransferStatus

  /** The status of one packet: 0, -ENOENT or -ECONNRESET, -ENODEV or -ESHUTDOWN, -EPIPE,
      -EOVERFLOW, and every low-level or unrecognised code. */
  datatype PacketStatus = Good | Unlinked | Gone | Stalled | Overran | Broken

  /** The status of a whole request, which tells fewer codes apart: 0, -ENOENT or -ECONNRESET,
      -ESHUTDOWN, and everything else. */
  datatype RequestStatus = Fine | TakenBack | ShutDown | Other

  datatype Packet = Packet(status: PacketStatus, actual: nat)

  datatype Result = Result(status: Status, actual: nat)

  function Shown(p: Packet): Result {
    Result(match p.status
           case Good => B.StatusCompleted
           case Unlinked => B.StatusCompleted
           case Gone => B.StatusNoDevice
           case Stalled => B.StatusStall
           case Overran => B.StatusOverflow
           case Broken => B.StatusError,
           p.actual)
  }

  /** Answers of the kernel to SUBMITURB. */
  datatype SubmitAnswer = Accepted | NoDevice | Refused

  // ---------------------------------------------------------------- the bookkeeping

  /** The counters of a transfer with `n` requests; the kernel took 0..submitted and gave back
      0..reaped, in order. */
  datatype Control = Control(
    n: nat, live: bool, numRetired: nat, action: B.ReapAction, timedOut: bool,
    asked: set<nat>, reports: seq<Status>, submitted: nat, reaped: nat)

  ghost predicate Accounted(c: Control) {
    && c.n >= 1 && c.reaped <= c.submitted <= c.n
    && c.numRetired + (c.submitted - c.reaped) == c.n
    && (c.live <==> c.reaped < c.submitted)
    && |c.reports| == (if c.live then 0 else 1)
    && c.action in {B.Normal, B.SubmitFailed, B.Cancelled}
    && (c.live && c.action == B.Normal ==> c.submitted == c.n)
    && (c.live && c.action != B.Normal ==> B.From(c.reaped, c.submitted) <= c.asked)
  }

  /** What a transfer in flight is reported as when its last request is back: only the status of
      that last request counts, and nothing does once the transfer was cancelled. */
  function Verdict(c: Control, st: RequestStatus): Status {
    match c.action
    case Normal => (match st case ShutDown => B.StatusNoDevice case Other => B.StatusError case _ => B.StatusCompleted)
    case Cancelled => if c.timedOut then B.StatusTimedOut else B.StatusCancelled
    case _ => B.StatusError
  }

  /** The request reaped next is back. */
  function Reaped(c: Control, st: RequestStatus): Control {
    var d := c.(numRetired := c.numRetired + 1, reaped := c.reaped + 1);
    if (if c.action == B.Normal then d.reaped == c.n else d.numRetired == c.n)
    then d.(live := false, reports := c.reports + [Verdict(c, st)])
    else d
  }

  function Cancelled(c: Control): Control {
    var d := c.(action := B.Cancelled);
    if c.live then d.(asked := c.asked + B.From(0, c.n)) else d
  }

  /** The state right after a submission of which the kernel accepted `k` requests. */
  ghost predicate JustSubmitted(c: Control, k: nat) {
    && 1 <= k <= c.n
    && c == Control(c.n, true, c.n - k, if k == c.n then B.Normal else B.SubmitFailed, false,
                    if k == c.n then {} else B.From(0, k), [], k, 0)
  }

  lemma SubmittedAccounted(c: Control, k: nat)
    requires JustSubmitted(c, k)
    ensures Accounted(c)
  {
  }

  lemma ReapedAccounted(c: Control, st: RequestStatus)
    requires Accounted(c) && c.live
    ensures Accounted(Reaped(c, st))
  {
    assert B.From(c.reaped + 1, c.submitted) <= B.From(c.reaped, c.submitted);
  }

  lemma CancelledAccounted(c: Control)
    requires Accounted(c)
    ensures Accounted(Cancelled(c))
  {
    assert B.From(c.reaped, c.submitted) <= B.From(0, c.n);
  }

  datatype Event = Reap(st: RequestStatus) | Cancel | Expire

  ghost predicate Possible(c: Control, e: Event) { e.Reap? ==> c.reaped < c.submitted }

  function Step(c: Control, e: Event): Control {
    match e
    case Reap(st) => Reaped(c, st)
    case Cancel => Cancelled(c)
    case Expire => Cancelled(c.(timedOut := true))
  }

  ghost predicate PossibleRun(c: Control, es: seq<Event>)
    decreases |es|
  {
    es == [] || (Possible(c, es[0]) && PossibleRun(Step(c, es[0]), es[1..]))
  }

  function Run(c: Control, es: seq<Event>): Control
    decreases |es|
  {
    if es == [] then c else Run(Step(c, es[0]), es[1..])
  }

  lemma {:induction false} RunAccounted(c: Control, es: seq<Event>)
    requires Accounted(c) && PossibleRun(c, es)
    ensures Accounted(Run(c, es)) && Run(c, es).submitted == c.submitted && Run(c, es).n == c.n
    decreases |es|
  {
    if es != [] {
      match es[0] {
        case Reap(st) => ReapedAccounted(c, st);
        case Cancel => CancelledAccounted(c);
        case Expire => CancelledAccounted(c.(timedOut := true));
      }
      RunAccounted(Step(c, es[0]), es[1..]);
    }
  }

  /** Over every run of an accepted transfer, reaped in order: it is reported once, and its table
      is freed, exactly when the kernel has given everything back. */
  lemma ReportedExactlyOnce(c: Control, k: nat, es: seq<Event>)
    requires JustSubmitted(c, k) && PossibleRun(c, es)
    ensures var d := Run(c, es);
            && d.numRetired + (k - d.reaped) == d.n
            && |d.reports| == (if d.reaped == k then 1 else 0)
            && (d.live <==> d.reaped < k)
  {
    SubmittedAccounted(c, k);
    RunAccounted(c, es);
  }

  // ---------------------------------------------------------------- the verdict

  function Reaps(es: seq<Event>): nat {
    if es == [] then 0 else (if es[0].Reap? then 1 else 0) + Reaps(es[1..])
  }

  /** Somebody cancelled the transfer, or it timed out, before event `n`. */
  predicate CancelledBy(es: seq<Event>, n: nat)
    requires n <= |es|
  {
    exists i :: 0 <= i < n && !es[i].Reap?
  }

  predicate ExpiredBy(es: seq<Event>, n: nat)
    requires n <= |es|
  {
    exists i :: 0 <= i < n && es[i].Expire?
  }

  lemma ByShift(es: seq<Event>, n: nat)
    requires 0 < n <= |es|
    ensures CancelledBy(es, n) <==> !es[0].Reap? || CancelledBy(es[1..], n - 1)
    ensures ExpiredBy(es, n) <==> es[0].Expire? || ExpiredBy(es[1..], n - 1)
  {
    forall i | 0 <= i < n - 1 ensures es[1..][i] == es[i + 1] { }
    if CancelledBy(es[1..], n - 1) {
      var i :| 0 <= i < n - 1 && !es[1..][i].Reap?;
      assert !es[i + 1].Reap?;
    }
    if CancelledBy(es, n) && es[0].Reap? {
      var i :| 0 <= i < n && !es[i].Reap?;
      assert !es[1..][i - 1].Reap?;
    }
    if ExpiredBy(es[1..], n - 1) {
      var i :| 0 <= i < n - 1 && es[1..][i].Expire?;
      assert es[i + 1].Expire?;
    }
    if ExpiredBy(es, n) && !es[0].Expire? {
      var i :| 0 <= i < n && es[i].Expire?;
      assert es[1..][i - 1].Expire?;
    }
  }

  /** Of a transfer whose last request comes back as event `f`: cancelled or timed out if anybody did that
      before; an error if the kernel had refused a request; otherwise what that last request says. */
  predicate Told(st: Status, cancelled: bool, expired: bool, refused: bool, last: RequestStatus) {
    if cancelled then st == (if expired then B.StatusTimedOut else B.StatusCancelled)
    else if refused then st == B.StatusError
    else && (last == ShutDown ==> st == B.StatusNoDevice) && (last == Other ==> st == B.StatusError)
         && (last == Fine || last == TakenBack ==> st == B.StatusCompleted)
  }

  lemma {:induction false} NothingMore(c: Control, es: seq<Event>)
    requires !c.live && c.reaped == c.submitted && PossibleRun(c, es)
    ensures Run(c, es).reports == c.reports
    decreases |es|
  {
    if es != [] { NothingMore(Step(c, es[0]), es[1..]); }
  }

  lemma {:induction false} VerdictFrom(c: Control, es: seq<Event>) returns (f: nat)
    requires Accounted(c) && c.live && PossibleRun(c, es) && Reaps(es) == c.submitted - c.reaped
    ensures f < |es| && es[f].Reap? && |Run(c, es).reports| == 1
    ensures Told(Run(c, es).reports[0], c.action == B.Cancelled || CancelledBy(es, f),
                 (c.action == B.Cancelled && c.timedOut) || (c.timedOut && CancelledBy(es, f)) || ExpiredBy(es, f),
                 c.action == B.SubmitFailed, es[f].st)
    decreases |es|
  {
    var d := Step(c, es[0]);
    match es[0] {
      case Reap(st) => ReapedAccounted(c, st);
      case Cancel => CancelledAccounted(c);
      case Expire => CancelledAccounted(c.(timedOut := true));
    }
    if d.live {
      f := VerdictFrom(d, es[1..]);
      f := f + 1;
      ByShift(es, f);
    } else {
      f := 0;
      NothingMore(d, es[1..]);
    }
  }

  /** Over every run in which all accepted requests have come back: the one report is the verdict that is
      read off the events up to the last of them. */
  lemma ToldTheVerdict(c: Control, k: nat, es: seq<Event>) returns (f: nat)
    requires JustSubmitted(c, k) && PossibleRun(c, es) && Reaps(es) == k
    ensures f < |es| && es[f].Reap? && |Run(c, es).reports| == 1
    ensures Told(Run(c, es).reports[0], CancelledBy(es, f), ExpiredBy(es, f), k < c.n, es[f].st)
  {
    SubmittedAccounted(c, k);
    f := VerdictFrom(c, es);
  }

  // ---------------------------------------------------------------- the results

  function AllShown(ps: seq<Packet>): (rs: seq<Result>)
    ensures |rs| == |ps| && forall i :: 0 <= i < |ps| ==> rs[i] == Shown(ps[i])
  {
    if ps == [] then [] else AllShown(ps[..|ps| - 1]) + [Shown(ps[|ps| - 1])]
  }

  /** Each reaped request brought a result for each of its packets, and each result is at its
      packet's place: the results so far are those of the packets so far, in order. */
  ghost predicate ResultsInPlace(lengths: seq<nat>, results: seq<Result>, brought: seq<seq<Packet>>, offset: nat) {
    && |results| == |lengths| && offset == Start(lengths, |brought|)
    && results[..offset] == AllShown(Flatten(brought))
    && forall k :: 0 <= k < |brought| ==> Matches(lengths, brought[k], k)
  }

  predicate Matches(lengths: seq<nat>, ps: seq<Packet>, k: nat) {
    |ps| == Start(lengths, k + 1) - Start(lengths, k)
  }

  lemma NothingYet(lengths: seq<nat>, results: seq<Result>)
    requires |results| == |lengths|
    ensures ResultsInPlace(lengths, results, [], 0)
  {
  }

  /** One more request's results, written behind the earlier ones. */
  lemma ResultsStep(lengths: seq<nat>, was: seq<Result>, now: seq<Result>, brought: seq<seq<Packet>>, offset: nat,
                    ps: seq<Packet>, offset2: nat)
    requires ResultsInPlace(lengths, was, brought, offset) && Matches(lengths, ps, |brought|)
    requires |now| == |was| && offset2 == offset + |ps| <= |now|
    requires now[..offset] == was[..offset] && now[offset..offset2] == AllShown(ps)
    ensures ResultsInPlace(lengths, now, brought + [ps], offset2)
  {
    ShownSnoc(brought, ps);
    assert now[..offset2] == now[..offset] + now[offset..offset2];
    MatchesSnoc(lengths, brought, ps);
  }

  lemma ShownSnoc(brought: seq<seq<Packet>>, ps: seq<Packet>)
    ensures AllShown(Flatten(brought + [ps])) == AllShown(Flatten(brought)) + AllShown(ps)
  {
    assert (brought + [ps])[..|brought|] == brought;
  }

  lemma MatchesSnoc(lengths: seq<nat>, brought: seq<seq<Packet>>, ps: seq<Packet>)
    requires (forall k :: 0 <= k < |brought| ==> Matches(lengths, brought[k], k)) && Matches(lengths, ps, |brought|)
    ensures forall k :: 0 <= k < |brought + [ps]| ==> Matches(lengths, (brought + [ps])[k], k)
  {
  }

  /** The result of a packet: its own length, and what its status means to the user. */
  predicate TellsOf(r: Result, p: Packet) {
    && r.actual == p.actual
    && (p.status == Good || p.status == Unlinked ==> r.status == B.StatusCompleted)
    && (p.status == Gone ==> r.status == B.StatusNoDevice)
    && (p.status == Stalled ==> r.status == B.StatusStall)
    && (p.status == Overran ==> r.status == B.StatusOverflow)
    && (p.status == Broken ==> r.status == B.StatusError)
  }

  /** So packet `j` of request `k` finds its result at its own place in the transfer. */
  lemma {:induction false} ResultOfPacket(lengths: seq<nat>, results: seq<Result>, brought: seq<seq<Packet>>,
                                          offset: nat, k: nat, j: nat)
    requires ResultsInPlace(lengths, results, brought, offset) && k < |brought| && j < |brought[k]|
    ensures Start(lengths, k) + j < offset && TellsOf(results[Start(lengths, k) + j], brought[k][j])
  {
    PacketInFlat(lengths, brought, k, j);
  }

  /** Packet `j` of request `k`, `p`, has its result. */
  predicate ToldOf(lengths: seq<nat>, results: seq<Result>, k: nat, j: nat, p: Packet) {
    Start(lengths, k) + j < |results| && TellsOf(results[Start(lengths, k) + j], p)
  }

  lemma {:induction false} PacketInFlat(lengths: seq<nat>, brought: seq<seq<Packet>>, k: nat, j: nat)
    requires k < |brought| && j < |brought[k]|
    requires forall i :: 0 <= i < |brought| ==> Matches(lengths, brought[i], i)
    ensures |Flatten(brought)| == Start(lengths, |brought|)
    ensures Start(lengths, k) + j < |Flatten(brought)| && Flatten(brought)[Start(lengths, k) + j] == brought[k][j]
  {
    var n := |brought| - 1;
    var before := brought[..n];
    FlatLength(lengths, before);
    FlatLength(lengths, brought);
    assert Flatten(brought) == Flatten(before) + brought[n];
    if k < n { PacketInFlat(lengths, before, k, j); }
  }

  lemma {:induction false} FlatLength(lengths: seq<nat>, brought: seq<seq<Packet>>)
    requires forall i :: 0 <= i < |brought| ==> Matches(lengths, brought[i], i)
    ensures |Flatten(brought)| == Start(lengths, |brought|)
  {
    if brought != [] { FlatLength(lengths, brought[..|brought| - 1]); }
  }

  // ---------------------------------------------------------------- the code

  class Transfer {
    const lengths: seq<nat>
    const results: array<Result>         // iso_packet_desc
    var timedOut: bool

    var live: bool                       // the URB table is allocated
    var urbs: seq<IsoUrb>
    var numUrbs: nat
    var numRetired: nat
    var action: B.ReapAction
    var packetOffset: nat

    ghost var reports: seq<Status>       // what was handed on for the callback
    ghost var asked: set<nat>
    ghost var submitted: nat
    ghost var reaped: nat
    ghost var brought: seq<seq<Packet>>

    ghost function Ctl(): Control
      reads this
    {
      Control(numUrbs, live, numRetired, action, timedOut, asked, reports, submitted, reaped)
    }

    /** The results so far are in place. */
    ghost predicate Data()
      reads this, results
    {
      |brought| == reaped && ResultsInPlace(lengths, results[..], brought, packetOffset)
    }

    /** A table that is still needed is the one that the filling pass made. */
    ghost predicate TableOk()
      reads this
    {
      live ==> |urbs| == numUrbs && forall k :: 0 <= k < numUrbs ==> FilledWell(lengths, urbs[k], k)
    }

    constructor (lengths: seq<nat>, results: array<Result>)
      requires results.Length == |lengths|
      ensures !live && !timedOut && this.lengths == lengths && this.results == results
    {
      this.lengths, this.results := lengths, results;
      timedOut, live, urbs, numUrbs, numRetired, action, packetOffset := false, false, [], 0, 0, B.Normal, 0;
      reports, asked, submitted, reaped, brought := [], {}, 0, 0, [];
    }

    /** submit_iso_transfer. discard_urbs is the one that bulk transfers use. */
    method Submit(answer: nat -> SubmitAnswer, discardAnswer: nat -> DiscardAnswer) returns (r: Code)
      requires results.Length == |lengths| && !timedOut
      requires forall i :: 0 <= i < |lengths| ==> lengths[i] < WORD
      modifies this
      ensures old(live) ==> r == ErrBusy && Ctl() == old(Ctl())
      ensures !old(live) && !live ==>
                && submitted == 0 && reports == []
                && answer(0) != Accepted && r == (if answer(0) == NoDevice then ErrNoDevice else ErrIo)
      ensures !old(live) && live ==>
                && r == Ok && Data() && TableOk() && JustSubmitted(Ctl(), submitted)
                && (forall i :: 0 <= i < submitted ==> answer(i) == Accepted)
                && (submitted < numUrbs ==> answer(submitted) != Accepted)
      ensures !old(live) && Fitting(lengths) ==> numUrbs == NumUrbs(lengths)
    {
      if live { return ErrBusy; }
      Allocate();
      r := HandIn(answer, discardAnswer);
    }

    /** The counting and the filling pass. */
    method Allocate()
      requires results.Length == |lengths|
      requires forall i :: 0 <= i < |lengths| ==> lengths[i] < WORD
      modifies `live, `urbs, `numUrbs, `numRetired, `action, `packetOffset,
               `reports, `asked, `submitted, `reaped, `brought
      ensures Data() && TableOk() && live && numUrbs >= 1
      ensures Ctl() == Control(numUrbs, true, 0, B.Normal, timedOut, {}, [], 0, 0)
      ensures Fitting(lengths) ==> numUrbs == NumUrbs(lengths)
    {
      numUrbs := CountUrbs(lengths);
      live, numRetired, action, packetOffset := true, 0, B.Normal, 0;
      urbs := FillUrbs(lengths, numUrbs);
      Forget();
    }

    /** Nothing has happened to the requests of a new table. */
    ghost method Forget()
      requires results.Length == |lengths| && packetOffset == 0
      modifies `reports, `asked, `submitted, `reaped, `brought
      ensures reports == [] && asked == {} && submitted == reaped == 0 && Data()
    {
      reports, asked, submitted, reaped, brought := [], {}, 0, 0, [];
      NothingYet(lengths, results[..]);
    }

    /** The requests go to the kernel until it refuses one. */
    method HandIn(answer: nat -> SubmitAnswer, discardAnswer: nat -> DiscardAnswer) returns (r: Code)
      requires numUrbs >= 1 && Ctl() == Control(numUrbs, true, 0, B.Normal, false, {}, [], 0, 0)
      modifies `live, `urbs, `numRetired, `action, `asked, `submitted
      ensures !live ==> submitted == 0 && answer(0) != Accepted
      ensures !live ==> r == if answer(0) == NoDevice then ErrNoDevice else ErrIo
      ensures live ==> r == Ok && JustSubmitted(Ctl(), submitted) && urbs == old(urbs)
      ensures forall i :: 0 <= i < submitted ==> answer(i) == Accepted
      ensures submitted < numUrbs ==> answer(submitted) != Accepted
    {
      for i := 0 to numUrbs
        invariant Ctl() == old(Ctl()).(submitted := i) && urbs == old(urbs)
        invariant forall k :: 0 <= k < i ==> answer(k) == Accepted
      {
        if answer(i) != Accepted {
          r := if answer(i) == NoDevice then ErrNoDevice else ErrIo;
          if i == 0 {
            live, urbs := false, [];
            return;
          }
          action, numRetired := B.SubmitFailed, numUrbs - i;
          ghost var more;
          var ignored: Code;
          ignored, more := DiscardEach(0, i, discardAnswer);
          asked := asked + more;
          return Ok;
        }
        submitted := submitted + 1;
      }
      r := Ok;
    }

    /** The results of one request, copied to where the transfer's next packets are. */
    method CopyResults(packets: seq<Packet>)
      requires results.Length == |lengths| && packetOffset + |packets| <= results.Length
      modifies results, `packetOffset
      ensures packetOffset == old(packetOffset) + |packets|
      ensures results[..old(packetOffset)] == old(results[..packetOffset])
      ensures results[old(packetOffset)..packetOffset] == AllShown(packets)
      ensures results[packetOffset..] == old(results[packetOffset + |packets|..])
    {
      ghost var offset := packetOffset;
      for i := 0 to |packets|
        invariant packetOffset == offset + i
        invariant results[..offset] == old(results[..packetOffset])
        invariant forall k :: 0 <= k < i ==> results[offset + k] == Shown(packets[k])
        invariant forall k :: offset + i <= k < results.Length ==> results[k] == old(results[k])
      {
        var status := B.StatusCompleted;
        match packets[i].status {
          case Good =>
          case Unlinked =>
          case Gone => status := B.StatusNoDevice;
          case Stalled => status := B.StatusStall;
          case Overran => status := B.StatusOverflow;
          case Broken => status := B.StatusError;
        }
        results[packetOffset] := Result(status, packets[i].actual);
        packetOffset := packetOffset + 1;
      }
    }

    /** The bookkeeping of handle_iso_completion. */
    method Retire(urbIdx: nat, st: RequestStatus)
      requires live && Accounted(Ctl()) && urbIdx == reaped + 1
      modifies `numRetired, `reaped, `live, `urbs, `reports
      ensures Ctl() == Reaped(old(Ctl()), st) && (live ==> urbs == old(urbs))
    {
      numRetired, reaped := numRetired + 1, reaped + 1;
      if action != B.Normal {
        if numRetired == numUrbs {
          Report(if action == B.Cancelled then (if timedOut then B.StatusTimedOut else B.StatusCancelled)
                 else B.StatusError);
        }
      } else {
        var status := B.StatusCompleted;
        match st {
          case Fine =>
          case TakenBack =>
          case ShutDown => status := B.StatusNoDevice;
          case Other => status := B.StatusError;
        }
        if urbIdx == numUrbs { Report(status); }
      }
    }

    /** free_iso_urbs, and the status for the callback. */
    method Report(status: Status)
      modifies `live, `urbs, `reports
      ensures !live && reports == old(reports) + [status]
    {
      live, urbs := false, [];
      reports := reports + [status];
    }

    /** handle_iso_completion: the request that is back is the oldest one that the kernel held, if
        it is one of this transfer's at all. */
    method HandleIsoCompletion(which: nat, st: RequestStatus, packets: seq<Packet>) returns (r: Code)
      requires live && Accounted(Ctl()) && Data() && TableOk()
      requires which < numUrbs ==> which == reaped && |packets| == |urbs[which].lengths|
      modifies `numRetired, `reaped, `live, `urbs, `reports, `packetOffset, `brought, results
      ensures which >= numUrbs ==> r == ErrNotFound && Ctl() == old(Ctl()) && brought == old(brought)
      ensures which < numUrbs ==> r == Ok && Ctl() == Reaped(old(Ctl()), st) && brought == old(brought) + [packets]
      ensures Data() && TableOk() && Accounted(Ctl())
      ensures which < numUrbs ==>
                forall j: nat :: j < |packets| ==> ToldOf(lengths, results[..], which, j, packets[j])
    {
      if which >= numUrbs { return ErrNotFound; }
      ReapedAccounted(Ctl(), st);
      TakeResults(which, packets);
      AllTold(which, packets);
      Retire(which + 1, st);
      r := Ok;
    }

    lemma AllTold(which: nat, packets: seq<Packet>)
      requires ResultsInPlace(lengths, results[..], brought, packetOffset)
      requires which < |brought| && brought[which] == packets
      ensures forall j: nat :: j < |packets| ==> ToldOf(lengths, results[..], which, j, packets[j])
    {
      forall j: nat | j < |packets| ensures ToldOf(lengths, results[..], which, j, packets[j]) {
        ResultOfPacket(lengths, results[..], brought, packetOffset, which, j);
      }
    }

    /** The loop over the packets of the request. */
    method TakeResults(which: nat, packets: seq<Packet>)
      requires live && Data() && TableOk() && which == reaped < numUrbs && |packets| == |urbs[which].lengths|
      modifies `packetOffset, `brought, results
      ensures brought == old(brought) + [packets] && ResultsInPlace(lengths, results[..], brought, packetOffset)
    {
      assert FilledWell(lengths, urbs[which], which);
      ghost var was, offset := results[..], packetOffset;
      CopyResults(packets);
      ResultsStep(lengths, was, results[..], brought, offset, packets, packetOffset);
      brought := brought + [packets];
    }

    /** op_cancel_transfer. The action changes even when there is nothing left to cancel. */
    method CancelTransfer(discardAnswer: nat -> DiscardAnswer) returns (r: Code)
      requires Accounted(Ctl())
      modifies `action, `asked
      ensures Ctl() == Cancelled(old(Ctl())) && Accounted(Ctl())
      ensures if live then Discards(0, numUrbs, discardAnswer, r) else r == ErrNotFound
    {
      CancelledAccounted(Ctl());
      action := B.Cancelled;
      if !live { return ErrNotFound; }
      ghost var more;
      r, more := DiscardEach(0, numUrbs, discardAnswer);
      asked := asked + more;
    }
  }
}
