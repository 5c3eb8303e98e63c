/**
 One bulk or interrupt transfer of the Linux backend: it is cut into requests ("URBs") of at
 most 16 KB, the kernel takes some or all of them, and they come back one at a time.

 The state of a transfer is a `Control` (counters, the reap action, the reports) and a `Memory`
 (the user's buffer and what the kernel delivered into it). `Step` is what one event does. The
 class in BulkCode.dfy is the code itself, which moves bytes in place.
 */
module BulkTransfer {
  import opened Bytes

  const MAX_BULK_BUFFER_LENGTH := 16384

  datatype ReapAction = Normal | SubmitFailed | Cancelled | CompletedEarly | Error

  datatype TransferStatus =
    | StatusCompleted | StatusError | StatusTimedOut | StatusCancelled
    | StatusStall | StatusNoDevice | StatusOverflow

  /** `urb->status`: 0, -EREMOTEIO, -ENOENT or -ECONNRESET, -ENODEV or -ESHUTDOWN, -EPIPE,
      -EOVERFLOW, and every low-level or unrecognised code. */
  datatype UrbStatus = Good | Short | Unlinked | Gone | Stalled | Overran | Broken

  datatype Report = Report(status: TransferStatus, actualLength: nat)

  // ---------------------------------------------------------------- the split

  /** `n` requests of at most MAX_BULK_BUFFER_LENGTH bytes are what `length` bytes need. */
  predicate Cut(length: nat, n: nat) {
    && n >= 1
    && (n - 1) * MAX_BULK_BUFFER_LENGTH <= length <= n * MAX_BULK_BUFFER_LENGTH
    && (length > 0 ==> (n - 1) * MAX_BULK_BUFFER_LENGTH < length)
  }

  /** The length of request `i`, which starts at `i * MAX_BULK_BUFFER_LENGTH`. */
  function UrbLength(length: nat, n: nat, i: nat): nat
    requires Cut(length, n) && i < n
  {
    if i == n - 1 then length - (n - 1) * MAX_BULK_BUFFER_LENGTH else MAX_BULK_BUFFER_LENGTH
  }

  /** A request as it is handed to the kernel: where in the buffer it starts, and how long it is. */
  datatype Urb = Urb(offset: nat, bufferLength: nat)

  predicate Covers(u: Urb, p: nat) { u.offset <= p < u.offset + u.bufferLength }

  predicate InSome(urbs: seq<Urb>, p: nat) {
    exists i :: 0 <= i < |urbs| && Covers(urbs[i], p)
  }

  /** Each request starts where the one before it ends, the first one at the front. */
  predicate InOrder(urbs: seq<Urb>) {
    forall i :: 0 <= i < |urbs| ==>
      urbs[i].offset == if i == 0 then 0 else urbs[i - 1].offset + urbs[i - 1].bufferLength
  }

  /** The first requests of `n` that `length` bytes are cut into. */
  predicate Table(length: nat, n: nat, urbs: seq<Urb>) {
    && Cut(length, n) && |urbs| <= n && InOrder(urbs)
    && forall i :: 0 <= i < |urbs| ==> urbs[i].bufferLength == UrbLength(length, n, i)
  }

  lemma {:induction false} OffsetIs(length: nat, n: nat, urbs: seq<Urb>, i: nat)
    requires Table(length, n, urbs) && i < |urbs|
    ensures urbs[i].offset == i * MAX_BULK_BUFFER_LENGTH
    ensures urbs[i].offset + urbs[i].bufferLength <= length
    ensures urbs[i].bufferLength <= 16384 && (length > 0 ==> urbs[i].bufferLength > 0)
    decreases i
  {
    if i == 0 {
      assert urbs[0].offset == 0;
    } else {
      OffsetIs(length, n, urbs, i - 1);
      assert urbs[i].offset == urbs[i - 1].offset + urbs[i - 1].bufferLength;
    }
  }

  lemma TableSnoc(length: nat, n: nat, urbs: seq<Urb>, u: Urb)
    requires Table(length, n, urbs) && |urbs| < n
    requires u == Urb(|urbs| * MAX_BULK_BUFFER_LENGTH, UrbLength(length, n, |urbs|))
    ensures Table(length, n, urbs + [u])
  {
    if urbs != [] { OffsetIs(length, n, urbs, |urbs| - 1); }
  }

  /** Every byte of the buffer belongs to exactly one request, no request reaches beyond the buffer or
      over 16 KB, and they follow each other in order. */
  ghost predicate Partitions(length: nat, urbs: seq<Urb>) {
    && (forall p: nat :: p < length ==> InSome(urbs, p))
    && (forall i, j :: 0 <= i < j < |urbs| ==> urbs[i].offset + urbs[i].bufferLength <= urbs[j].offset)
    && (forall i :: 0 <= i < |urbs| ==>
          urbs[i].offset + urbs[i].bufferLength <= length && urbs[i].bufferLength <= 16384)
  }

  /** A whole table is such a partition, and no other number of requests would do. */
  lemma SplitIsPartition(length: nat, n: nat, urbs: seq<Urb>)
    requires Table(length, n, urbs) && |urbs| == n
    ensures Partitions(length, urbs)
    ensures forall m: nat :: Cut(length, m) ==> m == n
  {
    forall p: nat | p < length ensures InSome(urbs, p) {
      var i := p / MAX_BULK_BUFFER_LENGTH;
      OffsetIs(length, n, urbs, i);
      assert Covers(urbs[i], p);
    }
    forall i, j | 0 <= i < j < |urbs| ensures urbs[i].offset + urbs[i].bufferLength <= urbs[j].offset {
      OffsetIs(length, n, urbs, i);
      OffsetIs(length, n, urbs, j);
    }
    forall i | 0 <= i < |urbs|
      ensures urbs[i].offset + urbs[i].bufferLength <= length && urbs[i].bufferLength <= 16384
    {
      OffsetIs(length, n, urbs, i);
    }
  }

  // ---------------------------------------------------------------- the state

  /** What does not change while the transfer is in flight; `urbs` are the requests that the kernel took. */
  datatype Request = Request(length: nat, n: nat, urbs: seq<Urb>, isIn: bool, interrupt: bool, shortNotOk: bool)

  /** Counters and flags. The kernel took requests 0..submitted and gave back 0..reaped; `asked`
      are the requests it was asked to discard; `halted` records that a stall or a removed
      device was reported. */
  datatype Control = Control(
    transferred: nat, timedOut: bool,
    live: bool, numRetired: nat, action: ReapAction, status: TransferStatus,
    asked: set<nat>, reports: seq<Report>,
    submitted: nat, reaped: nat, halted: bool)

  /** The user's buffer, and the bytes the kernel has delivered for each request. */
  datatype Memory = Memory(buffer: seq<byte>, filled: seq<seq<byte>>)

  datatype Xfer = Xfer(c: Control, m: Memory)

  datatype Event =
    | KernelWrite(i: nat, data: seq<byte>)
    | Reap(st: UrbStatus, actual: nat)
    | Cancel
    | Expire

  predicate Within(first: nat, i: nat, lastPlusOne: nat) {
    first <= i < lastPlusOne
  }

  function From(first: nat, lastPlusOne: nat): set<nat> {
    set i: nat | i < lastPlusOne && Within(first, i, lastPlusOne)
  }

  // ---------------------------------------------------------------- steps of the control part

  predicate SameCounts(c: Control, d: Control) {
    d.transferred == c.transferred && d.reaped == c.reaped && d.submitted == c.submitted
  }

  /** The URB array is freed, and the callback sees a status and a length. */
  function Finish(q: Request, c: Control): (d: Control)
    ensures SameCounts(c, d)
  {
    var st := if c.action != Cancelled then c.status
              else if c.timedOut then StatusTimedOut else StatusCancelled;
    var shown := if st == StatusCompleted && q.shortNotOk && q.length != c.transferred then StatusError
                 else st;
    c.(live := false, reports := c.reports + [Report(shown, c.transferred)])
  }

  /** The bookkeeping of a request reaped after the transfer left NORMAL. */
  function RetireSurplus(q: Request, c: Control): (d: Control)
    ensures SameCounts(c, d)
  {
    if c.numRetired != q.n then c
    else if c.action != CompletedEarly && c.status == StatusCompleted then Finish(q, c.(status := StatusError))
    else Finish(q, c)
  }

  /** What is left of the transfer is asked back, unless nothing is. */
  function CancelRemaining(q: Request, c: Control): (d: Control)
    ensures SameCounts(c, d)
  {
    var d := if c.action == Error && c.status == StatusCompleted then c.(status := StatusError) else c;
    if d.numRetired == q.n then Finish(q, d) else d.(asked := d.asked + From(d.reaped, q.n))
  }

  /** The first failure decides the status. */
  function Keep(status: TransferStatus, failure: TransferStatus): TransferStatus {
    if status == StatusCompleted then failure else status
  }

  /** The bookkeeping of a request reaped while the transfer is NORMAL; `short` says that it
      brought less than was asked for. */
  function RetireNormal(q: Request, c: Control, st: UrbStatus, short: bool): (d: Control)
    ensures SameCounts(c, d)
  {
    match st
    case Gone => CancelRemaining(q, c.(status := StatusNoDevice, halted := true))
    case Stalled => CancelRemaining(q, c.(status := Keep(c.status, StatusStall), halted := true))
    case Overran => Finish(q, c.(status := Keep(c.status, StatusOverflow)))
    case Broken => CancelRemaining(q, c.(action := Error))
    case _ =>
      if c.reaped == q.n then Finish(q, c)
      else if short then CancelRemaining(q, c.(action := CompletedEarly))
      else c
  }

  /** One more request has come back with `actual` bytes. */
  function Count(c: Control, actual: nat): Control {
    c.(transferred := c.transferred + actual, numRetired := c.numRetired + 1, reaped := c.reaped + 1)
  }

  function OnReap(q: Request, c: Control, st: UrbStatus, actual: nat, short: bool): (d: Control)
    ensures SameCounts(Count(c, actual), d)
  {
    var d := Count(c, actual);
    if c.action != Normal then RetireSurplus(q, d) else RetireNormal(q, d, st, short)
  }

  function OnCancel(q: Request, c: Control): Control {
    var d := if !q.interrupt && c.action == Error then c else c.(action := Cancelled);
    if !d.live then d else d.(asked := d.asked + From(0, q.n))
  }

  // ---------------------------------------------------------------- steps of the memory part

  /** The kernel delivers more bytes for request `i`, as which it was given `u`. */
  ghost predicate CanWrite(m: Memory, u: Urb, i: nat, data: seq<byte>) {
    && i < |m.filled| && |m.filled[i]| + |data| <= u.bufferLength
    && u.offset + |m.filled[i]| + |data| <= |m.buffer|
  }

  ghost function Deliver(m: Memory, u: Urb, i: nat, data: seq<byte>): Memory
    requires CanWrite(m, u, i, data)
  {
    Memory(Splice(m.buffer, u.offset + |m.filled[i]|, data), m.filled[i := m.filled[i] + data])
  }

  /** memmove of `n` bytes from `from` to `to`. */
  ghost function Move(buffer: seq<byte>, to: nat, from: nat, n: nat): seq<byte>
    requires from + n <= |buffer| && to + n <= |buffer|
  {
    Splice(buffer, to, buffer[from..from + n])
  }

  ghost predicate Holds(buffer: seq<byte>, at: nat, data: seq<byte>) {
    at + |data| <= |buffer| && buffer[at..at + |data|] == data
  }

  /** The data of request `i` is still where the kernel put it. */
  ghost predicate InPlace(m: Memory, i: nat) {
    i < |m.filled| && |m.filled[i]| <= MAX_BULK_BUFFER_LENGTH
    && Holds(m.buffer, i * MAX_BULK_BUFFER_LENGTH, m.filled[i])
  }

  /** Nothing the kernel delivered is lost: reaped data is contiguous at the front of the
      buffer, and data of outstanding requests is where the kernel put it. */
  ghost predicate DataKept(m: Memory, transferred: nat, reaped: nat, submitted: nat) {
    && reaped <= submitted <= |m.filled|
    && transferred <= |m.buffer| && transferred <= reaped * MAX_BULK_BUFFER_LENGTH
    && m.buffer[..transferred] == Flatten(m.filled[..reaped])
    && forall i :: reaped <= i < submitted ==> InPlace(m, i)
  }

  /** The place and the size of request `i` in the cut. */
  predicate Placed(u: Urb, i: nat) {
    u.offset == i * MAX_BULK_BUFFER_LENGTH && u.bufferLength <= MAX_BULK_BUFFER_LENGTH
  }

  lemma DeliverKeeps(m: Memory, u: Urb, i: nat, data: seq<byte>, transferred: nat, reaped: nat, submitted: nat)
    requires DataKept(m, transferred, reaped, submitted)
    requires reaped <= i < submitted && Placed(u, i) && CanWrite(m, u, i, data)
    ensures DataKept(Deliver(m, u, i, data), transferred, reaped, submitted)
  {
    var t := Deliver(m, u, i, data);
    assert t.filled[..reaped] == m.filled[..reaped];
    assert t.buffer[..transferred] == m.buffer[..transferred];
    forall j | reaped <= j < submitted ensures InPlace(t, j) {
      assert InPlace(m, j) && InPlace(m, i);
      DeliverOne(m, u, i, data, j);
    }
  }

  lemma DeliverOne(m: Memory, u: Urb, i: nat, data: seq<byte>, j: nat)
    requires Placed(u, i) && CanWrite(m, u, i, data) && InPlace(m, j) && InPlace(m, i)
    ensures InPlace(Deliver(m, u, i, data), j)
  {
    var at := u.offset + |m.filled[i]|;
    if j == i {
      SpliceBehind(m.buffer, u.offset, m.filled[i], data);
    } else {
      SpliceElsewhere(m.buffer, at, data, j * MAX_BULK_BUFFER_LENGTH, m.filled[j]);
    }
  }

  lemma SpliceBehind(buffer: seq<byte>, off: nat, was: seq<byte>, data: seq<byte>)
    requires Holds(buffer, off, was) && off + |was| + |data| <= |buffer|
    ensures Holds(Splice(buffer, off + |was|, data), off, was + data)
  {
    var t, end := Splice(buffer, off + |was|, data), off + |was|;
    assert t[off..end] == buffer[off..end];
    assert t[off..end + |data|] == t[off..end] + t[end..end + |data|];
  }

  lemma SpliceElsewhere(buffer: seq<byte>, at: nat, data: seq<byte>, off: nat, was: seq<byte>)
    requires Holds(buffer, off, was) && at + |data| <= |buffer|
    requires off + |was| <= at || at + |data| <= off
    ensures Holds(Splice(buffer, at, data), off, was)
  {
    assert Splice(buffer, at, data)[off..off + |was|] == buffer[off..off + |was|];
  }

  /** Moving the next request's data down to the end of the earlier data keeps everything: the
      target never reaches into a request that is still outstanding. */
  lemma MoveKeeps(m: Memory, transferred: nat, reaped: nat, submitted: nat)
    requires DataKept(m, transferred, reaped, submitted) && reaped < submitted
    ensures InPlace(m, reaped) && transferred + |m.filled[reaped]| <= |m.buffer|
    ensures var n := |m.filled[reaped]|;
            DataKept(m.(buffer := Move(m.buffer, transferred, reaped * MAX_BULK_BUFFER_LENGTH, n)),
                     transferred + n, reaped + 1, submitted)
  {
    assert InPlace(m, reaped);
    var from, n := reaped * MAX_BULK_BUFFER_LENGTH, |m.filled[reaped]|;
    var t := m.(buffer := Move(m.buffer, transferred, from, n));
    assert t.buffer[..transferred + n] == m.buffer[..transferred] + m.buffer[from..from + n];
    FlattenSnoc(m.filled, reaped);
    forall j | reaped + 1 <= j < submitted ensures InPlace(t, j) {
      assert InPlace(m, j);
      SpliceElsewhere(m.buffer, transferred, m.buffer[from..from + n], j * MAX_BULK_BUFFER_LENGTH, m.filled[j]);
    }
  }

  /** Without a hole, or without data, nothing needs to move. */
  lemma StayKeeps(m: Memory, transferred: nat, reaped: nat, submitted: nat)
    requires DataKept(m, transferred, reaped, submitted) && reaped < submitted
    requires transferred == reaped * MAX_BULK_BUFFER_LENGTH || m.filled[reaped] == []
    ensures DataKept(m, transferred + |m.filled[reaped]|, reaped + 1, submitted)
  {
    assert InPlace(m, reaped);
    var n := |m.filled[reaped]|;
    assert m.buffer[..transferred + n] == m.buffer[..transferred] + m.buffer[transferred..transferred + n];
    FlattenSnoc(m.filled, reaped);
  }

  // ---------------------------------------------------------------- steps of a transfer

  /** What the kernel may do at all: write into requests it holds, and give them back in order,
      with no more data than was asked for. */
  ghost predicate Possible(q: Request, x: Xfer, e: Event) {
    match e
    case KernelWrite(i, data) =>
      && q.isIn && x.c.reaped <= i < x.c.submitted == |q.urbs|
      && CanWrite(x.m, q.urbs[i], i, data)
    case Reap(st, actual) =>
      && x.c.reaped < x.c.submitted == |q.urbs|
      && actual <= q.urbs[x.c.reaped].bufferLength
      && x.c.transferred + actual <= |x.m.buffer|
      && q.urbs[x.c.reaped].offset + actual <= |x.m.buffer|
      && (q.isIn ==> x.c.reaped < |x.m.filled| && actual == |x.m.filled[x.c.reaped]|)
    case Cancel => true
    case Expire => true
  }

  ghost function Step(q: Request, x: Xfer, e: Event): Xfer
    requires Possible(q, x, e)
  {
    match e
    case KernelWrite(i, data) => x.(m := Deliver(x.m, q.urbs[i], i, data))
    case Reap(st, actual) =>
      var u := q.urbs[x.c.reaped];
      Xfer(OnReap(q, x.c, st, actual, actual < u.bufferLength),
           if x.c.action == Normal then x.m
           else x.m.(buffer := Move(x.m.buffer, x.c.transferred, u.offset, actual)))
    case Cancel => x.(c := OnCancel(q, x.c))
    case Expire => x.(c := OnCancel(q, x.c.(timedOut := true)))
  }

  /** Overflow is only ever reported for the last request. */
  ghost predicate OverflowIsLast(q: Request, c: Control, st: UrbStatus) {
    st == Overran && c.action == Normal ==> c.reaped == q.n - 1
  }

  /** In NORMAL mode no data arrives behind a hole. */
  ghost predicate NoDataBehindHole(c: Control, actual: nat) {
    c.action == Normal && c.transferred != c.reaped * MAX_BULK_BUFFER_LENGTH ==> actual == 0
  }

  /** What the code relies on. */
  ghost predicate Trusted(q: Request, x: Xfer, e: Event) {
    && Possible(q, x, e)
    && (e.Reap? ==> OverflowIsLast(q, x.c, e.st) && (q.isIn ==> NoDataBehindHole(x.c, e.actual)))
  }

  // ---------------------------------------------------------------- the invariant

  /** Who holds what: retired and outstanding requests together are all of them; the array lives
      exactly as long as the kernel holds a request; and a transfer that is being torn down has
      asked for every outstanding request back. A hole in NORMAL mode has its explanation. */
  ghost predicate Accounted(q: Request, c: Control) {
    && Cut(q.length, q.n) && c.reaped <= c.submitted <= q.n
    && c.transferred <= q.length && c.transferred <= c.reaped * MAX_BULK_BUFFER_LENGTH
    && c.numRetired + (c.submitted - c.reaped) == q.n
    && (c.live <==> c.reaped < c.submitted)
    && (if c.live then c.reports == []
        else |c.reports| == 1 && c.reports[0].actualLength == c.transferred)
    && (c.live && c.action == Normal ==> c.submitted == q.n)
    && (c.live && TearingDown(q, c) ==> From(c.reaped, c.submitted) <= c.asked)
    && (c.live && c.action == Normal && c.transferred != c.reaped * MAX_BULK_BUFFER_LENGTH ==> c.halted)
  }

  ghost predicate TearingDown(q: Request, c: Control) {
    || c.action in {SubmitFailed, Cancelled, Error}
    || c.halted
    || (c.action == CompletedEarly && c.submitted == q.n)
  }

  ghost predicate Inv(q: Request, x: Xfer) {
    && Accounted(q, x.c) && Table(q.length, q.n, q.urbs) && |q.urbs| == x.c.submitted
    && |x.m.buffer| == q.length && |x.m.filled| == q.n
    && (q.isIn ==> DataKept(x.m, x.c.transferred, x.c.reaped, x.c.submitted))
  }

  /** `c` after one more request has been counted as retired, before anything is decided. */
  ghost predicate Counted(q: Request, c: Control) {
    && Cut(q.length, q.n) && 1 <= c.reaped <= c.submitted <= q.n
    && c.transferred <= q.length && c.transferred <= c.reaped * MAX_BULK_BUFFER_LENGTH
    && c.numRetired + (c.submitted - c.reaped) == q.n
    && c.live && c.reports == []
    && (c.action == Normal ==> c.submitted == q.n)
  }

  lemma CancelRemainingAccounted(q: Request, c: Control)
    requires Counted(q, c) && (c.action == Normal ==> c.halted)
    ensures Accounted(q, CancelRemaining(q, c))
  {
    assert From(c.reaped, c.submitted) <= From(c.reaped, q.n);
  }

  lemma RetireNormalAccounted(q: Request, c: Control, st: UrbStatus, short: bool)
    requires Counted(q, c) && c.action == Normal && (st == Overran ==> c.reaped == q.n)
    requires c.halted ==> From(c.reaped, c.submitted) <= c.asked
    requires !c.halted && !short && c.reaped < q.n ==> c.transferred == c.reaped * MAX_BULK_BUFFER_LENGTH
    ensures Accounted(q, RetireNormal(q, c, st, short))
  {
    match st
    case Gone => CancelRemainingAccounted(q, c.(status := StatusNoDevice, halted := true));
    case Stalled => CancelRemainingAccounted(q, c.(status := Keep(c.status, StatusStall), halted := true));
    case Broken => CancelRemainingAccounted(q, c.(action := Error));
    case Overran =>
    case _ =>
      if short { CancelRemainingAccounted(q, c.(action := CompletedEarly)); }
  }

  lemma RetireSurplusAccounted(q: Request, c: Control)
    requires Counted(q, c) && c.action != Normal
    requires TearingDown(q, c) ==> From(c.reaped, c.submitted) <= c.asked
    ensures Accounted(q, RetireSurplus(q, c))
  {
  }

  lemma CountKeeps(q: Request, c: Control, actual: nat)
    requires Accounted(q, c) && c.reaped < c.submitted && actual <= UrbLength(q.length, q.n, c.reaped)
    ensures Counted(q, Count(c, actual))
    ensures TearingDown(q, c) ==> From(c.reaped + 1, c.submitted) <= c.asked
  {
    assert From(c.reaped + 1, c.submitted) <= From(c.reaped, c.submitted);
  }

  lemma ReapAccounted(q: Request, c: Control, st: UrbStatus, actual: nat)
    requires Accounted(q, c) && c.reaped < c.submitted
    requires actual <= UrbLength(q.length, q.n, c.reaped) && OverflowIsLast(q, c, st)
    ensures Accounted(q, OnReap(q, c, st, actual, actual < UrbLength(q.length, q.n, c.reaped)))
  {
    CountKeeps(q, c, actual);
    if c.action == Normal {
      RetireNormalAccounted(q, Count(c, actual), st, actual < UrbLength(q.length, q.n, c.reaped));
    } else {
      RetireSurplusAccounted(q, Count(c, actual));
    }
  }

  lemma CancelAccounted(q: Request, c: Control)
    requires Accounted(q, c)
    ensures Accounted(q, OnCancel(q, c))
  {
    assert From(c.reaped, c.submitted) <= From(0, q.n);
  }

  lemma ReapKeepsData(q: Request, x: Xfer, st: UrbStatus, actual: nat)
    requires Inv(q, x) && q.isIn && Trusted(q, x, Reap(st, actual))
    ensures var t := Step(q, x, Reap(st, actual));
            DataKept(t.m, x.c.transferred + actual, x.c.reaped + 1, x.c.submitted)
  {
    OffsetIs(q.length, q.n, q.urbs, x.c.reaped);
    if x.c.action == Normal {
      StayKeeps(x.m, x.c.transferred, x.c.reaped, x.c.submitted);
    } else {
      MoveKeeps(x.m, x.c.transferred, x.c.reaped, x.c.submitted);
    }
  }

  lemma ReapInv(q: Request, x: Xfer, st: UrbStatus, actual: nat)
    requires Inv(q, x) && Trusted(q, x, Reap(st, actual))
    ensures Inv(q, Step(q, x, Reap(st, actual)))
  {
    ReapAccounted(q, x.c, st, actual);
    if q.isIn { ReapKeepsData(q, x, st, actual); }
  }

  lemma StepInv(q: Request, x: Xfer, e: Event)
    requires Inv(q, x) && Trusted(q, x, e)
    ensures Inv(q, Step(q, x, e)) && Step(q, x, e).c.submitted == x.c.submitted
  {
    match e
    case KernelWrite(i, data) =>
      OffsetIs(q.length, q.n, q.urbs, i);
      DeliverKeeps(x.m, q.urbs[i], i, data, x.c.transferred, x.c.reaped, x.c.submitted);
    case Reap(st, actual) =>
      ReapInv(q, x, st, actual);
    case Cancel => CancelAccounted(q, x.c);
    case Expire => CancelAccounted(q, x.c.(timedOut := true));
  }

  /** No data for any of `n` requests. */
  function NothingYet(n: nat): (filled: seq<seq<byte>>)
    ensures |filled| == n && forall i :: 0 <= i < n ==> filled[i] == []
  {
    seq(n, (i: nat) => [])
  }

  /** The state right after a submission of which the kernel accepted `k` requests. */
  ghost predicate JustSubmitted(q: Request, x: Xfer, k: nat) {
    && Table(q.length, q.n, q.urbs) && 1 <= k == |q.urbs| <= q.n
    && |x.m.buffer| == q.length && x.m.filled == NothingYet(q.n)
    && x.c == Control(0, false, true, q.n - k, x.c.action, StatusCompleted, x.c.asked, [], k, 0, false)
    && (if k == q.n then x.c.action == Normal
        else x.c.action == CompletedEarly || (x.c.action == SubmitFailed && From(0, k) <= x.c.asked))
  }

  lemma SubmittedInv(q: Request, x: Xfer, k: nat)
    requires JustSubmitted(q, x, k)
    ensures Inv(q, x)
  {
    assert x.m.filled[..0] == [];
    assert forall i :: 0 <= i < k ==> x.m.filled[i] == [];
  }

  // ---------------------------------------------------------------- whole runs

  ghost predicate TrustedRun(q: Request, x: Xfer, es: seq<Event>)
    decreases |es|
  {
    es == [] || (Trusted(q, x, es[0]) && TrustedRun(q, Step(q, x, es[0]), es[1..]))
  }

  ghost function Run(q: Request, x: Xfer, es: seq<Event>): Xfer
    requires TrustedRun(q, x, es)
    decreases |es|
  {
    if es == [] then x else Run(q, Step(q, x, es[0]), es[1..])
  }

  lemma {:induction false} RunInv(q: Request, x: Xfer, es: seq<Event>)
    requires Inv(q, x) && TrustedRun(q, x, es)
    ensures Inv(q, Run(q, x, es)) && Run(q, x, es).c.submitted == x.c.submitted
    decreases |es|
  {
    if es != [] {
      StepInv(q, x, es[0]);
      RunInv(q, Step(q, x, es[0]), es[1..]);
    }
  }

  /** Over every run of an accepted transfer: retired plus outstanding is always all; the
      callback runs at most once, and exactly when the kernel holds nothing any more, which is
      also exactly when the URB array has been freed. */
  lemma ReportedExactlyOnce(q: Request, x: Xfer, k: nat, es: seq<Event>)
    requires JustSubmitted(q, x, k) && TrustedRun(q, x, es)
    ensures var c := Run(q, x, es).c;
            && c.numRetired + (k - c.reaped) == q.n
            && |c.reports| == (if c.reaped == k then 1 else 0)
            && (c.live <==> c.reaped < k)
  {
    SubmittedInv(q, x, k);
    RunInv(q, x, es);
  }

  /** Over every run of an accepted IN transfer: the first `transferred` bytes are the
      concatenation of what each reaped request delivered, and the report says how many. */
  lemma NothingLost(q: Request, x: Xfer, k: nat, es: seq<Event>)
    requires JustSubmitted(q, x, k) && q.isIn && TrustedRun(q, x, es)
    ensures var t := Run(q, x, es);
            && t.c.transferred <= q.length == |t.m.buffer| && t.c.reaped <= k <= |t.m.filled|
            && t.m.buffer[..t.c.transferred] == Flatten(t.m.filled[..t.c.reaped])
            && forall r :: r in t.c.reports ==> r.actualLength == |Flatten(t.m.filled[..k])|
  {
    SubmittedInv(q, x, k);
    RunInv(q, x, es);
  }

  // ---------------------------------------------------------------- where the trust is needed

  /** Reporting overflow before the last request frees the array under the kernel, and nothing
      else does: the array outlives the kernel's interest in it iff `OverflowIsLast`. */
  lemma FreedTooEarlyIff(q: Request, c: Control, st: UrbStatus, actual: nat)
    requires Accounted(q, c) && c.reaped < c.submitted && actual <= UrbLength(q.length, q.n, c.reaped)
    ensures var d := OnReap(q, c, st, actual, actual < UrbLength(q.length, q.n, c.reaped));
            (d.reaped < d.submitted ==> d.live) <==> OverflowIsLast(q, c, st)
  {
    if OverflowIsLast(q, c, st) {
      ReapAccounted(q, c, st, actual);
    }
  }

  /** With data behind a hole, the new bytes are whatever lay in the hole: the data is
      contiguous afterwards iff there is no such data, or the hole happened to hold the same bytes. */
  lemma ContiguousIff(q: Request, x: Xfer, st: UrbStatus, actual: nat)
    requires Inv(q, x) && q.isIn && Possible(q, x, Reap(st, actual))
    ensures var t, upTo := Step(q, x, Reap(st, actual)), x.c.transferred + actual;
            t.m.buffer[..upTo] == Flatten(t.m.filled[..x.c.reaped + 1]) <==>
            (NoDataBehindHole(x.c, actual)
             || x.m.buffer[x.c.transferred..upTo] == x.m.filled[x.c.reaped])
  {
    FlattenSnoc(x.m.filled, x.c.reaped);
    OffsetIs(q.length, q.n, q.urbs, x.c.reaped);
    if x.c.action != Normal {
      MoveKeeps(x.m, x.c.transferred, x.c.reaped, x.c.submitted);
    } else {
      StayedContiguousIff(x.m, x.c.transferred, x.c.reaped, x.c.submitted);
      if NoDataBehindHole(x.c, actual) {
        StayKeeps(x.m, x.c.transferred, x.c.reaped, x.c.submitted);
      }
    }
  }

  lemma StayedContiguousIff(m: Memory, transferred: nat, reaped: nat, submitted: nat)
    requires DataKept(m, transferred, reaped, submitted) && reaped < submitted
    requires transferred + |m.filled[reaped]| <= |m.buffer|
    ensures var upTo := transferred + |m.filled[reaped]|;
            m.buffer[..upTo] == Flatten(m.filled[..reaped]) + m.filled[reaped]
            <==> m.buffer[transferred..upTo] == m.filled[reaped]
  {
    var upTo, all := transferred + |m.filled[reaped]|, Flatten(m.filled[..reaped]) + m.filled[reaped];
    assert m.buffer[..upTo] == m.buffer[..transferred] + m.buffer[transferred..upTo];
    assert all[transferred..] == m.filled[reaped];
    assert m.buffer[..upTo][transferred..] == m.buffer[transferred..upTo];
  }

  /** The bytes between the data and the next request. */
  function HoleSize(c: Control): int { c.reaped * MAX_BULK_BUFFER_LENGTH - c.transferred }

  /** The same state with other bytes in the hole. */
  ghost function Refill(x: Xfer, hole: seq<byte>): Xfer
    requires x.c.transferred + |hole| <= |x.m.buffer|
  {
    x.(m := x.m.(buffer := Splice(x.m.buffer, x.c.transferred, hole)))
  }

  lemma RefillKeeps(q: Request, x: Xfer, st: UrbStatus, actual: nat, hole: seq<byte>)
    requires Inv(q, x) && q.isIn && Possible(q, x, Reap(st, actual)) && |hole| == HoleSize(x.c)
    ensures x.c.transferred + |hole| <= |x.m.buffer|
    ensures Inv(q, Refill(x, hole)) && Possible(q, Refill(x, hole), Reap(st, actual))
  {
    RefillKeepsData(x.m, x.c.transferred, x.c.reaped, x.c.submitted, hole);
  }

  lemma RefillKeepsData(m: Memory, transferred: nat, reaped: nat, submitted: nat, hole: seq<byte>)
    requires DataKept(m, transferred, reaped, submitted) && transferred + |hole| <= |m.buffer|
    requires transferred + |hole| <= reaped * MAX_BULK_BUFFER_LENGTH
    ensures DataKept(m.(buffer := Splice(m.buffer, transferred, hole)), transferred, reaped, submitted)
  {
    var t := m.(buffer := Splice(m.buffer, transferred, hole));
    assert t.buffer[..transferred] == m.buffer[..transferred];
    forall i | reaped <= i < submitted ensures InPlace(t, i) {
      assert InPlace(m, i);
      SpliceElsewhere(m.buffer, transferred, hole, i * MAX_BULK_BUFFER_LENGTH, m.filled[i]);
    }
  }

  /** With these bytes in the hole, all data is contiguous after the next request is reaped. */
  ghost predicate ContiguousWith(q: Request, x: Xfer, st: UrbStatus, actual: nat, hole: seq<byte>) {
    && x.c.transferred + |hole| <= |x.m.buffer| && x.c.reaped < |x.m.filled|
    && var y := Refill(x, hole);
       && Possible(q, y, Reap(st, actual))
       && Step(q, y, Reap(st, actual)).m.buffer[..x.c.transferred + actual] == Flatten(x.m.filled[..x.c.reaped + 1])
  }

  /** Whatever the hole holds, the data is contiguous afterwards: iff none arrives behind a hole in
      NORMAL mode. */
  lemma AlwaysContiguousIff(q: Request, x: Xfer, st: UrbStatus, actual: nat)
    requires Inv(q, x) && q.isIn && Possible(q, x, Reap(st, actual))
    ensures (forall hole: seq<byte> :: |hole| == HoleSize(x.c) ==> ContiguousWith(q, x, st, actual, hole))
            <==> NoDataBehindHole(x.c, actual)
  {
    if NoDataBehindHole(x.c, actual) {
      forall hole: seq<byte> | |hole| == HoleSize(x.c) ensures ContiguousWith(q, x, st, actual, hole) {
        GoodHole(q, x, st, actual, hole);
      }
    } else {
      var other: byte := if x.m.filled[x.c.reaped][0] == 0 then 1 else 0;
      var hole := seq(HoleSize(x.c), (i: int) => other);
      BadHole(q, x, st, actual, hole, other);
    }
  }

  lemma GoodHole(q: Request, x: Xfer, st: UrbStatus, actual: nat, hole: seq<byte>)
    requires Inv(q, x) && q.isIn && Possible(q, x, Reap(st, actual)) && |hole| == HoleSize(x.c)
    requires NoDataBehindHole(x.c, actual)
    ensures ContiguousWith(q, x, st, actual, hole)
  {
    RefillKeeps(q, x, st, actual, hole);
    ContiguousIff(q, Refill(x, hole), st, actual);
  }

  lemma BadHole(q: Request, x: Xfer, st: UrbStatus, actual: nat, hole: seq<byte>, other: byte)
    requires Inv(q, x) && q.isIn && Possible(q, x, Reap(st, actual)) && |hole| == HoleSize(x.c) > 0
    requires x.c.action == Normal && actual > 0 && hole[0] == other != x.m.filled[x.c.reaped][0]
    ensures !ContiguousWith(q, x, st, actual, hole)
  {
    RefillKeeps(q, x, st, actual, hole);
    var y, upTo := Refill(x, hole), x.c.transferred + actual;
    ContiguousIff(q, y, st, actual);
    assert y.m.buffer[x.c.transferred..upTo][0] == hole[0];
  }

  predicate TwoRequests(q: Request) {
    q.length == 2 * MAX_BULK_BUFFER_LENGTH && q.n == 2 && q.isIn && !q.interrupt && !q.shortNotOk
  }

  /** Two requests in flight, and the first one reports overflow: its report is the transfer's, and
      the array is freed with the second request still in the kernel. */
  lemma EarlyOverflowFrees(q: Request, x: Xfer)
    requires TwoRequests(q) && JustSubmitted(q, x, 2)
    ensures Possible(q, x, Reap(Overran, 0)) &&
            var c := Step(q, x, Reap(Overran, 0)).c;
            !c.live && c.reaped < c.submitted && |c.reports| == 1
  {
    OffsetIs(q.length, q.n, q.urbs, 0);
  }

  /** The smallest run that breaks it: request 0 stalls after one byte, request 1 still brings
      one. The caller is told of two bytes, but the second one never was on the wire. */
  lemma DataBehindHoleIsLost(q: Request, x: Xfer)
    requires TwoRequests(q) && JustSubmitted(q, x, 2) && x.m.buffer[1] == 0
    ensures Possible(q, x, KernelWrite(0, [5])) &&
            var x1 := Step(q, x, KernelWrite(0, [5]));
            Possible(q, x1, KernelWrite(1, [7])) &&
            var x2 := Step(q, x1, KernelWrite(1, [7]));
            Possible(q, x2, Reap(Stalled, 1)) &&
            var x3 := Step(q, x2, Reap(Stalled, 1));
            Possible(q, x3, Reap(Good, 1)) &&
            var x4 := Step(q, x3, Reap(Good, 1));
            && x4.c.reports == [Report(StatusStall, 2)]
            && x4.m.buffer[..2] == [5, 0] && Flatten(x4.m.filled) == [5, 7]
  {
    OffsetIs(q.length, q.n, q.urbs, 0);
    OffsetIs(q.length, q.n, q.urbs, 1);
    TwoBytesDelivered(x.m, q.urbs[0], q.urbs[1]);
    StallThenData(q, x.c);
  }

  lemma TwoBytesDelivered(m: Memory, u: Urb, v: Urb)
    requires |m.buffer| == 2 * MAX_BULK_BUFFER_LENGTH && m.filled == [[], []] && m.buffer[1] == 0
    requires u == Urb(0, MAX_BULK_BUFFER_LENGTH) && v == Urb(MAX_BULK_BUFFER_LENGTH, MAX_BULK_BUFFER_LENGTH)
    ensures var t := Deliver(Deliver(m, u, 0, [5]), v, 1, [7]);
            t.buffer[..2] == [5, 0] && t.filled == [[5], [7]] && Flatten(t.filled) == [5, 7]
  {
    var m1 := Deliver(m, u, 0, [5]);
    var t := Deliver(m1, v, 1, [7]);
    assert m1.buffer[0..1] == [5];
    assert t.buffer[..2] == [m1.buffer[0], m1.buffer[1]];
    TwoPieces(t.filled);
  }

  lemma TwoPieces(filled: seq<seq<byte>>)
    requires |filled| == 2 && filled[0] == [5] && filled[1] == [7]
    ensures filled == [[5], [7]] && Flatten(filled) == [5, 7]
  {
    FlattenSnoc(filled, 0);
    FlattenSnoc(filled, 1);
    assert filled[..2] == filled;
  }

  lemma StallThenData(q: Request, c: Control)
    requires TwoRequests(q)
    requires c == Control(0, false, true, 0, Normal, StatusCompleted, c.asked, [], 2, 0, false)
    ensures var d := OnReap(q, c, Stalled, 1, true);
            && d.action == Normal && d.transferred == 1 && d.reaped == 1 && d.submitted == 2
            && OnReap(q, d, Good, 1, true).reports == [Report(StatusStall, 2)]
  {
  }
}
