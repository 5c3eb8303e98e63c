/**
 Runs of the SDK's mouse that mix relative moves, absolute moves by steps and absolute moves by
 reports. They share one record of the position, in the handle; the methods of both mice are proved
 against the relations that make up a call here.
 */
module MouseRuns {
  import opened MouseMove
  import C = MouseCurve

  /** A call, with the reports that went out and what it answered. */
  datatype Call =
    | Steps(command: Command, steps: seq<Sent>, result: int)
    | MoveTo3(dest: C.Point, orders: seq<C.Order>, result: int)

  /** The host's display has `cx` by `cy` pixels, and the SDK has been told so (M_ResolutionUsed). */
  datatype World = World(display: C.Display, cx: nat, cy: nat)

  ghost predicate Real(w: World) { C.Shows(w.display, w.cx, w.cy) }

  function Edges(w: World): Screen
    requires w.cx > 0 && w.cy > 0
  {
    Screen(w.cx - 1, w.cy - 1)
  }

  /** The part of the handle that absolute moves know. */
  function AsHandle(s: State): C.Handle {
    C.Handle(if s.known then 1 else 0, C.Point(s.x, s.y), C.Point(s.px, s.py))
  }

  predicate Does(w: World, s: State, c: Call, t: State)
    requires w.cx > 0 && w.cy > 0
  {
    match c
    case Steps(command, steps, r) =>
      Step(s, Edges(w), command, t, r) && Tells(command, steps, t, r) && Carried(s, Edges(w), steps, t)
    case MoveTo3(dest, orders, r) => C.MoveTo3Step(w.display, w.cx, w.cy, AsHandle(s), dest, orders, r, AsHandle(t))
  }

  /** The call cannot lose the pointer. A goal that M_MoveTo3 refuses changes nothing. */
  predicate Fits(w: World, s: State, c: Call)
    requires w.cx > 0 && w.cy > 0
  {
    match c
    case Steps(command, _, _) => MouseMove.Fits(s, Edges(w), command)
    case MoveTo3(dest, orders, _) =>
      C.Refusal(w.cx, w.cy, dest) != 0
      || (orders != [] && C.EndsWell(w.display, w.cx, w.cy, C.Point(s.px, s.py), orders))
  }

  /** The pointer is on the display, and a position that is claimed is the real one. */
  predicate Right(w: World, s: State)
    requires w.cx > 0 && w.cy > 0
  {
    OnScreen(s, Edges(w)) && (s.known ==> InSync(s))
  }

  lemma PointerStaysOn(w: World, s: State, c: Call, t: State)
    requires Real(w) && OnScreen(s, Edges(w)) && Does(w, s, c, t)
    ensures OnScreen(t, Edges(w))
  {
    if c.MoveTo3? && C.Refusal(w.cx, w.cy, c.dest) == 0 {
      OrdersStayOn(w, C.Point(s.px, s.py), c.orders);
    }
  }

  lemma {:induction false} OrdersStayOn(w: World, p: C.Point, orders: seq<C.Order>)
    requires Real(w) && C.OnDisplay(p, w.cx, w.cy)
    ensures C.OnDisplay(C.PointerAfter(w.display, p, orders), w.cx, w.cy)
  {
    if orders != [] { OrdersStayOn(w, p, orders[..|orders| - 1]); }
  }

  /** After any call that claims to know the position, record and pointer agree iff the call fitted. */
  lemma CallSyncIff(w: World, s: State, c: Call, t: State)
    requires Real(w) && Right(w, s) && Does(w, s, c, t) && t.known
    ensures InSync(t) <==> Fits(w, s, c)
  {
    match c
    case Steps(command, steps, r) => StepSyncIff(s, Edges(w), command, t, r);
    case MoveTo3(dest, orders, r) =>
      if C.Refusal(w.cx, w.cy, dest) == 0 {
        C.RecordRightIff(w.display, w.cx, w.cy, AsHandle(s), dest, orders, r, AsHandle(t));
      }
  }

  ghost predicate Trace(w: World, states: seq<State>, calls: seq<Call>) {
    && Real(w) && |states| == |calls| + 1
    && forall i :: 0 <= i < |calls| ==> Does(w, states[i], calls[i], states[i + 1])
  }

  /** Over whole runs that mix all commands, failed calls included: a position that is claimed is right
      as long as every call fits. */
  lemma {:induction false} RunInSync(w: World, states: seq<State>, calls: seq<Call>, n: nat)
    requires Trace(w, states, calls) && n <= |calls| && Right(w, states[0])
    requires forall i :: 0 <= i < n ==> Fits(w, states[i], calls[i])
    ensures Right(w, states[n])
  {
    if n > 0 {
      RunInSync(w, states, calls, n - 1);
      PointerStaysOn(w, states[n - 1], calls[n - 1], states[n]);
      if states[n].known { CallSyncIff(w, states[n - 1], calls[n - 1], states[n]); }
    }
  }

  /** The first call of a run that does not fit, and yet claims to know the position, is wrong. */
  lemma FirstMisfitIsWrong(w: World, states: seq<State>, calls: seq<Call>, n: nat)
    requires Trace(w, states, calls) && n < |calls| && Right(w, states[0])
    requires forall i :: 0 <= i < n ==> Fits(w, states[i], calls[i])
    requires !Fits(w, states[n], calls[n]) && states[n + 1].known
    ensures !InSync(states[n + 1])
  {
    RunInSync(w, states, calls, n);
    CallSyncIff(w, states[n], calls[n], states[n + 1]);
  }

  /** M_GetCurrMousePos: the record, if there is one. After a run in which every call fitted, that is
      where the pointer is. */
  method GetCurrMousePos(m: Mouse, ghost w: World, ghost states: seq<State>, ghost calls: seq<Call>)
    returns (r: int, x: int, y: int)
    requires m.Valid() && Trace(w, states, calls) && states[|calls|] == m.Now()
    requires OnScreen(states[0], Edges(w)) && !states[0].known
    ensures r == (if m.first == 1 then 0 else -1)
    ensures r == 0 ==> x == m.posX && y == m.posY
    ensures r == 0 && (forall i :: 0 <= i < |calls| ==> Fits(w, states[i], calls[i])) ==> x == m.px && y == m.py
  {
    if forall i :: 0 <= i < |calls| ==> Fits(w, states[i], calls[i]) {
      RunInSync(w, states, calls, |calls|);
    }
    if m.first == 0 { return -1, 0, 0; }
    return 0, m.posX, m.posY;
  }

  /** A failed M_MoveTo3 misleads the M_MoveTo after it: the first order from (0, 0) to (10, 0) is
      refused, and the way to (20, 0), which succeeds, then ends at (10, 0). */
  lemma RefusalMisleadsMoveTo(w: World, states: seq<State>, calls: seq<Call>)
    requires Trace(w, states, calls) && |calls| == 2 && w.cx == w.cy == 1000
    requires states[0] == State(true, 0, 0, 0, 0)
    requires calls[0].MoveTo3? && calls[0].dest == C.Point(10, 0)
    requires calls[0].orders != [] && calls[0].orders[0].answer == Refused
    requires calls[1].Steps? && calls[1].command == MoveTo(20, 0) && AllTaken(calls[1].steps)
    ensures calls[0].result == -1 && calls[1].result == 0 && states[2] == State(true, 20, 0, 10, 0)
  {
    assert Does(w, states[0], calls[0], states[1]) && Does(w, states[1], calls[1], states[2]);
    C.RefusedOrderIsClaimed(w.display, calls[0].orders, calls[0].result, AsHandle(states[1]));
  }
}
