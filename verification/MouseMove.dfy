/**
 The SDK's relative mouse: a move is cut into random steps that fit one signed byte per axis, and
 the SDK keeps its own idea of where the pointer is.
 */
module MouseMove {
  import opened Bytes

  const RAND_MAX := 0x7FFFFFFF
  const HOME := 3000       // how far M_MoveTo goes to be sure to reach the origin

  /** C's (signed char) of a byte, and the byte that stands for a small number. */
  function Signed(b: byte): int { if b < 0x80 then b else b - 0x100 }

  function Unsigned(d: int): (b: byte)
    requires -0x80 <= d < 0x80
    ensures Signed(b) == d
  {
    if d < 0 then d + 0x100 else d
  }

  function Abs(x: int): nat { if x < 0 then -x else x }

  function AtLeast0(x: int): nat { if x < 0 then 0 else x }

  /** M_RandDomNbr: a number from `lo` up to, but not including, `hi`. */
  method RandDomNbr(lo: int, hi: int) returns (v: int)
    requires 0 <= lo && 0 < hi && lo != hi
    ensures lo < hi ==> lo <= v < hi
    ensures lo > hi ==> 0 <= v < hi
  {
    var min := if lo > hi then 0 else lo;
    var temp := hi - min;
    if temp >= RAND_MAX { temp := RAND_MAX - 1; }
    var rand: nat := *;
    v := rand % temp + min;
  }

  // ---------------------------------------------------------------- reports

  type Report = seq<byte>

  function Dx(r: Report): int { if |r| == 5 then Signed(r[2]) else 0 }

  function Dy(r: Report): int { if |r| == 5 then Signed(r[3]) else 0 }

  /** What becomes of a report: it is taken, it is refused, or it takes effect and only the answer is
      lost, which the SDK cannot tell from a refusal. */
  datatype Answer = Taken | Refused | Unheard

  datatype Sent = Sent(report: Report, answer: Answer)

  predicate AllTaken(steps: seq<Sent>) {
    forall i :: 0 <= i < |steps| ==> steps[i].answer == Taken
  }

  /** The last report was not taken, and all before it were. */
  predicate GaveUp(steps: seq<Sent>) {
    steps != [] && steps[|steps| - 1].answer != Taken && AllTaken(steps[..|steps| - 1])
  }

  /** What a move answers that sent these reports. */
  predicate Heard(steps: seq<Sent>, r: int) {
    (r == 0 && AllTaken(steps)) || (r == -1 && GaveUp(steps))
  }

  /** The devices' answers to the reports behind the first `n`. */
  ghost predicate AnswersAre(steps: seq<Sent>, answers: nat -> Answer, n: nat) {
    forall i :: 0 <= i < |steps| ==> steps[i].answer == answers(n + i)
  }

  function SumX(steps: seq<Sent>): int {
    if steps == [] then 0 else SumX(steps[..|steps| - 1]) + Dx(steps[|steps| - 1].report)
  }

  function SumY(steps: seq<Sent>): int {
    if steps == [] then 0 else SumY(steps[..|steps| - 1]) + Dy(steps[|steps| - 1].report)
  }

  /** One step along an axis on which `x` is to go: short enough, and never backwards. */
  predicate Along(d: int, x: int) {
    -126 <= d <= 126 && (x >= 0 ==> d >= 0) && (x <= 0 ==> d <= 0)
  }

  /** A mouse report of a move by (x, y) with the given buttons. */
  predicate StepReport(r: Report, buttons: byte, x: int, y: int) {
    && |r| == 5 && r[0] == 4 && r[1] == buttons && r[4] == 0
    && Along(Dx(r), x) && Along(Dy(r), y) && (Dx(r) != 0 || Dy(r) != 0)
  }

  predicate StepReports(steps: seq<Sent>, buttons: byte, x: int, y: int) {
    forall i :: 0 <= i < |steps| ==> StepReport(steps[i].report, buttons, x, y)
  }

  // ---------------------------------------------------------------- where the pointer is

  /** The edges of the screen stop the pointer. */
  function Stop(p: int, edge: nat): nat { if p < 0 then 0 else if p > edge then edge else p }

  /** Steps in one direction end where one long move does. */
  lemma StopInSteps(p: nat, edge: nat, done: int, d: int)
    requires p <= edge && ((done >= 0 && d >= 0) || (done <= 0 && d <= 0))
    ensures Stop(Stop(p + done, edge) + d, edge) == Stop(p + done + d, edge)
  {
  }

  /** Where the reports that were not refused have moved the pointer, along one axis. */
  function Arrived(p: nat, edge: nat, moves: seq<int>): nat {
    if moves == [] then p else Stop(Arrived(p, edge, moves[..|moves| - 1]) + moves[|moves| - 1], edge)
  }

  function MovesX(steps: seq<Sent>): (ms: seq<int>)
    ensures |ms| == |steps|
  {
    seq(|steps|, i requires 0 <= i < |steps| => if steps[i].answer == Refused then 0 else Dx(steps[i].report))
  }

  function MovesY(steps: seq<Sent>): (ms: seq<int>)
    ensures |ms| == |steps|
  {
    seq(|steps|, i requires 0 <= i < |steps| => if steps[i].answer == Refused then 0 else Dy(steps[i].report))
  }

  lemma {:induction false} ArrivedInTwo(p: nat, edge: nat, a: seq<int>, b: seq<int>)
    ensures Arrived(p, edge, a + b) == Arrived(Arrived(p, edge, a), edge, b)
    decreases |b|
  {
    if b == [] {
      assert a + b == a;
    } else {
      assert (a + b)[..|a + b| - 1] == a + b[..|b| - 1];
      ArrivedInTwo(p, edge, a, b[..|b| - 1]);
    }
  }

  /** The pointer is where the reports have moved it. */
  predicate Carried(s: State, e: Screen, steps: seq<Sent>, t: State) {
    t.px == Arrived(s.px, e.right, MovesX(steps)) && t.py == Arrived(s.py, e.bottom, MovesY(steps))
  }

  lemma CarriedInTwo(s: State, e: Screen, a: seq<Sent>, t: State, b: seq<Sent>, u: State)
    requires Carried(s, e, a, t) && Carried(t, e, b, u)
    ensures Carried(s, e, a + b, u)
  {
    assert MovesX(a + b) == MovesX(a) + MovesX(b) && MovesY(a + b) == MovesY(a) + MovesY(b);
    ArrivedInTwo(s.px, e.right, MovesX(a), MovesX(b));
    ArrivedInTwo(s.py, e.bottom, MovesY(a), MovesY(b));
  }

  /** The exchange of a move that answered `r`: its reports, with the device's answers, have brought the
      pointer from where it was in `s` to where it is in `t`. */
  ghost predicate Exchange(sent0: seq<Sent>, s: State, e: Screen, steps: seq<Sent>, answers: nat -> Answer,
                           sent: seq<Sent>, t: State, r: int) {
    sent == sent0 + steps && AnswersAre(steps, answers, |sent0|) && Carried(s, e, steps, t) && Heard(steps, r)
  }

  lemma ExchangeInTwo(sent0: seq<Sent>, s: State, e: Screen, a: seq<Sent>, answers: nat -> Answer,
                      sent: seq<Sent>, t: State, b: seq<Sent>, sent2: seq<Sent>, u: State, r: int)
    requires Exchange(sent0, s, e, a, answers, sent, t, 0) && Exchange(sent, t, e, b, answers, sent2, u, r)
    ensures Exchange(sent0, s, e, a + b, answers, sent2, u, r)
  {
    CarriedInTwo(s, e, a, t, b, u);
    HeardInTwo(a, b, r);
  }

  lemma HeardInTwo(a: seq<Sent>, b: seq<Sent>, r: int)
    requires AllTaken(a) && Heard(b, r)
    ensures Heard(a + b, r)
  {
    if r == -1 { assert (a + b)[..|a + b| - 1] == a + b[..|b| - 1]; }
  }

  /** The SDK's record (`known`, `x`, `y`) and the real pointer (`px`, `py`). */
  datatype State = State(known: bool, x: int, y: int, px: nat, py: nat)

  datatype Screen = Screen(right: nat, bottom: nat)

  predicate OnScreen(s: State, e: Screen) { s.px <= e.right && s.py <= e.bottom }

  /** What is recorded is where the pointer is. */
  predicate InSync(s: State) { s.x == s.px && s.y == s.py }

  /** All steps of a relative move arrived. */
  function Moved(s: State, e: Screen, x: int, y: int): State {
    State(s.known,
          if s.known then AtLeast0(s.x + x) else s.x,
          if s.known then AtLeast0(s.y + y) else s.y,
          Stop(s.px + x, e.right), Stop(s.py + y, e.bottom))
  }

  /** An absolute move: by way of the origin when the position is not known. */
  function MovedTo(s: State, e: Screen, x: nat, y: nat): State {
    var t := if s.known then Moved(s, e, x - s.x, y - s.y) else Moved(Moved(s, e, -HOME, -HOME), e, x, y);
    State(true, x, y, t.px, t.py)
  }

  datatype Command = MoveR(dx: int, dy: int) | MoveTo(x: int, y: int) | ResetMousePos

  /** One call: it does the whole move and answers 0, or it stops half way, answers -1 (a reset
      always answers 0), and knows that it has lost the position. */
  predicate Step(s: State, e: Screen, c: Command, t: State, r: int) {
    OnScreen(t, e) &&
    match c
    case MoveR(x, y) => (r == 0 && t == Moved(s, e, x, y)) || (r == -1 && !t.known)
    case MoveTo(x, y) =>
      if x < 0 || y < 0 then r == -1 && t == s
      else (r == 0 && t == MovedTo(s, e, x, y)) || (r == -1 && !t.known)
    case ResetMousePos => r == 0 && (t == MovedTo(s.(known := false), e, 0, 0) || !t.known)
  }

  /** What a call sends and what it answers: 0 if every report was taken, and otherwise it gives up at the
      first one that was not. A reset does not tell. */
  predicate Tells(c: Command, steps: seq<Sent>, t: State, r: int) {
    match c
    case MoveR(_, _) => Heard(steps, r)
    case MoveTo(x, y) => if x < 0 || y < 0 then steps == [] && r == -1 else Heard(steps, r)
    case ResetMousePos => r == 0 && Heard(steps, if t.known then 0 else -1)
  }

  /** From anywhere, 3000 to the left and then `x` to the right ends at `x`. */
  predicate Reaches(p: nat, edge: nat, x: nat) { x <= edge && (p <= HOME || x == edge) }

  /** The call asks for nothing beyond the screen, and the way by the origin is long enough. */
  predicate Fits(s: State, e: Screen, c: Command) {
    match c
    case MoveR(x, y) => s.known ==> s.px + x <= e.right && s.py + y <= e.bottom
    case MoveTo(x, y) =>
      x < 0 || y < 0 ||
      (if s.known then x <= e.right && y <= e.bottom
       else Reaches(s.px, e.right, x) && Reaches(s.py, e.bottom, y))
    case ResetMousePos => Reaches(s.px, e.right, 0) && Reaches(s.py, e.bottom, 0)
  }

  lemma ReachesIff(p: nat, edge: nat, x: nat)
    requires p <= edge
    ensures Stop(Stop(p - HOME, edge) + x, edge) == x <==> Reaches(p, edge, x)
  {
  }

  /** Exactly then the position that the SDK believes in after the call is the real one. */
  lemma StepSyncIff(s: State, e: Screen, c: Command, t: State, r: int)
    requires OnScreen(s, e) && (s.known ==> InSync(s)) && Step(s, e, c, t, r) && t.known
    ensures InSync(t) <==> Fits(s, e, c)
  {
    ReachesIff(s.px, e.right, 0);
    ReachesIff(s.py, e.bottom, 0);
    if c.MoveTo? && c.x >= 0 && c.y >= 0 {
      ReachesIff(s.px, e.right, c.x);
      ReachesIff(s.py, e.bottom, c.y);
    }
  }

  /** From 3500 pixels to the right, with no position known, M_MoveTo(0, 0) ends 500 pixels short of
      the origin, and claims to be there. */
  lemma TooFarForHome(t: State, r: int)
    requires Step(State(false, 0, 0, 3500, 0), Screen(4000, 4000), MoveTo(0, 0), t, r) && r == 0
    ensures t == State(true, 0, 0, 500, 0)
  {
  }

  // ---------------------------------------------------------------- the code

  /** Of what is still to go, at most a random 100 to 126. */
  method AxisStep(x: int) returns (b: byte)
    ensures Along(Signed(b), x) && Abs(x - Signed(b)) <= Abs(x) && (x != 0 ==> Signed(b) != 0)
    ensures (x >= 0 ==> x - Signed(b) >= 0) && (x <= 0 ==> x - Signed(b) <= 0)
    ensures Abs(Signed(b)) >= 100 || Signed(b) == x
  {
    var rnd := RandDomNbr(100, 127);
    var abs := Abs(x);
    if x == 0 {
      b := 0;
    } else if x > 0 {
      if rnd > abs { b := x; } else { b := rnd; }
    } else {
      if rnd > abs { b := Unsigned(x); } else { b := 0x100 - rnd; }
    }
  }

  lemma OneMove(p: nat, edge: nat, moves: seq<int>)
    requires |moves| == 1
    ensures Arrived(p, edge, moves) == Stop(p + moves[0], edge)
  {
    assert moves[..0] == [];
  }

  class Mouse {
    const screen: Screen
    const op: array<byte>        // CurrMouseOp
    var posX: int
    var posY: int
    var first: nat               // Mouse1stMovto
    ghost var px: nat            // the real pointer
    ghost var py: nat
    var sent: seq<Sent>          // the reports so far, with what became of each

    ghost function Now(): State
      reads this
    {
      State(first == 1, posX, posY, px, py)
    }

    /** Between calls the report holds the buttons and no move. */
    ghost predicate Valid()
      reads this, op
    {
      op.Length == 5 && first <= 1 && OnScreen(Now(), screen) && op[2] == op[3] == op[4] == 0
    }

    constructor (screen: Screen, px: nat, py: nat)
      requires px <= screen.right && py <= screen.bottom
      ensures Valid() && fresh(op) && first == 0 && sent == []
      ensures this.screen == screen && this.px == px && this.py == py
    {
      this.screen, this.px, this.py := screen, px, py;
      op := new byte[5](_ => 0);
      posX, posY, first, sent := 0, 0, 0, [];
    }

    /** HID_Ctrl_Comm with the report. */
    method Send(answer: Answer) returns (accepted: bool, ghost step: Sent)
      requires op.Length == 5 && OnScreen(Now(), screen)
      modifies `px, `py, `sent
      ensures OnScreen(Now(), screen) && step == Sent(op[..], answer) && sent == old(sent) + [step]
      ensures accepted <==> answer == Taken
      ensures Carried(old(Now()), screen, [step], Now())
    {
      var report := Sent(op[..], answer);
      step := report;
      if answer != Refused {
        px, py := Stop(px + Signed(op[2]), screen.right), Stop(py + Signed(op[3]), screen.bottom);
      }
      OneMove(old(px), screen.right, MovesX([step]));
      OneMove(old(py), screen.bottom, MovesY([step]));
      sent := sent + [report];
      accepted := answer == Taken;
    }

    method ClearMove()
      requires op.Length == 5
      modifies op
      ensures op[2] == op[3] == op[4] == 0 && op[0] == old(op[0]) && op[1] == old(op[1])
    {
      op[2] := 0;
      op[3] := 0;
      op[4] := 0;
    }

    method Track(x: int, y: int)
      modifies `posX, `posY
      ensures posX == (if first == 1 then AtLeast0(old(posX) + x) else old(posX))
      ensures posY == (if first == 1 then AtLeast0(old(posY) + y) else old(posY))
    {
      if first == 1 {
        posX, posY := posX + x, posY + y;
        if posX < 0 { posX := 0; }
        if posY < 0 { posY := 0; }
      }
    }

    /** One round of M_InternalMoveR's loop, with (x, y) still to go. */
    method OneStep(x: int, y: int, answer: Answer) returns (accepted: bool, nx: int, ny: int, ghost step: Sent)
      requires op.Length == 5 && OnScreen(Now(), screen) && op[4] == 0 && (x != 0 || y != 0)
      modifies op, `px, `py, `sent
      ensures OnScreen(Now(), screen) && op[4] == 0 && op[1] == old(op[1])
      ensures sent == old(sent) + [step] && StepReport(step.report, op[1], x, y) && step.answer == answer
      ensures nx == x - Dx(step.report) && ny == y - Dy(step.report)
      ensures Between(nx, x) && Between(ny, y)
      ensures (accepted <==> answer == Taken) && Carried(old(Now()), screen, [step], Now())
    {
      op[0] := 4;
      var stepX := AxisStep(x);
      op[2] := stepX;
      nx := x - Signed(op[2]);
      var stepY := AxisStep(y);
      op[3] := stepY;
      ny := y - Signed(op[3]);
      accepted, step := Send(answer);
    }

    /** The loop of M_InternalMoveR. It goes on as long as the device takes the reports. */
    method StepLoop(x0: int, y0: int, answers: nat -> Answer) returns (r: int, ghost steps: seq<Sent>)
      requires Valid()
      modifies op, `px, `py, `sent, `first
      ensures Valid() && op[1] == old(op[1]) && first == (if r == 0 then old(first) else 0)
      ensures Exchange(old(sent), old(Now()), screen, steps, answers, sent, Now(), r)
      ensures StepReports(steps, op[1], x0, y0) && (r == 0 ==> SumX(steps) == x0 && SumY(steps) == y0)
    {
      var x, y := x0, y0;
      steps := [];
      while x != 0 || y != 0
        invariant op.Length == 5 && first == old(first) && OnScreen(Now(), screen) && op[4] == 0 && op[1] == old(op[1])
        invariant Underway(old(sent), old(Now()), screen, op[1], x0, y0, answers, steps, sent, Now(), x, y)
        decreases Abs(x) + Abs(y)
      {
        ghost var sent0, s0 := sent, Now();
        ghost var step: Sent;
        var accepted: bool;
        var nx: int, ny: int;
        accepted, nx, ny, step := OneStep(x, y, answers(|sent|));
        UnderwayStep(old(sent), old(Now()), screen, op[1], x0, y0, answers, steps, sent0, s0, x, y, step, sent, Now());
        steps, x, y := steps + [step], nx, ny;
        if !accepted {
          first := 0;
          ClearMove();
          return -1, steps;
        }
      }
      ClearMove();
      r := 0;
    }

    /** M_InternalMoveR: the steps add up to (x, y), all go the right way, and the record follows. `answers`
        are the device's answers to all reports, from the first one on. */
    method InternalMoveR(x: int, y: int, answers: nat -> Answer) returns (r: int, ghost steps: seq<Sent>)
      requires Valid()
      modifies this, op
      ensures Valid() && op[1] == old(op[1])
      ensures Exchange(old(sent), old(Now()), screen, steps, answers, sent, Now(), r)
      ensures if r == 0 then Now() == Moved(old(Now()), screen, x, y) else first == 0
      ensures StepReports(steps, op[1], x, y) && (r == 0 ==> SumX(steps) == x && SumY(steps) == y)
    {
      Track(x, y);
      ghost var s := Now();
      r, steps := StepLoop(x, y, answers);
      if r == 0 { TakenArrives(s, screen, steps, Now(), op[1], x, y); }
    }

    /** M_MoveR */
    method MoveR(x: int, y: int, answers: nat -> Answer) returns (r: int, ghost steps: seq<Sent>)
      requires Valid()
      modifies this, op
      ensures Valid() && op[1] == old(op[1]) && sent == old(sent) + steps && AnswersAre(steps, answers, |old(sent)|)
      ensures Step(old(Now()), screen, Command.MoveR(x, y), Now(), r)
      ensures Tells(Command.MoveR(x, y), steps, Now(), r) && Carried(old(Now()), screen, steps, Now())
    {
      r, steps := InternalMoveR(x, y, answers);
      if r != 0 { return -1, steps; }
      r := 0;
    }

    /** M_MoveTo */
    method MoveTo(x: int, y: int, answers: nat -> Answer) returns (r: int, ghost steps: seq<Sent>)
      requires Valid()
      modifies this, op
      ensures Valid() && op[1] == old(op[1]) && sent == old(sent) + steps && AnswersAre(steps, answers, |old(sent)|)
      ensures Step(old(Now()), screen, Command.MoveTo(x, y), Now(), r)
      ensures Tells(Command.MoveTo(x, y), steps, Now(), r) && Carried(old(Now()), screen, steps, Now())
    {
      if x < 0 || y < 0 { return -1, []; }
      if first == 0 {
        r, steps := FromOrigin(x, y, answers);
      } else {
        r, steps := FromRecord(x, y, answers);
      }
      if r != 0 { return -1, steps; }
      posX, posY := AtLeast0(posX), AtLeast0(posY);
      r := 0;
    }

    /** M_MoveTo by way of the origin. */
    method FromOrigin(x: nat, y: nat, answers: nat -> Answer) returns (r: int, ghost steps: seq<Sent>)
      requires Valid() && first == 0
      modifies this, op
      ensures Valid() && op[1] == old(op[1])
      ensures Exchange(old(sent), old(Now()), screen, steps, answers, sent, Now(), r)
      ensures if r == 0 then Now() == MovedTo(old(Now()), screen, x, y) else first == 0
    {
      r, steps := InternalMoveR(-HOME, -HOME, answers);
      if r != 0 { return -1, steps; }
      ghost var there, sent1, more := Now(), sent, steps;
      r, more := InternalMoveR(x, y, answers);
      ExchangeInTwo(old(sent), old(Now()), screen, steps, answers, sent1, there, more, sent, Now(), r);
      steps := steps + more;
      if r != 0 { return -1, steps; }
      first := 1;
      posX, posY := x, y;
    }

    /** M_MoveTo from the recorded position. */
    method FromRecord(x: nat, y: nat, answers: nat -> Answer) returns (r: int, ghost steps: seq<Sent>)
      requires Valid() && first == 1
      modifies this, op
      ensures Valid() && op[1] == old(op[1])
      ensures Exchange(old(sent), old(Now()), screen, steps, answers, sent, Now(), r)
      ensures if r == 0 then Now() == MovedTo(old(Now()), screen, x, y) else first == 0
    {
      r, steps := InternalMoveR(x - posX, y - posY, answers);
      if r != 0 {
        first := 0;
        return -1, steps;
      }
      posX, posY := x, y;
    }

    /** M_ResetMousePos does not look at what the move answers. */
    method ResetMousePos(answers: nat -> Answer) returns (r: int, ghost steps: seq<Sent>)
      requires Valid()
      modifies this, op
      ensures Valid() && op[1] == old(op[1]) && sent == old(sent) + steps && AnswersAre(steps, answers, |old(sent)|)
      ensures Step(old(Now()), screen, Command.ResetMousePos, Now(), r)
      ensures Tells(Command.ResetMousePos, steps, Now(), r) && Carried(old(Now()), screen, steps, Now())
    {
      first := 0;
      var ignored;
      ignored, steps := MoveTo(0, 0, answers);
      r := 0;
    }
  }

  /** `x` lies between 0 and `x0`. */
  predicate Between(x: int, x0: int) {
    (x0 >= 0 ==> 0 <= x <= x0) && (x0 <= 0 ==> x0 <= x <= 0)
  }

  /** Of a move by (x0, y0), the steps so far leave (x, y). */
  predicate Progress(steps: seq<Sent>, buttons: byte, x0: int, y0: int, x: int, y: int) {
    && StepReports(steps, buttons, x0, y0) && SumX(steps) == x0 - x && SumY(steps) == y0 - y
    && Between(x, x0) && Between(y, y0)
  }

  lemma ProgressStep(steps: seq<Sent>, buttons: byte, x0: int, y0: int, x: int, y: int, step: Sent)
    requires Progress(steps, buttons, x0, y0, x, y) && StepReport(step.report, buttons, x, y)
    requires Between(x - Dx(step.report), x) && Between(y - Dy(step.report), y)
    ensures Progress(steps + [step], buttons, x0, y0, x - Dx(step.report), y - Dy(step.report))
    ensures Abs(x - Dx(step.report)) + Abs(y - Dy(step.report)) < Abs(x) + Abs(y)
  {
    SumSnoc(steps, step);
    AxisProgress(x0, x, Dx(step.report));
    AxisProgress(y0, y, Dy(step.report));
  }

  lemma AxisProgress(x0: int, x: int, d: int)
    requires Between(x, x0) && Between(x - d, x) && Along(d, x)
    ensures Between(x - d, x0) && Along(d, x0) && Abs(x - d) + Abs(d) == Abs(x)
  {
  }

  lemma SumSnoc(steps: seq<Sent>, step: Sent)
    ensures SumX(steps + [step]) == SumX(steps) + Dx(step.report)
    ensures SumY(steps + [step]) == SumY(steps) + Dy(step.report)
  {
    assert (steps + [step])[..|steps|] == steps;
  }

  /** The steps so far, all of them taken, have brought the mouse from `s0` to `s`. */
  ghost predicate Underway(sent0: seq<Sent>, s0: State, e: Screen, buttons: byte, x0: int, y0: int,
                           answers: nat -> Answer, steps: seq<Sent>, sent: seq<Sent>, s: State, x: int, y: int) {
    && sent == sent0 + steps && AnswersAre(steps, answers, |sent0|) && AllTaken(steps)
    && Carried(s0, e, steps, s) && Progress(steps, buttons, x0, y0, x, y)
  }

  lemma UnderwayStep(sent0: seq<Sent>, s0: State, e: Screen, buttons: byte, x0: int, y0: int,
                     answers: nat -> Answer, steps: seq<Sent>, sent: seq<Sent>, s: State, x: int, y: int,
                     step: Sent, sent2: seq<Sent>, s2: State)
    requires Underway(sent0, s0, e, buttons, x0, y0, answers, steps, sent, s, x, y)
    requires sent2 == sent + [step] && Carried(s, e, [step], s2) && step.answer == answers(|sent|)
    requires StepReport(step.report, buttons, x, y)
    requires Between(x - Dx(step.report), x) && Between(y - Dy(step.report), y)
    ensures sent2 == sent0 + (steps + [step]) && AnswersAre(steps + [step], answers, |sent0|)
    ensures Carried(s0, e, steps + [step], s2)
    ensures Progress(steps + [step], buttons, x0, y0, x - Dx(step.report), y - Dy(step.report))
    ensures Abs(x - Dx(step.report)) + Abs(y - Dy(step.report)) < Abs(x) + Abs(y)
    ensures if step.answer == Taken then AllTaken(steps + [step]) else GaveUp(steps + [step])
  {
    ProgressStep(steps, buttons, x0, y0, x, y, step);
    CarriedInTwo(s0, e, steps, s, [step], s2);
    assert (steps + [step])[..|steps|] == steps;
  }

  /** Steps that were all taken and never turn back bring the pointer as far as one long move. */
  lemma TakenArrives(s: State, e: Screen, steps: seq<Sent>, t: State, buttons: byte, x: int, y: int)
    requires OnScreen(s, e) && AllTaken(steps) && Carried(s, e, steps, t) && StepReports(steps, buttons, x, y)
    ensures t.px == Stop(s.px + SumX(steps), e.right) && t.py == Stop(s.py + SumY(steps), e.bottom)
  {
    ArrivedX(s.px, e.right, steps, buttons, x, y);
    ArrivedY(s.py, e.bottom, steps, buttons, x, y);
  }

  lemma {:induction false} ArrivedX(p: nat, edge: nat, steps: seq<Sent>, buttons: byte, x: int, y: int)
    requires p <= edge && AllTaken(steps) && StepReports(steps, buttons, x, y)
    ensures Arrived(p, edge, MovesX(steps)) == Stop(p + SumX(steps), edge)
    ensures (x >= 0 ==> SumX(steps) >= 0) && (x <= 0 ==> SumX(steps) <= 0)
    decreases |steps|
  {
    if steps != [] {
      var before := steps[..|steps| - 1];
      ArrivedX(p, edge, before, buttons, x, y);
      assert MovesX(steps)[..|before|] == MovesX(before);
      StopInSteps(p, edge, SumX(before), Dx(steps[|before|].report));
    }
  }

  lemma {:induction false} ArrivedY(p: nat, edge: nat, steps: seq<Sent>, buttons: byte, x: int, y: int)
    requires p <= edge && AllTaken(steps) && StepReports(steps, buttons, x, y)
    ensures Arrived(p, edge, MovesY(steps)) == Stop(p + SumY(steps), edge)
    ensures (y >= 0 ==> SumY(steps) >= 0) && (y <= 0 ==> SumY(steps) <= 0)
    decreases |steps|
  {
    if steps != [] {
      var before := steps[..|steps| - 1];
      ArrivedY(p, edge, before, buttons, x, y);
      assert MovesY(steps)[..|before|] == MovesY(before);
      StopInSteps(p, edge, SumY(before), Dy(steps[|before|].report));
    }
  }
}
