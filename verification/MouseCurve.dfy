/**
 The SDK's absolute mouse: a move goes along a curve, whose floating-point shape may be anything,
 and is sent as a series of absolute positions, scaled to 15 bits.
 */
module MouseCurve {
  import opened Bytes
  import opened MouseMove

  const HW_MAX_RES := 0x7FFF
  const MIN_STEP := 100

  datatype Point = Point(x: int, y: int)

  // ---------------------------------------------------------------- absolute positions

  /** C's division of an `int`, which truncates. */
  function Truncated(a: int, b: int): int
    requires b > 0
  {
    if a >= 0 then a / b else -(-a / b)
  }

  /** A coordinate scaled to the device's range. What is negative after an overflow is huge in the
      unsigned sum, and so capped as well. */
  function Scaled(v: nat, size: nat, fact: nat): (t: nat)
    requires size > 0
    ensures t <= HW_MAX_RES
  {
    var t := Truncated(Int32(HW_MAX_RES * v), size) + fact;
    if t < 0 || t > HW_MAX_RES then HW_MAX_RES else t
  }

  /** A quarter of a pixel's width, added to both coordinates. */
  function Fact(cx: int): (f: nat)
    requires cx > 0
    ensures f <= HW_MAX_RES
  {
    HW_MAX_RES / cx / 4
  }

  function Word(lo: byte, hi: byte): nat { lo + 0x100 * hi }

  /** The two words that stand for a position; (0, 0) is avoided where `fact` lets it. */
  function Words(p: Point, cx: int, cy: int): (w: (nat, nat))
    requires cx > 0 && cy > 0 && p.x >= 0 && p.y >= 0
  {
    var fact := Fact(cx);
    var tx, ty := Scaled(p.x, cx, fact), Scaled(p.y, cy, fact);
    (tx, if tx == 0 && ty == 0 then fact else ty)
  }

  predicate InProportion(v: int, size: int, q: nat) { size * q <= 32767 * v < size * q + size }

  /** A word is 32767 for `size` pixels, in proportion and rounded down, and `fact` more, but not above. */
  ghost predicate AtScale(w: nat, v: int, size: int, fact: nat) {
    exists q: nat :: InProportion(v, size, q) && w == if q + fact > 32767 then 32767 else q + fact
  }

  /** The first word stands for the column, the second for the row. */
  lemma WordsAreScaled(p: Point, cx: int, cy: int)
    requires 0 <= p.x < cx <= 0x1_0000 && 0 <= p.y < cy <= 0x1_0000
    ensures AtScale(Words(p, cx, cy).0, p.x, cx, 32767 / cx / 4)
    ensures AtScale(Words(p, cx, cy).1, p.y, cy, 32767 / cx / 4)
  {
    ScaledAt(p.x, cx, Fact(cx));
    ScaledAt(p.y, cy, Fact(cx));
    AtLeastFact(p.x, cx, Fact(cx));
  }

  lemma ScaledAt(v: nat, size: nat, fact: nat)
    requires v < size <= 0x1_0000 && fact <= HW_MAX_RES
    ensures AtScale(Scaled(v, size, fact), v, size, fact)
  {
    var q: nat := HW_MAX_RES * v / size;
    Proportion(v, size, q);
    ScaledIs(v, size, fact);
    QuotientAtScale(v, size, fact, q, Scaled(v, size, fact));
  }

  lemma Proportion(v: nat, size: nat, q: nat)
    requires size > 0 && q == 32767 * v / size
    ensures InProportion(v, size, q)
  {
    QuotientBounds(32767 * v, size, q);
  }

  lemma QuotientAtScale(v: nat, size: nat, fact: nat, q: nat, w: nat)
    requires InProportion(v, size, q) && w == if q + fact > 32767 then 32767 else q + fact
    ensures AtScale(w, v, size, fact)
  {
  }

  type AbsReport = r: seq<byte> | |r| == 7 witness [6, 0, 0, 0, 0, 0, 0]

  /** The words that a report carries. */
  function WordsOf(r: AbsReport): (nat, nat) { (Word(r[2], r[3]), Word(r[4], r[5])) }

  /** The bytes of a report: each word least significant byte first. */
  predicate SaysInBytes(r: AbsReport, w: (nat, nat)) {
    r == [6, 0, w.0 % 256, w.0 / 256, w.1 % 256, w.1 / 256, 0]
  }

  /** An absolute report with the words of this position. */
  predicate Places(r: AbsReport, p: Point, cx: int, cy: int)
    requires cx > 0 && cy > 0 && p.x >= 0 && p.y >= 0
  {
    r[0] == 6 && r[1] == 0 && r[6] == 0 && WordsOf(r) == Words(p, cx, cy)
  }

  lemma WordRange(r: AbsReport, p: Point, cx: int, cy: int)
    requires cx > 0 && cy > 0 && p.x >= 0 && p.y >= 0 && Places(r, p, cx, cy)
    ensures WordsOf(r).0 <= HW_MAX_RES && WordsOf(r).1 <= HW_MAX_RES
  {
  }

  /** The detour for (0, 0) never helps: it puts `fact` in the place of zero only when `fact` is
      zero. A report is not (0, 0) exactly when the screen is narrow enough for `fact`, or the
      position is far enough from a corner. */
  lemma NotBothZeroIff(r: AbsReport, p: Point, cx: int, cy: int)
    requires 0 <= p.x < cx && 0 <= p.y < cy && Places(r, p, cx, cy)
    ensures WordsOf(r) != (0, 0) <==>
            cx <= HW_MAX_RES / 4 || Abs(Int32(HW_MAX_RES * p.x)) >= cx || Abs(Int32(HW_MAX_RES * p.y)) >= cy
  {
    DivDiv(cx);
    if Fact(cx) > 0 {
      NoOverflow(p.x);
      QuotientSign(HW_MAX_RES * p.x, cx);
    } else {
      QuotientSign(Int32(HW_MAX_RES * p.x), cx);
      QuotientSign(Int32(HW_MAX_RES * p.y), cy);
    }
  }

  lemma NoOverflow(v: nat)
    requires v <= 0x1_0000
    ensures Int32(HW_MAX_RES * v) == HW_MAX_RES * v
  {
  }

  lemma ScaledIs(v: nat, size: nat, fact: nat)
    requires size > 0 && v <= 0x1_0000
    ensures var t := HW_MAX_RES * v / size + fact; Scaled(v, size, fact) == if t > HW_MAX_RES then HW_MAX_RES else t
  {
    NoOverflow(v);
  }

  lemma QuotientSign(a: int, b: int)
    requires b > 0
    ensures Truncated(a, b) == 0 <==> Abs(a) < b
    ensures a >= 0 ==> Truncated(a, b) >= 0
  {
    if Abs(a) >= b { DivGrows(b, Abs(a), b); }
  }

  /** On a screen of 8192 pixels or more, a move to the corner is sent as (0, 0) after all. */
  lemma CornerIsZero(r: AbsReport, cy: int)
    requires cy > 0 && Places(r, Point(0, 0), 8192, cy)
    ensures WordsOf(r) == (0, 0)
  {
    NotBothZeroIff(r, Point(0, 0), 8192, cy);
  }

  /** The quotients of two numbers are ordered like the numbers. */
  lemma DivGrows(a: nat, b: nat, d: nat)
    requires d > 0 && a <= b
    ensures a / d <= b / d
  {
    QuotientsOrdered(a / d, b / d, d, a, b);
  }

  lemma QuotientsOrdered(p: nat, q: nat, d: nat, a: nat, b: nat)
    requires d * p <= a <= b < d * q + d
    ensures p <= q
  {
    MulGrows(d, q + 1, p);
  }

  lemma MulGrows(d: nat, a: nat, b: nat)
    ensures a <= b ==> d * a <= d * b
  {
  }

  lemma DivDiv(cx: nat)
    requires cx > 0
    ensures HW_MAX_RES / cx / 4 > 0 <==> cx <= HW_MAX_RES / 4
  {
    var q := HW_MAX_RES / cx;
    assert q * cx <= HW_MAX_RES < q * cx + cx;
    FourTimes(q, cx);
  }

  lemma FourTimes(q: nat, cx: nat)
    requires q * cx <= HW_MAX_RES < q * cx + cx
    ensures q >= 4 <==> cx <= HW_MAX_RES / 4
  {
    MulGrows(cx, 4, q);
    MulGrows(cx, q + 1, 4);
  }

  /** Different pixels of a screen that the device can resolve get different positions, in order. */
  lemma PixelsStayApart(v: nat, w: nat, size: nat, fact: nat)
    requires v < w < size <= HW_MAX_RES && fact <= HW_MAX_RES / size
    ensures Scaled(v, size, fact) < Scaled(w, size, fact)
  {
    ScaledIs(v, size, fact);
    ScaledIs(w, size, fact);
    QuotientsApart(HW_MAX_RES * v, HW_MAX_RES * w, size);
  }

  lemma QuotientsApart(m: nat, n: nat, size: nat)
    requires size > 0 && m + size <= n && n + HW_MAX_RES <= HW_MAX_RES * size
    ensures m / size < n / size && n / size + HW_MAX_RES / size <= HW_MAX_RES
  {
    QuotientGrows(m, n, size);
    QuotientBounds(n, size, n / size);
    QuotientBounds(HW_MAX_RES, size, HW_MAX_RES / size);
    RoomAtTheTop(n, n / size, HW_MAX_RES / size, size);
  }

  lemma QuotientBounds(n: nat, d: nat, q: nat)
    requires d > 0 && q == n / d
    ensures d * q <= n < d * q + d
  {
  }

  lemma StepsApart(m: nat, n: nat, a: nat, b: nat, size: nat)
    requires size * a <= m && m + size <= n && n < size * b + size
    ensures a < b
  {
    MulGrows(size, b, a);
  }

  lemma RoomAtTheTop(n: nat, b: nat, unit: nat, size: nat)
    requires size > 0 && size * b <= n && size * unit <= HW_MAX_RES && n + HW_MAX_RES <= HW_MAX_RES * size
    ensures b + unit <= HW_MAX_RES
  {
    MulGrows(size, HW_MAX_RES + 1, b + unit);
  }

  // ---------------------------------------------------------------- the display

  /** Where the host puts the pointer when it receives two words. */
  type Display = (nat, nat) -> Point

  predicate OnDisplay(p: Point, cx: int, cy: int) { 0 <= p.x < cx && 0 <= p.y < cy }

  /** Where a report puts the pointer. */
  function Shown(d: Display, r: AbsReport): Point { d(WordsOf(r).0, WordsOf(r).1) }

  /** The host puts the pointer on this pixel when it receives the words that stand for it. */
  predicate Hits(d: Display, p: Point, cx: int, cy: int)
    requires OnDisplay(p, cx, cy)
  {
    d(Words(p, cx, cy).0, Words(p, cx, cy).1) == p
  }

  /** A display of `cx` by `cy` pixels: the pointer never leaves them, and it is put on each of them by
      the words that stand for it. */
  ghost predicate Shows(d: Display, cx: int, cy: int) {
    && cx > 0 && cy > 0
    && (forall a: nat, b: nat :: OnDisplay(d(a, b), cx, cy))
    && (forall p: Point :: OnDisplay(p, cx, cy) ==> Hits(d, p, cx, cy))
  }

  /** What the resolution must be for that: neither side is finer than the device, and `fact`, which is
      made for the width, does not push the last but one row to the end of the scale. */
  predicate Resolves(cx: int, cy: int)
    requires cx > 0 && cy > 0
  {
    cx <= HW_MAX_RES && cy <= HW_MAX_RES && (cy == 1 || HW_MAX_RES * (cy - 2) / cy + Fact(cx) < HW_MAX_RES)
  }

  /** A host can tell all pixels apart by the words that stand for them iff the resolution is such. */
  lemma DisplayIff(cx: int, cy: int)
    requires cx > 0 && cy > 0
    ensures (exists d: Display :: Shows(d, cx, cy)) <==> Resolves(cx, cy)
  {
    if Resolves(cx, cy) {
      forall p: Point | OnDisplay(p, cx, cy) ensures Hits(DisplayFor(cx, cy), p, cx, cy) {
        FoundAgain(p, cx, cy);
      }
      assert Shows(DisplayFor(cx, cy), cx, cy);
    } else {
      var p, q := Confused(cx, cy);
      forall d: Display ensures !Shows(d, cx, cy) {
        SameWordsSamePixel(d, p, q, cx, cy);
      }
    }
  }

  lemma SameWordsSamePixel(d: Display, p: Point, q: Point, cx: int, cy: int)
    requires OnDisplay(p, cx, cy) && OnDisplay(q, cx, cy) && Words(p, cx, cy) == Words(q, cx, cy)
    ensures Shows(d, cx, cy) ==> p == q
  {
    if Shows(d, cx, cy) { assert Hits(d, p, cx, cy) && Hits(d, q, cx, cy); }
  }

  predicate StandsFor(p: Point, a: nat, b: nat, cx: int, cy: int) {
    OnDisplay(p, cx, cy) && Words(p, cx, cy) == (a, b)
  }

  /** A host that puts the pointer on a pixel that the words stand for. */
  ghost function PixelOf(a: nat, b: nat, cx: int, cy: int): (p: Point)
    requires cx > 0 && cy > 0
    ensures OnDisplay(p, cx, cy)
    ensures (exists q :: StandsFor(q, a, b, cx, cy)) ==> StandsFor(p, a, b, cx, cy)
  {
    if exists q :: StandsFor(q, a, b, cx, cy) then
      var q :| StandsFor(q, a, b, cx, cy); q
    else Point(0, 0)
  }

  ghost function DisplayFor(cx: int, cy: int): Display
    requires cx > 0 && cy > 0
  {
    (a: nat, b: nat) => PixelOf(a, b, cx, cy)
  }

  lemma FoundAgain(p: Point, cx: int, cy: int)
    requires OnDisplay(p, cx, cy) && Resolves(cx, cy)
    ensures Hits(DisplayFor(cx, cy), p, cx, cy)
  {
    var w := Words(p, cx, cy);
    assert StandsFor(p, w.0, w.1, cx, cy);
    WordsApart(p, PixelOf(w.0, w.1, cx, cy), cx, cy);
  }

  lemma WordsApart(p: Point, q: Point, cx: int, cy: int)
    requires OnDisplay(p, cx, cy) && OnDisplay(q, cx, cy) && Resolves(cx, cy)
    ensures Words(p, cx, cy) == Words(q, cx, cy) ==> p == q
  {
    var fact := Fact(cx);
    NoDetour(p, cx, cy);
    NoDetour(q, cx, cy);
    if p.x < q.x { PixelsStayApart(p.x, q.x, cx, fact); }
    if q.x < p.x { PixelsStayApart(q.x, p.x, cx, fact); }
    if p.y < q.y { RowsStayApart(p.y, q.y, cy, fact); }
    if q.y < p.y { RowsStayApart(q.y, p.y, cy, fact); }
  }

  /** On such a screen the detour for (0, 0) changes nothing. */
  lemma NoDetour(p: Point, cx: int, cy: int)
    requires OnDisplay(p, cx, cy) && Resolves(cx, cy)
    ensures Words(p, cx, cy) == (Scaled(p.x, cx, Fact(cx)), Scaled(p.y, cy, Fact(cx)))
  {
    AtLeastFact(p.x, cx, Fact(cx));
  }

  lemma AtLeastFact(v: nat, size: nat, fact: nat)
    requires size > 0 && v <= 0x1_0000 && fact <= HW_MAX_RES
    ensures Scaled(v, size, fact) >= fact
  {
    ScaledIs(v, size, fact);
    DivGrows(0, HW_MAX_RES * v, size);
  }

  lemma RowsStayApart(v: nat, w: nat, size: nat, fact: nat)
    requires v < w < size <= HW_MAX_RES && HW_MAX_RES * (size - 2) / size + fact < HW_MAX_RES
    ensures Scaled(v, size, fact) < Scaled(w, size, fact)
  {
    ScaledIs(v, size, fact);
    ScaledIs(w, size, fact);
    QuotientGrows(HW_MAX_RES * v, HW_MAX_RES * w, size);
    DivGrows(HW_MAX_RES * v, HW_MAX_RES * (size - 2), size);
  }

  lemma QuotientGrows(m: nat, n: nat, size: nat)
    requires size > 0 && m + size <= n
    ensures m / size < n / size
  {
    QuotientBounds(m, size, m / size);
    QuotientBounds(n, size, n / size);
    StepsApart(m, n, m / size, n / size, size);
  }

  /** Two pixels with the same words. */
  lemma Confused(cx: int, cy: int) returns (p: Point, q: Point)
    requires cx > 0 && cy > 0 && !Resolves(cx, cy)
    ensures OnDisplay(p, cx, cy) && OnDisplay(q, cx, cy) && p != q && Words(p, cx, cy) == Words(q, cx, cy)
  {
    if cx > HW_MAX_RES {
      FirstTwoEqual(cx, Fact(cx));
      p, q := Point(0, 0), Point(1, 0);
    } else if cy > HW_MAX_RES {
      FirstTwoEqual(cy, Fact(cx));
      p, q := Point(0, 0), Point(0, 1);
    } else {
      LastTwoEqual(cy, Fact(cx));
      p, q := Point(0, cy - 2), Point(0, cy - 1);
    }
  }

  lemma FirstTwoEqual(size: nat, fact: nat)
    requires size > HW_MAX_RES
    ensures Scaled(0, size, fact) == Scaled(1, size, fact)
  {
    ScaledIs(0, size, fact);
    ScaledIs(1, size, fact);
    BelowOne(0, size);
    BelowOne(HW_MAX_RES, size);
  }

  lemma BelowOne(n: nat, size: nat)
    requires n < size
    ensures n / size == 0
  {
  }

  lemma LastTwoEqual(size: nat, fact: nat)
    requires 2 <= size <= HW_MAX_RES && HW_MAX_RES * (size - 2) / size + fact >= HW_MAX_RES
    ensures Scaled(size - 2, size, fact) == Scaled(size - 1, size, fact)
  {
    ScaledIs(size - 2, size, fact);
    ScaledIs(size - 1, size, fact);
    DivGrows(HW_MAX_RES * (size - 2), HW_MAX_RES * (size - 1), size);
  }

  // ---------------------------------------------------------------- what a move sends

  /** One absolute report, and the position that it was made from. */
  datatype Order = Order(at: Point, report: AbsReport, answer: Answer)

  /** Where the pointer is after these orders: where the last one that was not refused puts it. */
  function PointerAfter(d: Display, p: Point, orders: seq<Order>): Point {
    if orders == [] then p
    else
      var last := orders[|orders| - 1];
      if last.answer == Refused then PointerAfter(d, p, orders[..|orders| - 1]) else Shown(d, last.report)
  }

  lemma PointerSnoc(d: Display, p: Point, orders: seq<Order>, o: Order)
    ensures PointerAfter(d, p, orders + [o])
         == if o.answer == Refused then PointerAfter(d, p, orders) else Shown(d, o.report)
  {
    assert (orders + [o])[..|orders|] == orders;
  }

  function Main(p: Point, alongX: bool): int { if alongX then p.x else p.y }

  function Minor(p: Point, alongX: bool): int { if alongX then p.y else p.x }

  function At(main: int, minor: int, alongX: bool): Point {
    if alongX then Point(main, minor) else Point(minor, main)
  }

  predicate Sound(o: Order, cx: int, cy: int)
    requires cx > 0 && cy > 0
  {
    o.at.x >= 0 && o.at.y >= 0 && Places(o.report, o.at, cx, cy)
  }

  predicate AllSound(orders: seq<Order>, cx: int, cy: int)
    requires cx > 0 && cy > 0
  {
    forall i :: 0 <= i < |orders| ==> Sound(orders[i], cx, cy)
  }

  /** Of a move that answered `r`: all orders were taken, or all but the last. */
  predicate Answered(orders: seq<Order>, r: int) {
    && orders != [] && (r == 0 <==> orders[|orders| - 1].answer == Taken)
    && forall i :: 0 <= i < |orders| - 1 ==> orders[i].answer == Taken
  }

  /** A step from `a` to `b`: to `dest` itself, or towards it along the main axis, by 50 at least. */
  predicate Nearer(a: Point, b: Point, dest: Point, alongX: bool) {
    var before, after := Main(dest, alongX) - Main(a, alongX), Main(dest, alongX) - Main(b, alongX);
    b == dest || (Between(after, before) && Abs(after) + 50 <= Abs(before))
  }

  function LastAt(start: Point, orders: seq<Order>): Point {
    if orders == [] then start else orders[|orders| - 1].at
  }

  predicate Approaches(start: Point, orders: seq<Order>, dest: Point, alongX: bool) {
    orders != [] ==>
      var before := orders[..|orders| - 1];
      Approaches(start, before, dest, alongX) && Nearer(LastAt(start, before), LastAt(start, orders), dest, alongX)
  }

  lemma ApproachesStep(start: Point, orders: seq<Order>, o: Order, dest: Point, alongX: bool)
    requires Approaches(start, orders, dest, alongX) && Nearer(LastAt(start, orders), o.at, dest, alongX)
    ensures Approaches(start, orders + [o], dest, alongX)
  {
    assert (orders + [o])[..|orders|] == orders;
  }

  // ---------------------------------------------------------------- the code

  /** C's conversion of an int to a signed char. */
  function SignedChar(n: int): int { Signed(n % 0x100) }

  /** How far the next step may go; at most 100 pixels are gone in one. */
  method StepSize(dis: int) returns (rnd: int)
    requires dis != 0
    ensures Abs(dis) <= MIN_STEP ==> rnd >= Abs(dis)
    ensures Abs(dis) > MIN_STEP ==> 50 <= rnd < Abs(dis)
    ensures rnd < 0x100
  {
    var abs := Abs(dis);
    if abs < MIN_STEP * 2 && abs > MIN_STEP {
      rnd := RandDomNbr(abs / 2, abs / 2 + MIN_STEP / 2);
    } else {
      rnd := RandDomNbr(MIN_STEP, MIN_STEP + 27);
    }
  }

  /** At most 126 pixels at a time. */
  function Limit(d: int): int { if d > 126 then 126 else if d < -126 then -126 else d }

  /** And not beyond the screen's left or upper edge. */
  function Kept(pos: int, d: int): int { if pos + d < 0 then -pos else d }

  /** One step on the curve, from (pos, minor), with `dis` to go along the main axis. Where the
      curve is after it (`curve`) may be anything. */
  method CurveStep(dis: int, rnd: int, prev: int, minorPrev: int, pos: int, minor: int)
    returns (mov: int, minorMov: int, cur: int, minorCur: int)
    requires Abs(dis) > MIN_STEP && 50 <= rnd < Abs(dis) && pos >= 0 && pos + dis >= 0 && minor >= 0
    ensures -126 <= mov <= 126 && Abs(mov) >= 50 && Between(dis - mov, dis) && dis != mov && pos + mov >= 0
    ensures -126 <= minorMov <= 126 && minor + minorMov >= 0
    ensures cur == prev + mov && minorCur == minorPrev + minorMov
  {
    cur := if dis > 0 then prev + rnd else prev - rnd;
    var curve: int := *;
    minorCur := curve;
    mov := Limit(cur - prev);
    minorMov := Limit(minorCur - minorPrev);
    mov, minorMov := Kept(pos, mov), Kept(minor, minorMov);
    cur, minorCur := prev + mov, minorPrev + minorMov;
  }

  /** C's conversion of an `int` to a 64-bit `unsigned long`. */
  function UnsignedLong(x: int): (u: nat)
    ensures 0 <= x < 0x1_0000_0000_0000_0000 ==> u == x
    ensures -WORD <= x < 0 ==> u > HW_MAX_RES
  {
    x % 0x1_0000_0000_0000_0000
  }

  lemma TruncatedShrinks(a: int, b: int)
    requires b > 0
    ensures Abs(Truncated(a, b)) <= Abs(a)
  {
    var n: nat := Abs(a);
    assert n / b * b <= n;
    MulGrows(n / b, 1, b);
  }

  /** temp1, or temp2, before the cap. */
  method Coordinate(v: nat, size: nat, fact: nat) returns (t: nat)
    requires size > 0 && fact <= HW_MAX_RES
    ensures (if t > HW_MAX_RES then HW_MAX_RES else t) == Scaled(v, size, fact)
  {
    var product := Int32(HW_MAX_RES * v);
    TruncatedShrinks(product, size);
    t := UnsignedLong(Truncated(product, size) + fact);
  }

  /** The report of M_InternalMoveTo3. */
  method AbsoluteReport(p: Point, cx: int, cy: int) returns (cmd: AbsReport)
    requires cx > 0 && cy > 0 && p.x >= 0 && p.y >= 0
    ensures Places(cmd, p, cx, cy)
    ensures SaysInBytes(cmd, Words(p, cx, cy))
  {
    var fact := Fact(cx);
    var temp1 := Coordinate(p.x, cx, fact);
    if temp1 > HW_MAX_RES { temp1 := HW_MAX_RES; }
    var temp2 := Coordinate(p.y, cy, fact);
    if temp1 == 0 && temp2 == 0 { temp2 := fact; }
    if temp2 > HW_MAX_RES { temp2 := HW_MAX_RES; }
    cmd := TwoWords(temp1, temp2);
  }

  lemma BytesOf(a: nat)
    requires a <= HW_MAX_RES
    ensures a / 0x100 % 0x100 == a / 0x100 && Word(a % 0x100, a / 0x100) == a
  {
  }

  method TwoWords(a: nat, b: nat) returns (cmd: AbsReport)
    requires a <= HW_MAX_RES && b <= HW_MAX_RES
    ensures cmd[0] == 6 && cmd[1] == 0 && cmd[6] == 0 && WordsOf(cmd) == (a, b) && SaysInBytes(cmd, (a, b))
  {
    BytesOf(a);
    BytesOf(b);
    cmd := [6, 0, a % 0x100, a / 0x100 % 0x100, b % 0x100, b / 0x100 % 0x100, 0];
  }

  lemma SmallSignedChar(n: int)
    requires -0x80 <= n < 0x80
    ensures SignedChar(n) == n
  {
  }

  /** What is still to go, as the loop keeps it, is the distance; along the minor axis the last,
      straight step may lose count. */
  predicate Left(dest: Point, p: Point, alongX: bool, left: int, minorLeft: int) {
    && left == Main(dest, alongX) - Main(p, alongX)
    && (left == 0 ==> p == dest)
    && (left != 0 ==> minorLeft == Minor(dest, alongX) - Minor(p, alongX))
  }

  /** One round of the loop in M_MoveTo3, which the source writes once for each main axis: where the
      next position is, and what is left then. */
  method Round(alongX: bool, dest: Point, p: Point, dis: int, minorDis: int, prev: int, minorPrev: int)
    returns (next: Point, left: int, minorLeft: int, mov: int, cur: int, minorCur: int)
    requires dest.x >= 0 && dest.y >= 0 && p.x >= 0 && p.y >= 0
    requires dis != 0 && Left(dest, p, alongX, dis, minorDis)
    ensures next.x >= 0 && next.y >= 0 && mov != 0 && Left(dest, next, alongX, left, minorLeft)
    ensures if Abs(dis) <= MIN_STEP then left == 0
            else left != 0 && Between(left, dis) && Abs(left) + 50 <= Abs(dis)
  {
    var rnd := StepSize(dis);
    var minorMov: int;
    if rnd >= Abs(dis) {
      mov, minorMov, cur, minorCur := dis, minorDis, prev, minorPrev;
      next := dest;
    } else {
      var pos, minor := Main(p, alongX), Minor(p, alongX);
      mov, minorMov, cur, minorCur := CurveStep(dis, rnd, prev, minorPrev, pos, minor);
      next := At(pos + mov, minor + minorMov, alongX);
      SmallSignedChar(minorMov);
    }
    SmallSignedChar(mov);
    left, minorLeft := dis - SignedChar(mov), minorDis - SignedChar(minorMov);
  }

  /** `orders` have been sent after `before`, each with its answer, and have moved the pointer from
      `from` to where it is. */
  ghost predicate Ordered(d: Display, before: seq<Order>, from: Point, orders: seq<Order>,
                          answers: nat -> Answer, sent: seq<Order>, pointer: Point) {
    && sent == before + orders && pointer == PointerAfter(d, from, orders)
    && forall i :: 0 <= i < |orders| ==> orders[i].answer == answers(|before| + i)
  }

  /** Of the handle, what an absolute move can change, and the real pointer. */
  datatype Handle = Handle(first: nat, pos: Point, pointer: Point)

  class AbsMouse {
    ghost const display: Display
    var posX: int
    var posY: int
    var first: nat
    var cx: int
    var cy: int
    var sent: seq<Order>
    ghost var pointer: Point

    ghost predicate Valid()
      reads this
    {
      cx >= 0 && cy >= 0 && first <= 1 && (first == 1 ==> posX >= 0 && posY >= 0)
    }

    function Pos(): Point
      reads this
    {
      Point(posX, posY)
    }

    ghost function Now(): Handle
      reads this
    {
      Handle(first, Pos(), pointer)
    }

    constructor (ghost display: Display, ghost pointer: Point)
      ensures Valid() && first == 0 && sent == [] && this.display == display && this.pointer == pointer
    {
      posX, posY, first, cx, cy, sent := 0, 0, 0, 0, 0, [];
      this.display, this.pointer := display, pointer;
    }

    /** M_ResolutionUsed */
    method ResolutionUsed(x: int, y: int) returns (r: int)
      requires Valid()
      modifies `cx, `cy
      ensures Valid()
      ensures r == (if x < 0 || y < 0 then -1 else if x == 0 || y == 0 then -2 else 0)
      ensures if r == 0 then cx == x && cy == y else cx == old(cx) && cy == old(cy)
    {
      if x < 0 || y < 0 { return -1; }
      if x <= 0 || y <= 0 { return -2; }
      cx, cy := x, y;
      r := 0;
    }

    /** M_InternalMoveTo3. `answers` is what becomes of each report, from the first one on. */
    method InternalMoveTo3(x: int, y: int, answers: nat -> Answer) returns (r: int, ghost o: Order)
      requires Valid() && cx > 0 && cy > 0 && x >= 0 && y >= 0
      modifies `posX, `posY, `first, `sent, `pointer
      ensures Valid() && sent == old(sent) + [o] && Sound(o, cx, cy) && o.at == Point(x, y)
      ensures o.answer == answers(|old(sent)|) && pointer == PointerAfter(display, old(pointer), [o])
      ensures r == (if o.answer == Taken then 0 else -1)
      ensures if r == 0 then first == 1 && Pos() == o.at else first == old(first) && Pos() == old(Pos())
    {
      var cmd := AbsoluteReport(Point(x, y), cx, cy);
      var order := Order(Point(x, y), cmd, answers(|sent|));
      o := order;
      PointerSnoc(display, pointer, [], o);
      assert [] + [o] == [o];
      sent := sent + [order];
      if order.answer != Refused { pointer := Shown(display, order.report); }
      if order.answer != Taken { return -1, o; }
      first, posX, posY := 1, x, y;
      r := 0;
    }

    /** The rest of a round: the position is recorded, and then sent. */
    method Go(p: Point, answers: nat -> Answer) returns (r: int, ghost o: Order)
      requires Valid() && first == 1 && cx > 0 && cy > 0 && p.x >= 0 && p.y >= 0
      modifies `posX, `posY, `first, `sent, `pointer
      ensures Valid() && first == 1 && Pos() == p && pointer == PointerAfter(display, old(pointer), [o])
      ensures sent == old(sent) + [o] && Sound(o, cx, cy) && o.at == p && r == (if o.answer == Taken then 0 else -1)
      ensures o.answer == answers(|old(sent)|)
    {
      posX, posY := p.x, p.y;
      r, o := InternalMoveTo3(posX, posY, answers);
    }

    /** One round of the loop of M_MoveTo3. */
    method CurveRound(alongX: bool, dest: Point, dis: int, minorDis: int, prev: int, minorPrev: int,
                      answers: nat -> Answer)
      returns (r: int, left: int, minorLeft: int, mov: int, cur: int, minorCur: int, ghost o: Order)
      requires Valid() && first == 1 && cx > 0 && cy > 0 && dest.x >= 0 && dest.y >= 0
      requires dis != 0 && Left(dest, Pos(), alongX, dis, minorDis)
      modifies `posX, `posY, `first, `sent, `pointer
      ensures Valid() && first == 1 && Pos() == o.at && pointer == PointerAfter(display, old(pointer), [o])
      ensures sent == old(sent) + [o] && Sound(o, cx, cy) && r == (if o.answer == Taken then 0 else -1)
      ensures o.answer == answers(|old(sent)|) && mov != 0 && Left(dest, o.at, alongX, left, minorLeft)
      ensures left == 0 || (Between(left, dis) && Abs(left) + 50 <= Abs(dis))
    {
      var next: Point;
      next, left, minorLeft, mov, cur, minorCur := Round(alongX, dest, Pos(), dis, minorDis, prev, minorPrev);
      r, o := Go(next, answers);
    }

    /** The loop of M_MoveTo3. It comes nearer with every order, and ends at `dest`; at most every
        fiftieth pixel takes an order, and one more. */
    method CurveLoop(alongX: bool, dest: Point, dis0: int, minorDis0: int, answers: nat -> Answer)
      returns (r: int, minorDis: int, ghost orders: seq<Order>)
      requires Valid() && first == 1 && cx > 0 && cy > 0 && dest.x >= 0 && dest.y >= 0
      requires dis0 != 0 && Left(dest, Pos(), alongX, dis0, minorDis0)
      modifies `posX, `posY, `first, `sent, `pointer
      ensures Valid() && first == 1 && AllSound(orders, cx, cy)
      ensures Ordered(display, old(sent), old(pointer), orders, answers, sent, pointer)
      ensures Answered(orders, r) && Pos() == LastAt(old(Pos()), orders) && (r == 0 ==> Pos() == dest)
      ensures (r == 0 || r == -1) && Approaches(old(Pos()), orders, dest, alongX)
      ensures 50 * (|orders| - 1) <= Abs(Main(dest, alongX) - Main(old(Pos()), alongX))
    {
      ghost var start := Pos();
      var dis, prev, minorPrev := dis0, 0, 0;
      minorDis, orders := minorDis0, [];
      while Abs(dis) != 0
        invariant Valid() && first == 1 && Left(dest, Pos(), alongX, dis, minorDis)
        invariant AllSound(orders, cx, cy) && Travelled(start, orders, dest, Pos(), alongX, dis)
        invariant Ordered(display, old(sent), old(pointer), orders, answers, sent, pointer)
        decreases Abs(dis)
      {
        var left: int, mov: int;
        ghost var p, sent0, pointer0 := Pos(), sent, pointer;
        ghost var o: Order;
        r, left, minorDis, mov, prev, minorPrev, o := CurveRound(alongX, dest, dis, minorDis, prev, minorPrev, answers);
        TravelStep(start, orders, dest, p, alongX, dis, o, left);
        SoundStep(orders, o, cx, cy);
        OrderedStep(display, old(sent), old(pointer), orders, answers, sent0, pointer0, o, sent, pointer);
        dis, orders := left, orders + [o];
        if r != 0 { return -1, minorDis, orders; }
        if Abs(mov) == 0 { break; }
      }
      r := 0;
    }

    /** The curve of M_MoveTo3, and the order for what it left undone. */
    method Curve(alongX: bool, dest: Point, answers: nat -> Answer) returns (r: int, ghost orders: seq<Order>)
      requires Valid() && first == 1 && cx > 0 && cy > 0 && dest.x >= 0 && dest.y >= 0
      requires Main(dest, alongX) != Main(Pos(), alongX)
      modifies `posX, `posY, `first, `sent, `pointer
      ensures Valid() && first == 1 && AllSound(orders, cx, cy)
      ensures Ordered(display, old(sent), old(pointer), orders, answers, sent, pointer)
      ensures Answered(orders, r) && Pos() == LastAt(old(Pos()), orders) && (r == 0 ==> Pos() == dest)
      ensures (r == 0 || r == -1) && Approaches(old(Pos()), orders, dest, alongX)
      ensures 50 * (|orders| - 2) <= Abs(Main(dest, alongX) - Main(old(Pos()), alongX))
    {
      ghost var start := Pos();
      var dis, minorDis := Main(dest, alongX) - Main(Pos(), alongX), Minor(dest, alongX) - Minor(Pos(), alongX);
      r, minorDis, orders := CurveLoop(alongX, dest, dis, minorDis, answers);
      if r == 0 && minorDis != 0 {
        ghost var o: Order;
        ghost var sent0, pointer0 := sent, pointer;
        r, o := InternalMoveTo3(dest.x, dest.y, answers);
        OneMoreOrder(start, orders, o, dest, alongX, cx, cy);
        OrderedStep(display, old(sent), old(pointer), orders, answers, sent0, pointer0, o, sent, pointer);
        orders := orders + [o];
      }
    }

    /** M_MoveTo3 from a recorded position. */
    method MoveFromHere(x: int, y: int, answers: nat -> Answer) returns (r: int, ghost orders: seq<Order>)
      requires Valid() && first == 1 && cx > 0 && cy > 0 && x >= 0 && y >= 0
      modifies `posX, `posY, `first, `sent, `pointer
      ensures Valid() && first == 1 && AllSound(orders, cx, cy)
      ensures Ordered(display, old(sent), old(pointer), orders, answers, sent, pointer)
      ensures Answered(orders, r) && Pos() == LastAt(old(Pos()), orders) && (r == 0 ==> Pos() == Point(x, y))
      ensures (r == 0 || r == -1) && OnTheWay(old(Pos()), orders, Point(x, y))
    {
      var xDis, yDis := x - posX, y - posY;
      if xDis == 0 && yDis == 0 {
        ghost var o: Order;
        r, o := InternalMoveTo3(x, y, answers);
        OneOrderOnTheSpot(o);
        orders := [o];
      } else {
        r, orders := Curve(Abs(xDis) >= Abs(yDis), Point(x, y), answers);
      }
    }

    /** M_MoveTo3, as `MoveTo3Step` says. */
    method MoveTo3(x: int, y: int, answers: nat -> Answer) returns (r: int, ghost orders: seq<Order>)
      requires Valid()
      modifies `posX, `posY, `first, `sent, `pointer
      ensures Valid() && Ordered(display, old(sent), old(pointer), orders, answers, sent, pointer)
      ensures MoveTo3Step(display, cx, cy, old(Now()), Point(x, y), orders, r, Now())
    {
      orders := [];
      if x < 0 || y < 0 { return -1, []; }
      if cx == 0 || cy == 0 { return -3, []; }
      if x >= cx || y >= cy { return -4, []; }
      if first == 0 {
        ghost var o: Order;
        r, o := InternalMoveTo3(x, y, answers);
        orders := [o];
      } else {
        r, orders := MoveFromHere(x, y, answers);
      }
    }
  }

  // ---------------------------------------------------------------- what a move means

  /** Why M_MoveTo3 refuses a position, or 0. */
  function Refusal(cx: int, cy: int, dest: Point): int {
    if dest.x < 0 || dest.y < 0 then -1
    else if cx == 0 || cy == 0 then -3
    else if dest.x >= cx || dest.y >= cy then -4
    else 0
  }

  /** One call of M_MoveTo3: a refused position changes nothing. Otherwise, whatever the curve, all
      reports are sound, and the state afterwards is as `Moves` says. */
  predicate MoveTo3Step(d: Display, cx: int, cy: int, s: Handle, dest: Point, orders: seq<Order>, r: int, t: Handle)
    requires cx >= 0 && cy >= 0
  {
    if Refusal(cx, cy, dest) != 0 then r == Refusal(cx, cy, dest) && orders == [] && t == s
    else AllSound(orders, cx, cy) && Moves(d, s, dest, orders, r, t)
  }

  /** A move to `dest`: it succeeds iff all its orders are taken, and then ends there. From a recorded
      position it comes nearer along the longer axis with every order, and the record is that of the
      last order, taken or not. Without one there is just one order, and a failure records nothing. */
  predicate Moves(d: Display, s: Handle, dest: Point, orders: seq<Order>, r: int, t: Handle) {
    && (r == 0 || r == -1) && Answered(orders, r) && t.pointer == PointerAfter(d, s.pointer, orders)
    && (r == 0 ==> t.first == 1 && t.pos == dest == LastAt(s.pos, orders))
    && (if s.first == 1 then t.first == 1 && t.pos == LastAt(s.pos, orders) && OnTheWay(s.pos, orders, dest)
        else |orders| == 1 && orders[0].at == dest && (r == -1 ==> t.first == s.first && t.pos == s.pos))
  }

  /** Along the longer axis the orders come nearer and nearer, so there are not too many. */
  predicate OnTheWay(start: Point, orders: seq<Order>, dest: Point) {
    var alongX := Abs(dest.x - start.x) >= Abs(dest.y - start.y);
    && Approaches(start, orders, dest, alongX)
    && 50 * (|orders| - 2) <= Abs(Main(dest, alongX) - Main(start, alongX))
  }

  /** Where the pointer was when the last order went out. */
  function BeforeLast(d: Display, p: Point, orders: seq<Order>): Point
    requires orders != []
  {
    PointerAfter(d, p, orders[..|orders| - 1])
  }

  /** The last order was refused, but asked for where the pointer was anyway; or it arrived, and asked
      for a place on the display. The curve may leave the display at the right and at the bottom. */
  predicate EndsWell(d: Display, cx: int, cy: int, p: Point, orders: seq<Order>)
    requires orders != []
  {
    var last := orders[|orders| - 1];
    if last.answer == Refused then last.at == BeforeLast(d, p, orders) else OnDisplay(last.at, cx, cy)
  }

  /** After a move, a record that is claimed is right iff the last order ended well. */
  lemma RecordRightIff(d: Display, cx: int, cy: int, s: Handle, dest: Point, orders: seq<Order>, r: int, t: Handle)
    requires Shows(d, cx, cy) && AllSound(orders, cx, cy) && Moves(d, s, dest, orders, r, t)
    requires t.first == 1 && s.first <= 1
    ensures t.pos == t.pointer <==> EndsWell(d, cx, cy, s.pointer, orders)
  {
    var last := orders[|orders| - 1];
    assert Sound(last, cx, cy);
    assert r == 0 ==> last.answer == Taken;
    if OnDisplay(last.at, cx, cy) { assert Hits(d, last.at, cx, cy); }
  }

  /** So it is after every move that succeeds. */
  lemma SuccessIsRight(d: Display, cx: int, cy: int, s: Handle, dest: Point, orders: seq<Order>, r: int, t: Handle)
    requires Shows(d, cx, cy) && s.first <= 1 && MoveTo3Step(d, cx, cy, s, dest, orders, r, t) && r == 0
    ensures t.first == 1 && t.pos == t.pointer == dest
  {
    RecordRightIff(d, cx, cy, s, dest, orders, r, t);
  }

  /** A failing call: from the recorded position (0, 0), which is right, to (10, 0), with the first
      order refused. The record says (10, 0), and the pointer has not moved. */
  lemma RefusedOrderIsClaimed(d: Display, orders: seq<Order>, r: int, t: Handle)
    requires Moves(d, Handle(1, Point(0, 0), Point(0, 0)), Point(10, 0), orders, r, t)
    requires orders[0].answer == Refused
    ensures r == -1 && t == Handle(1, Point(10, 0), Point(0, 0))
  {
    var start := Point(0, 0);
    assert |orders| == 1 && orders[..|orders| - 1] == [];
    assert PointerAfter(d, start, orders[..|orders| - 1]) == start;
    assert Nearer(LastAt(start, []), LastAt(start, orders), Point(10, 0), true);
  }

  /** Another one, with no order refused: along the lower edge of a display of 1000 by 1000 pixels, from
      (0, 999) to (900, 999), the curve's first point is (118, 1007). Its word is the largest, the
      answer is lost, and the record says 1007, where the pointer cannot be. */
  lemma LostBelowTheEdge(d: Display, o: Order, t: Handle)
    requires Shows(d, 1000, 1000)
    requires o.at == Point(118, 1007) && Sound(o, 1000, 1000) && o.answer == Unheard
    requires t == Handle(1, o.at, Shown(d, o.report))
    ensures WordsOf(o.report).1 == HW_MAX_RES
    ensures MoveTo3Step(d, 1000, 1000, Handle(1, Point(0, 999), Point(0, 999)), Point(900, 999), [o], -1, t)
    ensures t.pos != t.pointer && t.pointer.y <= 999
  {
    WordBelowTheEdge();
    OneOrderNearer(Point(0, 999), o, Point(900, 999), true);
  }

  lemma WordBelowTheEdge()
    ensures Words(Point(118, 1007), 1000, 1000).1 == HW_MAX_RES
  {
    ScaledIs(1007, 1000, Fact(1000));
  }

  lemma OneOrderNearer(start: Point, o: Order, dest: Point, alongX: bool)
    requires Nearer(start, o.at, dest, alongX)
    ensures Approaches(start, [o], dest, alongX) && LastAt(start, [o]) == o.at
  {
    assert [o][..0] == [];
    assert Approaches(start, [], dest, alongX);
  }

  lemma OneOrderOnTheSpot(o: Order)
    ensures OnTheWay(o.at, [o], o.at) && Answered([o], if o.answer == Taken then 0 else -1)
  {
    OneOrderApproaches(o.at, [o], true);
  }

  lemma OneOrderApproaches(p: Point, orders: seq<Order>, alongX: bool)
    requires |orders| == 1 && orders[0].at == p
    ensures Approaches(p, orders, p, alongX)
  {
    var none := orders[..0];
    assert none == [];
  }

  /** One more order, to the goal, after orders that were all taken. */
  lemma OneMoreOrder(start: Point, orders: seq<Order>, o: Order, dest: Point, alongX: bool, cx: int, cy: int)
    requires cx > 0 && cy > 0 && AllSound(orders, cx, cy) && Sound(o, cx, cy) && o.at == dest
    requires Approaches(start, orders, dest, alongX) && Answered(orders, 0)
    ensures AllSound(orders + [o], cx, cy) && LastAt(start, orders + [o]) == dest
    ensures Approaches(start, orders + [o], dest, alongX)
    ensures Answered(orders + [o], if o.answer == Taken then 0 else -1)
  {
    ApproachesStep(start, orders, o, dest, alongX);
  }

  lemma SoundStep(orders: seq<Order>, o: Order, cx: int, cy: int)
    requires cx > 0 && cy > 0 && AllSound(orders, cx, cy) && Sound(o, cx, cy)
    ensures AllSound(orders + [o], cx, cy)
  {
  }

  /** One more order, of what has been sent. */
  lemma OrderedStep(d: Display, before: seq<Order>, from: Point, orders: seq<Order>, answers: nat -> Answer,
                    sent: seq<Order>, pointer: Point, o: Order, sent2: seq<Order>, pointer2: Point)
    requires Ordered(d, before, from, orders, answers, sent, pointer)
    requires sent2 == sent + [o] && pointer2 == PointerAfter(d, pointer, [o]) && o.answer == answers(|sent|)
    ensures Ordered(d, before, from, orders + [o], answers, sent2, pointer2)
  {
    PointerSnoc(d, from, orders, o);
    PointerSnoc(d, pointer, [], o);
    assert [] + [o] == [o] && sent2 == before + (orders + [o]);
  }

  /** The orders so far, all of them taken, have led from `start` to `p`, with `dis` left. */
  ghost predicate Travelled(start: Point, orders: seq<Order>, dest: Point, p: Point, alongX: bool, dis: int) {
    && Approaches(start, orders, dest, alongX) && p == LastAt(start, orders)
    && (forall i :: 0 <= i < |orders| ==> orders[i].answer == Taken)
    && 50 * |orders| + Abs(dis) <= Abs(Main(dest, alongX) - Main(start, alongX)) + (if dis == 0 then 50 else 0)
  }

  lemma TravelStep(start: Point, orders: seq<Order>, dest: Point, p: Point, alongX: bool, dis: int, o: Order, left: int)
    requires Travelled(start, orders, dest, p, alongX, dis)
    requires dis != 0 && dis == Main(dest, alongX) - Main(p, alongX) && left == Main(dest, alongX) - Main(o.at, alongX)
    requires if left == 0 then o.at == dest else Between(left, dis) && Abs(left) + 50 <= Abs(dis)
    ensures o.answer == Taken ==> Travelled(start, orders + [o], dest, o.at, alongX, left)
    ensures Approaches(start, orders + [o], dest, alongX)
    ensures Answered(orders + [o], if o.answer == Taken then 0 else -1)
    ensures 50 * (|orders| + 1) <= Abs(Main(dest, alongX) - Main(start, alongX)) + 50
  {
    ApproachesStep(start, orders, o, dest, alongX);
  }
}
