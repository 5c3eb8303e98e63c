/**
 The SDK's keyboard: a ten-byte report edited in place. It packs the set of modifier keys into one
 byte and up to six other keys, in the order they went down, behind it.
 */
module Keyboard {
  import opened Bytes
  import opened Sets

  const KEYBOARD_A := 4
  const KEYBOARD_APPLICATION := 101
  const KEYBOARD_LEFT_CONTROL := 224
  const KEYBOARD_RIGHT_WINDOWS := 231

  predicate Modifier(code: int) { KEYBOARD_LEFT_CONTROL <= code <= KEYBOARD_RIGHT_WINDOWS }

  predicate Plain(code: int) { KEYBOARD_A <= code <= KEYBOARD_APPLICATION }

  predicate Known(code: int) { Modifier(code) || Plain(code) }

  // ---------------------------------------------------------------- bits of a byte

  function Power(n: nat): (p: nat)
    ensures p >= 1
  {
    if n == 0 then 1 else 2 * Power(n - 1)
  }

  predicate Bit(m: nat, b: nat)
    decreases b
  {
    if b == 0 then m % 2 == 1 else Bit(m / 2, b - 1)
  }

  /** m | (1 << b) */
  function SetBit(m: nat, b: nat): nat
    decreases b
  {
    if b == 0 then m - m % 2 + 1 else 2 * SetBit(m / 2, b - 1) + m % 2
  }

  /** m & ~(1 << b) */
  function ClearBit(m: nat, b: nat): nat
    decreases b
  {
    if b == 0 then m - m % 2 else 2 * ClearBit(m / 2, b - 1) + m % 2
  }

  lemma {:induction false} SetBitSetsOne(m: nat, b: nat, c: nat)
    ensures Bit(SetBit(m, b), c) <==> c == b || Bit(m, c)
    decreases b
  {
    if b > 0 && c > 0 { SetBitSetsOne(m / 2, b - 1, c - 1); }
  }

  lemma {:induction false} ClearBitClearsOne(m: nat, b: nat, c: nat)
    ensures Bit(ClearBit(m, b), c) <==> c != b && Bit(m, c)
    decreases b
  {
    if b > 0 && c > 0 { ClearBitClearsOne(m / 2, b - 1, c - 1); }
  }

  lemma {:induction false} BitsStayInRange(m: nat, b: nat, n: nat)
    requires m < Power(n) && b < n
    ensures SetBit(m, b) < Power(n) && ClearBit(m, b) < Power(n)
    decreases n
  {
    if b > 0 { BitsStayInRange(m / 2, b - 1, n - 1); }
  }

  lemma {:induction false} ZeroHasNoBits(b: nat)
    ensures !Bit(0, b)
    decreases b
  {
    if b > 0 { ZeroHasNoBits(b - 1); }
  }

  lemma ByteRange()
    ensures Power(8) == 256
  {
    assert Power(3) == 8 && Power(6) == 64;
  }

  // ---------------------------------------------------------------- what the report stands for

  /** The keys that are down: modifiers by bit number, other keys in the order they went down. */
  datatype Keys = Keys(mods: set<nat>, plain: seq<byte>)

  const NO_KEYS := Keys({}, [])

  predicate Ok(s: Keys) {
    && |s.plain| <= 6
    && (forall m :: m in s.mods ==> m < 8)
    && (forall i :: 0 <= i < |s.plain| ==> Plain(s.plain[i]))
    && Distinct(s.plain)
  }

  predicate IsDown(s: Keys, code: int) {
    if Modifier(code) then code - KEYBOARD_LEFT_CONTROL in s.mods
    else exists i :: 0 <= i < |s.plain| && s.plain[i] == code
  }

  predicate BitsAre(m: byte, mods: set<nat>) {
    forall b: nat :: b < 8 ==> (b in mods <==> Bit(m, b))
  }

  predicate Cleared(r: seq<byte>) {
    |r| == 10 && forall i :: 0 <= i < 9 ==> r[i] == 0
  }

  /** The keys lie in r[3..9] without gaps. */
  predicate Lie(r: seq<byte>, keys: seq<byte>) {
    && |r| == 10 && |keys| <= 6 && r[2] == 0
    && (forall i :: 3 <= i < 3 + |keys| ==> r[i] == keys[i - 3])
    && (forall i :: 3 + |keys| <= i < 9 ==> r[i] == 0)
  }

  /** And the first byte tells where they end. */
  predicate Packs(r: seq<byte>, keys: seq<byte>) {
    Lie(r, keys) && r[0] == (if keys == [] then 0x83 else 0x82 + |keys|)
  }

  predicate Represents(r: seq<byte>, s: Keys) {
    && Ok(s)
    && ((s == NO_KEYS && Cleared(r)) || (Packs(r, s.plain) && BitsAre(r[1], s.mods)))
  }

  /** How the receiver of a report reads it: it knows the report's length. */
  predicate Says(report: seq<byte>, s: Keys) {
    if |report| == 1 then report == [0] && s == NO_KEYS
    else
      && 4 <= |report| <= 9 && report[0] == 0x80 + |report| - 1 && report[2] == 0
      && BitsAre(report[1], s.mods) && (forall m :: m in s.mods ==> m < 8)
      && s.plain == (if report[3] == 0 then [] else report[3..])
  }

  /** No report can be read in two ways. */
  lemma ReportIsUnambiguous(report: seq<byte>, s: Keys, t: Keys)
    requires Says(report, s) && Says(report, t)
    ensures s == t
  {
    assert s.mods == t.mods;
  }

  // ---------------------------------------------------------------- the operations

  /** Where a key is, or the number of keys. */
  ghost function Index(keys: seq<byte>, code: int): (i: nat)
    ensures if i < |keys| then keys[i] == code else i == |keys| && forall j :: 0 <= j < |keys| ==> keys[j] != code
  {
    if forall j :: 0 <= j < |keys| ==> keys[j] != code then |keys|
    else var i :| 0 <= i < |keys| && keys[i] == code; i
  }

  /** A new key goes to the end, or takes the place of the sixth one. */
  ghost function PlainDown(keys: seq<byte>, code: byte): seq<byte>
    requires |keys| <= 6
  {
    if Index(keys, code) < |keys| then keys
    else if |keys| < 6 then keys + [code]
    else keys[..5] + [code]
  }

  ghost function PlainUp(keys: seq<byte>, code: byte): seq<byte> {
    var i := Index(keys, code);
    if i == |keys| then keys else keys[..i] + keys[i + 1..]
  }

  ghost function Down(s: Keys, code: int): Keys
    requires Ok(s) && Known(code)
  {
    if Modifier(code) then s.(mods := s.mods + {code - KEYBOARD_LEFT_CONTROL})
    else s.(plain := PlainDown(s.plain, code))
  }

  ghost function Up(s: Keys, code: int): Keys
    requires Known(code)
  {
    if Modifier(code) then s.(mods := s.mods - {code - KEYBOARD_LEFT_CONTROL})
    else s.(plain := PlainUp(s.plain, code))
  }

  ghost function Pressed(s: Keys, code: int): (t: Keys)
    requires Ok(s) && Known(code)
    ensures Ok(t)
  {
    DownKeepsOk(s, code);
    UpKeepsOk(Down(s, code), code);
    Up(Down(s, code), code)
  }

  ghost function PressedTimes(s: Keys, code: int, n: nat): (t: Keys)
    requires Ok(s) && Known(code)
    ensures Ok(t)
  {
    if n == 0 then s else Pressed(PressedTimes(s, code, n - 1), code)
  }

  lemma DownKeepsOk(s: Keys, code: int)
    requires Ok(s) && Known(code)
    ensures Ok(Down(s, code))
  {
    var t := Down(s, code);
    assert forall i :: 0 <= i < |t.plain| ==> t.plain[i] == code || (i < |s.plain| && t.plain[i] == s.plain[i]);
  }

  lemma UpKeepsOk(s: Keys, code: int)
    requires Ok(s) && Known(code)
    ensures Ok(Up(s, code))
  {
  }

  /** Pressing a key makes it the one that is down, and at most the sixth key is lost for it. */
  lemma DownEffect(s: Keys, code: int, other: int)
    requires Ok(s) && Known(code) && Known(other)
    ensures IsDown(Down(s, code), code)
    ensures other != code ==>
      (IsDown(Down(s, code), other) <==>
         IsDown(s, other) && !(Plain(code) && !IsDown(s, code) && |s.plain| == 6 && other == s.plain[5]))
  {
    var t := Down(s, code);
    if Plain(code) {
      if !IsDown(s, code) { assert t.plain[|t.plain| - 1] == code; }
      if Plain(other) && other != code && IsDown(s, other) {
        var i :| 0 <= i < |s.plain| && s.plain[i] == other;
        if i < |t.plain| { assert t.plain[i] == other || t.plain[i] == code; }
      }
    }
  }

  /** Releasing a key releases that key and no other. */
  lemma UpEffect(s: Keys, code: int, other: int)
    requires Ok(s) && Known(code) && Known(other)
    ensures IsDown(Up(s, code), other) <==> other != code && IsDown(s, other)
  {
    var t := Up(s, code);
    if Plain(code) && Plain(other) {
      var i := Index(s.plain, code);
      if IsDown(s, other) && other != code {
        var j :| 0 <= j < |s.plain| && s.plain[j] == other;
        assert i == |s.plain| || t.plain[if j < i then j else j - 1] == other;
      }
    }
  }

  /** A click undoes itself exactly when the key was up and, for a key that is no modifier, when
      there was room for it; otherwise it releases the key, or costs the sixth one. */
  lemma ClickRestoresIff(s: Keys, code: int)
    requires Ok(s) && Known(code)
    ensures Pressed(s, code) == s <==> !IsDown(s, code) && (Modifier(code) || |s.plain| < 6)
    ensures Plain(code) && !IsDown(s, code) && |s.plain| == 6 ==> Pressed(s, code) == s.(plain := s.plain[..5])
  {
    DownKeepsOk(s, code);
    UpEffect(Down(s, code), code, code);
    if Plain(code) && !IsDown(s, code) {
      var keys := PlainDown(s.plain, code);
      var n := |keys| - 1;
      assert keys[n] == code && forall i :: 0 <= i < n ==> keys[i] == s.plain[i] != code;
      assert keys[..n] + keys[n + 1..] == keys[..n] == s.plain[..n];
    }
  }

  // ---------------------------------------------------------------- whole runs

  datatype Command = KeyDown(code: int) | KeyUp(code: int) | ReleaseAll

  /** Commands for unknown keys are refused and change nothing. */
  ghost function Do(s: Keys, c: Command): (t: Keys)
    requires Ok(s)
    ensures Ok(t)
  {
    match c
    case KeyDown(code) => if Known(code) then DownKeepsOk(s, code); Down(s, code) else s
    case KeyUp(code) => if Known(code) then UpKeepsOk(s, code); Up(s, code) else s
    case ReleaseAll => NO_KEYS
  }

  ghost function Run(commands: seq<Command>): (s: Keys)
    ensures Ok(s)
  {
    if commands == [] then NO_KEYS else Do(Run(commands[..|commands| - 1]), commands[|commands| - 1])
  }

  /** `n` clicks are a run of their own. */
  function Clicks(code: int, n: nat): seq<Command> {
    if n == 0 then [] else Clicks(code, n - 1) + [KeyDown(code), KeyUp(code)]
  }

  lemma {:induction false} ClicksAreARun(commands: seq<Command>, code: int, n: nat)
    requires Known(code)
    ensures Run(commands + Clicks(code, n)) == PressedTimes(Run(commands), code, n)
  {
    if n == 0 {
      assert commands + Clicks(code, n) == commands;
    } else {
      var before := commands + Clicks(code, n - 1);
      ClicksAreARun(commands, code, n - 1);
      RunSnoc(before, KeyDown(code));
      RunSnoc(before + [KeyDown(code)], KeyUp(code));
      assert commands + Clicks(code, n) == before + [KeyDown(code)] + [KeyUp(code)];
    }
  }

  lemma RunSnoc(commands: seq<Command>, c: Command)
    ensures Run(commands + [c]) == Do(Run(commands), c)
  {
    assert (commands + [c])[..|commands|] == commands;
  }

  /** What the last command that concerns the key said. */
  predicate LastSaidDown(commands: seq<Command>, code: int) {
    commands != [] &&
    var before := LastSaidDown(commands[..|commands| - 1], code);
    match commands[|commands| - 1]
    case KeyDown(c) => c == code || before
    case KeyUp(c) => c != code && before
    case ReleaseAll => false
  }

  /** The keys that are held, modifiers aside, by what was last said about each. */
  ghost function Held(commands: seq<Command>): set<int> {
    set code | KEYBOARD_A <= code <= KEYBOARD_APPLICATION && LastSaidDown(commands, code)
  }

  ghost predicate Agrees(s: Keys, commands: seq<Command>, code: int) {
    Known(code) ==> (IsDown(s, code) <==> LastSaidDown(commands, code))
  }

  ghost predicate Tracks(commands: seq<Command>) {
    forall code :: Agrees(Run(commands), commands, code)
  }

  /** One command keeps the agreement, unless it is the one that costs the sixth key. */
  lemma StepAgrees(commands: seq<Command>, c: Command, code: int)
    requires Agrees(Run(commands), commands, code)
    requires var s := Run(commands);
             Modifier(code) || !c.KeyDown? || !Plain(c.code) || IsDown(s, c.code) || |s.plain| < 6
    ensures Agrees(Run(commands + [c]), commands + [c], code)
  {
    var s := Run(commands);
    RunSnoc(commands, c);
    assert (commands + [c])[..|commands|] == commands;
    if Known(code) {
      match c
      case KeyDown(k) => if Known(k) { DownEffect(s, k, code); }
      case KeyUp(k) => if Known(k) { UpEffect(s, k, code); }
      case ReleaseAll =>
    }
  }

  /** A modifier is down exactly when the last command about it pressed it, with no condition. */
  lemma {:induction false} ModifiersAlwaysTrack(commands: seq<Command>, code: int)
    requires Modifier(code)
    ensures Agrees(Run(commands), commands, code)
  {
    if commands != [] {
      var n := |commands| - 1;
      ModifiersAlwaysTrack(commands[..n], code);
      StepAgrees(commands[..n], commands[n], code);
      assert commands[..n] + [commands[n]] == commands;
    }
  }

  lemma HeldAreElements(commands: seq<Command>)
    requires Tracks(commands)
    ensures Held(commands) == Elements(Run(commands).plain)
    ensures |Held(commands)| == |Run(commands).plain|
  {
    var s := Run(commands);
    forall code: int ensures code in Held(commands) <==> code in Elements(s.plain) {
      assert Agrees(s, commands, code);
      if code in Elements(s.plain) {
        var i :| 0 <= i < |s.plain| && s.plain[i] == code;
        assert Plain(s.plain[i]);
      }
    }
    assert Held(commands) == Elements(s.plain);
    CountElements(s.plain);
  }

  /** Where the report agrees before a command and at most six keys are held after it, it agrees
      after it too. */
  lemma SixKeysFit(commands: seq<Command>, c: Command)
    requires Tracks(commands) && |Held(commands + [c])| <= 6
    ensures Tracks(commands + [c])
  {
    var s := Run(commands);
    assert (commands + [c])[..|commands|] == commands;
    if c.KeyDown? && Plain(c.code) && !IsDown(s, c.code) {
      HeldAreElements(commands);
      assert Agrees(s, commands, c.code);
      assert Held(commands + [c]) == Held(commands) + {c.code};
    }
    forall code ensures Agrees(Run(commands + [c]), commands + [c], code) {
      assert Agrees(s, commands, code);
      StepAgrees(commands, c, code);
    }
  }

  /** Throughout a run the report shows exactly the keys that were last said to be down, if and
      only if never more than six keys besides the modifiers are held. */
  lemma {:induction false} TracksIffSix(commands: seq<Command>)
    ensures (forall n :: 0 <= n <= |commands| ==> Tracks(commands[..n])) <==>
            (forall n :: 0 <= n <= |commands| ==> |Held(commands[..n])| <= 6)
  {
    if forall n :: 0 <= n <= |commands| ==> Tracks(commands[..n]) {
      forall n | 0 <= n <= |commands| ensures |Held(commands[..n])| <= 6 {
        HeldAreElements(commands[..n]);
      }
    }
    if forall n :: 0 <= n <= |commands| ==> |Held(commands[..n])| <= 6 {
      forall n | 0 <= n <= |commands| ensures Tracks(commands[..n]) { TracksUpTo(commands, n); }
    }
  }

  lemma {:induction false} TracksUpTo(commands: seq<Command>, n: nat)
    requires n <= |commands| && forall k :: 0 <= k <= |commands| ==> |Held(commands[..k])| <= 6
    ensures Tracks(commands[..n])
  {
    if n > 0 {
      TracksUpTo(commands, n - 1);
      assert commands[..n] == commands[..n - 1] + [commands[n - 1]];
      SixKeysFit(commands[..n - 1], commands[n - 1]);
    } else {
      forall code ensures Agrees(Run(commands[..0]), commands[..0], code) { }
    }
  }

  /** The keys from `first` on, one after the other. */
  function DownsFrom(first: int, n: nat): seq<Command> {
    if n == 0 then [] else DownsFrom(first, n - 1) + [KeyDown(first + n - 1)]
  }

  lemma {:induction false} DownsHold(first: int, n: nat)
    requires n <= 6 && Plain(first) && Plain(first + 6)
    ensures var s := Run(DownsFrom(first, n));
            s.mods == {} && |s.plain| == n && forall i :: 0 <= i < n ==> s.plain[i] == first + i
  {
    if n > 0 {
      DownsHold(first, n - 1);
      RunSnoc(DownsFrom(first, n - 1), KeyDown(first + n - 1));
      NextKeyDown(Run(DownsFrom(first, n - 1)), first, n - 1);
    }
  }

  lemma NextKeyDown(s: Keys, first: int, n: nat)
    requires n < 6 && Plain(first) && Plain(first + 6)
    requires s.mods == {} && |s.plain| == n && forall i :: 0 <= i < n ==> s.plain[i] == first + i
    ensures Do(s, KeyDown(first + n)) == Keys({}, s.plain + [first + n])
  {
  }

  /** Seven keys held, and the report shows six: the sixth one has gone. */
  lemma SeventhKeyCostsTheSixth()
    ensures var seven := DownsFrom(4, 7);
            LastSaidDown(seven, 9) && !IsDown(Run(seven), 9) && IsDown(Run(seven), 10)
  {
    var six := DownsFrom(4, 6);
    DownsHold(4, 6);
    RunSnoc(six, KeyDown(10));
    assert DownsFrom(4, 7) == six + [KeyDown(10)];
    SaidDownBefore(DownsFrom(4, 5), 9, 10);
    DownEffect(Run(six), 10, 9);
  }

  /** Pressing another key takes nothing back. */
  lemma SaidDownBefore(commands: seq<Command>, code: int, other: int)
    ensures LastSaidDown(commands + [KeyDown(code)] + [KeyDown(other)], code)
  {
    var upTo := commands + [KeyDown(code)];
    assert (upTo + [KeyDown(other)])[..|upTo|] == upTo;
  }

  /** What is sent of the array is the report for the keys it represents. */
  lemma ReportIsRight(r: seq<byte>, s: Keys)
    requires Represents(r, s)
    ensures Says(r[..r[0] % 0x10 + 1], s)
  {
    if Cleared(r) && s == NO_KEYS {
      assert r[..1] == [0];
    } else {
      var report := r[..r[0] % 0x10 + 1];
      var n := |s.plain|;
      assert |report| == (if n == 0 then 4 else 3 + n);
      if n > 0 { assert report[3..] == s.plain && report[3] == s.plain[0] && Plain(s.plain[0]); }
    }
  }

  lemma ClearedRepresents(r: seq<byte>)
    requires Cleared(r)
    ensures Represents(r, NO_KEYS)
  {
  }

  lemma StartedOrCleared(r: seq<byte>, s: Keys)
    requires Represents(r, s)
    ensures r[0] < 0x80 || r[0] % 0x80 > 8 || r[0] % 0x80 < 3 <==> !Packs(r, s.plain)
    ensures Packs(r, s.plain) ==> BitsAre(r[1], s.mods)
    ensures !Packs(r, s.plain) ==> s == NO_KEYS && Cleared(r)
  {
  }

  /** The search for a key stops at the key, or at the first free position behind all keys. */
  lemma SearchStops(r: seq<byte>, keys: seq<byte>, code: byte, pos: nat)
    requires Packs(r, keys) && Plain(code) && 3 <= pos < 9 && pos <= 3 + |keys|
    requires Distinct(keys) && forall i :: 0 <= i < |keys| ==> Plain(keys[i])
    requires forall i :: 0 <= i < pos - 3 ==> keys[i] != code
    ensures r[pos] == 0 <==> pos == 3 + |keys|
    ensures r[pos] == 0 ==>
              PlainDown(keys, code) == keys + [code] && Packs(r[pos := code][0 := 0x80 + pos], keys + [code])
    ensures r[pos] == code ==> PlainDown(keys, code) == keys && Index(keys, code) == pos - 3
  {
  }

  lemma LastIsReplaced(r: seq<byte>, keys: seq<byte>, code: byte)
    requires Packs(r, keys) && |keys| == 6 && forall i :: 0 <= i < 6 ==> keys[i] != code
    ensures Packs(r[8 := code][0 := 0x88], PlainDown(keys, code))
  {
  }

  lemma BitsAfterSet(m: byte, mods: set<nat>, b: nat)
    requires b < 8 && SetBit(m, b) < 256
    ensures BitsAre(m, mods) ==> BitsAre(SetBit(m, b), mods + {b})
    ensures m == 0 ==> BitsAre(SetBit(m, b), {b})
  {
    forall c: nat | c < 8 ensures Bit(SetBit(m, b), c) <==> c == b || Bit(m, c) { SetBitSetsOne(m, b, c); }
    forall c: nat ensures !Bit(0, c) { ZeroHasNoBits(c); }
  }

  lemma BitsAfterClear(m: byte, mods: set<nat>, b: nat)
    requires b < 8 && ClearBit(m, b) < 256 && BitsAre(m, mods)
    ensures BitsAre(ClearBit(m, b), mods - {b})
  {
    forall c: nat | c < 8 ensures Bit(ClearBit(m, b), c) <==> c != b && Bit(m, c) { ClearBitClearsOne(m, b, c); }
  }

  lemma MissingStays(s: Keys, code: byte)
    requires Plain(code) && forall i :: 0 <= i < |s.plain| ==> s.plain[i] != code
    ensures Up(s, code) == s
  {
  }

  lemma SearchFinds(r: seq<byte>, s: Keys, code: int, pos: nat)
    requires Represents(r, s) && Packs(r, s.plain) && Plain(code) && 3 <= pos <= r[0] % 0x80
    ensures pos < 9
    ensures pos - 3 < |s.plain| ==> r[pos] == s.plain[pos - 3]
    ensures pos - 3 >= |s.plain| ==> r[pos] == 0
  {
  }

  /** How often a loop runs that counts a 32-bit integer down to zero. */
  function Rounds(nbr: int): (n: nat)
    requires -0x8000_0000 <= nbr < 0x8000_0000
  {
    if nbr >= 0 then nbr else WORD + nbr
  }

  /** The state in which the click after the first `i` clicks was given up. */
  ghost predicate StoppedIn(s: Keys, code: int, i: nat, t: Keys)
    requires Ok(s) && Known(code)
  {
    var k := PressedTimes(s, code, i);
    t == Down(k, code) || t == Pressed(k, code)
  }

  // ---------------------------------------------------------------- the code

  /** One command handed to the device, and whether the device took it. */
  datatype Sent = Sent(report: seq<byte>, accepted: bool)

  class Keyboard {
    const op: array<byte>      // CurrKbOp
    var log: seq<Sent>
    ghost var keys: Keys

    ghost predicate Valid()
      reads this, op
    {
      op.Length == 10 && Represents(op[..], keys)
    }

    /** M_Open clears the whole handle. */
    constructor ()
      ensures Valid() && fresh(op) && keys == NO_KEYS && log == []
    {
      op := new byte[10](_ => 0);
      log, keys := [], NO_KEYS;
    }

    /** The report's first byte says that no report is under construction. */
    predicate NotStarted()
      reads this, op
      requires op.Length == 10
    {
      op[0] < 0x80 || op[0] % 0x80 > 8 || op[0] % 0x80 < 3
    }

    method Clear()
      requires op.Length == 10
      modifies op
      ensures Cleared(op[..]) && op[9] == old(op[9])
    {
      for i := 0 to 9
        invariant forall k :: 0 <= k < i ==> op[k] == 0
        invariant op[9] == old(op[9])
      {
        op[i] := 0;
      }
    }

    /** HID_Ctrl_Comm with the first bytes of the report; the device may refuse. */
    method Send(length: nat) returns (accepted: bool)
      requires length <= op.Length
      modifies `log
      ensures log == old(log) + [Sent(op[..length], accepted)]
    {
      accepted := *;
      log := log + [Sent(op[..length], accepted)];
    }

    /** The end of M_KeyDown and of M_KeyUp: as much of the report as its length nibble says. */
    method SendReport() returns (r: int)
      requires Valid()
      modifies `log
      ensures Valid() && Reported(old(log), r)
    {
      ReportIsRight(op[..], keys);
      var accepted := Send(op[0] % 0x10 + 1);
      r := if accepted then 0 else -1;
    }

    /** One more report was handed over; it says what is down, and `r` whether it was accepted. */
    ghost predicate Reported(before: seq<Sent>, r: int)
      reads this
    {
      && |log| == |before| + 1 && log[..|before|] == before
      && Says(log[|before|].report, keys) && r == (if log[|before|].accepted then 0 else -1)
    }

    /** M_KeyDown's search for the key or for a free position. */
    method Insert(code: byte)
      requires Valid() && Plain(code) && Packs(op[..], keys.plain)
      modifies op
      ensures Packs(op[..], PlainDown(keys.plain, code)) && op[1] == old(op[1])
    {
      var pos := 3;
      while pos < 9
        invariant 3 <= pos <= 3 + |keys.plain| && op[..] == old(op[..])
        invariant forall i :: 0 <= i < pos - 3 ==> keys.plain[i] != code
      {
        SearchStops(op[..], keys.plain, code, pos);
        if op[pos] == 0 {
          op[pos] := code;
          op[0] := 0x80 + pos;
          assert op[..] == old(op[..])[pos := code][0 := 0x80 + pos];
          break;
        }
        if op[pos] == code { break; }
        pos := pos + 1;
      }
      if pos == 9 {
        LastIsReplaced(op[..], keys.plain, code);
        op[8] := code;
        op[0] := 0x88;
        assert op[..] == old(op[..])[8 := code][0 := 0x88];
      }
    }

    /** M_KeyDown */
    method KeyDown(code: int) returns (r: int)
      requires Valid()
      modifies op, `log, `keys
      ensures Valid() && keys == Do(old(keys), Command.KeyDown(code))
      ensures if Known(code) then Reported(old(log), r) else r == -1 && log == old(log)
    {
      if code < KEYBOARD_A || code > KEYBOARD_RIGHT_WINDOWS
         || (code < KEYBOARD_LEFT_CONTROL && code > KEYBOARD_APPLICATION) {
        return -1;
      }
      Hold(code);
      keys := Do(keys, Command.KeyDown(code));
      r := SendReport();
    }

    /** What M_KeyDown does to the report. */
    method Hold(code: int)
      requires Valid() && Known(code)
      modifies op
      ensures Represents(op[..], Do(keys, Command.KeyDown(code)))
    {
      StartedOrCleared(op[..], keys);
      op[2] := 0;
      if code >= KEYBOARD_LEFT_CONTROL {
        ModifierDown(code);
      } else {
        PlainKeyDown(code);
      }
    }

    method ModifierDown(code: int)
      requires Valid() && Modifier(code)
      modifies op
      ensures Represents(op[..], Down(keys, code))
    {
      var bit := code - KEYBOARD_LEFT_CONTROL;
      ByteRange();
      BitsStayInRange(op[1], bit, 8);
      StartedOrCleared(op[..], keys);
      DownKeepsOk(keys, code);
      op[1] := SetBit(op[1], bit);
      if NotStarted() {
        op[0] := 0x83;
        op[3] := 0;
      }
      BitsAfterSet(old(op[1]), keys.mods, bit);
    }

    method PlainKeyDown(code: byte)
      requires Valid() && Plain(code)
      modifies op
      ensures Represents(op[..], Down(keys, code))
    {
      StartedOrCleared(op[..], keys);
      DownKeepsOk(keys, code);
      if NotStarted() {
        op[0] := 0x83;
        op[1] := 0;
        op[3] := code;
        forall b: nat ensures !Bit(0, b) { ZeroHasNoBits(b); }
        assert Packs(op[..], [code]);
      } else {
        Insert(code);
      }
    }

    /** M_KeyUp */
    method KeyUp(code: int) returns (r: int)
      requires Valid()
      modifies op, `log, `keys
      ensures Valid() && keys == Do(old(keys), Command.KeyUp(code))
      ensures if Known(code) then Reported(old(log), r) else r == -1 && log == old(log)
    {
      if code < KEYBOARD_A || code > KEYBOARD_RIGHT_WINDOWS
         || (code < KEYBOARD_LEFT_CONTROL && code > KEYBOARD_APPLICATION) {
        return -1;
      }
      Release(code);
      keys := Do(keys, Command.KeyUp(code));
      r := SendReport();
    }

    /** What M_KeyUp does to the report. */
    method Release(code: int)
      requires Valid() && Known(code)
      modifies op
      ensures Represents(op[..], Do(keys, Command.KeyUp(code)))
    {
      StartedOrCleared(op[..], keys);
      UpKeepsOk(keys, code);
      op[2] := 0;
      if code >= KEYBOARD_LEFT_CONTROL {
        ModifierUp(code);
      } else if NotStarted() {
        Clear();
        ClearedRepresents(op[..]);
      } else {
        Remove(code);
      }
    }

    method ModifierUp(code: int)
      requires Valid() && Modifier(code)
      modifies op
      ensures Represents(op[..], Up(keys, code))
    {
      var bit := code - KEYBOARD_LEFT_CONTROL;
      ByteRange();
      BitsStayInRange(op[1], bit, 8);
      StartedOrCleared(op[..], keys);
      UpKeepsOk(keys, code);
      if BitsAre(op[1], keys.mods) { BitsAfterClear(op[1], keys.mods, bit); }
      op[1] := ClearBit(op[1], bit);
      if NotStarted() {
        Clear();
        ClearedRepresents(op[..]);
      }
    }

    /** M_KeyUp's search for the key. */
    method Remove(code: byte)
      requires Valid() && Plain(code) && Packs(op[..], keys.plain) && BitsAre(op[1], keys.mods)
      modifies op
      ensures Represents(op[..], Up(keys, code))
    {
      UpKeepsOk(keys, code);
      var length := op[0] % 0x80;
      var pos := 3;
      while pos <= length
        invariant 3 <= pos <= length + 1 && op[..] == old(op[..])
        invariant forall i :: 0 <= i < pos - 3 && i < |keys.plain| ==> keys.plain[i] != code
        invariant pos <= 3 + |keys.plain|
      {
        SearchStops(op[..], keys.plain, code, pos);
        if op[pos] == code {
          ghost var left := keys.plain[..pos - 3] + keys.plain[pos - 2..];
          assert Up(keys, code) == Keys(keys.mods, left);
          CloseGap(pos, length);
          Settle(left);
          break;
        }
        if op[pos] == 0 { break; }
        pos := pos + 1;
      }
      if pos == 3 + |old(keys).plain| { MissingStays(keys, code); }
    }

    /** Moves the keys behind `pos` one place forward. */
    method CloseGap(pos: nat, length: nat)
      requires Valid() && Packs(op[..], keys.plain) && 3 <= pos <= length == 2 + |keys.plain|
      modifies op
      ensures Lie(op[..], keys.plain[..pos - 3] + keys.plain[pos - 2..])
      ensures op[0] == 0x81 + |keys.plain| && op[1] == old(op[1])
    {
      op[pos] := 0;
      op[0] := 0x80 + (pos - 1);
      var mov := pos + 1;
      while mov <= length
        invariant pos < mov <= length + 1 && op[0] == 0x80 + (mov - 2)
        invariant forall i :: 1 <= i < pos || mov <= i < 10 ==> op[i] == old(op[i])
        invariant forall i :: pos <= i < mov - 1 ==> op[i] == old(op[i + 1])
        invariant op[mov - 1] == 0
      {
        if op[mov] == 0 { break; }
        op[mov - 1] := op[mov];
        op[mov] := 0;
        op[0] := op[0] + 1;
        mov := mov + 1;
      }
    }

    /** What M_KeyUp does once the gap is closed. */
    method Settle(ghost left: seq<byte>)
      requires Lie(op[..], left) && op[0] == 0x82 + |left| && BitsAre(op[1], keys.mods) && Ok(Keys(keys.mods, left))
      modifies op
      ensures Represents(op[..], Keys(keys.mods, left))
    {
      if op[0] % 0x80 < 3 {
        op[0] := 0x83;
        op[3] := 0;
        if op[1] == 0 {
          forall b: nat ensures !Bit(0, b) { ZeroHasNoBits(b); }
          assert keys.mods == {};
          Clear();
        }
      }
    }

    /** M_KeyState: 1 when the key is down, 0 when it is up. */
    method KeyState(code: int) returns (r: int)
      requires Valid()
      ensures r == (if !Known(code) then -1 else if IsDown(keys, code) then 1 else 0)
    {
      if code < KEYBOARD_A || code > KEYBOARD_RIGHT_WINDOWS
         || (code < KEYBOARD_LEFT_CONTROL && code > KEYBOARD_APPLICATION) {
        return -1;
      }
      StartedOrCleared(op[..], keys);
      if code >= KEYBOARD_LEFT_CONTROL {
        var bit: nat := code - KEYBOARD_LEFT_CONTROL;
        ZeroHasNoBits(bit);
        if Bit(op[1], bit) { return 1; }
      } else {
        var length := op[0] % 0x80;
        var pos := 3;
        while pos <= length
          invariant 3 <= pos
          invariant forall i :: 0 <= i < pos - 3 && i < |keys.plain| ==> keys.plain[i] != code
        {
          SearchFinds(op[..], keys, code, pos);
          if op[pos] == code { return 1; }
          pos := pos + 1;
        }
      }
      r := 0;
    }

    /** One round of M_KeyPress. */
    method Click(code: int) returns (r: int)
      requires Valid()
      modifies op, `log, `keys
      ensures Valid() && (r == 0 || r == -1)
      ensures !Known(code) ==> keys == old(keys) && log == old(log) && r == -1
      ensures Known(code) && r == 0 ==> keys == Pressed(old(keys), code)
      ensures Known(code) && r == -1 ==> keys == Down(old(keys), code) || keys == Pressed(old(keys), code)
      ensures Known(code) && r == -1 ==> Refused()
    {
      r := KeyDown(code);
      if r != 0 { return -1; }
      r := KeyUp(code);
      if r != 0 { return -1; }
    }

    /** The last report was refused; it says what is down all the same. */
    ghost predicate Refused()
      reads this
    {
      log != [] && !log[|log| - 1].accepted && Says(log[|log| - 1].report, keys)
    }

    /** M_KeyPress: the clicks, given up at the first report that the device refuses. A negative
        number counts down through all of the 32-bit integers. */
    method KeyPress(code: int, nbr: int) returns (r: int)
      requires Valid() && -0x8000_0000 <= nbr < 0x8000_0000
      modifies op, `log, `keys
      ensures Valid() && (r == 0 || r == -1)
      ensures !Known(code) ==> keys == old(keys) && log == old(log) && (r == 0 <==> nbr == 0)
      ensures Known(code) && r == 0 ==> keys == PressedTimes(old(keys), code, Rounds(nbr))
      ensures Known(code) && r == -1 ==>
                Refused() && exists i: nat :: i < Rounds(nbr) && StoppedIn(old(keys), code, i, keys)
    {
      if Known(code) {
        r := KeyPressLoop(code, nbr);
      } else if nbr != 0 {
        r := Click(code);      // an unknown key ends the loop in its first round
      } else {
        r := 0;
      }
    }

    method KeyPressLoop(code: int, nbr: int) returns (r: int)
      requires Valid() && Known(code) && -0x8000_0000 <= nbr < 0x8000_0000
      modifies op, `log, `keys
      ensures Valid() && (r == 0 || r == -1)
      ensures r == 0 ==> keys == PressedTimes(old(keys), code, Rounds(nbr))
      ensures r == -1 ==> Refused() && exists i: nat :: i < Rounds(nbr) && StoppedIn(old(keys), code, i, keys)
    {
      var left := nbr;
      ghost var done: nat := 0;
      while left != 0
        invariant Valid() && -0x8000_0000 <= left < 0x8000_0000 && done + Rounds(left) == Rounds(nbr)
        invariant keys == PressedTimes(old(keys), code, done)
        decreases Rounds(left)
      {
        r := Click(code);
        if r != 0 {
          assert StoppedIn(old(keys), code, done, keys);
          return;
        }
        left := if left == -0x8000_0000 then 0x7FFF_FFFF else left - 1;
        done := done + 1;
      }
      r := 0;
    }

    /** M_ReleaseAllKey does not look at the device's answer. */
    method ReleaseAllKey() returns (r: int)
      requires Valid()
      modifies op, `log, `keys
      ensures Valid() && keys == Do(old(keys), Command.ReleaseAll) && r == 0
      ensures |log| == |old(log)| + 1 && log[..|old(log)|] == old(log) && Says(log[|old(log)|].report, keys)
    {
      Clear();
      keys := NO_KEYS;
      ClearedRepresents(op[..]);
      ReportIsRight(op[..], keys);
      var accepted := Send(1);
      r := 0;
    }
  }
}
