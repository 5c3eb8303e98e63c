/**
 The SDK's exchange with the device: a command is cut into blocks of 60 bytes, each sent in a
 64-byte report, and the answer is put together from blocks of the same form. The last two bytes
 of an answer are its status word.
 */
module HidComm {
  import opened Bytes

  const BUSY: byte := 0xCC

  /** Where block `i` starts; a block holds at most 60 bytes. */
  function At(i: nat): nat { 60 * i }

  // ---------------------------------------------------------------- the framing

  /** Protocol control byte: parity of the block, "more follows", block number. */
  function Pcb(i: nat, more: bool): byte {
    ((if i % 2 == 1 then 0x40 else 0) + (if more then 0x20 else 0) + i % 0x100) % 0x100
  }

  predicate More(pcb: byte) { pcb / 0x20 % 2 == 1 }

  predicate Odd(pcb: byte) { pcb / 0x40 % 2 == 1 }

  function Number(pcb: byte): nat { pcb % 0x20 }

  function Zeros(n: nat): (z: seq<byte>)
    ensures |z| == n && forall i :: 0 <= i < n ==> z[i] == 0
  {
    if n == 0 then [] else Zeros(n - 1) + [0]
  }

  /** What of the payload goes into block `i`. */
  function Data(payload: seq<byte>, i: nat): (d: seq<byte>)
    ensures |d| <= 60
  {
    if |payload| - At(i) > 60 then payload[At(i)..At(i) + 60]
    else if At(i) <= |payload| then payload[At(i)..]
    else []
  }

  predicate Follows(payload: seq<byte>, i: nat) { |payload| - At(i) > 60 }

  /** The report that carries block `i`. */
  function Block(payload: seq<byte>, timeout: nat, i: nat): (b: seq<byte>)
    ensures |b| == 64
  {
    var d := Data(payload, i);
    [timeout % 0x100, Pcb(i, Follows(payload, i)), 0, |d|] + d + Zeros(60 - |d|)
  }

  /** How many blocks a command takes: one for every 60 bytes begun, but at least one. */
  function Blocks(n: nat): nat { if n == 0 then 1 else (n + 59) / 60 }

  function Frames(payload: seq<byte>, timeout: nat): (f: seq<seq<byte>>)
    ensures |f| == Blocks(|payload|)
  {
    seq(Blocks(|payload|), (i: nat) => Block(payload, timeout, i))
  }

  /** Block `i` says that more follows exactly when it is not the last one. */
  lemma LastFollowsNot(payload: seq<byte>, i: nat)
    requires i < Blocks(|payload|)
    ensures Follows(payload, i) <==> i < Blocks(|payload|) - 1
    ensures At(i) <= |payload| && (!Follows(payload, i) ==> Before(payload, i + 1) == payload)
  {
  }

  /** What a control byte is to say of its block. */
  predicate SaysWell(pcb: byte, i: nat, more: bool) {
    Number(pcb) == i && (More(pcb) <==> more) && (Odd(pcb) <==> i % 2 == 1) && pcb != BUSY
  }

  lemma PcbSaysWellIff(i: nat, more: bool)
    ensures SaysWell(Pcb(i, more), i, more) <==> i < 0x20
  {
  }

  predicate BlockSaysWell(b: seq<byte>, i: nat, more: bool) {
    |b| == 64 && SaysWell(b[1], i, more)
  }

  /** Every control byte of a command can be decoded exactly when there are at most 32 blocks. */
  lemma AllSayWellIff(payload: seq<byte>, timeout: nat)
    ensures (forall i: nat :: i < |Frames(payload, timeout)| ==>
                                BlockSaysWell(Frames(payload, timeout)[i], i, Follows(payload, i)))
            <==> |payload| <= 1920
  {
    var frames := Frames(payload, timeout);
    forall i: nat | i < |frames| ensures BlockSaysWell(frames[i], i, Follows(payload, i)) <==> i < 0x20 {
      PcbSaysWellIff(i, Follows(payload, i));
    }
    if |payload| > 1920 { assert !BlockSaysWell(frames[0x20], 0x20, Follows(payload, 0x20)); }
  }

  // ---------------------------------------------------------------- putting an answer together

  /** What a control transfer for input gives. */
  datatype Reply = Failed | Report(bytes: seq<byte>)

  datatype Answer = NoAnswer | Got(bytes: seq<byte>)

  /** A report overwrites the front of the 512-byte input buffer. */
  function Overlay(buffer: seq<byte>, bytes: seq<byte>): (r: seq<byte>)
    requires |bytes| <= |buffer|
    ensures |r| == |buffer|
  {
    bytes + buffer[|bytes|..]
  }

  predicate InputReports(replies: seq<Reply>) {
    forall i :: 0 <= i < |replies| && replies[i].Report? ==> |replies[i].bytes| <= 64
  }

  /** What the receive loop makes of the replies to come, with `got` behind it. A device that has no
      more to say lets the transfer time out. */
  function Collect(replies: seq<Reply>, buffer: seq<byte>, got: seq<byte>): Answer
    requires |buffer| == 512 && InputReports(replies)
  {
    if replies == [] || replies[0].Failed? then NoAnswer
    else
      var b := Overlay(buffer, replies[0].bytes);
      if b[1] == BUSY then Collect(replies[1..], b, got)
      else if More(b[1]) then Collect(replies[1..], b, got + b[4..4 + b[3]])
      else Got(got + b[4..4 + b[3]])
  }

  predicate Busy(r: Reply) { r.Report? && |r.bytes| == 64 && r.bytes[1] == BUSY }

  /** The replies are the frames from `k` on, with busy reports in between. */
  predicate Carries(replies: seq<Reply>, frames: seq<seq<byte>>, k: nat)
    requires k <= |frames|
  {
    if k == |frames| then replies == []
    else
      && replies != []
      && ((Busy(replies[0]) && Carries(replies[1..], frames, k))
          || (replies[0] == Report(frames[k]) && Carries(replies[1..], frames, k + 1)))
  }

  /** The part of the payload that the first `k` blocks hold. */
  function Before(payload: seq<byte>, k: nat): seq<byte> {
    if At(k) <= |payload| then payload[..At(k)] else payload
  }

  /** A received block shows its control byte and its data, and adds the data to what came before. */
  lemma BlockReceived(payload: seq<byte>, timeout: nat, i: nat, buffer: seq<byte>)
    requires |buffer| == 512 && At(i) <= |payload|
    ensures var b := Overlay(buffer, Block(payload, timeout, i));
            && b[1] == Pcb(i, Follows(payload, i))
            && b[3] <= 60 && Before(payload, i) + b[4..4 + b[3]] == Before(payload, i + 1)
  {
    var block := Block(payload, timeout, i);
    var b, d := Overlay(buffer, block), Data(payload, i);
    assert b[3] == block[3] == |d|;
    assert b[4..4 + |d|] == block[4..4 + |d|] == d;
  }

  /** The receive loop's round for block `i`. */
  lemma FrameStep(payload: seq<byte>, timeout: nat, i: nat, replies: seq<Reply>, buffer: seq<byte>)
    requires |buffer| == 512 && InputReports(replies) && At(i) <= |payload| && replies != []
    requires replies[0] == Report(Block(payload, timeout, i)) && Pcb(i, Follows(payload, i)) != BUSY
    ensures Collect(replies, buffer, Before(payload, i)) ==
            if More(Pcb(i, Follows(payload, i)))
            then Collect(replies[1..], Overlay(buffer, replies[0].bytes), Before(payload, i + 1))
            else Got(Before(payload, i + 1))
  {
    BlockReceived(payload, timeout, i, buffer);
  }

  lemma BusyStep(replies: seq<Reply>, buffer: seq<byte>, got: seq<byte>)
    requires |buffer| == 512 && InputReports(replies) && replies != [] && Busy(replies[0])
    ensures Collect(replies, buffer, got) == Collect(replies[1..], Overlay(buffer, replies[0].bytes), got)
  {
  }

  /** At block `k` of at most 32, the rest of the replies complete the payload. */
  lemma {:induction false} RestArrives(payload: seq<byte>, timeout: nat, replies: seq<Reply>, buffer: seq<byte>, k: nat)
    requires |buffer| == 512 && InputReports(replies) && |payload| <= 1920
    requires k < Blocks(|payload|) && Carries(replies, Frames(payload, timeout), k)
    ensures Collect(replies, buffer, Before(payload, k)) == Got(payload)
    decreases |replies|
  {
    var frames := Frames(payload, timeout);
    var b := Overlay(buffer, replies[0].bytes);
    LastFollowsNot(payload, k);
    PcbSaysWellIff(k, Follows(payload, k));
    if Busy(replies[0]) && Carries(replies[1..], frames, k) {
      BusyStep(replies, buffer, Before(payload, k));
      RestArrives(payload, timeout, replies[1..], b, k);
    } else {
      assert replies[0] == Report(Block(payload, timeout, k));
      FrameStep(payload, timeout, k, replies, buffer);
      if Follows(payload, k) { RestArrives(payload, timeout, replies[1..], b, k + 1); }
    }
  }

  /** With a 33rd block the rest never completes it: its number spoils the control byte. */
  lemma {:induction false} RestIsSpoilt(payload: seq<byte>, timeout: nat, replies: seq<Reply>,
                                        buffer: seq<byte>, k: nat)
    requires |buffer| == 512 && InputReports(replies) && |payload| > 1920
    requires k <= 0x20 && Carries(replies, Frames(payload, timeout), k)
    ensures Collect(replies, buffer, Before(payload, k)) != Got(payload)
    decreases |replies|
  {
    var frames := Frames(payload, timeout);
    var b := Overlay(buffer, replies[0].bytes);
    if Busy(replies[0]) && Carries(replies[1..], frames, k) {
      BusyStep(replies, buffer, Before(payload, k));
      RestIsSpoilt(payload, timeout, replies[1..], b, k);
    } else {
      assert replies[0] == Report(Block(payload, timeout, k));
      SpoiltStep(payload, timeout, replies, buffer, k);
      if k < 0x20 { RestIsSpoilt(payload, timeout, replies[1..], b, k + 1); }
    }
  }

  /** One frame of such a payload. */
  lemma SpoiltStep(payload: seq<byte>, timeout: nat, replies: seq<Reply>, buffer: seq<byte>, k: nat)
    requires |buffer| == 512 && InputReports(replies) && |payload| > 1920 && k <= 0x20 && replies != []
    requires replies[0] == Report(Block(payload, timeout, k))
    ensures k < 0x20 ==> Collect(replies, buffer, Before(payload, k))
                         == Collect(replies[1..], Overlay(buffer, replies[0].bytes), Before(payload, k + 1))
    ensures k == 0x20 && (Blocks(|payload|) == 0x21 ==> replies[1..] == []) ==>
              Collect(replies, buffer, Before(payload, k)) != Got(payload)
  {
    Block32Spoils(payload);
    PcbSaysWellIff(k, Follows(payload, k));
    FrameStep(payload, timeout, k, replies, buffer);
  }

  /** Block number 32 says that more follows when it is the last one, and else that it is the last. */
  lemma Block32Spoils(payload: seq<byte>)
    requires |payload| > 1920
    ensures var pcb := Pcb(0x20, Follows(payload, 0x20));
            pcb != BUSY && (More(pcb) <==> Blocks(|payload|) == 0x21)
    ensures Blocks(|payload|) > 0x21 ==> |Before(payload, 0x21)| < |payload|
  {
    assert Pcb(0x20, true) == 0x40 && Pcb(0x20, false) == 0x20;
  }

  /** Framing round trip: the frames of a payload, with any busy reports in between, are put
      together to that payload if and only if it has at most 1920 bytes. */
  lemma RoundTripIff(payload: seq<byte>, timeout: nat, replies: seq<Reply>, buffer: seq<byte>)
    requires |buffer| == 512 && InputReports(replies) && Carries(replies, Frames(payload, timeout), 0)
    ensures Collect(replies, buffer, []) == Got(payload) <==> |payload| <= 1920
  {
    assert Before(payload, 0) == [];
    if |payload| <= 1920 {
      RestArrives(payload, timeout, replies, buffer, 0);
    } else {
      RestIsSpoilt(payload, timeout, replies, buffer, 0);
    }
  }

  /** A report that ends an answer: it is not the busy code, and does not announce another one. */
  predicate Final(r: Reply) { r.Report? && |r.bytes| == 64 && r.bytes[1] != BUSY && !More(r.bytes[1]) }

  predicate Whole(replies: seq<Reply>) {
    forall i :: 0 <= i < |replies| && replies[i].Report? ==> |replies[i].bytes| == 64
  }

  /** No read failed before reply `n`. */
  predicate AllRead(replies: seq<Reply>, n: nat)
    requires n <= |replies|
  {
    forall i :: 0 <= i < n ==> replies[i].Report?
  }

  /** Of whole reports, there is an answer iff one of them ends it and no read before that fails. */
  lemma {:induction false} AnswerIff(replies: seq<Reply>, buffer: seq<byte>, got: seq<byte>)
    requires |buffer| == 512 && InputReports(replies) && Whole(replies)
    ensures Collect(replies, buffer, got).Got? <==>
              exists i :: 0 <= i < |replies| && Final(replies[i]) && AllRead(replies, i)
    decreases |replies|
  {
    if replies != [] && replies[0].Report? {
      var b := Overlay(buffer, replies[0].bytes);
      if Final(replies[0]) {
        assert AllRead(replies, 0);
      } else {
        AnswerIff(replies[1..], b, if b[1] == BUSY then got else got + b[4..4 + b[3]]);
        FinalShift(replies);
      }
    }
  }

  lemma FinalShift(replies: seq<Reply>)
    requires replies != [] && replies[0].Report? && !Final(replies[0])
    ensures (exists i :: 0 <= i < |replies| && Final(replies[i]) && AllRead(replies, i))
            <==> exists i :: 0 <= i < |replies| - 1 && Final(replies[1..][i]) && AllRead(replies[1..], i)
  {
    var rest := replies[1..];
    forall i: nat | i < |rest| ensures AllRead(rest, i) <==> AllRead(replies, i + 1) {
      if AllRead(rest, i) {
        forall j | 0 <= j < i + 1 ensures replies[j].Report? {
          if j > 0 { assert rest[j - 1].Report?; }
        }
      }
    }
    if i :| 0 <= i < |replies| && Final(replies[i]) && AllRead(replies, i) {
      assert Final(rest[i - 1]) && AllRead(rest, i - 1);
    }
    if i :| 0 <= i < |rest| && Final(rest[i]) && AllRead(rest, i) {
      assert Final(replies[i + 1]) && AllRead(replies, i + 1);
    }
  }

  /** The replies that hold just these frames. */
  function Reports(frames: seq<seq<byte>>): (replies: seq<Reply>)
    ensures |replies| == |frames| && forall i :: 0 <= i < |frames| ==> replies[i] == Report(frames[i])
  {
    if frames == [] then [] else [Report(frames[0])] + Reports(frames[1..])
  }

  lemma {:induction false} ReportsCarry(frames: seq<seq<byte>>, k: nat)
    requires k <= |frames|
    ensures Carries(Reports(frames)[k..], frames, k)
    decreases |frames| - k
  {
    if k < |frames| {
      ReportsCarry(frames, k + 1);
      assert Reports(frames)[k..][1..] == Reports(frames)[k + 1..];
    }
  }

  /** 1921 zeros, framed and sent back without any busy report: they are not put together again. */
  lemma OneByteTooMany(timeout: nat, buffer: seq<byte>)
    requires |buffer| == 512
    ensures var payload := Zeros(1921); Collect(Reports(Frames(payload, timeout)), buffer, []) != Got(payload)
  {
    var payload := Zeros(1921);
    var frames := Frames(payload, timeout);
    ReportsCarry(frames, 0);
    assert Reports(frames)[0..] == Reports(frames);
    RoundTripIff(payload, timeout, Reports(frames), buffer);
  }

  // ---------------------------------------------------------------- the code

  /** Fills the output buffer; its first 64 bytes are sent. */
  method FillReport(output: array<byte>, timeout: nat, pcb: byte, data: seq<byte>)
    requires output.Length == 512 && |data| <= 60
    modifies output
    ensures output[..64] == [timeout % 0x100, pcb, 0, |data|] + data + Zeros(60 - |data|)
  {
    forall k | 0 <= k < 512 { output[k] := 0; }
    output[0] := timeout % 0x100;
    output[2] := 0;
    output[3] := |data|;
    output[1] := pcb;
    forall k | 0 <= k < |data| { output[4 + k] := data[k]; }
  }

  lemma NextNumber(i: nat)
    ensures (i % 0x100 + 1) % 0x100 == (i + 1) % 0x100
  {
  }

  lemma NextParity(i: nat)
    ensures (i + 1) % 2 == 1 <==> i % 2 != 1
  {
  }

  /** The two counters for the block after block `i`. */
  method Advance(blockNo: byte, seqNumber: byte, ghost i: nat) returns (nextNo: byte, nextSeq: byte)
    requires blockNo == i % 0x100 && seqNumber == (if i % 2 == 1 then 0x40 else 0)
    ensures nextNo == (i + 1) % 0x100 && nextSeq == (if (i + 1) % 2 == 1 then 0x40 else 0)
  {
    NextNumber(i);
    NextParity(i);
    nextNo := (blockNo + 1) % 0x100;
    nextSeq := if seqNumber == 0x40 then 0 else 0x40;
  }

  /** Length and control byte of block `i`. */
  method Header(left: nat, blockNo: byte, seqNumber: byte, ghost i: nat) returns (length: nat, pcb: byte)
    requires blockNo == i % 0x100 && seqNumber == (if i % 2 == 1 then 0x40 else 0)
    ensures length == (if left > 60 then 60 else left) && pcb == Pcb(i, left > 60)
  {
    var moreData := 0;
    length := left;
    if left > 60 { length, moreData := 60, 0x20; }
    pcb := (seqNumber + moreData + blockNo) % 0x100;
  }

  /** The sending loop of HID_Ctrl_Comm: the frames of the command in order, up to the first one
      that the device does not accept. */
  method SendBlocks(command: seq<byte>, timeout: nat, accepts: nat -> bool) returns (ok: bool, sent: seq<seq<byte>>)
    ensures sent <= Frames(command, timeout) && (ok <==> sent == Frames(command, timeout) && accepts(|sent| - 1))
    ensures sent != [] && (forall i :: 0 <= i < |sent| - 1 ==> accepts(i)) && (!ok ==> !accepts(|sent| - 1))
  {
    var output := new byte[512];
    var blockNo: byte, seqNumber: byte, pos: nat, left: nat, again := 0, 0, 0, |command|, true;
    ghost var i: nat := 0;
    sent := [];
    while again
      invariant |sent| == i <= Blocks(|command|) && sent <= Frames(command, timeout)
      invariant forall k :: 0 <= k < i ==> accepts(k)
      invariant again <==> i < Blocks(|command|)
      invariant again ==> pos == At(i) && left == |command| - pos
      invariant again ==> blockNo == i % 0x100 && seqNumber == (if i % 2 == 1 then 0x40 else 0)
      decreases Blocks(|command|) - i
    {
      var length := NextBlock(output, command, timeout, pos, left, blockNo, seqNumber, i);
      blockNo, seqNumber := Advance(blockNo, seqNumber, i);
      left, pos := left - length, pos + length;
      LastFollowsNot(command, i);
      PrefixSnoc(sent, Frames(command, timeout), i);
      sent := sent + [output[..64]];
      if !accepts(|sent| - 1) { return false, sent; }
      i := i + 1;
      again := left > 0;
    }
    ok := true;
  }

  lemma PrefixSnoc(sent: seq<seq<byte>>, frames: seq<seq<byte>>, i: nat)
    requires sent <= frames && |sent| == i < |frames|
    ensures sent + [frames[i]] <= frames
    ensures sent + [frames[i]] == frames <==> i == |frames| - 1
  {
  }

  /** The output buffer for block `i`, of which the first 64 bytes are sent. */
  method NextBlock(output: array<byte>, command: seq<byte>, timeout: nat, pos: nat, left: nat,
                   blockNo: byte, seqNumber: byte, ghost i: nat)
    returns (length: nat)
    requires output.Length == 512 && i < Blocks(|command|) && pos == At(i) && pos + left == |command|
    requires blockNo == i % 0x100 && seqNumber == (if i % 2 == 1 then 0x40 else 0)
    modifies output
    ensures length == (if left > 60 then 60 else left) && output[..64] == Frames(command, timeout)[i]
  {
    var pcb: byte;
    length, pcb := Header(left, blockNo, seqNumber, i);
    FillReport(output, timeout, pcb, command[pos..pos + length]);
    DataIs(command, i, pos, left, length);
    BlockIs(command, timeout, i, pcb, command[pos..pos + length]);
  }

  lemma DataIs(command: seq<byte>, i: nat, pos: nat, left: nat, length: nat)
    requires pos == At(i) && pos + left == |command| && length == (if left > 60 then 60 else left)
    ensures command[pos..pos + length] == Data(command, i) && (Follows(command, i) <==> left > 60)
  {
  }

  lemma BlockIs(command: seq<byte>, timeout: nat, i: nat, pcb: byte, data: seq<byte>)
    requires i < Blocks(|command|) && At(i) <= |command|
    requires pcb == Pcb(i, Follows(command, i)) && data == Data(command, i)
    ensures [timeout % 0x100, pcb, 0, |data|] + data + Zeros(60 - |data|) == Frames(command, timeout)[i]
  {
    assert Frames(command, timeout)[i] == Block(command, timeout, i);
  }

  /** The receiving loop of HID_Ctrl_Comm. The input buffer is not cleared: `stack` is what it holds. */
  method ReceiveBlocks(replies: seq<Reply>, stack: seq<byte>) returns (answer: Answer)
    requires InputReports(replies) && |stack| == 512
    ensures answer == Collect(replies, stack, [])
  {
    var input := new byte[512](i requires 0 <= i < 512 => stack[i]);
    assert input[..] == stack;
    var i: nat, got: seq<byte>, more := 0, [], true;
    while more
      invariant i <= |replies|
      invariant Collect(replies, stack, []) == if more then Collect(replies[i..], input[..], got) else Got(got)
      decreases |replies| - i, more
    {
      if i == |replies| || replies[i].Failed? { return NoAnswer; }
      ghost var buffer := input[..];
      var bytes := replies[i].bytes;
      forall k | 0 <= k < |bytes| { input[k] := bytes[k]; }
      assert input[..] == Overlay(buffer, bytes);
      i := i + 1;
      var pcb := input[1];
      if pcb != BUSY {
        more := More(pcb);
        got := got + input[4..4 + input[3]];
      }
    }
    answer := Got(got);
  }

  /** The status word of an answer: its last two bytes, the higher one first. */
  function Status(a: Answer): int {
    if a.NoAnswer? || |a.bytes| < 2 then -1 else a.bytes[|a.bytes| - 2] as int * 0x100 + a.bytes[|a.bytes| - 1]
  }

  /** HID_Ctrl_Comm. Frames of an answer that fits come back as the answer and its status. */
  method CtrlComm(command: seq<byte>, timeout: nat, accepts: nat -> bool, replies: seq<Reply>, stack: seq<byte>)
    returns (status: int, response: seq<byte>, sent: seq<seq<byte>>)
    requires InputReports(replies) && |stack| == 512
    ensures sent <= Frames(command, timeout) && -1 <= status < 0x10000
    ensures !(sent == Frames(command, timeout) && accepts(|sent| - 1)) ==> status == -1 && response == []
    ensures sent == Frames(command, timeout) && accepts(|sent| - 1) ==>
              match Collect(replies, stack, [])
              case NoAnswer => status == -1 && response == []
              case Got(b) =>
                if |b| < 2 then status == -1 && response == b
                else response + [status / 0x100, status % 0x100] == b
    ensures forall payload, t ::
              (2 <= |payload| <= 1920 && Carries(replies, Frames(payload, t), 0)
               && sent == Frames(command, timeout) && accepts(|sent| - 1))
              ==> response == payload[..|payload| - 2] && status == Status(Got(payload))
  {
    var ok: bool;
    ok, sent := SendBlocks(command, timeout, accepts);
    if !ok { return -1, [], sent; }
    var answer := ReceiveBlocks(replies, stack);
    forall payload: seq<byte>, t: nat | |payload| <= 1920 && Carries(replies, Frames(payload, t), 0)
      ensures answer == Got(payload)
    {
      RoundTripIff(payload, t, replies, stack);
    }
    if answer.NoAnswer? { return -1, [], sent; }
    response := answer.bytes;
    if |response| >= 2 {
      status := response[|response| - 2] as int * 0x100 + response[|response| - 1];
      response := response[..|response| - 2];
    } else {
      status := -1;
    }
  }
}
