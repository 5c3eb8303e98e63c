/**
 An isochronous transfer of the Linux backend: its packets are packed, in order, into requests of
 at most 32 KB. One pass counts the requests, a second one fills them.
 */
module IsoTransfer {
  import opened Bytes

  const MAX_ISO_BUFFER_LENGTH := 32768

  /** Packets that the kernel accepts at all. */
  predicate Fitting(lengths: seq<nat>) {
    forall i :: 0 <= i < |lengths| ==> lengths[i] <= MAX_ISO_BUFFER_LENGTH
  }

  // ---------------------------------------------------------------- the greedy split

  /** The bytes of packets i..j. */
  function Sum(lengths: seq<nat>, i: nat, j: nat): nat
    requires i <= j <= |lengths|
    decreases j
  {
    if i == j then 0 else Sum(lengths, i, j - 1) + lengths[j - 1]
  }

  /** Where a request with `space` bytes left, whose next packet is `p`, stops taking packets. */
  function Fit(lengths: seq<nat>, p: nat, space: nat): (q: nat)
    requires p <= |lengths|
    ensures p <= q <= |lengths|
    decreases |lengths| - p
  {
    if p == |lengths| || lengths[p] > space then p else Fit(lengths, p + 1, space - lengths[p])
  }

  /** Where the k-th request starts. */
  function Start(lengths: seq<nat>, k: nat): (p: nat)
    ensures p <= |lengths|
  {
    if k == 0 then 0 else Fit(lengths, Start(lengths, k - 1), MAX_ISO_BUFFER_LENGTH)
  }

  /** How many requests the packets from `p` on need. */
  function Groups(lengths: seq<nat>, p: nat): nat
    requires Fitting(lengths) && p <= |lengths|
    decreases |lengths| - p
  {
    if p == |lengths| then 0 else 1 + Groups(lengths, Fit(lengths, p, MAX_ISO_BUFFER_LENGTH))
  }

  function NumUrbs(lengths: seq<nat>): nat
    requires Fitting(lengths)
  {
    if lengths == [] then 1 else Groups(lengths, 0)
  }

  lemma {:induction false} SumSplit(lengths: seq<nat>, i: nat, j: nat, k: nat)
    requires i <= j <= k <= |lengths|
    ensures Sum(lengths, i, k) == Sum(lengths, i, j) + Sum(lengths, j, k)
    decreases k
  {
    if j < k { SumSplit(lengths, i, j, k - 1); }
  }

  /** A request takes as many packets as fit, and no more. */
  lemma {:induction false} FitIsMaximal(lengths: seq<nat>, p: nat, space: nat)
    requires p <= |lengths|
    ensures var q := Fit(lengths, p, space);
            Sum(lengths, p, q) <= space && (q < |lengths| ==> Sum(lengths, p, q + 1) > space)
    decreases |lengths| - p
  {
    if p < |lengths| && lengths[p] <= space {
      FitIsMaximal(lengths, p + 1, space - lengths[p]);
      var q := Fit(lengths, p, space);
      SumSplit(lengths, p, p + 1, q);
      if q < |lengths| { SumSplit(lengths, p, p + 1, q + 1); }
    }
  }

  // ---------------------------------------------------------------- the two passes agree

  /** After `k` requests, as many are missing as the packets from there on need. */
  lemma {:induction false} GroupsLeft(lengths: seq<nat>, k: nat)
    requires Fitting(lengths) && k <= Groups(lengths, 0)
    ensures Groups(lengths, Start(lengths, k)) == Groups(lengths, 0) - k
  {
    if k > 0 { GroupsLeft(lengths, k - 1); }
  }

  /** Filling the counted number of requests takes every packet, and none of them stays empty
      unless there are no packets at all. */
  lemma PassesAgree(lengths: seq<nat>, k: nat)
    requires Fitting(lengths)
    ensures Start(lengths, NumUrbs(lengths)) == |lengths|
    ensures lengths != [] && k < NumUrbs(lengths) ==> Start(lengths, k) < Start(lengths, k + 1)
  {
    if lengths != [] {
      GroupsLeft(lengths, NumUrbs(lengths));
      if k < NumUrbs(lengths) { GroupsLeft(lengths, k); }
    }
  }

  /** A packet that is too long is never taken, however many requests there are: all packets are
      placed in some number of requests iff each fits into one. */
  lemma AllPlacedIff(lengths: seq<nat>)
    ensures (exists k :: Start(lengths, k) == |lengths|) <==> Fitting(lengths)
  {
    if Fitting(lengths) {
      PassesAgree(lengths, 0);
    } else {
      var big :| 0 <= big < |lengths| && lengths[big] > MAX_ISO_BUFFER_LENGTH;
      forall k: nat ensures Start(lengths, k) <= big { StuckBefore(lengths, big, k); }
    }
  }

  /** A single packet of 32769 bytes: no URB ever takes it. */
  lemma TooLongIsNeverPlaced(k: nat)
    ensures Start([MAX_ISO_BUFFER_LENGTH + 1], k) == 0
  {
    StuckBefore([MAX_ISO_BUFFER_LENGTH + 1], 0, k);
  }

  lemma {:induction false} StuckBefore(lengths: seq<nat>, big: nat, k: nat)
    requires big < |lengths| && lengths[big] > MAX_ISO_BUFFER_LENGTH
    ensures Start(lengths, k) <= big
  {
    if k > 0 {
      StuckBefore(lengths, big, k - 1);
      FitBefore(lengths, Start(lengths, k - 1), MAX_ISO_BUFFER_LENGTH, big);
    }
  }

  lemma {:induction false} FitBefore(lengths: seq<nat>, p: nat, space: nat, big: nat)
    requires p <= big < |lengths| && lengths[big] > space
    ensures Fit(lengths, p, space) <= big
    decreases |lengths| - p
  {
    if lengths[p] <= space { FitBefore(lengths, p + 1, space - lengths[p], big); }
  }

  // ---------------------------------------------------------------- the split is optimal

  /** Any way to cut the packets, in order, into runs that fit one request each. */
  predicate Partition(lengths: seq<nat>, cuts: seq<nat>) {
    && |cuts| >= 2 && cuts[0] == 0 && cuts[|cuts| - 1] == |lengths|
    && (forall i :: 0 <= i < |cuts| ==> cuts[i] <= |lengths|)
    && (forall i :: 0 <= i < |cuts| - 1 ==> cuts[i] <= cuts[i + 1])
    && (forall i :: 0 <= i < |cuts| - 1 ==> Sum(lengths, cuts[i], cuts[i + 1]) <= MAX_ISO_BUFFER_LENGTH)
  }

  /** Whoever starts later gets at least as far. */
  lemma FitMonotone(lengths: seq<nat>, p: nat, q: nat, to: nat, space: nat)
    requires p <= q <= |lengths| && p <= to <= |lengths| && Sum(lengths, p, to) <= space
    ensures to <= Fit(lengths, q, space)
  {
    FitIsMaximal(lengths, q, space);
    var end := Fit(lengths, q, space);
    if end < to {
      SumSplit(lengths, p, q, end + 1);
      SumSplit(lengths, p, end + 1, to);
    }
  }

  /** The greedy split stays ahead of every other one. */
  lemma {:induction false} GreedyStaysAhead(lengths: seq<nat>, cuts: seq<nat>, k: nat)
    requires Partition(lengths, cuts) && k < |cuts|
    ensures cuts[k] <= Start(lengths, k)
  {
    if k > 0 {
      GreedyStaysAhead(lengths, cuts, k - 1);
      FitMonotone(lengths, cuts[k - 1], Start(lengths, k - 1), cuts[k], MAX_ISO_BUFFER_LENGTH);
    }
  }

  /** No order-preserving partition uses fewer requests. */
  lemma SplitIsOptimal(lengths: seq<nat>, cuts: seq<nat>)
    requires Fitting(lengths) && Partition(lengths, cuts)
    ensures NumUrbs(lengths) <= |cuts| - 1
  {
    var k := |cuts| - 1;
    GreedyStaysAhead(lengths, cuts, k);
    if lengths != [] && k < NumUrbs(lengths) {
      PassesAgree(lengths, k);
    }
  }

  // ---------------------------------------------------------------- the code

  /** C's conversion of an `int` to `unsigned int`. */
  function Unsigned(x: int): nat { x % WORD }

  /** The counting pass of submit_iso_transfer. The comparison is one of unsigned numbers. */
  method CountUrbs(lengths: seq<nat>) returns (numUrbs: nat)
    requires forall i :: 0 <= i < |lengths| ==> lengths[i] < WORD
    ensures Fitting(lengths) ==> numUrbs == NumUrbs(lengths)
    ensures numUrbs >= 1
  {
    numUrbs := 1;
    var thisUrbLen := 0;
    ghost var g: nat := 0;
    for i := 0 to |lengths|
      invariant numUrbs >= 1
      invariant Fitting(lengths) ==> CountsUpTo(lengths, i, g, thisUrbLen, numUrbs)
    {
      var spaceRemaining := MAX_ISO_BUFFER_LENGTH - thisUrbLen;
      if lengths[i] > Unsigned(spaceRemaining) {
        numUrbs := numUrbs + 1;
        thisUrbLen := Int32(lengths[i]);
        g := i;
      } else {
        thisUrbLen := Int32(thisUrbLen + lengths[i]);
      }
    }
  }

  /** The counting pass at packet `i`: the current request started at `g` and holds `len` bytes. */
  ghost predicate CountsUpTo(lengths: seq<nat>, i: nat, g: nat, len: int, n: nat)
    requires Fitting(lengths) && i <= |lengths|
  {
    && g <= i && 0 <= len <= MAX_ISO_BUFFER_LENGTH && (g == i ==> i == 0 && len == 0)
    && Fit(lengths, i, MAX_ISO_BUFFER_LENGTH - len) == Fit(lengths, g, MAX_ISO_BUFFER_LENGTH)
    && (lengths != [] ==> n - 1 + Groups(lengths, g) == Groups(lengths, 0))
    && (lengths == [] ==> n == 1)
  }

  /** One request: its packets, their lengths, and where its part of the buffer starts. */
  datatype IsoUrb = IsoUrb(first: nat, lengths: seq<nat>, buffer: nat)

  /** What the filling pass promises for request `k`. */
  predicate FilledWell(lengths: seq<nat>, urb: IsoUrb, k: nat) {
    var p, q := Start(lengths, k), Start(lengths, k + 1);
    p <= q && urb == IsoUrb(p, lengths[p..q], Sum(lengths, 0, p))
  }

  /** The filling pass of submit_iso_transfer. */
  method FillUrbs(lengths: seq<nat>, numUrbs: nat) returns (urbs: seq<IsoUrb>)
    ensures |urbs| == numUrbs
    ensures forall k :: 0 <= k < numUrbs ==> FilledWell(lengths, urbs[k], k)
  {
    urbs := [];
    var packetOffset, urbBuffer := 0, 0;
    for i := 0 to numUrbs
      invariant |urbs| == i && packetOffset == Start(lengths, i) && urbBuffer == Sum(lengths, 0, packetOffset)
      invariant forall k :: 0 <= k < i ==> FilledWell(lengths, urbs[k], k)
    {
      var spaceRemaining, urbPacketOffset, urbBufferOrig := MAX_ISO_BUFFER_LENGTH, 0, urbBuffer;
      while packetOffset < |lengths|
        invariant Start(lengths, i) <= packetOffset <= |lengths|
        invariant urbPacketOffset == packetOffset - Start(lengths, i)
        invariant 0 <= spaceRemaining && urbBuffer == Sum(lengths, 0, packetOffset)
        invariant Fit(lengths, packetOffset, spaceRemaining) == Start(lengths, i + 1)
      {
        var packetLen := lengths[packetOffset];
        if packetLen <= spaceRemaining {
          urbPacketOffset, packetOffset := urbPacketOffset + 1, packetOffset + 1;
          spaceRemaining, urbBuffer := spaceRemaining - packetLen, urbBuffer + packetLen;
        } else {
          break;
        }
      }
      var first := packetOffset - urbPacketOffset;
      urbs := urbs + [IsoUrb(first, lengths[first..packetOffset], urbBufferOrig)];
    }
  }

  /** libusb_get_iso_packet_buffer: the offset of a packet in the buffer, none past the end. */
  method PacketBuffer(lengths: seq<nat>, packet: nat) returns (offset: nat, found: bool)
    ensures found <==> packet < |lengths|
    ensures found ==> offset == Sum(lengths, 0, packet)
  {
    if packet >= |lengths| { return 0, false; }
    offset := 0;
    for i := 0 to packet
      invariant offset == Sum(lengths, 0, i)
    {
      offset := offset + lengths[i];
    }
    found := true;
  }

  /** libusb_get_iso_packet_buffer_simple agrees with it when all packets have the same length. */
  lemma {:induction false} SimpleBufferAgrees(lengths: seq<nat>, packet: nat)
    requires packet < |lengths| && forall i :: 0 <= i < |lengths| ==> lengths[i] == lengths[0]
    ensures lengths[0] * packet == Sum(lengths, 0, packet)
  {
    if packet > 0 { SimpleBufferAgrees(lengths, packet - 1); }
  }

  /** Together: with packets that fit, the filled requests hold every packet once and in order. */
  lemma EveryPacketOnce(lengths: seq<nat>, urbs: seq<IsoUrb>)
    requires Fitting(lengths) && |urbs| == NumUrbs(lengths)
    requires forall i :: 0 <= i < |urbs| ==> FilledWell(lengths, urbs[i], i)
    ensures Taken(urbs, |urbs|) == lengths
  {
    TakenIs(lengths, urbs, |urbs|);
    PassesAgree(lengths, 0);
  }

  /** No request is empty unless the transfer is, none holds more than 32 KB, and each starts where
      the buffer of its first packet does. */
  lemma EachRequestIsRight(lengths: seq<nat>, urb: IsoUrb, k: nat)
    requires Fitting(lengths) && k < NumUrbs(lengths) && FilledWell(lengths, urb, k)
    ensures urb.first <= |lengths| && urb.buffer == Sum(lengths, 0, urb.first)
    ensures lengths != [] ==> urb.first < |lengths| && urb.lengths != []
    ensures Sum(urb.lengths, 0, |urb.lengths|) <= 32768
  {
    PassesAgree(lengths, k);
    var p, q := Start(lengths, k), Start(lengths, k + 1);
    FitIsMaximal(lengths, p, MAX_ISO_BUFFER_LENGTH);
    SumOfSlice(lengths, p, q);
  }

  /** The packets of the first `k` requests. */
  function Taken(urbs: seq<IsoUrb>, k: nat): seq<nat>
    requires k <= |urbs|
  {
    if k == 0 then [] else Taken(urbs, k - 1) + urbs[k - 1].lengths
  }

  lemma {:induction false} TakenIs(lengths: seq<nat>, urbs: seq<IsoUrb>, k: nat)
    requires k <= |urbs| && forall i :: 0 <= i < |urbs| ==> FilledWell(lengths, urbs[i], i)
    ensures Taken(urbs, k) == lengths[..Start(lengths, k)]
  {
    if k > 0 {
      TakenIs(lengths, urbs, k - 1);
      var p, q := Start(lengths, k - 1), Start(lengths, k);
      assert FilledWell(lengths, urbs[k - 1], k - 1);
      assert lengths[..q] == lengths[..p] + lengths[p..q];
    }
  }

  lemma {:induction false} SumOfSlice(lengths: seq<nat>, p: nat, q: nat)
    requires p <= q <= |lengths|
    ensures Sum(lengths[p..q], 0, q - p) == Sum(lengths, p, q)
    decreases q
  {
    if p < q {
      SumOfSlice(lengths, p, q - 1);
      SumOfPrefix(lengths[p..q], lengths[p..q - 1], q - p - 1);
    }
  }

  lemma {:induction false} SumOfPrefix(a: seq<nat>, b: seq<nat>, n: nat)
    requires n <= |b| && b <= a
    ensures Sum(a, 0, n) == Sum(b, 0, n)
  {
    if n > 0 { SumOfPrefix(a, b, n - 1); }
  }
}
