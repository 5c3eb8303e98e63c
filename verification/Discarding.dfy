/** Asking the kernel to give requests back, as every kind of transfer of the Linux backend does. */
module Discarding {
  import opened BulkTransfer

  /** The kernel's answer to one DISCARDURB ioctl. */
  datatype DiscardAnswer = Discarded | NotQueued | DeviceGone | DiscardFailed

  datatype Code = Ok | ErrBusy | ErrNotSupported | ErrNoDevice | ErrIo | ErrNotFound | ErrOther

  predicate Harmless(a: DiscardAnswer) {
    a == Discarded || a == NotQueued
  }

  ghost predicate FirstFailure(first: nat, lastPlusOne: nat, i: nat, answer: nat -> DiscardAnswer) {
    first <= i < lastPlusOne && !Harmless(answer(i)) && forall j :: first <= j < i ==> Harmless(answer(j))
  }

  /** Which of several failures is returned: a request that is no longer queued only counts when it is
      the last one, and of the others the one of the lowest request does. */
  ghost predicate Discards(first: nat, lastPlusOne: nat, answer: nat -> DiscardAnswer, ret: Code) {
    && ret in {Ok, ErrNotFound, ErrNoDevice, ErrOther}
    && (ret == Ok <==>
          forall i :: first <= i < lastPlusOne ==>
            answer(i) == Discarded || (answer(i) == NotQueued && i != lastPlusOne - 1))
    && (ret == ErrNotFound <==>
          && first < lastPlusOne && answer(lastPlusOne - 1) == NotQueued
          && forall i :: first <= i < lastPlusOne ==> Harmless(answer(i)))
    && (ret == ErrNoDevice <==> exists i :: FirstFailure(first, lastPlusOne, i, answer) && answer(i) == DeviceGone)
  }

  /** discard_urbs: last request first. */
  method DiscardEach(first: nat, lastPlusOne: nat, answer: nat -> DiscardAnswer)
    returns (ret: Code, ghost asked: set<nat>)
    ensures asked == From(first, lastPlusOne) && Discards(first, lastPlusOne, answer, ret)
  {
    ret, asked := Ok, {};
    var i := lastPlusOne;
    while i > first
      invariant first <= i <= lastPlusOne || i == lastPlusOne
      invariant asked == From(i, lastPlusOne)
      invariant ret in {Ok, ErrNotFound, ErrNoDevice, ErrOther}
      invariant ret in {Ok, ErrNotFound} <==> forall j :: i <= j < lastPlusOne ==> Harmless(answer(j))
      invariant ret == ErrNotFound ==> i < lastPlusOne && answer(lastPlusOne - 1) == NotQueued
      invariant ret == Ok && i < lastPlusOne ==> answer(lastPlusOne - 1) != NotQueued
      invariant ret == ErrNoDevice <==> exists j :: FirstFailure(i, lastPlusOne, j, answer) && answer(j) == DeviceGone
    {
      i := i - 1;
      assert From(i, lastPlusOne) == {i} + From(i + 1, lastPlusOne);
      asked := asked + {i};
      match answer(i)
      case Discarded =>
      case NotQueued => if i == lastPlusOne - 1 { ret := ErrNotFound; }
      case DeviceGone => ret := ErrNoDevice; assert FirstFailure(i, lastPlusOne, i, answer);
      case DiscardFailed => ret := ErrOther;
    }
  }
}
