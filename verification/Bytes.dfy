/** Bytes and words, and the few facts about byte sequences that several components share. */
module Bytes {

  type byte = x: int | 0 <= x < 256

  const WORD := 0x1_0000_0000   // 2^32, the range of `unsigned int` and of Windows' `unsigned long`

  /** A number as a 32-bit `int` holds it. */
  function Int32(x: int): int {
    var u := x % WORD;
    if u < WORD / 2 then u else u - WORD
  }

  /** All pieces of `pieces`, one after the other. */
  ghost function Flatten<T>(pieces: seq<seq<T>>): seq<T> {
    if pieces == [] then []
    else Flatten(pieces[..|pieces| - 1]) + pieces[|pieces| - 1]
  }

  lemma FlattenSnoc<T>(pieces: seq<seq<T>>, k: nat)
    requires k < |pieces|
    ensures Flatten(pieces[..k + 1]) == Flatten(pieces[..k]) + pieces[k]
  {
    assert pieces[..k + 1][..k] == pieces[..k];
  }

  /** `buffer` with the bytes from `at` on replaced by `data`. */
  ghost function Splice<T>(buffer: seq<T>, at: nat, data: seq<T>): (r: seq<T>)
    requires at + |data| <= |buffer|
    ensures |r| == |buffer|
    ensures r[at..at + |data|] == data
    ensures forall k :: 0 <= k < at || at + |data| <= k < |buffer| ==> r[k] == buffer[k]
  {
    buffer[..at] + data + buffer[at + |data|..]
  }
}
