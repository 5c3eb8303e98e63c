/**
 The session-id table of the Windows backend: open addressing with double hashing over a prime
 table size, slots 1..size, and no deletion.
 */
module HashTable {
  import opened Wrappers

  import opened Bytes
  import opened Primes
  import opened Sets

  /** A C string: signed characters, none of them zero. */
  type SChar = c: int | -128 <= c < 128 && c != 0 witness 1
  type CString = seq<SChar>

  // ---------------------------------------------------------------- the probe sequence

  /** One step of the probe: `hval2` slots back, around the table 1..size. */
  function Back(size: nat, idx: nat, hval2: nat): nat
    requires 1 <= idx <= size && 1 <= hval2 <= size
  {
    if idx <= hval2 then size + idx - hval2 else idx - hval2
  }

  /** The slot looked at after `k` steps. */
  function Probe(size: nat, hval: nat, hval2: nat, k: nat): (idx: nat)
    requires 1 <= hval <= size && 1 <= hval2 < size
    ensures 1 <= idx <= size
  {
    if k == 0 then hval else Back(size, Probe(size, hval, hval2, k - 1), hval2)
  }

  /** Where the probe is, as an equation: `k` steps of `hval2`, less some full turns. */
  lemma {:induction false} ProbeTurns(size: nat, hval: nat, hval2: nat, k: nat) returns (turns: nat)
    requires 1 <= hval <= size && 1 <= hval2 < size
    ensures Probe(size, hval, hval2, k) + k * hval2 == hval + size * turns
  {
    if k == 0 {
      turns := 0;
    } else {
      turns := ProbeTurns(size, hval, hval2, k - 1);
      var before := Probe(size, hval, hval2, k - 1);
      assert k * hval2 == (k - 1) * hval2 + hval2;
      if before <= hval2 {
        assert size * (turns + 1) == size * turns + size;
        turns := turns + 1;
      }
    }
  }

  /** Two different steps of the same round look at different slots. */
  lemma ProbeDistinct(size: nat, hval: nat, hval2: nat, j: nat, k: nat)
    requires IsPrime(size) && 1 <= hval <= size && 1 <= hval2 < size && j < k < size
    ensures Probe(size, hval, hval2, j) != Probe(size, hval, hval2, k)
  {
    var tj := ProbeTurns(size, hval, hval2, j);
    var tk := ProbeTurns(size, hval, hval2, k);
    if Probe(size, hval, hval2, j) == Probe(size, hval, hval2, k) {
      var v := Difference(size, hval2, j, k, tj, tk);
      SmallMultiple(size, hval2, k - j, v);
    }
  }

  lemma SmallMultiple(size: nat, s: nat, d: nat, v: nat)
    requires IsPrime(size) && 1 <= s < size && 0 < d < size
    ensures d * s != size * v
  {
    if d * s == size * v {
      EuclidLemma(size, s, d, v);
    }
  }

  lemma Difference(size: nat, s: nat, j: nat, k: nat, tj: nat, tk: nat) returns (v: nat)
    requires j < k && k * s - j * s == size * tk - size * tj
    ensures (k - j) * s == size * v
  {
    assert (k - j) * s == k * s - j * s;
    NextMultiple(size, tk, tj);
    if tk < tj {
      v := 0;
    } else {
      v := tk - tj;
      assert size * v == size * tk - size * tj;
    }
  }

  /** The probe comes back to its start after `size` steps, and not before. */
  lemma ProbeReturns(size: nat, hval: nat, hval2: nat, k: nat)
    requires IsPrime(size) && 1 <= hval <= size && 1 <= hval2 < size && 0 < k <= size
    ensures Probe(size, hval, hval2, k) == hval <==> k == size
  {
    if k < size {
      ProbeDistinct(size, hval, hval2, 0, k);
    } else {
      var t := ProbeTurns(size, hval, hval2, size);
      FullRound(size, Probe(size, hval, hval2, size), hval, hval2, t);
    }
  }

  lemma FullRound(size: nat, idx: nat, hval: nat, s: nat, t: nat)
    requires idx + size * s == hval + size * t && 1 <= idx <= size && 1 <= hval <= size
    ensures idx == hval
  {
    NextMultiple(size, s, t);
    NextMultiple(size, t, s);
  }

  ghost function Slots(size: nat): (slots: set<nat>)
    ensures forall i :: i in slots <==> 1 <= i <= size
    ensures |slots| == size
  {
    if size == 0 then {} else Slots(size - 1) + {size}
  }

  /** The slots looked at in the first `n` steps. */
  ghost function Visited(size: nat, hval: nat, hval2: nat, n: nat): (v: set<nat>)
    requires 1 <= hval <= size && 1 <= hval2 < size
    ensures v <= Slots(size)
  {
    if n == 0 then {} else Visited(size, hval, hval2, n - 1) + {Probe(size, hval, hval2, n - 1)}
  }

  lemma {:induction false} VisitedWhen(size: nat, hval: nat, hval2: nat, n: nat, i: nat) returns (k: nat)
    requires 1 <= hval <= size && 1 <= hval2 < size && i in Visited(size, hval, hval2, n)
    ensures k < n && Probe(size, hval, hval2, k) == i
  {
    if Probe(size, hval, hval2, n - 1) == i {
      k := n - 1;
    } else {
      k := VisitedWhen(size, hval, hval2, n - 1, i);
    }
  }

  lemma {:induction false} VisitedCount(size: nat, hval: nat, hval2: nat, n: nat)
    requires IsPrime(size) && 1 <= hval <= size && 1 <= hval2 < size && n <= size
    ensures |Visited(size, hval, hval2, n)| == n
  {
    if n > 0 {
      VisitedCount(size, hval, hval2, n - 1);
      var last := Probe(size, hval, hval2, n - 1);
      if last in Visited(size, hval, hval2, n - 1) {
        var k := VisitedWhen(size, hval, hval2, n - 1, last);
        ProbeDistinct(size, hval, hval2, k, n - 1);
      }
    }
  }

  /** Because the size is prime, one round visits every slot of the table. */
  lemma ProbeVisitsAll(size: nat, hval: nat, hval2: nat, i: nat) returns (k: nat)
    requires IsPrime(size) && 1 <= hval <= size && 1 <= hval2 < size && 1 <= i <= size
    ensures k < size && Probe(size, hval, hval2, k) == i
  {
    VisitedCount(size, hval, hval2, size);
    SubsetOfSameSize(Visited(size, hval, hval2, size), Slots(size));
    k := VisitedWhen(size, hval, hval2, size, i);
  }

  // ---------------------------------------------------------------- the hash functions

  /** djb2 in 32 bits; zero is avoided. */
  function Djb(str: CString): nat {
    if str == [] then 5381 else (Djb(str[..|str| - 1]) * 33 + str[|str| - 1]) % WORD
  }

  function Power33(n: nat): nat {
    if n == 0 then 1 else 33 * Power33(n - 1)
  }

  /** The characters weighted by powers of 33, the last one by 1. */
  function Weighted(str: CString): int {
    if str == [] then 0 else str[0] * Power33(|str| - 1) + Weighted(str[1..])
  }

  lemma {:induction false} WeightedSnoc(str: CString, c: SChar)
    ensures Weighted(str + [c]) == 33 * Weighted(str) + c
    decreases |str|
  {
    if str == [] {
      assert ([c] + [])[1..] == [] && str + [c] == [c] && Power33(0) == 1;
    } else {
      assert (str + [c])[1..] == str[1..] + [c];
      WeightedSnoc(str[1..], c);
      TimesThirtyThree(str[0], Power33(|str| - 1));
    }
  }

  lemma TimesThirtyThree(c: int, p: int)
    ensures c * (33 * p) == 33 * (c * p)
  {
  }

  lemma ThroughWord(a: int, b: int, c: int)
    requires a == b % WORD
    ensures (a * 33 + c) % WORD == (b * 33 + c) % WORD
  {
    var q := b / WORD;
    assert b * 33 + c == a * 33 + c + WORD * (33 * q);
    SameRemainder(a * 33 + c, 33 * q);
  }

  lemma SameRemainder(x: int, k: int)
    ensures (x + WORD * k) % WORD == x % WORD
  {
  }

  /** Step by step in 32 bits, or all at once. */
  lemma {:induction false} DjbIsPolynomial(str: CString)
    ensures Djb(str) == (5381 * Power33(|str|) + Weighted(str)) % 0x1_0000_0000
    decreases |str|
  {
    if str != [] {
      var n := |str| - 1;
      DjbIsPolynomial(str[..n]);
      WeightedSnoc(str[..n], str[n]);
      assert str[..n] + [str[n]] == str;
      ThroughWord(Djb(str[..n]), 5381 * Power33(n) + Weighted(str[..n]), str[n]);
    }
  }

  function Hash1(size: nat, str: CString): (hval: nat)
    requires size >= 5
    ensures 1 <= hval < size
  {
    var r := if Djb(str) == 0 then 1 else Djb(str);
    if r % size == 0 then 1 else r % size
  }

  function Hash2(size: nat, hval: nat): (hval2: nat)
    requires size >= 5
    ensures 1 <= hval2 < size
  {
    1 + hval % (size - 2)
  }

  function Path(size: nat, str: CString, k: nat): nat
    requires size >= 5
  {
    Probe(size, Hash1(size, str), Hash2(size, Hash1(size, str)), k)
  }

  // ---------------------------------------------------------------- the table

  lemma {:induction false} InjectiveCount(m: map<CString, nat>, slots: set<nat>)
    requires forall w :: w in m ==> m[w] in slots
    requires forall v, w :: v in m && w in m && m[v] == m[w] ==> v == w
    ensures |m| <= |slots|
    decreases |m|
  {
    if m != map[] {
      var w :| w in m;
      var rest := m - {w};
      assert m.Keys == rest.Keys + {w} && |m| == |m.Keys| && |rest| == |rest.Keys|;
      InjectiveCount(rest, slots - {m[w]});
    }
  }

  lemma {:induction false} OntoCount(m: map<CString, nat>, slots: set<nat>)
    requires forall i :: i in slots ==> exists w :: w in m && m[w] == i
    ensures |slots| <= |m|
    decreases |slots|
  {
    if slots != {} {
      var i :| i in slots;
      var w :| w in m && m[w] == i;
      var rest := m - {w};
      assert m.Keys == rest.Keys + {w} && |m| == |m.Keys| && |rest| == |rest.Keys|;
      forall j | j in slots - {i} ensures exists v :: v in rest && rest[v] == j {
        var v :| v in m && m[v] == j;
        assert v in rest;
      }
      OntoCount(rest, slots - {i});
    }
  }

  /** The contents of the table: the two columns of slots 0..size. */
  datatype Columns = Columns(used: seq<nat>, strs: seq<CString>)

  ghost predicate Shape(size: nat, t: Columns) {
    size >= 5 && |t.used| == size + 1 && |t.strs| == size + 1
  }

  /** Every used slot holds a string together with its hash, and `index` says which. */
  ghost predicate SlotsOk(size: nat, t: Columns, index: map<CString, nat>)
    requires Shape(size, t)
  {
    && (forall i :: 1 <= i <= size && t.used[i] != 0 ==>
          t.used[i] == Hash1(size, t.strs[i]) && t.strs[i] in index && index[t.strs[i]] == i)
    && (forall w :: w in index ==> 1 <= index[w] <= size && t.used[index[w]] != 0 && t.strs[index[w]] == w)
  }

  ghost predicate UsedBefore(size: nat, t: Columns, w: CString, k: nat)
    requires Shape(size, t)
  {
    forall j: nat :: j < k ==> t.used[Path(size, w, j)] != 0
  }

  ghost predicate Elsewhere(size: nat, t: Columns, w: CString, k: nat)
    requires Shape(size, t)
  {
    forall j: nat :: j < k ==> t.strs[Path(size, w, j)] != w
  }

  /** The search for `w` finds slot `i` at step `k`, over used slots only. */
  ghost predicate LeadsTo(size: nat, t: Columns, w: CString, k: nat, i: nat)
    requires Shape(size, t)
  {
    k < size && Path(size, w, k) == i && UsedBefore(size, t, w, k)
  }

  ghost predicate Consistent(size: nat, t: Columns, index: map<CString, nat>) {
    && Shape(size, t) && SlotsOk(size, t, index)
    && forall w :: w in index ==> exists k: nat :: LeadsTo(size, t, w, k, index[w])
  }

  /** A string whose path is used up to `k`, never by itself, is not stored when the path ends
      there: at an unused slot, or after a full round. */
  lemma NotStored(size: nat, t: Columns, index: map<CString, nat>, w: CString, k: nat)
    requires Consistent(size, t, index) && k <= size && UsedBefore(size, t, w, k) && Elsewhere(size, t, w, k)
    requires k == size || t.used[Path(size, w, k)] == 0
    ensures w !in index
  {
  }

  /** After a full round over used slots, the table is full. */
  lemma FullAfterRound(size: nat, t: Columns, index: map<CString, nat>, w: CString)
    requires Consistent(size, t, index) && IsPrime(size) && UsedBefore(size, t, w, size)
    ensures |index| >= size
  {
    forall i | i in Slots(size) ensures exists v :: v in index && index[v] == i {
      var k := ProbeVisitsAll(size, Hash1(size, w), Hash2(size, Hash1(size, w)), i);
      assert t.used[Path(size, w, k)] != 0;
      assert t.strs[i] in index;
    }
    OntoCount(index, Slots(size));
  }

  /** One step of the search decides: round complete, unused slot, found, or go on. */
  lemma SearchStep(size: nat, t: Columns, index: map<CString, nat>, w: CString, k: nat, i: nat)
    requires Consistent(size, t, index) && IsPrime(size) && 1 <= k <= size && i == Path(size, w, k)
    requires UsedBefore(size, t, w, k) && Elsewhere(size, t, w, k)
    ensures i == Hash1(size, w) ==> w !in index && |index| >= size && t.used[i] != 0
    ensures i != Hash1(size, w) ==> k < size
    ensures i != Hash1(size, w) && t.used[i] == 0 ==> w !in index && LeadsTo(size, t, w, k, i)
    ensures t.used[i] != 0 && t.strs[i] == w ==> w in index && index[w] == i && t.used[i] == Hash1(size, w)
    ensures t.used[i] != 0 && t.strs[i] != w ==> UsedBefore(size, t, w, k + 1) && Elsewhere(size, t, w, k + 1)
  {
    ProbeReturns(size, Hash1(size, w), Hash2(size, Hash1(size, w)), k);
    if k == size {
      NotStored(size, t, index, w, size);
      FullAfterRound(size, t, index, w);
      assert t.used[Path(size, w, 0)] != 0;
    } else if t.used[i] == 0 {
      NotStored(size, t, index, w, k);
    }
  }

  /** The table never holds more strings than it has slots, and with an unused slot it holds fewer. */
  lemma CountBounded(size: nat, t: Columns, index: map<CString, nat>, i: nat)
    requires Consistent(size, t, index) && 1 <= i <= size
    ensures |index| <= size && (t.used[i] == 0 ==> |index| < size)
  {
    InjectiveCount(index, if t.used[i] == 0 then Slots(size) - {i} else Slots(size));
  }

  ghost function UsedSlots(size: nat, t: Columns): set<nat>
    requires Shape(size, t)
  {
    set i | i in Slots(size) && t.used[i] != 0
  }

  /** `filled`, which the table keeps equal to the number of stored strings, counts the used slots. */
  lemma StoredIsUsed(size: nat, t: Columns, index: map<CString, nat>)
    requires Consistent(size, t, index)
    ensures |index| == |UsedSlots(size, t)|
  {
    var slots := UsedSlots(size, t);
    InjectiveCount(index, slots);
    forall i | i in slots ensures exists w :: w in index && index[w] == i {
      assert t.strs[i] in index;
    }
    OntoCount(index, slots);
  }

  /** Storing a new string at the unused slot its path leads to keeps the table consistent. */
  lemma StoreKeeps(size: nat, t: Columns, index: map<CString, nat>, str: CString, idx: nat, k: nat)
    requires Consistent(size, t, index) && str !in index
    requires LeadsTo(size, t, str, k, idx) && t.used[idx] == 0
    ensures Consistent(size, Columns(t.used[idx := Hash1(size, str)], t.strs[idx := str]), index[str := idx])
    ensures forall w :: w in index ==> index[w] != idx
  {
    var t', index' := Columns(t.used[idx := Hash1(size, str)], t.strs[idx := str]), index[str := idx];
    forall w | w in index' ensures exists j: nat :: LeadsTo(size, t', w, j, index'[w]) {
      if w == str {
        StillLeads(size, t, str, k, idx, idx, Hash1(size, str), str);
      } else {
        var j: nat :| LeadsTo(size, t, w, j, index[w]);
        StillLeads(size, t, w, j, index[w], idx, Hash1(size, str), str);
      }
    }
  }

  lemma StillLeads(size: nat, t: Columns, w: CString, k: nat, i: nat, idx: nat, hval: nat, str: CString)
    requires Shape(size, t) && LeadsTo(size, t, w, k, i) && 1 <= idx <= size && hval != 0
    ensures LeadsTo(size, Columns(t.used[idx := hval], t.strs[idx := str]), w, k, i)
  {
  }

  class Table {
    const size: nat
    const used: array<nat>
    const strs: array<CString>
    var filled: nat
    ghost var index: map<CString, nat>     // where each stored string is

    ghost function Model(): Columns
      reads used, strs
    {
      Columns(used[..], strs[..])
    }

    /** htab_filled is the number of used slots, and never more than there are. */
    lemma FilledIsUsed()
      requires Valid()
      ensures filled == |UsedSlots(size, Model())| <= size
    {
      StoredIsUsed(size, Model(), index);
      CountBounded(size, Model(), index, 1);
    }

    ghost predicate Valid()
      reads this, used, strs
    {
      && size >= 5 && IsPrime(size) && used.Length == size + 1 && strs.Length == size + 1
      && Consistent(size, Model(), index)
      && filled == |index|
    }

    constructor (size: nat)
      requires size >= 5 && IsPrime(size)
      ensures Valid() && this.size == size && index == map[] && fresh(used) && fresh(strs)
    {
      this.size := size;
      used := new nat[size + 1](i => 0);
      strs := new CString[size + 1](i => []);
      filled, index := 0, map[];
    }

    /** The main hash value of htab_hash. */
    method MainHash(str: CString) returns (r: nat)
      ensures r == if Djb(str) == 0 then 1 else Djb(str)
    {
      r := 5381;
      for i := 0 to |str|
        invariant r == Djb(str[..i])
      {
        assert str[..i + 1][..i] == str[..i];
        r := (r * 33 + str[i]) % WORD;
      }
      assert str[..|str|] == str;
      if r == 0 { r := r + 1; }
    }

    /** What the search of htab_hash knows when it ends at `idx`. */
    ghost predicate SearchEnds(str: CString, idx: nat, found: bool)
      reads this, used, strs
      requires Valid()
    {
      && 1 <= idx <= size
      && (found <==> str in index)
      && (found ==> idx == index[str])
      && (!found && used[idx] != 0 ==> filled >= size)
      && (!found && used[idx] == 0 ==> exists k: nat :: LeadsTo(size, Model(), str, k, idx))
    }

    /** The search part of htab_hash: the slot of `str`, or where the search gave up. */
    method Search(str: CString) returns (idx: nat, found: bool)
      requires Valid()
      ensures SearchEnds(str, idx, found)
    {
      var r := MainHash(str);
      var hval := r % size;
      if hval == 0 { hval := hval + 1; }
      idx := hval;
      assert idx == Path(size, str, 0);
      if used[idx] != 0 {
        if used[idx] == hval && strs[idx] == str { return idx, true; }
        idx, found := SearchOn(str, hval);
      } else {
        NotStored(size, Model(), index, str, 0);
        assert LeadsTo(size, Model(), str, 0, idx);
        found := false;
      }
    }

    /** The first `k` slots on the path of `str` hold other strings. */
    ghost predicate OthersBefore(str: CString, k: nat)
      requires Valid()
      reads this, used, strs
    {
      UsedBefore(size, Model(), str, k) && Elsewhere(size, Model(), str, k)
    }

    /** What one round of the loop may conclude at the k-th slot of the path, `i`. */
    lemma SearchRound(str: CString, k: nat, i: nat)
      requires Valid() && 1 <= k <= size && i == Path(size, str, k) && OthersBefore(str, k)
      ensures i == Hash1(size, str) ==> SearchEnds(str, i, false)
      ensures i != Hash1(size, str) && used[i] == 0 ==> SearchEnds(str, i, false)
      ensures used[i] == Hash1(size, str) && strs[i] == str ==> SearchEnds(str, i, true)
      ensures i != Hash1(size, str) ==> k < size
      ensures used[i] != 0 && (used[i] != Hash1(size, str) || strs[i] != str) ==> OthersBefore(str, k + 1)
    {
      SearchStep(size, Model(), index, str, k, i);
    }

    /** The `do` loop of htab_hash, entered when the first slot holds another string. */
    method SearchOn(str: CString, hval: nat) returns (idx: nat, found: bool)
      requires Valid() && hval == Hash1(size, str) && used[hval] != 0 && strs[hval] != str
      ensures SearchEnds(str, idx, found)
    {
      idx := hval;
      var hval2 := 1 + hval % (size - 2);
      ghost var k: nat := 0;
      while true
        invariant k < size && idx == Path(size, str, k) && OthersBefore(str, k + 1)
        decreases size - k
      {
        idx := if idx <= hval2 then size + idx - hval2 else idx - hval2;
        k := k + 1;
        SearchRound(str, k, idx);
        if idx == hval { return idx, false; }
        if used[idx] == hval && strs[idx] == str { return idx, true; }
        if used[idx] == 0 { return idx, false; }
      }
    }

    /** htab_hash: the slot of `str`, new if need be; 0 when there is no room for it. */
    method HtabHash(str: CString) returns (idx: nat)
      requires Valid()
      modifies this, used, strs
      ensures Valid()
      ensures Call(size, old(index), str, idx, index)
    {
      var found;
      idx, found := Search(str);
      if found { return; }
      if filled >= size { return 0; }
      ghost var k: nat :| LeadsTo(size, Model(), str, k, idx);
      StoreKeeps(size, Model(), index, str, idx, k);
      ghost var t := Model();
      used[idx] := Hash1(size, str);
      strs[idx] := str;
      filled := filled + 1;
      index := index[str := idx];
      assert Model() == Columns(t.used[idx := Hash1(size, str)], t.strs[idx := str]);
    }
  }

  /** htab_create, for any number of slots. A table results iff there is a prime to find, and its size
      is the smallest one, from 5 on, that is not below what is asked for. Otherwise the size is 1, which
      htab_hash is not made for. */
  method HtabCreate(nel: nat) returns (size: nat, t: Option<Table>)
    requires nel < WORD
    ensures t.Some? <==> PrimeAhead(nel)
    ensures t.Some? ==> fresh(t.value) && fresh(t.value.used) && fresh(t.value.strs)
    ensures t.Some? ==> t.value.Valid() && t.value.index == map[] && t.value.size == size
    ensures t.Some? ==> IsPrime(size) && nel <= size && forall m :: nel <= m < size && m >= 5 ==> !IsPrime(m)
    ensures t.None? ==> size == 1
  {
    size := HtabSize(nel);
    SearchFindsPrimeIff(nel, size);
    if size == 1 { return size, None; }
    var table := new Table(size);
    t := Some(table);
  }

  const HTAB_SIZE := 1021

  /** The table of the Windows backend gets the size that is asked for. */
  method CreateSessionTable() returns (t: Table)
    ensures fresh(t) && fresh(t.used) && fresh(t.strs) && t.Valid() && t.index == map[] && t.size == HTAB_SIZE
  {
    HtabSizeIsPrime();
    var size, made := HtabCreate(HTAB_SIZE);
    t := made.value;
  }

  /** What a caller sees of one call: a known string gets its old slot, a new one gets a slot of
      its own while there is room, and 0 after that. */
  ghost predicate Call(size: nat, before: map<CString, nat>, str: CString, idx: nat, after: map<CString, nat>) {
    if str in before then idx == before[str] && after == before
    else if |before| >= size then idx == 0 && after == before
    else && 1 <= idx <= size && after == before[str := idx]
         && forall w :: w in before ==> before[w] != idx
  }

  // ---------------------------------------------------------------- whole runs

  /** A run of htab_hash from an empty table: the calls, their results, and the stored strings
      before and after each. */
  ghost predicate History(size: nat, strs: seq<CString>, ids: seq<nat>, stored: seq<map<CString, nat>>) {
    && |ids| == |strs| && |stored| == |strs| + 1 && stored[0] == map[]
    && forall i :: 0 <= i < |strs| ==> Call(size, stored[i], strs[i], ids[i], stored[i + 1])
  }

  /** What is stored stays where it is, in distinct slots; and a string that was turned away is
      turned away for good, because the table is full for good. */
  lemma {:induction false} HistoryGrows(size: nat, strs: seq<CString>, ids: seq<nat>,
                                        stored: seq<map<CString, nat>>, i: nat, j: nat)
    requires History(size, strs, ids, stored) && i <= j <= |strs|
    ensures forall w :: w in stored[i] ==> w in stored[j] && stored[j][w] == stored[i][w]
    ensures |stored[i]| >= size ==> stored[j] == stored[i]
    ensures forall v, w :: v in stored[j] && w in stored[j] && stored[j][v] == stored[j][w] ==> v == w
    ensures forall w :: w in stored[j] ==> 1 <= stored[j][w] <= size
    decreases j
  {
    if j > 0 {
      assert Call(size, stored[j - 1], strs[j - 1], ids[j - 1], stored[j]);
      HistoryGrows(size, strs, ids, stored, if i == j then j - 1 else i, j - 1);
    }
  }

  /** Over any run: equal strings always get the same answer, and different strings never get
      the same slot. */
  lemma SameStringSameId(size: nat, strs: seq<CString>, ids: seq<nat>, stored: seq<map<CString, nat>>, i: nat, j: nat)
    requires History(size, strs, ids, stored) && i < j < |strs|
    ensures strs[i] == strs[j] ==> ids[i] == ids[j]
    ensures ids[i] == ids[j] != 0 ==> strs[i] == strs[j]
    ensures ids[i] <= size
  {
    Answer(size, strs, ids, stored, i, j);
    Answer(size, strs, ids, stored, j, j);
    HistoryGrows(size, strs, ids, stored, 0, j + 1);
  }

  /** The answer of call `i`, read off what is stored after any later call `j`: the string's slot,
      or 0 if the table filled up without it. */
  lemma Answer(size: nat, strs: seq<CString>, ids: seq<nat>, stored: seq<map<CString, nat>>, i: nat, j: nat)
    requires History(size, strs, ids, stored) && i <= j < |strs|
    ensures ids[i] == if strs[i] in stored[j + 1] then stored[j + 1][strs[i]] else 0
    ensures ids[i] <= size
  {
    assert Call(size, stored[i], strs[i], ids[i], stored[i + 1]);
    HistoryGrows(size, strs, ids, stored, i + 1, j + 1);
  }
}
