/** When the configuration parser gives up, and what it puts up with, for arbitrary bytes. */
module DescriptorFailures {
  import opened Bytes
  import opened Descriptor
  import opened DescriptorRoundTrip

  /** Behind the class-specific descriptors `x` stands one that says less than its own header. */
  ghost predicate TooShort(mem: Buffer, off: nat, size: int, x: seq<byte>) {
    IsExtras(x) && At(mem, off, x) && |x| + 2 <= size && mem(off + |x|) < 2
  }

  /** The same, or one that says more than is left. */
  ghost predicate WrongLength(mem: Buffer, off: nat, size: int, x: seq<byte>) {
    IsExtras(x) && At(mem, off, x) && |x| + 2 <= size && (mem(off + |x|) < 2 || mem(off + |x|) > size - |x|)
  }

  ghost predicate SomeTooShort(mem: Buffer, off: nat, size: int) {
    exists x: seq<byte> :: TooShort(mem, off, size, x)
  }

  ghost predicate SomeWrongLength(mem: Buffer, off: nat, size: int) {
    exists x: seq<byte> :: WrongLength(mem, off, size, x)
  }

  /** One more class-specific descriptor in front of others. */
  lemma ExtraInFront(mem: Buffer, off: nat, n: byte, x: seq<byte>)
    requires n >= 2 && mem(off) == n && !Proper(mem(off + 1)) && IsExtras(x) && At(mem, off + n, x)
    ensures IsExtras(Slice(mem, off, n) + x) && At(mem, off, Slice(mem, off, n) + x)
  {
    var first := Slice(mem, off, n);
    assert (first + x)[0] == n && (first + x)[1] == mem(off + 1) && (first + x)[n..] == x;
    forall i | 0 <= i < |first + x| ensures mem(off + i) == (first + x)[i] {
      if i >= n { assert mem((off + n) + (i - n)) == x[i - n]; }
    }
  }

  lemma {:induction false} SkipFails(mem: Buffer, off: nat, size: int) returns (x: seq<byte>)
    requires SkipExtras(mem, off, size).Failed?
    ensures TooShort(mem, off, size, x)
    decreases size
  {
    if mem(off) < 2 {
      x := [];
    } else {
      var n := mem(off);
      var rest := SkipFails(mem, off + n, size - n);
      ExtraInFront(mem, off, n, rest);
      x := Slice(mem, off, n) + rest;
    }
  }

  lemma {:induction false} ShortIsRefused(mem: Buffer, off: nat, size: int, x: seq<byte>, end: nat)
    requires IsExtras(x) && At(mem, off, x) && end == off + |x| && |x| + 2 <= size && mem(end) < 2
    ensures SkipExtras(mem, off, size).Failed?
    decreases |x|
  {
    if x != [] {
      FirstExtraAt(mem, off, x);
      var off1: nat, size1: int, rest := off + x[0], size - x[0], x[x[0]..];
      ShortIsRefused(mem, off1, size1, rest, end);
    }
  }

  /** The skipping loop behind an interface or an endpoint fails iff some descriptor that it comes to says
      that it has fewer than two bytes. */
  lemma SkipFailsIff(mem: Buffer, off: nat, size: int)
    ensures SkipExtras(mem, off, size).Failed? <==> SomeTooShort(mem, off, size)
  {
    if SkipExtras(mem, off, size).Failed? {
      var x := SkipFails(mem, off, size);
    }
    forall x: seq<byte> | TooShort(mem, off, size, x) ensures SkipExtras(mem, off, size).Failed? {
      ShortIsRefused(mem, off, size, x, off + |x|);
    }
  }

  lemma {:induction false} CheckedFails(mem: Buffer, off: nat, size: int) returns (x: seq<byte>)
    requires SkipChecked(mem, off, size).Failed?
    ensures WrongLength(mem, off, size, x)
    decreases size
  {
    if mem(off) < 2 || mem(off) > size {
      x := [];
    } else {
      var n := mem(off);
      var rest := CheckedFails(mem, off + n, size - n);
      ExtraInFront(mem, off, n, rest);
      x := Slice(mem, off, n) + rest;
    }
  }

  lemma {:induction false} WrongIsRefused(mem: Buffer, off: nat, size: int, x: seq<byte>, end: nat, left: int)
    requires IsExtras(x) && At(mem, off, x) && end == off + |x| && left == size - |x| >= 2
    requires mem(end) < 2 || mem(end) > left
    ensures SkipChecked(mem, off, size).Failed?
    decreases |x|
  {
    if x != [] {
      FirstExtraAt(mem, off, x);
      var off1: nat, size1: int, rest := off + x[0], size - x[0], x[x[0]..];
      WrongIsRefused(mem, off1, size1, rest, end, left);
    }
  }

  /** The checked loop fails iff some descriptor that it comes to has fewer than two bytes, or more than are
      left. */
  lemma CheckedFailsIff(mem: Buffer, off: nat, size: int)
    ensures SkipChecked(mem, off, size).Failed? <==> SomeWrongLength(mem, off, size)
  {
    if SkipChecked(mem, off, size).Failed? {
      var x := CheckedFails(mem, off, size);
    }
    forall x: seq<byte> | WrongLength(mem, off, size, x) ensures SkipChecked(mem, off, size).Failed? {
      WrongIsRefused(mem, off, size, x, off + |x|, size - |x|);
    }
  }

  /** An endpoint is refused iff it says that it is longer than what is left, or a descriptor behind it is
      too short. Anything that is not an endpoint descriptor is left where it is. */
  lemma EndpointFailsIff(mem: Buffer, off: nat, size: int)
    ensures ParseEndpoint(mem, off, size).Failed? <==>
              mem(off) > size || (mem(off + 1) == 5 && SomeTooShort(mem, off + mem(off), size - mem(off)))
    ensures mem(off) <= size && mem(off + 1) != 5 ==>
              ParseEndpoint(mem, off, size) == Parsed(Endpoint([], []), off, size)
  {
    SkipFailsIff(mem, off + mem(off), size - mem(off));
  }

  /** Item `k` of a list is the first that its parser refuses. */
  ghost predicate RefusedAt<T(!new)>(p: Parser<T>, off: nat, size: int, k: nat)
    requires Conserves(p)
  {
    var before := ParseMany(p, off, size, k);
    before.Parsed? && p(before.off, before.size).Failed?
  }

  lemma {:induction false} ManySnoc<T(!new)>(p: Parser<T>, off: nat, size: int, n: nat)
    requires Conserves(p)
    ensures var before := ParseMany(p, off, size, n);
            ParseMany(p, off, size, n + 1).Failed? <==> before.Failed? || p(before.off, before.size).Failed?
    ensures var before, all := ParseMany(p, off, size, n), ParseMany(p, off, size, n + 1);
            all.Parsed? ==> before.Parsed? && var last := p(before.off, before.size);
                                              last.Parsed? && all.off == last.off && all.size == last.size
    decreases n
  {
    if n > 0 && p(off, size).Parsed? {
      ManySnoc(p, p(off, size).off, p(off, size).size, n - 1);
    }
  }

  ghost predicate SomeRefused<T(!new)>(p: Parser<T>, off: nat, size: int, n: nat)
    requires Conserves(p)
  {
    exists k: nat :: k < n && RefusedAt(p, off, size, k)
  }

  /** A list is refused iff one of its items is. */
  lemma {:induction false} ManyFailsIff<T(!new)>(p: Parser<T>, off: nat, size: int, n: nat)
    requires Conserves(p)
    ensures ParseMany(p, off, size, n).Failed? <==> SomeRefused(p, off, size, n)
    decreases n
  {
    if n > 0 {
      ManyFailsIff(p, off, size, n - 1);
      ManySnoc(p, off, size, n - 1);
      assert ParseMany(p, off, size, n).Failed? && ParseMany(p, off, size, n - 1).Parsed? ==>
               RefusedAt(p, off, size, n - 1);
    }
  }

  /** An alternate setting is refused iff a descriptor in front of its endpoints is too short, or there are
      more than 32 endpoints, or one of them is refused. Where a configuration or device descriptor comes
      instead of the endpoints, there are none. */
  lemma SettingFailsIff(mem: Buffer, off: nat, size: int)
    ensures ParseSetting(mem, off, size).Failed? <==>
              SettingRefused(EndpointParser(mem), mem, off, off + mem(off), size - mem(off))
  {
    SettingFailsWith(EndpointParser(mem), mem, off, size, off + mem(off), size - mem(off));
  }

  ghost predicate SettingRefused(p: Parser<Endpoint>, mem: Buffer, off: nat, begin: nat, left: int)
    requires Conserves(p)
  {
    var skipped := SkipExtras(mem, begin, left);
    || SomeTooShort(mem, begin, left)
    || (skipped.Parsed? && !(skipped.size >= 2 && mem(skipped.off + 1) in {1, 2})
        && (mem(off + 4) > 32 || SomeRefused(p, skipped.off, skipped.size, mem(off + 4))))
  }

  lemma SettingFailsWith(p: Parser<Endpoint>, mem: Buffer, off: nat, size: int, begin: nat, left: int)
    requires Conserves(p) && begin == off + mem(off) && left == size - mem(off)
    ensures ParseSettingWith(p, mem, off, size).Failed? <==> SettingRefused(p, mem, off, begin, left)
  {
    SkipFailsIff(mem, begin, left);
    var skipped := SkipExtras(mem, begin, left);
    if skipped.Parsed? { ManyFailsIff(p, skipped.off, skipped.size, mem(off + 4)); }
  }

  /** Round `k` of the loop over the interfaces is the first that fails. */
  ghost predicate RoundFailsAt(mem: Buffer, skip: Parser<()>, p: Parser<seq<AltSetting>>, off: nat, size: int, k: nat)
    requires Conserves(skip) && Conserves(p)
  {
    var before := ParseInterfaces(mem, skip, p, off, size, k, []);
    before.Parsed? && InterfaceRound(mem, skip, p, before.off, before.size, before.value.0).Failed?
  }

  ghost predicate SomeRoundFails(mem: Buffer, skip: Parser<()>, p: Parser<seq<AltSetting>>, off: nat, size: int, n: nat)
    requires Conserves(skip) && Conserves(p)
  {
    exists k: nat :: k < n && RoundFailsAt(mem, skip, p, off, size, k)
  }

  lemma {:induction false} InterfacesSnoc(mem: Buffer, skip: Parser<()>, p: Parser<seq<AltSetting>>,
                                          off: nat, size: int, n: nat, extra: seq<byte>)
    requires Conserves(skip) && Conserves(p)
    ensures var before := ParseInterfaces(mem, skip, p, off, size, n, extra);
            ParseInterfaces(mem, skip, p, off, size, n + 1, extra).Failed? <==>
              before.Failed? || InterfaceRound(mem, skip, p, before.off, before.size, before.value.0).Failed?
    decreases n
  {
    if n > 0 {
      var r := InterfaceRound(mem, skip, p, off, size, extra);
      if r.Parsed? { InterfacesSnoc(mem, skip, p, r.off, r.size, n - 1, r.value.0); }
    }
  }

  /** The loop fails iff one of its rounds does. */
  lemma {:induction false} InterfacesFailIff(mem: Buffer, skip: Parser<()>, p: Parser<seq<AltSetting>>,
                                             off: nat, size: int, n: nat)
    requires Conserves(skip) && Conserves(p)
    ensures ParseInterfaces(mem, skip, p, off, size, n, []).Failed? <==> SomeRoundFails(mem, skip, p, off, size, n)
    decreases n
  {
    if n > 0 {
      InterfacesFailIff(mem, skip, p, off, size, n - 1);
      InterfacesSnoc(mem, skip, p, off, size, n - 1, []);
      SomeSnoc(mem, skip, p, off, size, n - 1);
    }
  }

  lemma SomeSnoc(mem: Buffer, skip: Parser<()>, p: Parser<seq<AltSetting>>, off: nat, size: int, n: nat)
    requires Conserves(skip) && Conserves(p)
    ensures SomeRoundFails(mem, skip, p, off, size, n + 1) <==>
              SomeRoundFails(mem, skip, p, off, size, n) || RoundFailsAt(mem, skip, p, off, size, n)
  {
  }

  /** And a round fails iff a descriptor in front of the interface has a wrong length, or parse_interface
      fails behind those. */
  lemma RoundFailsIff(mem: Buffer, off: nat, size: int, extra: seq<byte>)
    ensures InterfaceRound(mem, Skipper(mem), InterfaceParser(mem), off, size, extra).Failed? <==>
              || SomeWrongLength(mem, off, size)
              || (SkipChecked(mem, off, size).Parsed?
                  && ParseInterface(mem, SkipChecked(mem, off, size).off, SkipChecked(mem, off, size).size).Failed?)
  {
    CheckedFailsIff(mem, off, size);
  }

  /** A configuration is refused iff it has more than 32 interfaces, or the round for one of them fails. */
  lemma ConfigFailsIff(mem: Buffer)
    ensures ParseConfiguration(mem).Failed? <==>
              ConfigRefused(mem, Skipper(mem), InterfaceParser(mem), mem(0), Word(mem, 2) - mem(0))
  {
    ConfigFailsWith(mem, Skipper(mem), InterfaceParser(mem), mem(0), Word(mem, 2) - mem(0));
  }

  ghost predicate ConfigRefused(mem: Buffer, skip: Parser<()>, p: Parser<seq<AltSetting>>, begin: nat, left: int)
    requires Conserves(skip) && Conserves(p)
  {
    mem(4) > 32 || SomeRoundFails(mem, skip, p, begin, left, mem(4))
  }

  lemma ConfigFailsWith(mem: Buffer, skip: Parser<()>, p: Parser<seq<AltSetting>>, begin: nat, left: int)
    requires Conserves(skip) && Conserves(p) && begin == mem(0) && left == Word(mem, 2) - mem(0)
    ensures ParseConfigurationWith(mem, skip, p).Failed? <==> ConfigRefused(mem, skip, p, begin, left)
  {
    InterfacesFailIff(mem, skip, p, begin, left, mem(4));
  }
}
