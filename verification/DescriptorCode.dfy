/** The loops of descriptor.c, proved against the functions of Descriptor. */
module DescriptorCode {
  import opened Wrappers
  import opened Bytes
  import opened Descriptor

  /** usbi_parse_descriptor: one pass over the format string, moving `sp` along. */
  method ParseFields(mem: Buffer, source: nat, f: Format) returns (dest: seq<nat>, used: nat)
    ensures dest == Fields(mem, source, f)
    ensures used == f.Width()
  {
    var format := f.Letters();
    var sp := source;
    dest := [];
    for i := 0 to |format|
      invariant sp == source + (if f.word && i > f.before then i + 1 else i)
      invariant |dest| == i && forall j: nat :: j < i ==> dest[j] == FieldAt(mem, source, f, j)
    {
      if format[i] == 'w' {
        dest := dest + [mem(sp + 1) * 256 + mem(sp)];
        sp := sp + 2;
      } else {
        dest := dest + [mem(sp)];
        sp := sp + 1;
      }
    }
    used := sp - source;
  }

  // ---------------------------------------------------------------- three counters

  const LIBUSB_ERROR_IO := -1

  /** Code that keeps `buffer`, `size` and `parsed` beside each other has done what `spec` says: from
      `off` on, `buffer` and `size` stand where it stands, and `parsed` has grown by the distance. */
  predicate Reached<T(==)>(spec: Result<T>, off: nat, parsed0: int,
                           ok: bool, value: T, buffer: nat, size: int, parsed: int) {
    match spec
    case Failed => !ok
    case Parsed(v, off1, size1) =>
      ok && value == v && buffer == off1 && size == size1 && parsed == parsed0 + (off1 - off)
  }

  /** A function that only returns `parsed` has done what `spec` says: the number is the distance
      from `off`, and a negative one means failure. */
  predicate Returned<T(==)>(spec: Result<T>, off: nat, r: int, value: T) {
    match spec
    case Failed => r < 0
    case Parsed(v, off1, _) => r == off1 - off >= 0 && value == v
  }

  /** The skipping loop of parse_endpoint and parse_interface. */
  method Skip(mem: Buffer, off: nat, size0: int, parsed0: int) returns (ok: bool, buffer: nat, size: int, parsed: int)
    ensures Reached(SkipExtras(mem, off, size0), off, parsed0, ok, (), buffer, size, parsed)
  {
    buffer, size, parsed := off, size0, parsed0;
    while size >= DESC_HEADER_LENGTH
      invariant SkipExtras(mem, buffer, size) == SkipExtras(mem, off, size0)
      invariant parsed == parsed0 + (buffer - off)
      decreases size
    {
      if mem(buffer) < 2 { return false, buffer, size, parsed; }
      if Proper(mem(buffer + 1)) { break; }
      buffer, size, parsed := buffer + mem(buffer), size - mem(buffer), parsed + mem(buffer);
    }
    ok := true;
  }

  /** The skipping loop of parse_configuration, which keeps no third counter. */
  method SkipInConfig(mem: Buffer, off: nat, size0: int) returns (ok: bool, buffer: nat, size: int)
    ensures match SkipChecked(mem, off, size0)
            case Failed => !ok
            case Parsed(_, off1, size1) => ok && buffer == off1 && size == size1
  {
    buffer, size := off, size0;
    while size >= DESC_HEADER_LENGTH
      invariant SkipChecked(mem, buffer, size) == SkipChecked(mem, off, size0)
      decreases size
    {
      if mem(buffer) > size || mem(buffer) < DESC_HEADER_LENGTH { return false, buffer, size; }
      if Proper(mem(buffer + 1)) { break; }
      buffer, size := buffer + mem(buffer), size - mem(buffer);
    }
    ok := true;
  }

  /** parse_endpoint: it returns how far it has moved. */
  method ParseOneEndpoint(mem: Buffer, buffer0: nat, size0: int) returns (r: int, e: Endpoint)
    ensures Returned(ParseEndpoint(mem, buffer0, size0), buffer0, r, e)
  {
    var buffer, size, parsed := buffer0, size0, 0;
    e := Endpoint([], []);
    var len := mem(buffer);
    if len > size { return -1, e; }
    if mem(buffer + 1) != DT_ENDPOINT { return parsed, e; }
    var fields: seq<nat> := [];
    if len >= ENDPOINT_AUDIO_DESC_LENGTH {
      var audio, _ := ParseFields(mem, buffer, AUDIO_FORMAT);
      fields := audio;
    } else if len >= ENDPOINT_DESC_LENGTH {
      var standard, _ := ParseFields(mem, buffer, ENDPOINT_FORMAT);
      fields := standard;
    }
    buffer, size, parsed := buffer + len, size - len, parsed + len;
    var begin, ok := buffer, false;
    ok, buffer, size, parsed := Skip(mem, buffer, size, parsed);
    if !ok { return -1, e; }
    e := Endpoint(fields, Slice(mem, begin, buffer - begin));
    r := parsed;
  }

  /** What a loop that has collected `done` still returns. */
  function Join<T>(done: seq<T>, r: Result<seq<T>>): Result<seq<T>> {
    match r
    case Failed => Failed
    case Parsed(rest, off, size) => Parsed(done + rest, off, size)
  }

  lemma JoinNone<T>(r: Result<seq<T>>)
    ensures Join([], r) == r
  {
    if r.Parsed? { assert [] + r.value == r.value; }
  }

  lemma JoinStep<T>(done: seq<T>, x: T, r: Result<seq<T>>)
    ensures Join(done + [x], r) == Join(done, Join([x], r))
  {
    if r.Parsed? { assert done + [x] + r.value == done + ([x] + r.value); }
  }

  /** One more item of a counted loop. */
  lemma ManyNext<T(!new)>(p: Parser<T>, done: seq<T>, off: nat, size: int, n: nat)
    requires Conserves(p) && n > 0
    ensures match p(off, size)
            case Failed => Join(done, ParseMany(p, off, size, n)) == Failed
            case Parsed(x, off1, size1) =>
              Join(done, ParseMany(p, off, size, n)) == Join(done + [x], ParseMany(p, off1, size1, n - 1))
  {
    if p(off, size).Parsed? {
      JoinStep(done, p(off, size).value, ParseMany(p, p(off, size).off, p(off, size).size, n - 1));
    }
  }

  /** A place where the endpoint parser below is looked into. */
  predicate EndpointHere(off: nat, size: int) { true }

  ghost predicate ParsesEndpoints(mem: Buffer, p: Parser<Endpoint>) {
    forall o: nat, s: int {:trigger EndpointHere(o, s)} :: EndpointHere(o, s) ==> p(o, s) == ParseEndpoint(mem, o, s)
  }

  /** One round of the loop over the endpoints of an interface, with its own check of the length. It
      moves on by what parse_endpoint returns. */
  method ParseNextEndpoint(mem: Buffer, off: nat, size0: int, parsed0: int, ghost p: Parser<Endpoint>)
    returns (ok: bool, e: Endpoint, buffer: nat, size: int, parsed: int)
    requires Conserves(p) && ParsesEndpoints(mem, p)
    ensures Reached(p(off, size0), off, parsed0, ok, e, buffer, size, parsed)
  {
    ok, e, buffer, size, parsed := false, Endpoint([], []), off, size0, parsed0;
    assert EndpointHere(off, size0);
    if mem(buffer) > size { return; }
    var r;
    r, e := ParseOneEndpoint(mem, buffer, size);
    if r < 0 { return; }
    buffer, parsed, size := buffer + r, parsed + r, size - r;
    ok := true;
  }

  /** That loop. */
  method ParseEndpointList(mem: Buffer, off: nat, size0: int, parsed0: int, n: nat, ghost p: Parser<Endpoint>)
    returns (ok: bool, es: seq<Endpoint>, buffer: nat, size: int, parsed: int)
    requires Conserves(p) && ParsesEndpoints(mem, p)
    ensures Reached(ParseMany(p, off, size0, n), off, parsed0, ok, es, buffer, size, parsed)
  {
    ok, es, buffer, size, parsed := true, [], off, size0, parsed0;
    JoinNone(ParseMany(p, off, size0, n));
    for i := 0 to n
      invariant Join(es, ParseMany(p, buffer, size, n - i)) == ParseMany(p, off, size0, n)
      invariant ok && parsed == parsed0 + (buffer - off)
    {
      ManyNext(p, es, buffer, size, n - i);
      var e;
      ok, e, buffer, size, parsed := ParseNextEndpoint(mem, buffer, size, parsed, p);
      if !ok { return; }
      es := es + [e];
    }
    assert es + [] == es;
  }

  /** The body of the loop of parse_interface, with the three counters of that loop. */
  method ParseOneSetting(mem: Buffer, off: nat, size0: int, parsed0: int)
    returns (ok: bool, setting: (AltSetting, bool), buffer: nat, size: int, parsed: int)
    ensures Reached(ParseSetting(mem, off, size0), off, parsed0, ok, setting, buffer, size, parsed)
  {
    ok, setting, buffer, size, parsed := ParseSettingOver(mem, off, size0, parsed0, EndpointParser(mem));
  }

  /** The same on top of an endpoint parser that is not looked into here. */
  method ParseSettingOver(mem: Buffer, off: nat, size0: int, parsed0: int, ghost p: Parser<Endpoint>)
    returns (ok: bool, setting: (AltSetting, bool), buffer: nat, size: int, parsed: int)
    requires Conserves(p) && ParsesEndpoints(mem, p)
    ensures Reached(ParseSettingWith(p, mem, off, size0), off, parsed0, ok, setting, buffer, size, parsed)
  {
    var fields, _ := ParseFields(mem, off, INTERFACE_FORMAT);
    setting := (AltSetting(fields, [], []), false);
    buffer, parsed, size := off + mem(off), parsed0 + mem(off), size0 - mem(off);
    var begin := buffer;
    ok, buffer, size, parsed := Skip(mem, buffer, size, parsed);
    if !ok { return; }
    setting := (AltSetting(fields, Slice(mem, begin, buffer - begin), []), false);
    if size >= DESC_HEADER_LENGTH {
      if mem(buffer + 1) == DT_CONFIG || mem(buffer + 1) == DT_DEVICE { return; }
    }
    if mem(off + 4) > USB_MAXENDPOINTS {
      ok := false;
      return;
    }
    var es;
    ok, es, buffer, size, parsed := ParseEndpointList(mem, buffer, size, parsed, mem(off + 4), p);
    setting := (setting.0.(endpoints := es), AlternateFollows(mem, buffer, size));
  }

  /** One more round of parse_interface. */
  lemma RoundsNext<T(!new)>(p: Parser<(T, bool)>, done: seq<T>, off: nat, size: int)
    requires Progresses(p) && size >= INTERFACE_DESC_LENGTH
    ensures match p(off, size)
            case Failed => Join(done, ParseRounds(p, off, size)) == Failed
            case Parsed((x, more), off1, size1) =>
              Join(done, ParseRounds(p, off, size))
              == if more then Join(done + [x], ParseRounds(p, off1, size1)) else Parsed(done + [x], off1, size1)
  {
    if p(off, size).Parsed? && p(off, size).value.1 {
      JoinStep(done, p(off, size).value.0, ParseRounds(p, p(off, size).off, p(off, size).size));
    }
  }

  predicate Here(off: nat, size: int) { true }

  /** parse_interface: it returns how far it has moved. */
  method ParseOneInterface(mem: Buffer, off: nat, size0: int, ghost p: Parser<(AltSetting, bool)>)
    returns (r: int, alts: seq<AltSetting>)
    requires Progresses(p)
    requires forall o: nat, s: int {:trigger Here(o, s)} :: Here(o, s) ==> p(o, s) == ParseSetting(mem, o, s)
    ensures Returned(ParseRounds(p, off, size0), off, r, alts)
  {
    var buffer: nat, size, parsed := off, size0, 0;
    alts := [];
    JoinNone(ParseRounds(p, off, size0));
    while size >= INTERFACE_DESC_LENGTH
      invariant Join(alts, ParseRounds(p, buffer, size)) == ParseRounds(p, off, size0)
      invariant parsed == buffer - off
      decreases size
    {
      RoundsNext(p, alts, buffer, size);
      assert Here(buffer, size);
      var ok: bool, a: (AltSetting, bool);
      ok, a, buffer, size, parsed := ParseOneSetting(mem, buffer, size, parsed);
      if !ok { return LIBUSB_ERROR_IO, alts; }
      alts := alts + [a.0];
      if !a.1 { return parsed, alts; }
    }
    assert alts + [] == alts;
    r := parsed;
  }

  function JoinConfig(done: seq<seq<AltSetting>>, r: Result<(seq<byte>, seq<seq<AltSetting>>)>)
    : Result<(seq<byte>, seq<seq<AltSetting>>)>
  {
    match r
    case Failed => Failed
    case Parsed((extra, rest), off, size) => Parsed((extra, done + rest), off, size)
  }

  lemma JoinConfigNone(r: Result<(seq<byte>, seq<seq<AltSetting>>)>)
    ensures JoinConfig([], r) == r
  {
    if r.Parsed? { assert [] + r.value.1 == r.value.1; }
  }

  /** One more interface of parse_configuration. */
  lemma InterfacesNext(mem: Buffer, skip: Parser<()>, p: Parser<seq<AltSetting>>,
                       done: seq<seq<AltSetting>>, off: nat, size: int, n: nat, extra: seq<byte>)
    requires Conserves(skip) && Conserves(p) && n > 0
    ensures var all := JoinConfig(done, ParseInterfaces(mem, skip, p, off, size, n, extra));
            match InterfaceRound(mem, skip, p, off, size, extra)
            case Failed => all == Failed
            case Parsed((extra1, x), off1, size1) =>
              all == JoinConfig(done + [x], ParseInterfaces(mem, skip, p, off1, size1, n - 1, extra1))
  {
    match InterfaceRound(mem, skip, p, off, size, extra)
    case Failed =>
    case Parsed((extra1, x), off1, size1) =>
      var rest := ParseInterfaces(mem, skip, p, off1, size1, n - 1, extra1);
      if rest.Parsed? { assert done + [x] + rest.value.1 == done + ([x] + rest.value.1); }
  }

  /** Places where the parsers below are looked into. */
  predicate SkipHere(off: nat, size: int) { true }
  predicate InterfaceHere(off: nat, size: int) { true }

  /** `skip`, `p` and `q` are the skipping loop, parse_interface and one of its rounds. */
  ghost predicate Implement(mem: Buffer, skip: Parser<()>, p: Parser<seq<AltSetting>>,
                            q: Parser<(AltSetting, bool)>)
    requires Progresses(q)
  {
    && (forall o: nat, s: int {:trigger SkipHere(o, s)} :: SkipHere(o, s) ==> skip(o, s) == SkipChecked(mem, o, s))
    && (forall o: nat, s: int {:trigger InterfaceHere(o, s)} :: InterfaceHere(o, s) ==> p(o, s) == ParseRounds(q, o, s))
    && (forall o: nat, s: int {:trigger Here(o, s)} :: Here(o, s) ==> q(o, s) == ParseSetting(mem, o, s))
  }

  /** The body of the loop of parse_configuration: the first non-empty run of class-specific
      descriptors becomes the configuration's, and the loop moves on by what parse_interface
      returns. */
  method ParseNextInterface(mem: Buffer, buffer0: nat, size0: int, extra0: seq<byte>, ghost skip: Parser<()>,
                            ghost p: Parser<seq<AltSetting>>, ghost q: Parser<(AltSetting, bool)>)
    returns (r: int, extra: seq<byte>, alts: seq<AltSetting>, buffer: nat, size: int)
    requires Conserves(skip) && Conserves(p) && Progresses(q)
    requires Implement(mem, skip, p, q)
    ensures match InterfaceRound(mem, skip, p, buffer0, size0, extra0)
            case Failed => r < 0
            case Parsed((e, x), off1, size1) => r >= 0 && extra == e && alts == x && buffer == off1 && size == size1
  {
    extra, alts := extra0, [];
    var ok;
    ok, buffer, size := SkipInConfig(mem, buffer0, size0);
    assert SkipHere(buffer0, size0);
    if !ok { return LIBUSB_ERROR_IO, extra, alts, buffer, size; }
    extra := KeepExtra(mem, buffer0, buffer, extra0);
    r, alts := ParseOneInterface(mem, buffer, size, q);
    assert InterfaceHere(buffer, size);
    if r < 0 { return; }
    buffer, size := buffer + r, size - r;
  }

  /** The loop of parse_configuration. */
  method ParseInterfaceList(mem: Buffer, off: nat, size0: int, n: nat, ghost skip: Parser<()>,
                            ghost p: Parser<seq<AltSetting>>, ghost q: Parser<(AltSetting, bool)>)
    returns (r: int, extra: seq<byte>, all: seq<seq<AltSetting>>, buffer: nat, size: int)
    requires Conserves(skip) && Conserves(p) && Progresses(q)
    requires Implement(mem, skip, p, q)
    ensures match ParseInterfaces(mem, skip, p, off, size0, n, [])
            case Failed => r < 0
            case Parsed((e, xs), off1, size1) => r >= 0 && extra == e && all == xs && buffer == off1 && size == size1
  {
    r, extra, all, buffer, size := 0, [], [], off, size0;
    JoinConfigNone(ParseInterfaces(mem, skip, p, off, size0, n, []));
    for i := 0 to n
      invariant r >= 0 && JoinConfig(all, ParseInterfaces(mem, skip, p, buffer, size, n - i, extra))
                          == ParseInterfaces(mem, skip, p, off, size0, n, [])
    {
      InterfacesNext(mem, skip, p, all, buffer, size, n - i, extra);
      var alts;
      r, extra, alts, buffer, size := ParseNextInterface(mem, buffer, size, extra, skip, p, q);
      if r < 0 { return; }
      all := all + [alts];
    }
    assert all + [] == all;
  }

  method KeepExtra(mem: Buffer, begin: nat, end: nat, extra: seq<byte>) returns (kept: seq<byte>)
    requires begin <= end
    ensures kept == if extra == [] then Slice(mem, begin, end - begin) else extra
  {
    kept := extra;
    if end != begin {
      if extra == [] { kept := Slice(mem, begin, end - begin); }
    } else {
      assert Slice(mem, begin, 0) == [];
    }
  }

  /** parse_configuration, on top of parsers that are not looked into here */
  method ParseConfigWith(mem: Buffer, ghost skip: Parser<()>, ghost p: Parser<seq<AltSetting>>,
                         ghost q: Parser<(AltSetting, bool)>)
    returns (config: Option<Config>, r: int, end: nat)
    requires Conserves(skip) && Conserves(p) && Progresses(q) && Implement(mem, skip, p, q)
    ensures match ParseConfigurationWith(mem, skip, p)
            case Failed => config == None && r < 0
            case Parsed(c, off, size) => config == Some(c) && end == off && r == size
  {
    end := 0;
    var fields, _ := ParseFields(mem, 0, CONFIG_FORMAT);
    var size := Word(mem, 2);
    var n := mem(4);
    if n > USB_MAXINTERFACES { return None, LIBUSB_ERROR_IO, end; }
    var buffer: nat := mem(0);
    size := size - mem(0);
    var extra, all;
    r, extra, all, buffer, size := ParseInterfaceList(mem, buffer, size, n, skip, p, q);
    if r < 0 { return None, r, end; }
    return Some(Config(fields, extra, all)), size, buffer;
  }

  /** parse_configuration, for arbitrary bytes. On success the place where the parser ended, found by
      adding up what the inner parsers return, and the number that it returns itself make up
      wTotalLength; and it has overrun that by at most 253 bytes. */
  method ParseConfig(mem: Buffer) returns (config: Option<Config>, r: int, end: nat)
    ensures match ParseConfiguration(mem)
            case Failed => config == None && r < 0
            case Parsed(c, off, size) => config == Some(c) && end == off && r == size
    ensures config.Some? ==>
              && end + r == Word(mem, 2) && end >= mem(0)
              && (r >= -253 || r == Word(mem, 2) - mem(0))
              && |config.value.interfaces| == mem(4) <= USB_MAXINTERFACES
  {
    config, r, end := ParseConfigWith(mem, Skipper(mem), InterfaceParser(mem), SettingParser(mem));
  }
}
