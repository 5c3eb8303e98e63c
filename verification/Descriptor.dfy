/**
 Configuration descriptors (USB 2.0 sections 9.6.3, 9.6.5 and 9.6.6): what descriptor.c reads out
 of a buffer of arbitrary bytes, as functions.

 The buffer is a function from offsets to bytes. The code does not check class-specific lengths
 against what is left, so it may look past wTotalLength; there the function is arbitrary. A size
 left over can be negative for the same reason.
 */
module Descriptor {
  import opened Bytes

  type Buffer = nat -> byte

  /** `bytes` is what the buffer holds at `off`. */
  ghost predicate At(mem: Buffer, off: nat, bytes: seq<byte>) {
    forall i :: 0 <= i < |bytes| ==> mem(off + i) == bytes[i]
  }

  const DT_DEVICE := 1
  const DT_CONFIG := 2
  const DT_INTERFACE := 4
  const DT_ENDPOINT := 5
  const DESC_HEADER_LENGTH := 2
  const INTERFACE_DESC_LENGTH := 9
  const ENDPOINT_DESC_LENGTH := 7
  const ENDPOINT_AUDIO_DESC_LENGTH := 9
  const USB_MAXENDPOINTS := 32
  const USB_MAXINTERFACES := 32

  /** A descriptor format: some single bytes, perhaps a 16-bit word, more single bytes. */
  datatype Format = Format(before: nat, word: bool, after: nat) {
    function Count(): nat { before + (if word then 1 else 0) + after }

    function Width(): nat { before + (if word then 2 else 0) + after }

    /** Where field `i` starts. */
    function Offset(i: nat): nat { if word && i > before then i + 1 else i }

    predicate IsWord(i: nat) { word && i == before }

    /** The format as the code writes it. */
    function Letters(): string { seq(Count(), i requires 0 <= i => if IsWord(i) then 'w' else 'b') }
  }

  const CONFIG_FORMAT := Format(2, true, 5)       // "bbwbbbbb"
  const INTERFACE_FORMAT := Format(9, false, 0)   // "bbbbbbbbb"
  const ENDPOINT_FORMAT := Format(4, true, 1)     // "bbbbwb"
  const AUDIO_FORMAT := Format(4, true, 3)        // "bbbbwbbb"

  lemma FormatsAreTheCodes()
    ensures CONFIG_FORMAT.Letters() == "bbwbbbbb" && INTERFACE_FORMAT.Letters() == "bbbbbbbbb"
    ensures ENDPOINT_FORMAT.Letters() == "bbbbwb" && AUDIO_FORMAT.Letters() == "bbbbwbbb"
  {
  }

  /** The fields of a standard descriptor in the order of its format, then the class-specific
      descriptors behind it. Fields that the format does not reach are zero in the code. */
  datatype Endpoint = Endpoint(fields: seq<nat>, extra: seq<byte>)
  datatype AltSetting = AltSetting(fields: seq<nat>, extra: seq<byte>, endpoints: seq<Endpoint>)
  datatype Config = Config(fields: seq<nat>, extra: seq<byte>, interfaces: seq<seq<AltSetting>>)

  /** A value, where the parser stands after it, and how many bytes it thinks are left. */
  datatype Result<T> = Failed | Parsed(value: T, off: nat, size: int)

  /** What reads a value at an offset, with so many bytes left. */
  type Parser<T> = (nat, int) -> Result<T>

  // ---------------------------------------------------------------- usbi_parse_descriptor

  /** A 16-bit word, least significant byte first. */
  function Word(mem: Buffer, off: nat): nat {
    mem(off + 1) * 256 + mem(off)
  }

  function FieldAt(mem: Buffer, off: nat, f: Format, i: nat): nat {
    if f.IsWord(i) then Word(mem, off + f.Offset(i)) else mem(off + f.Offset(i))
  }

  function Fields(mem: Buffer, off: nat, f: Format): (fields: seq<nat>)
    ensures |fields| == f.Count()
  {
    seq(f.Count(), i requires 0 <= i => FieldAt(mem, off, f, i))
  }

  // ---------------------------------------------------------------- class-specific descriptors

  /** The descriptors at which the parser stops skipping. */
  predicate Proper(t: byte) { t == DT_ENDPOINT || t == DT_INTERFACE || t == DT_CONFIG || t == DT_DEVICE }

  function Slice(mem: Buffer, from: nat, n: nat): (s: seq<byte>)
    ensures |s| == n && forall i :: 0 <= i < n ==> s[i] == mem(from + i)
  {
    seq(n, i requires 0 <= i => mem(from + i))
  }

  /** The skipping loop behind an interface or an endpoint descriptor. */
  function SkipExtras(mem: Buffer, off: nat, size: int): (r: Result<()>)
    ensures r.Parsed? ==> r.off >= off && r.off + r.size == off + size
    ensures r.Parsed? ==> r.size >= -253 || r.size == size
    decreases size
  {
    if size < DESC_HEADER_LENGTH then Parsed((), off, size)
    else if mem(off) < 2 then Failed
    else if Proper(mem(off + 1)) then Parsed((), off, size)
    else SkipExtras(mem, off + mem(off), size - mem(off))
  }

  /** The one behind the configuration descriptor, which checks the length against what is left. */
  function SkipChecked(mem: Buffer, off: nat, size: int): (r: Result<()>)
    ensures r.Parsed? ==> r.off >= off && r.off + r.size == off + size
    ensures r.Parsed? ==> r.size >= 0 || r.size == size
    decreases size
  {
    if size < DESC_HEADER_LENGTH then Parsed((), off, size)
    else if mem(off) > size || mem(off) < DESC_HEADER_LENGTH then Failed
    else if Proper(mem(off + 1)) then Parsed((), off, size)
    else SkipChecked(mem, off + mem(off), size - mem(off))
  }

  // ---------------------------------------------------------------- endpoints

  /** parse_endpoint */
  function ParseEndpoint(mem: Buffer, off: nat, size: int): (r: Result<Endpoint>)
    ensures r.Parsed? ==> r.off >= off && r.off + r.size == off + size && (r.size >= -253 || r.size == size)
  {
    var len := mem(off);
    if len > size then Failed
    else if mem(off + 1) != DT_ENDPOINT then Parsed(Endpoint([], []), off, size)
    else
      var fields := if len >= ENDPOINT_AUDIO_DESC_LENGTH then Fields(mem, off, AUDIO_FORMAT)
                    else if len >= ENDPOINT_DESC_LENGTH then Fields(mem, off, ENDPOINT_FORMAT)
                    else [];
      match SkipExtras(mem, off + len, size - len)
      case Failed => Failed
      case Parsed(_, end, left) => Parsed(Endpoint(fields, Slice(mem, off + len, end - (off + len))), end, left)
  }

  /** A parser that only moves forward, counts what it moves over, and overruns the end by at
      most 253 bytes. */
  ghost predicate Conserves<T(!new)>(p: Parser<T>) {
    forall o: nat, s: int :: p(o, s).Parsed? ==>
      p(o, s).off >= o && p(o, s).off + p(o, s).size == o + s && (p(o, s).size >= -253 || p(o, s).size == s)
  }

  /** `n` items, one after the other. */
  function ParseMany<T(!new)>(p: Parser<T>, off: nat, size: int, n: nat): (r: Result<seq<T>>)
    requires Conserves(p)
    ensures r.Parsed? ==> r.off >= off && r.off + r.size == off + size && (r.size >= -253 || r.size == size)
    ensures r.Parsed? ==> |r.value| == n
    decreases n
  {
    if n == 0 then Parsed([], off, size)
    else
      match p(off, size)
      case Failed => Failed
      case Parsed(x, off1, size1) =>
        match ParseMany(p, off1, size1, n - 1)
        case Failed => Failed
        case Parsed(xs, off2, size2) => Parsed([x] + xs, off2, size2)
  }

  function EndpointParser(mem: Buffer): (p: Parser<Endpoint>)
    ensures Conserves(p)
  {
    (off: nat, size: int) => ParseEndpoint(mem, off, size)
  }

  // ---------------------------------------------------------------- interfaces

  /** Another setting of the same interface follows. */
  predicate AlternateFollows(mem: Buffer, off: nat, size: int) {
    size >= INTERFACE_DESC_LENGTH && mem(off + 1) == DT_INTERFACE && mem(off + 3) != 0
  }

  /** One round of the loop of parse_interface: one setting, whose endpoints `p` reads, and
      whether the loop goes on. */
  function ParseSettingWith(p: Parser<Endpoint>, mem: Buffer, off: nat, size: int): (r: Result<(AltSetting, bool)>)
    requires Conserves(p)
    ensures r.Parsed? ==> r.off >= off && r.off + r.size == off + size
    ensures r.Parsed? && size >= INTERFACE_DESC_LENGTH ==> r.off > off && r.size >= -253
  {
    var fields := Fields(mem, off, INTERFACE_FORMAT);
    var begin := off + mem(off);
    match SkipExtras(mem, begin, size - mem(off))
    case Failed => Failed
    case Parsed(_, off1, size1) =>
      var extra := Slice(mem, begin, off1 - begin);
      if size1 >= DESC_HEADER_LENGTH && (mem(off1 + 1) == DT_CONFIG || mem(off1 + 1) == DT_DEVICE) then
        Parsed((AltSetting(fields, extra, []), false), off1, size1)
      else if mem(off + 4) > USB_MAXENDPOINTS then Failed
      else
        match ParseMany(p, off1, size1, mem(off + 4))
        case Failed => Failed
        case Parsed(es, off2, size2) =>
          Parsed((AltSetting(fields, extra, es), AlternateFollows(mem, off2, size2)), off2, size2)
  }

  function ParseSetting(mem: Buffer, off: nat, size: int): Result<(AltSetting, bool)> {
    ParseSettingWith(EndpointParser(mem), mem, off, size)
  }

  /** A parser of one round that makes progress whenever there is room for an interface. */
  ghost predicate Progresses<T(!new)>(p: Parser<(T, bool)>) {
    forall o: nat, s: int :: s >= INTERFACE_DESC_LENGTH && p(o, s).Parsed? ==>
      p(o, s).off > o && p(o, s).off + p(o, s).size == o + s && p(o, s).size >= -253
  }

  /** Rounds until one says that it was the last, or there is no room for another. */
  function ParseRounds<T(!new)>(p: Parser<(T, bool)>, off: nat, size: int): (r: Result<seq<T>>)
    requires Progresses(p)
    ensures r.Parsed? ==> r.off >= off && r.off + r.size == off + size && (r.size >= -253 || r.size == size)
    decreases size
  {
    if size < INTERFACE_DESC_LENGTH then Parsed([], off, size)
    else
      match p(off, size)
      case Failed => Failed
      case Parsed((x, more), off1, size1) =>
        if !more then Parsed([x], off1, size1)
        else
          match ParseRounds(p, off1, size1)
          case Failed => Failed
          case Parsed(xs, off2, size2) => Parsed([x] + xs, off2, size2)
  }

  function SettingParser(mem: Buffer): (p: Parser<(AltSetting, bool)>)
    ensures Progresses(p)
  {
    (off: nat, size: int) => ParseSetting(mem, off, size)
  }

  /** parse_interface */
  function ParseInterface(mem: Buffer, off: nat, size: int): Result<seq<AltSetting>> {
    ParseRounds(SettingParser(mem), off, size)
  }

  function InterfaceParser(mem: Buffer): (p: Parser<seq<AltSetting>>)
    ensures Conserves(p)
  {
    (off: nat, size: int) => ParseInterface(mem, off, size)
  }

  // ---------------------------------------------------------------- the configuration

  function Skipper(mem: Buffer): (skip: Parser<()>)
    ensures Conserves(skip)
  {
    (off: nat, size: int) => SkipChecked(mem, off, size)
  }

  /** One round of the loop of parse_configuration. `skip` and `p` are the inner loop and
      parse_interface; `extra` is what has been kept of the class-specific descriptors so far, which
      is only the first non-empty run of them. */
  function InterfaceRound(mem: Buffer, skip: Parser<()>, p: Parser<seq<AltSetting>>,
                          off: nat, size: int, extra: seq<byte>)
    : (r: Result<(seq<byte>, seq<AltSetting>)>)
    requires Conserves(skip) && Conserves(p)
    ensures r.Parsed? ==> r.off >= off && r.off + r.size == off + size && (r.size >= -253 || r.size == size)
  {
    match skip(off, size)
    case Failed => Failed
    case Parsed(_, off1, size1) =>
      var extra1 := if extra == [] then Slice(mem, off, off1 - off) else extra;
      match p(off1, size1)
      case Failed => Failed
      case Parsed(x, off2, size2) => Parsed((extra1, x), off2, size2)
  }

  /** The loop of parse_configuration over `n` more interfaces. */
  function ParseInterfaces(mem: Buffer, skip: Parser<()>, p: Parser<seq<AltSetting>>,
                           off: nat, size: int, n: nat, extra: seq<byte>)
    : (r: Result<(seq<byte>, seq<seq<AltSetting>>)>)
    requires Conserves(skip) && Conserves(p)
    ensures r.Parsed? ==> r.off >= off && r.off + r.size == off + size && (r.size >= -253 || r.size == size)
    ensures r.Parsed? ==> |r.value.1| == n
    decreases n
  {
    if n == 0 then Parsed((extra, []), off, size)
    else
      match InterfaceRound(mem, skip, p, off, size, extra)
      case Failed => Failed
      case Parsed((extra1, alts), off1, size1) =>
        match ParseInterfaces(mem, skip, p, off1, size1, n - 1, extra1)
        case Failed => Failed
        case Parsed((extra2, rest), off2, size2) => Parsed((extra2, [alts] + rest), off2, size2)
  }

  /** parse_configuration on a buffer that starts at offset 0. The result's size is what the code
      returns: the bytes of wTotalLength that are left. */
  function ParseConfiguration(mem: Buffer): Result<Config> {
    ParseConfigurationWith(mem, Skipper(mem), InterfaceParser(mem))
  }

  function ParseConfigurationWith(mem: Buffer, skip: Parser<()>, p: Parser<seq<AltSetting>>): (r: Result<Config>)
    requires Conserves(skip) && Conserves(p)
    ensures r.Parsed? ==>
              && r.off + r.size == Word(mem, 2)
              && r.off >= mem(0) && (r.size >= -253 || r.size == Word(mem, 2) - mem(0))
              && |r.value.interfaces| == mem(4) <= USB_MAXINTERFACES
  {
    var total, n := Word(mem, 2), mem(4);
    if n > USB_MAXINTERFACES then Failed
    else
      match ParseInterfaces(mem, skip, p, mem(0), total - mem(0), n, [])
      case Failed => Failed
      case Parsed((extra, interfaces), off, size) =>
        Parsed(Config(Fields(mem, 0, CONFIG_FORMAT), extra, interfaces), off, size)
  }
}
