/**
 Configurations laid out as the USB standard says, and the theorem that the parser reads back
 exactly what was laid out.
 */
module DescriptorRoundTrip {
  import opened Bytes
  import opened Descriptor

  // ---------------------------------------------------------------- the layout

  predicate Fits(f: Format, fields: seq<nat>) {
    |fields| == f.Count() && forall i :: 0 <= i < |fields| ==> fields[i] < (if f.IsWord(i) then 0x1_0000 else 256)
  }

  /** The bytes of fields in a format, words least significant byte first. */
  function Pack(f: Format, fields: seq<nat>): (bytes: seq<byte>)
    requires Fits(f, fields)
    ensures |bytes| == f.Width()
    ensures forall i :: 0 <= i < f.Count() ==>
              if f.IsWord(i) then bytes[f.Offset(i)] == fields[i] % 256 && bytes[f.Offset(i) + 1] == fields[i] / 256
              else bytes[f.Offset(i)] == fields[i]
  {
    if f.word then fields[..f.before] + [fields[f.before] % 256, fields[f.before] / 256] + fields[f.before + 1..]
    else fields
  }

  /** Class-specific descriptors: each says its own length, none is a standard one. */
  predicate IsExtras(x: seq<byte>)
    decreases |x|
  {
    x == [] || (2 <= |x| && 2 <= x[0] <= |x| && !Proper(x[1]) && IsExtras(x[x[0]..]))
  }

  /** The layout of a list: item after item. */
  function Concat<T>(bytes: T -> seq<byte>, xs: seq<T>): seq<byte> {
    if xs == [] then [] else bytes(xs[0]) + Concat(bytes, xs[1..])
  }

  function EndpointFormat(e: Endpoint): Format {
    if |e.fields| == 8 then AUDIO_FORMAT else ENDPOINT_FORMAT
  }

  /** A standard endpoint descriptor of 7 bytes, or an audio one of 9. */
  predicate ValidEndpoint(e: Endpoint) {
    && Fits(EndpointFormat(e), e.fields) && IsExtras(e.extra)
    && e.fields[0] == EndpointFormat(e).Width() && e.fields[1] == DT_ENDPOINT
  }

  predicate ValidEndpoints(es: seq<Endpoint>) {
    forall e :: e in es ==> ValidEndpoint(e)
  }

  function EndpointBytes(e: Endpoint): seq<byte> {
    if ValidEndpoint(e) then Pack(EndpointFormat(e), e.fields) + e.extra else []
  }

  predicate ValidSetting(a: AltSetting) {
    && Fits(INTERFACE_FORMAT, a.fields) && IsExtras(a.extra)
    && a.fields[0] == INTERFACE_DESC_LENGTH && a.fields[1] == DT_INTERFACE
    && a.fields[4] == |a.endpoints| <= 32
    && ValidEndpoints(a.endpoints)
  }

  function SettingBytes(a: AltSetting): seq<byte> {
    if ValidSetting(a) then Pack(INTERFACE_FORMAT, a.fields) + (a.extra + Concat(EndpointBytes, a.endpoints)) else []
  }

  /** bAlternateSetting */
  function Alternate(a: AltSetting): nat {
    if |a.fields| > 3 then a.fields[3] else 0
  }

  /** The settings of one interface: only the first may have alternate setting number 0. */
  predicate ValidInterface(alts: seq<AltSetting>) {
    && alts != [] && (forall a :: a in alts ==> ValidSetting(a))
    && forall i :: 1 <= i < |alts| ==> Alternate(alts[i]) != 0
  }

  function InterfaceBytes(alts: seq<AltSetting>): seq<byte> {
    Concat(SettingBytes, alts)
  }

  function FirstAlternate(alts: seq<AltSetting>): nat {
    if alts == [] then 0 else Alternate(alts[0])
  }

  predicate ValidInterfaces(xs: seq<seq<AltSetting>>) {
    forall alts :: alts in xs ==> ValidInterface(alts)
  }

  /** Each interface but the first starts with alternate setting 0. */
  predicate LaterStartAtZero(xs: seq<seq<AltSetting>>) {
    forall i :: 1 <= i < |xs| ==> FirstAlternate(xs[i]) == 0
  }

  /** Interfaces follow each other, and the descriptor says how many they are and how long. */
  predicate ValidConfig(c: Config) {
    && Fits(CONFIG_FORMAT, c.fields) && IsExtras(c.extra)
    && ValidInterfaces(c.interfaces)
    && LaterStartAtZero(c.interfaces)
    && c.fields[0] == 9 && c.fields[3] == |c.interfaces| <= 32
    && c.fields[2] == |ConfigTail(c)| + 9
    && (c.interfaces == [] ==> c.extra == [])
  }

  function ConfigTail(c: Config): seq<byte> {
    c.extra + Concat(InterfaceBytes, c.interfaces)
  }

  function ConfigBytes(c: Config): seq<byte>
    requires ValidConfig(c)
  {
    Pack(CONFIG_FORMAT, c.fields) + ConfigTail(c)
  }

  // ---------------------------------------------------------------- the layout in memory

  lemma AtSplit(mem: Buffer, off: nat, a: seq<byte>, b: seq<byte>)
    requires At(mem, off, a + b)
    ensures At(mem, off, a) && At(mem, off + |a|, b)
  {
    assert forall i :: 0 <= i < |a| ==> (a + b)[i] == a[i];
    forall i | 0 <= i < |b| ensures mem(off + |a| + i) == b[i] {
      assert (a + b)[|a| + i] == b[i];
    }
  }

  /** Reading fields in the format they were packed in gives them back. */
  lemma FieldsRoundTrip(mem: Buffer, off: nat, f: Format, fields: seq<nat>)
    requires Fits(f, fields) && At(mem, off, Pack(f, fields))
    ensures Fields(mem, off, f) == fields
  {
    forall i: nat | i < f.Count() ensures FieldAt(mem, off, f, i) == fields[i] {
      FieldRoundTrip(mem, off, f, fields, i);
    }
  }

  lemma FieldRoundTrip(mem: Buffer, off: nat, f: Format, fields: seq<nat>, i: nat)
    requires Fits(f, fields) && At(mem, off, Pack(f, fields)) && i < f.Count()
    ensures FieldAt(mem, off, f, i) == fields[i]
  {
    var bytes, o := Pack(f, fields), f.Offset(i);
    assert mem(off + o) == bytes[o];
    assert f.IsWord(i) ==> mem(off + (o + 1)) == bytes[o + 1];
  }

  /** A list laid out in memory: `at` says that an item is, `size` how far it reaches. */
  ghost predicate Row<T(!new)>(at: (nat, T) -> bool, size: T -> nat, off: nat, xs: seq<T>)
    decreases |xs|
  {
    xs == [] || (at(off, xs[0]) && Row(at, size, off + size(xs[0]), xs[1..]))
  }

  function Extent<T>(size: T -> nat, xs: seq<T>): nat {
    if xs == [] then 0 else size(xs[0]) + Extent(size, xs[1..])
  }

  lemma {:induction false} RowOfBytes<T(!new)>(
      mem: Buffer, bytes: T -> seq<byte>, at: (nat, T) -> bool, size: T -> nat, off: nat, xs: seq<T>)
    requires At(mem, off, Concat(bytes, xs))
    requires forall x :: x in xs ==> |bytes(x)| == size(x)
    requires forall o: nat, x :: x in xs && At(mem, o, bytes(x)) ==> at(o, x)
    ensures Row(at, size, off, xs) && |Concat(bytes, xs)| == Extent(size, xs)
    decreases |xs|
  {
    if xs != [] {
      AtSplit(mem, off, bytes(xs[0]), Concat(bytes, xs[1..]));
      RowOfBytes(mem, bytes, at, size, off + size(xs[0]), xs[1..]);
    }
  }

  /** The first fields of every descriptor are single bytes. */
  lemma HeaderAt(mem: Buffer, off: nat, f: Format, fields: seq<nat>)
    requires Fields(mem, off, f) == fields && f.before >= 2
    ensures |fields| >= 2 && mem(off) == fields[0] && mem(off + 1) == fields[1]
  {
    assert fields[0] == FieldAt(mem, off, f, 0) && fields[1] == FieldAt(mem, off, f, 1);
  }

  /** The buffer at `off` is where a skipping loop with `size` bytes left stops. */
  ghost predicate Stops(mem: Buffer, off: nat, size: int) {
    size < DESC_HEADER_LENGTH || (2 <= mem(off) <= size && Proper(mem(off + 1)))
  }

  /** The first of several class-specific descriptors in memory, and the rest behind it. */
  lemma FirstExtraAt(mem: Buffer, off: nat, x: seq<byte>)
    requires IsExtras(x) && At(mem, off, x) && x != []
    ensures mem(off) == x[0] && mem(off + 1) == x[1] && At(mem, off + x[0], x[x[0]..])
  {
    assert mem(off + 0) == x[0];
    assert x == x[..x[0]] + x[x[0]..];
    AtSplit(mem, off, x[..x[0]], x[x[0]..]);
  }

  /** A skipping loop skips a run of class-specific descriptors, all of it and nothing else. */
  lemma SkipRoundTrip(mem: Buffer, off: nat, size: int, x: seq<byte>)
    requires IsExtras(x) && At(mem, off, x) && |x| <= size && Stops(mem, off + |x|, size - |x|)
    ensures SkipExtras(mem, off, size) == Parsed((), off + |x|, size - |x|)
  {
    SkipTo(mem, off, size, x, off + |x|, size - |x|);
  }

  lemma {:induction false} SkipTo(mem: Buffer, off: nat, size: int, x: seq<byte>, end: nat, left: int)
    requires IsExtras(x) && At(mem, off, x) && |x| <= size && end == off + |x| && left == size - |x|
    requires Stops(mem, end, left)
    ensures SkipExtras(mem, off, size) == Parsed((), end, left)
    decreases |x|
  {
    if x != [] {
      FirstExtraAt(mem, off, x);
      var off1: nat, size1: int, rest := off + x[0], size - x[0], x[x[0]..];
      SkipTo(mem, off1, size1, rest, end, left);
    }
  }

  /** So does the one behind the configuration descriptor. */
  lemma {:induction false} SkipCheckedTo(mem: Buffer, off: nat, size: int, x: seq<byte>, end: nat, left: int)
    requires IsExtras(x) && At(mem, off, x) && |x| <= size && end == off + |x| && left == size - |x|
    requires Stops(mem, end, left)
    ensures SkipChecked(mem, off, size) == Parsed((), end, left)
    decreases |x|
  {
    if x != [] {
      FirstExtraAt(mem, off, x);
      var off1: nat, size1: int, rest := off + x[0], size - x[0], x[x[0]..];
      SkipCheckedTo(mem, off1, size1, rest, end, left);
    }
  }

  lemma SliceAt(mem: Buffer, off: nat, x: seq<byte>)
    requires At(mem, off, x)
    ensures Slice(mem, off, |x|) == x
  {
  }

  /** A run of class-specific descriptors in memory, as the parser sees it. */
  ghost predicate Skipped(mem: Buffer, off: nat, x: seq<byte>) {
    && Slice(mem, off, |x|) == x
    && forall size: int {:trigger SkipExtras(mem, off, size)} ::
         |x| <= size && Stops(mem, off + |x|, size - |x|) ==>
           SkipExtras(mem, off, size) == Parsed((), off + |x|, size - |x|)
  }

  lemma ExtrasAreSkipped(mem: Buffer, off: nat, x: seq<byte>)
    requires IsExtras(x) && At(mem, off, x)
    ensures Skipped(mem, off, x)
  {
    forall size: int | |x| <= size && Stops(mem, off + |x|, size - |x|)
      ensures SkipExtras(mem, off, size) == Parsed((), off + |x|, size - |x|)
    {
      SkipRoundTrip(mem, off, size, x);
    }
  }

  /** The same layouts, said of the memory. */
  ghost predicate EndpointAt(mem: Buffer, off: nat, e: Endpoint) {
    && Fields(mem, off, EndpointFormat(e)) == e.fields
    && e.fields[0] == EndpointFormat(e).Width() && e.fields[1] == DT_ENDPOINT
    && Skipped(mem, off + e.fields[0], e.extra)
  }

  function EndpointSize(e: Endpoint): nat {
    EndpointFormat(e).Width() + |e.extra|
  }

  ghost function EndpointsAt(mem: Buffer): (nat, Endpoint) -> bool {
    (off: nat, e: Endpoint) => EndpointAt(mem, off, e)
  }

  lemma EndpointBytesAt(mem: Buffer, off: nat, e: Endpoint)
    requires ValidEndpoint(e) && At(mem, off, EndpointBytes(e))
    ensures EndpointAt(mem, off, e) && |EndpointBytes(e)| == EndpointSize(e)
  {
    AtSplit(mem, off, Pack(EndpointFormat(e), e.fields), e.extra);
    FieldsRoundTrip(mem, off, EndpointFormat(e), e.fields);
    ExtrasAreSkipped(mem, off + e.fields[0], e.extra);
  }

  ghost predicate SettingAt(mem: Buffer, off: nat, a: AltSetting) {
    SettingWith(mem, EndpointsAt(mem), EndpointSize, off, a)
  }

  ghost predicate SettingWith(mem: Buffer, at: (nat, Endpoint) -> bool, sz: Endpoint -> nat, off: nat, a: AltSetting) {
    && Fields(mem, off, INTERFACE_FORMAT) == a.fields
    && a.fields[0] == INTERFACE_DESC_LENGTH && a.fields[1] == DT_INTERFACE
    && a.fields[4] == |a.endpoints| <= 32
    && Skipped(mem, off + 9, a.extra)
    && Row(at, sz, off + 9 + |a.extra|, a.endpoints)
  }

  function SettingSize(a: AltSetting): nat {
    9 + |a.extra| + Extent(EndpointSize, a.endpoints)
  }

  ghost function SettingsAt(mem: Buffer): (nat, AltSetting) -> bool {
    (off: nat, a: AltSetting) => SettingAt(mem, off, a)
  }

  lemma SettingBytesAt(mem: Buffer, off: nat, a: AltSetting)
    requires ValidSetting(a) && At(mem, off, SettingBytes(a))
    ensures SettingAt(mem, off, a)
  {
    var off1: nat, off2: nat := off + 9, off + 9 + |a.extra|;
    SettingPartsAt(mem, off, off1, off2, a);
    SettingFromPartsAt(mem, off, off1, off2, a);
  }

  lemma SettingFromPartsAt(mem: Buffer, off: nat, off1: nat, off2: nat, a: AltSetting)
    requires ValidSetting(a) && off1 == off + 9 && off2 == off1 + |a.extra|
    requires At(mem, off, Pack(INTERFACE_FORMAT, a.fields)) && At(mem, off1, a.extra)
    requires At(mem, off2, Concat(EndpointBytes, a.endpoints))
    ensures SettingAt(mem, off, a)
  {
    SettingFromParts(mem, off, off1, off2, a.fields, a.extra, a.endpoints);
  }

  lemma SettingPartsAt(mem: Buffer, off: nat, off1: nat, off2: nat, a: AltSetting)
    requires ValidSetting(a) && off1 == off + 9 && off2 == off1 + |a.extra|
    requires At(mem, off, SettingBytes(a))
    ensures At(mem, off, Pack(INTERFACE_FORMAT, a.fields)) && At(mem, off1, a.extra)
    ensures At(mem, off2, Concat(EndpointBytes, a.endpoints))
  {
    PartsAt(mem, off, off1, off2, INTERFACE_FORMAT, a.fields, a.extra, Concat(EndpointBytes, a.endpoints));
  }

  /** What ValidSetting says of the three parts, wherever they are. */
  lemma SettingFromParts(mem: Buffer, off: nat, off1: nat, off2: nat,
                         fields: seq<nat>, extra: seq<byte>, endpoints: seq<Endpoint>)
    requires Fits(INTERFACE_FORMAT, fields) && At(mem, off, Pack(INTERFACE_FORMAT, fields))
    requires IsExtras(extra) && At(mem, off1, extra)
    requires ValidEndpoints(endpoints) && At(mem, off2, Concat(EndpointBytes, endpoints))
    ensures Fields(mem, off, INTERFACE_FORMAT) == fields && Skipped(mem, off1, extra)
    ensures Row(EndpointsAt(mem), EndpointSize, off2, endpoints)
  {
    FieldsRoundTrip(mem, off, INTERFACE_FORMAT, fields);
    ExtrasAreSkipped(mem, off1, extra);
    EndpointsBytesAt(mem, off2, endpoints);
  }

  /** A standard descriptor, the class-specific ones behind it, and what follows them. */
  lemma PartsAt(mem: Buffer, off: nat, off1: nat, off2: nat,
                f: Format, fields: seq<nat>, extra: seq<byte>, tail: seq<byte>)
    requires Fits(f, fields) && off1 == off + f.Width() && off2 == off1 + |extra|
    requires At(mem, off, Pack(f, fields) + (extra + tail))
    ensures At(mem, off, Pack(f, fields)) && At(mem, off1, extra) && At(mem, off2, tail)
  {
    AtSplit(mem, off, Pack(f, fields), extra + tail);
    AtSplit(mem, off1, extra, tail);
  }

  lemma EndpointsBytesAt(mem: Buffer, off: nat, es: seq<Endpoint>)
    requires ValidEndpoints(es) && At(mem, off, Concat(EndpointBytes, es))
    ensures Row(EndpointsAt(mem), EndpointSize, off, es)
    ensures |Concat(EndpointBytes, es)| == Extent(EndpointSize, es)
  {
    forall o: nat, e | e in es && At(mem, o, EndpointBytes(e)) ensures EndpointsAt(mem)(o, e) {
      EndpointBytesAt(mem, o, e);
    }
    RowOfBytes(mem, EndpointBytes, EndpointsAt(mem), EndpointSize, off, es);
  }

  // ---------------------------------------------------------------- reading it back

  lemma EndpointRoundTrip(mem: Buffer, off: nat, size: int, e: Endpoint)
    requires EndpointAt(mem, off, e) && EndpointSize(e) <= size
    requires Stops(mem, off + EndpointSize(e), size - EndpointSize(e))
    ensures ParseEndpoint(mem, off, size) == Parsed(e, off + EndpointSize(e), size - EndpointSize(e))
    ensures Stops(mem, off, size)
  {
    HeaderAt(mem, off, EndpointFormat(e), e.fields);
    assert SkipExtras(mem, off + e.fields[0], size - e.fields[0]).Parsed?;
  }

  /** Where item `x` is laid out and something follows at which its parser stops, the parser reads
      it back. */
  ghost predicate Reads<T(!new)>(p: Parser<T>, at: (nat, T) -> bool, sz: T -> nat, stops: (nat, int) -> bool,
                                 o: nat, s: int, x: T) {
    at(o, x) && sz(x) <= s && stops(o + sz(x), s - sz(x)) ==>
      p(o, s) == Parsed(x, o + sz(x), s - sz(x)) && stops(o, s)
  }

  /** A list that reaches from `off` to `end` is read back when its items are. */
  lemma {:induction false} ManyRoundTrip<T(!new)>(
      p: Parser<T>, at: (nat, T) -> bool, sz: T -> nat, stops: (nat, int) -> bool,
      off: nat, size: int, xs: seq<T>, end: nat, left: int)
    requires Conserves(p) && forall o: nat, s: int, x :: Reads(p, at, sz, stops, o, s, x)
    requires Row(at, sz, off, xs) && end == off + Extent(sz, xs) && left == size - Extent(sz, xs) >= 0
    requires stops(end, left)
    ensures ParseMany(p, off, size, |xs|) == Parsed(xs, end, left)
    ensures stops(off, size)
    decreases |xs|
  {
    if xs != [] {
      var off1: nat, size1: int := off + sz(xs[0]), size - sz(xs[0]);
      ManyRoundTrip(p, at, sz, stops, off1, size1, xs[1..], end, left);
      assert Reads(p, at, sz, stops, off, size, xs[0]);
      ManyStep(p, off, size, xs[0], off1, size1, xs[1..], end, left);
      assert xs == [xs[0]] + xs[1..];
    }
  }

  lemma ManyStep<T(!new)>(p: Parser<T>, off: nat, size: int, x: T, off1: nat, size1: int,
                          rest: seq<T>, end: nat, left: int)
    requires Conserves(p) && p(off, size) == Parsed(x, off1, size1)
    requires ParseMany(p, off1, size1, |rest|) == Parsed(rest, end, left)
    ensures ParseMany(p, off, size, 1 + |rest|) == Parsed([x] + rest, end, left)
  {
  }

  /** What may follow an alternate setting: nothing, or the next interface descriptor. */
  ghost predicate NextSetting(mem: Buffer, off: nat, size: int) {
    size == 0 || (size >= INTERFACE_DESC_LENGTH && mem(off) == INTERFACE_DESC_LENGTH && mem(off + 1) == DT_INTERFACE)
  }

  ghost function StopsIn(mem: Buffer): (nat, int) -> bool {
    (off: nat, size: int) => Stops(mem, off, size)
  }

  lemma EndpointReads(mem: Buffer, o: nat, s: int, e: Endpoint)
    ensures Reads(EndpointParser(mem), EndpointsAt(mem), EndpointSize, StopsIn(mem), o, s, e)
  {
    if EndpointAt(mem, o, e) && EndpointSize(e) <= s && Stops(mem, o + EndpointSize(e), s - EndpointSize(e)) {
      EndpointRoundTrip(mem, o, s, e);
    }
  }

  lemma AnyEndpointReads(mem: Buffer)
    ensures forall o: nat, s: int, e ::
              Reads(EndpointParser(mem), EndpointsAt(mem), EndpointSize, StopsIn(mem), o, s, e)
  {
    forall o: nat, s: int, e ensures Reads(EndpointParser(mem), EndpointsAt(mem), EndpointSize, StopsIn(mem), o, s, e) {
      EndpointReads(mem, o, s, e);
    }
  }

  lemma EndpointsRoundTrip(mem: Buffer, off: nat, size: int, es: seq<Endpoint>, end: nat, left: int)
    requires Row(EndpointsAt(mem), EndpointSize, off, es)
    requires end == off + Extent(EndpointSize, es) && left == size - Extent(EndpointSize, es) >= 0
    requires Stops(mem, end, left)
    ensures ParseMany(EndpointParser(mem), off, size, |es|) == Parsed(es, end, left)
    ensures Stops(mem, off, size)
  {
    AnyEndpointReads(mem);
    ManyRoundTrip(EndpointParser(mem), EndpointsAt(mem), EndpointSize, StopsIn(mem), off, size, es, end, left);
  }

  /** Where endpoints follow, the next descriptor is an endpoint descriptor. */
  lemma EndpointsLead(mem: Buffer, off: nat, es: seq<Endpoint>)
    requires Row(EndpointsAt(mem), EndpointSize, off, es) && es != []
    ensures mem(off + 1) == DT_ENDPOINT
  {
    assert EndpointAt(mem, off, es[0]);
    HeaderAt(mem, off, EndpointFormat(es[0]), es[0].fields);
  }

  lemma SettingHeaderAt(mem: Buffer, off: nat, fields: seq<nat>)
    requires Fields(mem, off, INTERFACE_FORMAT) == fields
    ensures |fields| == 9 && mem(off) == fields[0] && mem(off + 1) == fields[1]
    ensures mem(off + 3) == fields[3] && mem(off + 4) == fields[4]
  {
    HeaderAt(mem, off, INTERFACE_FORMAT, fields);
    assert fields[3] == FieldAt(mem, off, INTERFACE_FORMAT, 3) && fields[4] == FieldAt(mem, off, INTERFACE_FORMAT, 4);
  }

  /** The endpoints of a setting, in front of the next setting or of nothing, are read back. */
  ghost predicate ReadsEndpoints(
      mem: Buffer, p: Parser<Endpoint>, at: (nat, Endpoint) -> bool, sz: Endpoint -> nat,
      off: nat, size: int, es: seq<Endpoint>, end: nat, left: int)
    requires Conserves(p)
  {
    Row(at, sz, off, es) && left >= 0 && NextSetting(mem, end, left) ==>
      && ParseMany(p, off, size, |es|) == Parsed(es, end, left)
      && Stops(mem, off, size)
      && (size >= DESC_HEADER_LENGTH ==> mem(off + 1) != DT_CONFIG && mem(off + 1) != DT_DEVICE)
  }

  lemma EndpointsOfSetting(mem: Buffer, off: nat, size: int, es: seq<Endpoint>, end: nat, left: int)
    requires end == off + Extent(EndpointSize, es) && left == size - Extent(EndpointSize, es)
    ensures ReadsEndpoints(mem, EndpointParser(mem), EndpointsAt(mem), EndpointSize, off, size, es, end, left)
  {
    if Row(EndpointsAt(mem), EndpointSize, off, es) && left >= 0 && NextSetting(mem, end, left) {
      EndpointsRoundTrip(mem, off, size, es, end, left);
      if es != [] { EndpointsLead(mem, off, es); }
    }
  }

  lemma SettingRoundTrip(
      p: Parser<Endpoint>, at: (nat, Endpoint) -> bool, sz: Endpoint -> nat,
      mem: Buffer, off: nat, size: int, a: AltSetting, off1: nat, size1: int, off2: nat, size2: int)
    requires Conserves(p) && SettingWith(mem, at, sz, off, a)
    requires ReadsEndpoints(mem, p, at, sz, off1, size1, a.endpoints, off2, size2)
    requires off1 == off + 9 + |a.extra| && size1 == size - 9 - |a.extra|
    requires off2 == off1 + Extent(sz, a.endpoints) && size2 == size1 - Extent(sz, a.endpoints) >= 0
    requires NextSetting(mem, off2, size2)
    ensures ParseSettingWith(p, mem, off, size) == Parsed((a, AlternateFollows(mem, off2, size2)), off2, size2)
    ensures size >= INTERFACE_DESC_LENGTH && mem(off + 3) == Alternate(a) && NextSetting(mem, off, size)
  {
    SettingCombine(p, mem, off, size, a, off1, size1, off2, size2);
  }

  lemma SettingCombine(p: Parser<Endpoint>, mem: Buffer, off: nat, size: int, a: AltSetting,
                       off1: nat, size1: int, off2: nat, size2: int)
    requires Conserves(p) && Fields(mem, off, INTERFACE_FORMAT) == a.fields
    requires a.fields[0] == INTERFACE_DESC_LENGTH && a.fields[1] == DT_INTERFACE
    requires a.fields[4] == |a.endpoints| <= USB_MAXENDPOINTS
    requires Skipped(mem, off + 9, a.extra) && off1 == off + 9 + |a.extra| && size1 == size - 9 - |a.extra|
    requires 0 <= size1 && Stops(mem, off1, size1)
    requires size1 >= DESC_HEADER_LENGTH ==> mem(off1 + 1) != DT_CONFIG && mem(off1 + 1) != DT_DEVICE
    requires ParseMany(p, off1, size1, |a.endpoints|) == Parsed(a.endpoints, off2, size2)
    ensures ParseSettingWith(p, mem, off, size) == Parsed((a, AlternateFollows(mem, off2, size2)), off2, size2)
    ensures size >= INTERFACE_DESC_LENGTH && mem(off + 3) == Alternate(a) && NextSetting(mem, off, size)
  {
    SettingHeaderAt(mem, off, a.fields);
    assert SkipExtras(mem, off + 9, size - 9) == Parsed((), off1, size1);
    ParseSettingIs(p, mem, off, size, a, off1, size1, off2, size2);
  }

  lemma ParseSettingIs(p: Parser<Endpoint>, mem: Buffer, off: nat, size: int, a: AltSetting,
                       off1: nat, size1: int, off2: nat, size2: int)
    requires Conserves(p) && mem(off) == 9 && mem(off + 4) == |a.endpoints| <= USB_MAXENDPOINTS
    requires Fields(mem, off, INTERFACE_FORMAT) == a.fields
    requires SkipExtras(mem, off + 9, size - 9) == Parsed((), off1, size1)
    requires Slice(mem, off + 9, off1 - (off + 9)) == a.extra
    requires size1 >= DESC_HEADER_LENGTH ==> mem(off1 + 1) != DT_CONFIG && mem(off1 + 1) != DT_DEVICE
    requires ParseMany(p, off1, size1, |a.endpoints|) == Parsed(a.endpoints, off2, size2)
    ensures ParseSettingWith(p, mem, off, size) == Parsed((a, AlternateFollows(mem, off2, size2)), off2, size2)
  {
  }

  // ---------------------------------------------------------------- interfaces and the configuration

  /** Where a setting is laid out in front of another one, or of nothing, one round of the parser
      reads it back and says whether the other one belongs to the same interface. */
  ghost predicate ReadsRound<T(!new)>(p: Parser<(T, bool)>, at: (nat, T) -> bool, sz: T -> nat,
                                      next: (nat, int) -> bool, more: (nat, int) -> bool, alternate: T -> nat,
                                      o: nat, s: int, x: T) {
    at(o, x) && sz(x) <= s && next(o + sz(x), s - sz(x)) ==>
      && p(o, s) == Parsed((x, more(o + sz(x), s - sz(x))), o + sz(x), s - sz(x))
      && next(o, s) && s >= INTERFACE_DESC_LENGTH && (more(o, s) <==> alternate(x) != 0)
  }

  lemma {:induction false} RoundsRoundTrip<T(!new)>(
      p: Parser<(T, bool)>, at: (nat, T) -> bool, sz: T -> nat,
      next: (nat, int) -> bool, more: (nat, int) -> bool, alternate: T -> nat,
      off: nat, size: int, xs: seq<T>, end: nat, left: int)
    requires Progresses(p) && forall o: nat, s: int, x :: ReadsRound(p, at, sz, next, more, alternate, o, s, x)
    requires Row(at, sz, off, xs) && xs != []
    requires end == off + Extent(sz, xs) && left == size - Extent(sz, xs) >= 0
    requires next(end, left) && !more(end, left)
    requires forall i :: 1 <= i < |xs| ==> alternate(xs[i]) != 0
    ensures ParseRounds(p, off, size) == Parsed(xs, end, left)
    ensures next(off, size) && size >= INTERFACE_DESC_LENGTH && (more(off, size) <==> alternate(xs[0]) != 0)
    decreases |xs|
  {
    var off1: nat, size1: int := off + sz(xs[0]), size - sz(xs[0]);
    assert ReadsRound(p, at, sz, next, more, alternate, off, size, xs[0]);
    if |xs| > 1 {
      RoundsRoundTrip(p, at, sz, next, more, alternate, off1, size1, xs[1..], end, left);
      assert xs[1..][0] == xs[1] && alternate(xs[1]) != 0;
      assert p(off, size) == Parsed((xs[0], true), off1, size1);
      assert xs == [xs[0]] + xs[1..];
    } else {
      assert Extent(sz, xs[1..]) == 0;
      assert p(off, size) == Parsed((xs[0], false), off1, size1);
      assert xs == [xs[0]];
    }
  }

  ghost function NextIn(mem: Buffer): (nat, int) -> bool {
    (off: nat, size: int) => NextSetting(mem, off, size)
  }

  ghost function MoreIn(mem: Buffer): (nat, int) -> bool {
    (off: nat, size: int) => AlternateFollows(mem, off, size)
  }

  /** A round `q` that reads a setting, said of what surrounds it: its endpoints at `o1`, and what
      follows at `o2`. */
  lemma RoundReads(q: Parser<(AltSetting, bool)>, at: (nat, AltSetting) -> bool, sz: AltSetting -> nat,
                   next: (nat, int) -> bool, more: (nat, int) -> bool,
                   p: Parser<Endpoint>, atE: (nat, Endpoint) -> bool, szE: Endpoint -> nat,
                   mem: Buffer, o: nat, s: int, a: AltSetting, o1: nat, s1: int, o2: nat, s2: int)
    requires Conserves(p) && q(o, s) == ParseSettingWith(p, mem, o, s)
    requires at(o, a) == SettingWith(mem, atE, szE, o, a) && sz(a) == 9 + |a.extra| + Extent(szE, a.endpoints)
    requires o1 == o + 9 + |a.extra| && s1 == s - 9 - |a.extra| && o2 == o + sz(a) && s2 == s - sz(a)
    requires next(o, s) == NextSetting(mem, o, s) && next(o2, s2) == NextSetting(mem, o2, s2)
    requires more(o, s) == AlternateFollows(mem, o, s) && more(o2, s2) == AlternateFollows(mem, o2, s2)
    requires ReadsEndpoints(mem, p, atE, szE, o1, s1, a.endpoints, o2, s2)
    ensures ReadsRound(q, at, sz, next, more, Alternate, o, s, a)
  {
    if at(o, a) && sz(a) <= s && next(o2, s2) {
      SettingRoundTrip(p, atE, szE, mem, o, s, a, o1, s1, o2, s2);
    }
  }

  lemma SettingReads(mem: Buffer, o: nat, s: int, a: AltSetting)
    ensures ReadsRound(SettingParser(mem), SettingsAt(mem), SettingSize, NextIn(mem), MoreIn(mem), Alternate, o, s, a)
  {
    var n := SettingSize(a);
    SettingReadsAt(mem, o, s, a, o + 9 + |a.extra|, s - 9 - |a.extra|, o + n, s - n);
  }

  lemma SettingReadsAt(mem: Buffer, o: nat, s: int, a: AltSetting, o1: nat, s1: int, o2: nat, s2: int)
    requires o1 == o + 9 + |a.extra| && s1 == s - 9 - |a.extra| && o2 == o + SettingSize(a) && s2 == s - SettingSize(a)
    ensures ReadsRound(SettingParser(mem), SettingsAt(mem), SettingSize, NextIn(mem), MoreIn(mem), Alternate, o, s, a)
  {
    EndpointsOfSetting(mem, o1, s1, a.endpoints, o2, s2);
    RoundReads(SettingParser(mem), SettingsAt(mem), SettingSize, NextIn(mem), MoreIn(mem),
               EndpointParser(mem), EndpointsAt(mem), EndpointSize, mem, o, s, a, o1, s1, o2, s2);
  }

  /** An interface, all its settings, laid out in memory. */
  ghost predicate InterfaceAt(mem: Buffer, off: nat, alts: seq<AltSetting>) {
    && alts != [] && Row(SettingsAt(mem), SettingSize, off, alts)
    && forall i :: 1 <= i < |alts| ==> Alternate(alts[i]) != 0
  }

  function InterfaceSize(alts: seq<AltSetting>): nat {
    Extent(SettingSize, alts)
  }

  ghost function InterfacesAt(mem: Buffer): (nat, seq<AltSetting>) -> bool {
    (off: nat, alts: seq<AltSetting>) => InterfaceAt(mem, off, alts)
  }

  /** Where an interface may end: at the end, or in front of one that starts at setting 0. */
  ghost function EndsIn(mem: Buffer): (nat, int) -> bool {
    (off: nat, size: int) => NextSetting(mem, off, size) && !AlternateFollows(mem, off, size)
  }

  ghost function StartsIn(mem: Buffer): (nat, int) -> bool {
    (off: nat, size: int) => size > 0 && NextSetting(mem, off, size)
  }

  ghost predicate ReadsInterface(
      p: Parser<seq<AltSetting>>, at: (nat, seq<AltSetting>) -> bool, sz: seq<AltSetting> -> nat,
      ends: (nat, int) -> bool, starts: (nat, int) -> bool, o: nat, s: int, x: seq<AltSetting>) {
    at(o, x) && sz(x) <= s && ends(o + sz(x), s - sz(x)) ==>
      p(o, s) == Parsed(x, o + sz(x), s - sz(x)) && starts(o, s) && (FirstAlternate(x) == 0 ==> ends(o, s))
  }

  lemma AllSettingsRead(mem: Buffer)
    ensures forall o: nat, s: int, a ::
              ReadsRound(SettingParser(mem), SettingsAt(mem), SettingSize, NextIn(mem), MoreIn(mem), Alternate, o, s, a)
  {
    forall o: nat, s: int, a
      ensures ReadsRound(SettingParser(mem), SettingsAt(mem), SettingSize, NextIn(mem), MoreIn(mem), Alternate, o, s, a)
    {
      SettingReads(mem, o, s, a);
    }
  }

  lemma InterfaceReads(mem: Buffer, o: nat, s: int, alts: seq<AltSetting>)
    ensures ReadsInterface(InterfaceParser(mem), InterfacesAt(mem), InterfaceSize,
                           EndsIn(mem), StartsIn(mem), o, s, alts)
  {
    var end: nat, left: int := o + InterfaceSize(alts), s - InterfaceSize(alts);
    if InterfacesAt(mem)(o, alts) && left >= 0 && EndsIn(mem)(end, left) {
      InterfaceRoundTrip(mem, o, s, alts, end, left);
    }
    InterfaceIsRead(InterfaceParser(mem), InterfacesAt(mem), InterfaceSize,
                    EndsIn(mem), StartsIn(mem), o, s, alts, end, left);
  }

  lemma InterfaceIsRead(
      p: Parser<seq<AltSetting>>, at: (nat, seq<AltSetting>) -> bool, sz: seq<AltSetting> -> nat,
      ends: (nat, int) -> bool, starts: (nat, int) -> bool, o: nat, s: int, x: seq<AltSetting>, end: nat, left: int)
    requires end == o + sz(x) && left == s - sz(x)
    requires at(o, x) && left >= 0 && ends(end, left) ==>
               p(o, s) == Parsed(x, end, left) && starts(o, s) && (FirstAlternate(x) == 0 ==> ends(o, s))
    ensures ReadsInterface(p, at, sz, ends, starts, o, s, x)
  {
  }

  lemma InterfaceRoundTrip(mem: Buffer, o: nat, s: int, alts: seq<AltSetting>, end: nat, left: int)
    requires InterfaceAt(mem, o, alts) && end == o + InterfaceSize(alts) && left == s - InterfaceSize(alts) >= 0
    requires EndsIn(mem)(end, left)
    ensures InterfaceParser(mem)(o, s) == Parsed(alts, end, left)
    ensures StartsIn(mem)(o, s) && (FirstAlternate(alts) == 0 ==> EndsIn(mem)(o, s))
  {
    AllSettingsRead(mem);
    RoundsRoundTrip(SettingParser(mem), SettingsAt(mem), SettingSize, NextIn(mem), MoreIn(mem), Alternate,
                    o, s, alts, end, left);
  }

  /** Where an interface starts, the skipping loop has nothing to skip. */
  ghost predicate NotSkipped(skip: Parser<()>, starts: (nat, int) -> bool, o: nat, s: int) {
    starts(o, s) ==> skip(o, s) == Parsed((), o, s)
  }

  lemma {:induction false} InterfacesRoundTrip(
      mem: Buffer, skip: Parser<()>, p: Parser<seq<AltSetting>>,
      at: (nat, seq<AltSetting>) -> bool, sz: seq<AltSetting> -> nat,
      ends: (nat, int) -> bool, starts: (nat, int) -> bool,
      off: nat, size: int, xs: seq<seq<AltSetting>>, extra: seq<byte>, end: nat)
    requires Conserves(skip) && Conserves(p)
    requires forall o: nat, s: int, x :: ReadsInterface(p, at, sz, ends, starts, o, s, x)
    requires forall o: nat, s: int :: NotSkipped(skip, starts, o, s)
    requires Row(at, sz, off, xs) && Extent(sz, xs) == size && end == off + size && ends(end, 0)
    requires LaterStartAtZero(xs)
    ensures ParseInterfaces(mem, skip, p, off, size, |xs|, extra) == Parsed((extra, xs), end, 0)
    ensures xs != [] ==> starts(off, size) && (FirstAlternate(xs[0]) == 0 ==> ends(off, size))
    decreases |xs|
  {
    if xs != [] {
      var x, rest := xs[0], xs[1..];
      assert xs == [x] + rest;
      RestStartsAtZero(x, rest);
      var off1: nat, size1: int := off + sz(x), size - sz(x);
      InterfacesRoundTrip(mem, skip, p, at, sz, ends, starts, off1, size1, rest, extra, end);
      assert rest == [] ==> size1 == 0;
      assert NotSkipped(skip, starts, off, size);
      InterfacesStep(mem, skip, p, at, sz, ends, starts, off, size, x, off1, size1, rest, extra, end);
    }
  }

  lemma RestStartsAtZero(x: seq<AltSetting>, rest: seq<seq<AltSetting>>)
    requires LaterStartAtZero([x] + rest)
    ensures LaterStartAtZero(rest) && (rest != [] ==> FirstAlternate(rest[0]) == 0)
  {
    forall i | 0 <= i < |rest| ensures FirstAlternate(rest[i]) == 0 {
      assert ([x] + rest)[i + 1] == rest[i];
    }
  }

  lemma InterfacesStep(
      mem: Buffer, skip: Parser<()>, p: Parser<seq<AltSetting>>,
      at: (nat, seq<AltSetting>) -> bool, sz: seq<AltSetting> -> nat,
      ends: (nat, int) -> bool, starts: (nat, int) -> bool, off: nat, size: int,
      x: seq<AltSetting>, off1: nat, size1: int, rest: seq<seq<AltSetting>>, extra: seq<byte>, end: nat)
    requires Conserves(skip) && Conserves(p) && ReadsInterface(p, at, sz, ends, starts, off, size, x)
    requires NotSkipped(skip, starts, off, size)
    requires off1 == off + sz(x) && size1 == size - sz(x) >= 0 && at(off, x) && ends(off1, size1)
    requires ParseInterfaces(mem, skip, p, off1, size1, |rest|, extra) == Parsed((extra, rest), end, 0)
    ensures ParseInterfaces(mem, skip, p, off, size, 1 + |rest|, extra) == Parsed((extra, [x] + rest), end, 0)
    ensures starts(off, size) && (FirstAlternate(x) == 0 ==> ends(off, size))
  {
    NextRound(mem, skip, p, off, size, |rest|, extra, x, off1, size1, rest, end);
  }

  lemma NextRound(mem: Buffer, skip: Parser<()>, p: Parser<seq<AltSetting>>,
                  off: nat, size: int, n: nat, extra: seq<byte>,
                  x: seq<AltSetting>, off1: nat, size1: int, xs: seq<seq<AltSetting>>, off2: nat)
    requires Conserves(skip) && Conserves(p) && skip(off, size) == Parsed((), off, size)
    requires p(off, size) == Parsed(x, off1, size1)
    requires ParseInterfaces(mem, skip, p, off1, size1, n, extra) == Parsed((extra, xs), off2, 0)
    ensures ParseInterfaces(mem, skip, p, off, size, n + 1, extra) == Parsed((extra, [x] + xs), off2, 0)
  {
    assert Slice(mem, off, 0) == [];
    assert InterfaceRound(mem, skip, p, off, size, extra) == Parsed((extra, x), off1, size1);
  }

  lemma StartsAreNotSkipped(mem: Buffer, o: nat, s: int)
    ensures NotSkipped(Skipper(mem), StartsIn(mem), o, s)
  {
  }

  lemma {:induction false} ConcatLength<T>(bytes: T -> seq<byte>, size: T -> nat, xs: seq<T>)
    requires forall x :: x in xs ==> |bytes(x)| == size(x)
    ensures |Concat(bytes, xs)| == Extent(size, xs)
    decreases |xs|
  {
    if xs != [] { ConcatLength(bytes, size, xs[1..]); }
  }

  lemma SettingBytesSize(a: AltSetting)
    requires ValidSetting(a)
    ensures |SettingBytes(a)| == SettingSize(a)
  {
    ConcatLength(EndpointBytes, EndpointSize, a.endpoints);
  }

  lemma InterfaceBytesSize(alts: seq<AltSetting>)
    requires forall a :: a in alts ==> ValidSetting(a)
    ensures |InterfaceBytes(alts)| == InterfaceSize(alts)
  {
    forall a | a in alts ensures |SettingBytes(a)| == SettingSize(a) {
      SettingBytesSize(a);
    }
    ConcatLength(SettingBytes, SettingSize, alts);
  }

  lemma InterfaceBytesAt(mem: Buffer, off: nat, alts: seq<AltSetting>)
    requires ValidInterface(alts) && At(mem, off, InterfaceBytes(alts))
    ensures InterfaceAt(mem, off, alts)
  {
    forall a | a in alts ensures |SettingBytes(a)| == SettingSize(a) {
      SettingBytesSize(a);
    }
    forall o: nat, a | a in alts && At(mem, o, SettingBytes(a)) ensures SettingsAt(mem)(o, a) {
      SettingBytesAt(mem, o, a);
    }
    RowOfBytes(mem, SettingBytes, SettingsAt(mem), SettingSize, off, alts);
  }

  lemma InterfacesBytesAt(mem: Buffer, off: nat, xs: seq<seq<AltSetting>>)
    requires ValidInterfaces(xs) && At(mem, off, Concat(InterfaceBytes, xs))
    ensures Row(InterfacesAt(mem), InterfaceSize, off, xs) && |Concat(InterfaceBytes, xs)| == Extent(InterfaceSize, xs)
  {
    forall alts | alts in xs ensures |InterfaceBytes(alts)| == InterfaceSize(alts) {
      InterfaceBytesSize(alts);
    }
    forall o: nat, alts | alts in xs && At(mem, o, InterfaceBytes(alts)) ensures InterfacesAt(mem)(o, alts) {
      InterfaceBytesAt(mem, o, alts);
    }
    RowOfBytes(mem, InterfaceBytes, InterfacesAt(mem), InterfaceSize, off, xs);
  }

  lemma AllInterfacesRead(mem: Buffer)
    ensures forall o: nat, s: int, x ::
              ReadsInterface(InterfaceParser(mem), InterfacesAt(mem), InterfaceSize,
                             EndsIn(mem), StartsIn(mem), o, s, x)
  {
    forall o: nat, s: int, x
      ensures ReadsInterface(InterfaceParser(mem), InterfacesAt(mem), InterfaceSize,
                             EndsIn(mem), StartsIn(mem), o, s, x)
    {
      InterfaceReads(mem, o, s, x);
    }
  }

  /** The first round of parse_configuration keeps what it skips, and then goes on as if it had
      started behind it. */
  lemma FirstRound(mem: Buffer, skip: Parser<()>, p: Parser<seq<AltSetting>>,
                   off: nat, size: int, off1: nat, size1: int, n: nat, x: seq<byte>)
    requires Conserves(skip) && Conserves(p) && n > 0 && off1 == off + |x| && size1 == size - |x| >= 0
    requires skip(off, size) == Parsed((), off1, size1) && Slice(mem, off, |x|) == x
    requires skip(off1, size1) == Parsed((), off1, size1)
    ensures ParseInterfaces(mem, skip, p, off, size, n, []) == ParseInterfaces(mem, skip, p, off1, size1, n, x)
  {
    assert Slice(mem, off1, 0) == [];
    assert InterfaceRound(mem, skip, p, off, size, []) == InterfaceRound(mem, skip, p, off1, size1, x);
  }

  lemma ConfigHeader(mem: Buffer, c: Config, total: nat)
    requires ValidConfig(c) && total == 9 + |ConfigTail(c)| && At(mem, 0, Pack(CONFIG_FORMAT, c.fields))
    ensures HeaderOf(mem, c, total)
  {
    ConfigFieldsAt(mem, c.fields);
  }

  lemma ConfigFieldsAt(mem: Buffer, fields: seq<nat>)
    requires Fits(CONFIG_FORMAT, fields) && At(mem, 0, Pack(CONFIG_FORMAT, fields))
    ensures Fields(mem, 0, CONFIG_FORMAT) == fields
    ensures mem(0) == fields[0] && Word(mem, 2) == fields[2] && mem(4) == fields[3]
  {
    FieldsRoundTrip(mem, 0, CONFIG_FORMAT, fields);
    HeaderAt(mem, 0, CONFIG_FORMAT, fields);
    assert fields[2] == FieldAt(mem, 0, CONFIG_FORMAT, 2) && fields[3] == FieldAt(mem, 0, CONFIG_FORMAT, 3);
  }

  /** A configuration laid out in memory: its interfaces start at `off` and are `left` bytes. */
  ghost predicate ConfigWith(
      mem: Buffer, skip: Parser<()>, at: (nat, seq<AltSetting>) -> bool, sz: seq<AltSetting> -> nat,
      starts: (nat, int) -> bool, c: Config, off: nat, left: nat) {
    && HeaderOf(mem, c, off + left)
    && (c.interfaces == [] ==> c.extra == [])
    && off == 9 + |c.extra| && left == Extent(sz, c.interfaces)
    && Row(at, sz, off, c.interfaces)
    && LaterStartAtZero(c.interfaces)
    && Slice(mem, 9, |c.extra|) == c.extra
    && (starts(off, left) ==> skip(9, |c.extra| + left) == Parsed((), off, left))
  }

  /** The nine bytes of a configuration descriptor that says `total`. */
  predicate HeaderOf(mem: Buffer, c: Config, total: nat) {
    && Fields(mem, 0, CONFIG_FORMAT) == c.fields
    && mem(0) == 9 && Word(mem, 2) == total && mem(4) == |c.interfaces| <= USB_MAXINTERFACES
  }

  lemma ConfigFromLayout(
      mem: Buffer, skip: Parser<()>, p: Parser<seq<AltSetting>>,
      at: (nat, seq<AltSetting>) -> bool, sz: seq<AltSetting> -> nat,
      ends: (nat, int) -> bool, starts: (nat, int) -> bool, c: Config, off: nat, left: nat, total: nat)
    requires Conserves(skip) && Conserves(p)
    requires forall o: nat, s: int, x :: ReadsInterface(p, at, sz, ends, starts, o, s, x)
    requires forall o: nat, s: int :: NotSkipped(skip, starts, o, s)
    requires ConfigWith(mem, skip, at, sz, starts, c, off, left) && total == off + left && ends(total, 0)
    ensures ParseConfigurationWith(mem, skip, p) == Parsed(c, total, 0)
  {
    InterfacesRoundTrip(mem, skip, p, at, sz, ends, starts, off, left, c.interfaces, c.extra, total);
    if c.interfaces != [] {
      assert NotSkipped(skip, starts, off, left);
      FirstRound(mem, skip, p, 9, |c.extra| + left, off, left, |c.interfaces|, c.extra);
    }
    ParseConfigurationIs(mem, skip, p, c, total);
  }

  lemma ParseConfigurationIs(mem: Buffer, skip: Parser<()>, p: Parser<seq<AltSetting>>,
                             c: Config, total: nat)
    requires Conserves(skip) && Conserves(p) && HeaderOf(mem, c, total)
    requires ParseInterfaces(mem, skip, p, 9, total - 9, |c.interfaces|, [])
          == Parsed((c.extra, c.interfaces), total, 0)
    ensures ParseConfigurationWith(mem, skip, p) == Parsed(c, total, 0)
  {
  }

  lemma ExtrasAreSkippedInFront(mem: Buffer, off: nat, size: int, x: seq<byte>, end: nat, left: nat)
    requires IsExtras(x) && At(mem, off, x) && end == off + |x| && left == size - |x|
    ensures StartsIn(mem)(end, left) ==> Skipper(mem)(off, size) == Parsed((), end, left)
    ensures Slice(mem, off, |x|) == x
  {
    SliceAt(mem, off, x);
    if StartsIn(mem)(end, left) {
      SkipCheckedTo(mem, off, size, x, end, left);
    }
  }

  lemma ConfigBytesAt(mem: Buffer, c: Config, off: nat, left: nat)
    requires ValidConfig(c) && At(mem, 0, ConfigBytes(c))
    requires off == 9 + |c.extra| && left == |Concat(InterfaceBytes, c.interfaces)|
    ensures ConfigWith(mem, Skipper(mem), InterfacesAt(mem), InterfaceSize, StartsIn(mem), c, off, left)
  {
    ConfigPartsAt(mem, c, off);
    ConfigHeader(mem, c, off + left);
    ConfigFromParts(mem, c.extra, c.interfaces, off, left);
  }

  lemma ConfigPartsAt(mem: Buffer, c: Config, off: nat)
    requires ValidConfig(c) && At(mem, 0, ConfigBytes(c)) && off == 9 + |c.extra|
    ensures At(mem, 0, Pack(CONFIG_FORMAT, c.fields)) && At(mem, 9, c.extra)
    ensures At(mem, off, Concat(InterfaceBytes, c.interfaces))
  {
    PartsAt(mem, 0, 9, off, CONFIG_FORMAT, c.fields, c.extra, Concat(InterfaceBytes, c.interfaces));
  }

  lemma ConfigFromParts(mem: Buffer, extra: seq<byte>, interfaces: seq<seq<AltSetting>>, off: nat, left: nat)
    requires IsExtras(extra) && At(mem, 9, extra) && off == 9 + |extra|
    requires ValidInterfaces(interfaces) && At(mem, off, Concat(InterfaceBytes, interfaces))
    ensures Row(InterfacesAt(mem), InterfaceSize, off, interfaces)
    ensures |Concat(InterfaceBytes, interfaces)| == Extent(InterfaceSize, interfaces)
    ensures StartsIn(mem)(off, left) ==> Skipper(mem)(9, |extra| + left) == Parsed((), off, left)
    ensures Slice(mem, 9, |extra|) == extra
  {
    InterfacesBytesAt(mem, off, interfaces);
    ExtrasAreSkippedInFront(mem, 9, |extra| + left, extra, off, left);
  }

  /** Parsing the layout of any well-formed configuration returns that configuration, with
      nothing left over, whatever the memory behind it holds. */
  lemma ConfigRoundTrip(mem: Buffer, c: Config)
    requires ValidConfig(c) && At(mem, 0, ConfigBytes(c))
    ensures ParseConfiguration(mem) == Parsed(c, |ConfigBytes(c)|, 0)
  {
    var off: nat, left: nat := 9 + |c.extra|, |Concat(InterfaceBytes, c.interfaces)|;
    ConfigBytesAt(mem, c, off, left);
    AllInterfacesRead(mem);
    forall o: nat, s: int ensures NotSkipped(Skipper(mem), StartsIn(mem), o, s) {
      StartsAreNotSkipped(mem, o, s);
    }
    ConfigFromLayout(mem, Skipper(mem), InterfaceParser(mem), InterfacesAt(mem), InterfaceSize,
                     EndsIn(mem), StartsIn(mem), c, off, left, |ConfigBytes(c)|);
  }
}
