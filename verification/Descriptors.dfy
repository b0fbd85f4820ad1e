/** USB configuration descriptors (sections 9.6.3, 9.6.5 and 9.6.6 of the USB 2.0 specification)
    as libusb parses them: a tree of interfaces, alternate settings and endpoints, each carrying
    the class and vendor descriptors that follow it as an uninterpreted "extra" block.

    A buffer is the sequence of bytes that is left; the functions say what each parser makes of
    it and how many bytes it uses.  `DescriptorParsers` has the loops of the code. */
module Descriptors {

  type byte = x: int | 0 <= x < 256
  type Bytes = seq<byte>

  const HEADER_LENGTH := 2
  const DT_DEVICE: byte := 0x01
  const DT_CONFIG: byte := 0x02
  const DT_INTERFACE: byte := 0x04
  const DT_ENDPOINT: byte := 0x05
  const CONFIG_SIZE := 9
  const INTERFACE_SIZE := 9
  const ENDPOINT_SIZE := 7
  const ENDPOINT_AUDIO_SIZE := 9
  const MAX_ENDPOINTS := 32
  const MAX_INTERFACES := 32

  datatype Endpoint = Endpoint(
    bLength: byte, bEndpointAddress: byte, bmAttributes: byte, wMaxPacketSize: int, bInterval: byte,
    bRefresh: byte, bSynchAddress: byte, extra: Bytes)

  /** `bNumEndpoints` is kept apart from the endpoint array, as in the code, which does not
      always keep the two in step. */
  datatype AltSetting = AltSetting(
    bLength: byte, bInterfaceNumber: byte, bAlternateSetting: byte, bNumEndpoints: byte,
    bInterfaceClass: byte, bInterfaceSubClass: byte, bInterfaceProtocol: byte, iInterface: byte,
    extra: Bytes, endpoints: seq<Endpoint>)

  type Interface = seq<AltSetting>

  datatype Config = Config(
    bLength: byte, wTotalLength: int, bConfigurationValue: byte, iConfiguration: byte,
    bmAttributes: byte, MaxPower: byte, extra: Bytes, interfaces: seq<Interface>)

  /** A parser fails with LIBUSB_ERROR_IO, or returns a value and the number of bytes it used.
      `dropped` of these bytes were skipped without a trace: the class descriptors in front of a
      truncated one. */
  datatype Parsed<T> = IoError | Parsed(value: T, used: nat, dropped: nat)

  function Le16(lo: byte, hi: byte): int {
    lo + 256 * hi
  }

  /** The descriptor types at which a run of class descriptors ends. */
  predicate Standard(t: byte) {
    t == DT_ENDPOINT || t == DT_INTERFACE || t == DT_CONFIG || t == DT_DEVICE
  }

  // ---------------------------------------------------------------- the extra descriptors

  /** The result of skipping class descriptors: a length below 2 is an error, a descriptor that
      is longer than the buffer truncates the run, and otherwise the run ends after n bytes. */
  datatype Skip = BadLength | Truncated(n: nat) | Stop(n: nat)

  function Shift(k: nat, s: Skip): Skip {
    match s
    case BadLength => BadLength
    case Truncated(n) => Truncated(k + n)
    case Stop(n) => Stop(k + n)
  }

  function SkipExtras(b: Bytes): (s: Skip)
    ensures s.Stop? ==> s.n <= |b|
    ensures s.Truncated? ==> s.n <= |b|
  {
    if |b| < HEADER_LENGTH then Stop(0)
    else if b[0] < HEADER_LENGTH then BadLength
    else if b[0] > |b| then Truncated(0)
    else if Standard(b[1]) then Stop(0)
    else Shift(b[0], SkipExtras(b[b[0]..]))
  }

  // ---------------------------------------------------------------- what is skipped

  function Flatten(bs: seq<Bytes>): Bytes {
    if bs == [] then [] else bs[0] + Flatten(bs[1..])
  }

  /** A whole class or vendor descriptor: any type but DEVICE, CONFIGURATION, INTERFACE and ENDPOINT
      (table 9-5 of the USB 2.0 specification). */
  predicate Block(d: Bytes) {
    2 <= |d| < 256 && d[0] == |d| && d[1] != 1 && d[1] != 2 && d[1] != 4 && d[1] != 5
  }

  predicate Blocks(ds: seq<Bytes>) {
    forall k | 0 <= k < |ds| :: Block(ds[k])
  }

  /** A run of whole class or vendor descriptors. */
  ghost predicate Extras(b: Bytes) {
    exists ds :: Blocks(ds) && Flatten(ds) == b
  }

  /** What ends a run: too few bytes for a header, or a whole descriptor of one of those four types. */
  predicate Boundary(rest: Bytes) {
    |rest| < 2 || (2 <= rest[0] <= |rest| && (rest[1] == 1 || rest[1] == 2 || rest[1] == 4 || rest[1] == 5))
  }

  /** How skipping ends in front of `rest`, after `n` bytes. */
  predicate EndsAt(s: Skip, n: nat, rest: Bytes) {
    match s
    case Stop(k) => k == n && Boundary(rest)
    case BadLength => |rest| >= 2 && rest[0] < 2
    case Truncated(k) => k == n && |rest| >= 2 && 2 <= rest[0] && rest[0] > |rest|
  }

  /** Behind any list of class descriptors, skipping ends in one of three ways, each of which can be
      told from what follows. */
  lemma {:induction false} BlocksAreSkipped(ds: seq<Bytes>, rest: Bytes)
    requires Blocks(ds)
    requires rest == [] || |rest| == 1 || rest[0] < 2 || rest[0] > |rest| || Boundary(rest)
    ensures EndsAt(SkipExtras(Flatten(ds) + rest), |Flatten(ds)|, rest)
  {
    if ds == [] {
      assert Flatten(ds) + rest == rest;
    } else {
      var d, tail := ds[0], Flatten(ds[1..]) + rest;
      assert Block(d);
      assert Flatten(ds) + rest == d + tail && (d + tail)[|d|..] == tail;
      BlocksAreSkipped(ds[1..], rest);
    }
  }

  /** And every buffer is of that form. */
  lemma {:induction false} SkippedAreBlocks(b: Bytes) returns (ds: seq<Bytes>, rest: Bytes)
    ensures b == Flatten(ds) + rest && Blocks(ds) && EndsAt(SkipExtras(b), |Flatten(ds)|, rest)
  {
    if |b| < 2 || b[0] < 2 || b[0] > |b| || Boundary(b) {
      ds, rest := [], b;
      assert Flatten(ds) + rest == b;
    } else {
      var d, tail := b[..b[0]], b[b[0]..];
      ds, rest := SkippedAreBlocks(tail);
      assert b == d + tail == d + (Flatten(ds) + rest) == (d + Flatten(ds)) + rest;
      assert ([d] + ds)[1..] == ds;
      ds := [d] + ds;
    }
  }

  /** A run is what skipping uses up. */
  lemma ExtrasAreSkipped(b: Bytes)
    ensures Extras(b) <==> SkipExtras(b) == Stop(|b|)
  {
    if Extras(b) {
      var ds :| Blocks(ds) && Flatten(ds) == b;
      BlocksAreSkipped(ds, []);
      assert b + [] == b;
    }
    if SkipExtras(b) == Stop(|b|) {
      var ds, rest := SkippedAreBlocks(b);
      assert rest == [] && Flatten(ds) == b;
    }
  }

  lemma SkipPrinted(x: Bytes, rest: Bytes)
    requires Extras(x) && Boundary(rest)
    ensures SkipExtras(x + rest) == Stop(|x|)
  {
    var ds :| Blocks(ds) && Flatten(ds) == x;
    BlocksAreSkipped(ds, rest);
  }

  // ---------------------------------------------------------------- results in two parts

  /** A result of which a part was parsed earlier. */
  function Onto<T>(front: seq<T>, used: nat, dropped: nat, p: Parsed<seq<T>>): Parsed<seq<T>> {
    match p
    case IoError => IoError
    case Parsed(v, u, d) => Parsed(front + v, used + u, dropped + d)
  }

  lemma OntoNothing<T>(p: Parsed<seq<T>>)
    ensures Onto([], 0, 0, p) == p
  {
    if p.Parsed? { assert [] + p.value == p.value; }
  }

  lemma OntoBoth<T>(a: seq<T>, used: nat, dropped: nat, b: seq<T>, u: nat, d: nat, p: Parsed<seq<T>>)
    ensures Onto(a, used, dropped, Onto(b, u, d, p)) == Onto(a + b, used + u, dropped + d, p)
  {
    if p.Parsed? { assert a + (b + p.value) == (a + b) + p.value; }
  }

  /** A configuration body of which a part was parsed earlier. */
  function Below(front: Body, used: nat, dropped: nat, p: Parsed<Body>): Parsed<Body> {
    match p
    case IoError => IoError
    case Parsed(v, u, d) =>
      Parsed(Body(front.extra + v.extra, front.interfaces + v.interfaces), used + u, dropped + d)
  }

  lemma BelowNothing(p: Parsed<Body>)
    ensures Below(Body([], []), 0, 0, p) == p
  {
    if p.Parsed? { assert [] + p.value.extra == p.value.extra && [] + p.value.interfaces == p.value.interfaces; }
  }

  lemma BelowBoth(front: Body, used: nat, dropped: nat, back: Body, u: nat, d: nat, p: Parsed<Body>)
    ensures Below(front, used, dropped, Below(back, u, d, p))
      == Below(Body(front.extra + back.extra, front.interfaces + back.interfaces), used + u, dropped + d, p)
  {
    if p.Parsed? {
      assert front.extra + (back.extra + p.value.extra) == (front.extra + back.extra) + p.value.extra;
      assert front.interfaces + (back.interfaces + p.value.interfaces)
        == (front.interfaces + back.interfaces) + p.value.interfaces;
    }
  }

  // ---------------------------------------------------------------- endpoints

  function NoEndpoint(): Endpoint {
    Endpoint(0, 0, 0, 0, 0, 0, 0, [])
  }

  function EndpointHeader(b: Bytes): Endpoint
    requires |b| >= ENDPOINT_SIZE && b[0] <= |b|
  {
    if b[0] >= ENDPOINT_AUDIO_SIZE
    then Endpoint(b[0], b[2], b[3], Le16(b[4], b[5]), b[6], b[7], b[8], [])
    else Endpoint(b[0], b[2], b[3], Le16(b[4], b[5]), b[6], 0, 0, [])
  }

  /** parse_endpoint.  Zero bytes used means that there is no endpoint here. */
  function ParseEndpoint(b: Bytes): (r: Parsed<Endpoint>)
    ensures r.Parsed? ==> r.used <= |b| && r.dropped <= r.used && (r.used == 0 || r.used >= ENDPOINT_SIZE)
  {
    if |b| < HEADER_LENGTH then IoError
    else if b[1] != DT_ENDPOINT then Parsed(NoEndpoint(), 0, 0)
    else if b[0] < ENDPOINT_SIZE then IoError
    else if b[0] > |b| then Parsed(NoEndpoint(), 0, 0)
    else
      var e, rest := EndpointHeader(b), b[b[0]..];
      match SkipExtras(rest)
      case BadLength => IoError
      case Truncated(n) => Parsed(e, b[0] + n, n)
      case Stop(n) => Parsed(e.(extra := rest[..n]), b[0] + n, 0)
  }

  /** The endpoint loop of parse_interface: at most n endpoints, fewer if one is missing. */
  function ParseEndpoints(n: nat, b: Bytes): (r: Parsed<seq<Endpoint>>)
    ensures r.Parsed? ==> r.used <= |b| && r.dropped <= r.used && |r.value| <= n
    decreases n
  {
    if n == 0 then Parsed([], 0, 0)
    else
      match ParseEndpoint(b)
      case IoError => IoError
      case Parsed(e, used, dropped) =>
        if used == 0 then Parsed([], 0, 0)
        else
          match ParseEndpoints(n - 1, b[used..])
          case IoError => IoError
          case Parsed(es, used', dropped') => Parsed([e] + es, used + used', dropped + dropped')
  }

  // ---------------------------------------------------------------- interfaces

  function AltHeader(b: Bytes): AltSetting
    requires |b| >= INTERFACE_SIZE
  {
    AltSetting(b[0], b[2], b[3], b[4], b[5], b[6], b[7], b[8], [], [])
  }

  /** One alternate setting.  `stop` tells a setting after which the parser returns at once,
      because its class descriptors were truncated: such a setting has lost them, and its
      endpoints were not read although bNumEndpoints still announces them. */
  datatype AltResult = AltError | NoAlt | Alt(value: AltSetting, used: nat, dropped: nat, stop: bool)

  function ParseAlt(b: Bytes): (r: AltResult)
    requires |b| >= INTERFACE_SIZE
    ensures r.Alt? ==> INTERFACE_SIZE <= r.used <= |b| && r.dropped <= r.used
  {
    if b[1] != DT_INTERFACE then NoAlt
    else if b[0] < INTERFACE_SIZE then AltError
    else if b[0] > |b| then NoAlt
    else if b[4] > MAX_ENDPOINTS then AltError
    else
      var a, rest := AltHeader(b), b[b[0]..];
      match SkipExtras(rest)
      case BadLength => AltError
      case Truncated(n) => Alt(a, b[0] + n, n, true)
      case Stop(n) =>
        match ParseEndpoints(a.bNumEndpoints, rest[n..])
        case IoError => AltError
        case Parsed(es, used, dropped) =>
          Alt(a.(extra := rest[..n], endpoints := es, bNumEndpoints := |es|), b[0] + n + used, dropped, false)
  }

  /** Whether another alternate setting of the same interface follows. */
  predicate MoreAlts(b: Bytes, number: byte) {
    |b| >= INTERFACE_SIZE && b[1] == DT_INTERFACE && b[2] == number
  }

  /** parse_interface, with the number of the first setting once it is known (-1 before). */
  function ParseAlts(b: Bytes, number: int): (r: Parsed<Interface>)
    requires -1 <= number < 256
    ensures r.Parsed? ==> r.used <= |b| && r.dropped <= r.used
    decreases |b|
  {
    if |b| < INTERFACE_SIZE then Parsed([], 0, 0)
    else
      match ParseAlt(b)
      case AltError => IoError
      case NoAlt => Parsed([], 0, 0)
      case Alt(a, used, dropped, stop) =>
        var number' := if number == -1 then a.bInterfaceNumber else number;
        if stop || !MoreAlts(b[used..], number') then Parsed([a], used, dropped)
        else
          match ParseAlts(b[used..], number')
          case IoError => IoError
          case Parsed(alts, used', dropped') => Parsed([a] + alts, used + used', dropped + dropped')
  }

  function ParseInterface(b: Bytes): (r: Parsed<Interface>)
    ensures r.Parsed? ==> r.used <= |b| && r.dropped <= r.used
  {
    ParseAlts(b, -1)
  }

  // ---------------------------------------------------------------- configurations

  /** The body of a configuration: its own class descriptors and its interfaces. */
  datatype Body = Body(extra: Bytes, interfaces: seq<Interface>)

  /** The interface loop of parse_configuration, for at most n interfaces. */
  function ParseBody(n: nat, b: Bytes): (r: Parsed<Body>)
    ensures r.Parsed? ==> r.used <= |b| && r.dropped <= r.used && |r.value.interfaces| <= n
    decreases n
  {
    if n == 0 then Parsed(Body([], []), 0, 0)
    else
      match SkipExtras(b)
      case BadLength => IoError
      case Truncated(k) => Parsed(Body([], []), k, k)
      case Stop(k) =>
        match ParseInterface(b[k..])
        case IoError => IoError
        case Parsed(i, used, dropped) =>
          if used == 0 then Parsed(Body(b[..k], []), k, 0)
          else
            match ParseBody(n - 1, b[k + used..])
            case IoError => IoError
            case Parsed(body, used', dropped') =>
              Parsed(Body(b[..k] + body.extra, [i] + body.interfaces), k + used + used', dropped + dropped')
  }

  function ConfigHeader(b: Bytes): Config
    requires |b| >= CONFIG_SIZE
  {
    Config(b[0], Le16(b[2], b[3]), b[5], b[6], b[7], b[8], [], [])
  }

  /** parse_configuration.  The code returns the number of bytes left over, |b| - used. */
  function ParseConfig(b: Bytes): (r: Parsed<Config>)
    ensures r.Parsed? ==> r.used <= |b| && r.dropped <= r.used
  {
    if |b| < CONFIG_SIZE || b[1] != DT_CONFIG || b[0] < CONFIG_SIZE || b[0] > |b| || b[4] > MAX_INTERFACES then IoError
    else
      match ParseBody(b[4], b[b[0]..])
      case IoError => IoError
      case Parsed(body, used, dropped) =>
        Parsed(ConfigHeader(b).(extra := body.extra, interfaces := body.interfaces), b[0] + used, dropped)
  }
}
