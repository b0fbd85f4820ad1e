/** The descriptor parsers with the loops of descriptor.c.  `b` plays the part of the pair
    `buffer`/`size`: advancing the pointer and shrinking the size drops a prefix of it, so that
    every read of the code is a checked index.  Running out of memory is not modelled. */
module DescriptorParsers {
  import Spec = Descriptors
  import opened Descriptors

  const ERROR_IO := -1

  /** What a C parser returns for a result: the error code, or the bytes used and the value. */
  predicate Returns<T(==)>(p: Parsed<T>, r: int, value: T) {
    if p.IoError? then r == ERROR_IO else r == p.used && value == p.value
  }

  /** The loop over class and vendor descriptors that parse_endpoint, parse_interface and
      parse_configuration share. */
  method SkipClassDescriptors(buffer: Bytes) returns (s: Skip)
    ensures s == SkipExtras(buffer)
  {
    var b: Bytes, parsed: nat := buffer, 0;
    while |b| >= HEADER_LENGTH
      invariant SkipExtras(buffer) == Shift(parsed, SkipExtras(b))
      decreases |b|
    {
      if b[0] < HEADER_LENGTH { return BadLength; }
      if b[0] > |b| { return Truncated(parsed); }
      // another "proper" descriptor ends the run
      if Standard(b[1]) { return Stop(parsed); }
      parsed := parsed + b[0];
      b := b[b[0]..];
    }
    return Stop(parsed);
  }

  method ParseEndpoint(buffer: Bytes) returns (r: int, endpoint: Endpoint)
    ensures Returns(Spec.ParseEndpoint(buffer), r, endpoint)
  {
    hide SkipExtras;
    endpoint := NoEndpoint();
    if |buffer| < HEADER_LENGTH { return ERROR_IO, endpoint; }
    if buffer[1] != DT_ENDPOINT { return 0, endpoint; }
    if buffer[0] < ENDPOINT_SIZE { return ERROR_IO, endpoint; }
    if buffer[0] > |buffer| { return 0, endpoint; }
    endpoint := EndpointHeader(buffer);
    var b, parsed := buffer[buffer[0]..], buffer[0];
    var skip := SkipClassDescriptors(b);
    match skip
    case BadLength => return ERROR_IO, endpoint;
    case Truncated(n) => return parsed + n, endpoint;
    case Stop(n) =>
      if n > 0 { endpoint := endpoint.(extra := b[..n]); }
      return parsed + n, endpoint;
  }

  /** The endpoint loop of parse_interface. */
  method ParseEndpoints(n: nat, buffer: Bytes) returns (r: int, endpoints: seq<Endpoint>)
    ensures Returns(Spec.ParseEndpoints(n, buffer), r, endpoints)
  {
    hide SkipExtras, Spec.ParseEndpoint;
    var b: Bytes, parsed: nat, i := buffer, 0, 0;
    ghost var dropped: nat := 0;
    endpoints := [];
    OntoNothing(Spec.ParseEndpoints(n, buffer));
    while i < n
      invariant 0 <= i <= n
      invariant Spec.ParseEndpoints(n, buffer) == Onto(endpoints, parsed, dropped, Spec.ParseEndpoints(n - i, b))
    {
      var used, endpoint := ParseEndpoint(b);
      if used < 0 { return used, endpoints; }
      if used == 0 { break; }
      ghost var skipped := Spec.ParseEndpoint(b).dropped;
      OntoBoth(endpoints, parsed, dropped, [endpoint], used, skipped, Spec.ParseEndpoints(n - i - 1, b[used..]));
      dropped := dropped + skipped;
      endpoints := endpoints + [endpoint];
      b, parsed, i := b[used..], parsed + used, i + 1;
    }
    assert endpoints + [] == endpoints;
    r := parsed;
  }

  /** One round of the loop of parse_interface: a setting with its extra bytes and endpoints. */
  method ParseAlt(buffer: Bytes) returns (r: int, a: AltSetting, stop: bool)
    requires |buffer| >= INTERFACE_SIZE
    ensures match Spec.ParseAlt(buffer)
      case AltError => r == ERROR_IO
      case NoAlt => r == 0
      case Alt(value, used, _, stops) => r == used && a == value && stop == stops
  {
    hide SkipExtras, Spec.ParseEndpoints;
    a, stop := AltHeader(buffer), false;
    if buffer[1] != DT_INTERFACE { return 0, a, stop; }
    if a.bLength < INTERFACE_SIZE { return ERROR_IO, a, stop; }
    if a.bLength > |buffer| { return 0, a, stop; }
    if a.bNumEndpoints > MAX_ENDPOINTS { return ERROR_IO, a, stop; }
    var b, parsed := buffer[a.bLength..], a.bLength;
    var skip := SkipClassDescriptors(b);
    match skip
    case BadLength => return ERROR_IO, a, stop;
    case Truncated(n) => return parsed + n, a, true;
    case Stop(n) =>
      if n > 0 { a := a.(extra := b[..n]); }
      var used, endpoints := ParseEndpoints(a.bNumEndpoints, b[n..]);
      if used < 0 { return ERROR_IO, a, stop; }
      if |endpoints| < a.bNumEndpoints { a := a.(bNumEndpoints := |endpoints|); }
      return parsed + n + used, a.(endpoints := endpoints), stop;
  }

  method ParseInterface(buffer: Bytes) returns (r: int, altsettings: Interface)
    ensures Returns(Spec.ParseInterface(buffer), r, altsettings)
  {
    hide Spec.ParseAlt, SkipExtras;
    var b: Bytes, parsed: nat, number: int := buffer, 0, -1;
    ghost var dropped: nat := 0;
    altsettings := [];
    OntoNothing(ParseAlts(buffer, -1));
    while |b| >= INTERFACE_SIZE
      invariant -1 <= number < 256
      invariant Spec.ParseInterface(buffer) == Onto(altsettings, parsed, dropped, ParseAlts(b, number))
      decreases |b|
    {
      var used, a, stop := ParseAlt(b);
      if used < 0 { return ERROR_IO, altsettings; }
      if used == 0 {
        assert altsettings + [] == altsettings;
        return parsed, altsettings;
      }
      if number == -1 { number := a.bInterfaceNumber; }
      ghost var skipped := Spec.ParseAlt(b).dropped;
      OntoBoth(altsettings, parsed, dropped, [a], used, skipped, ParseAlts(b[used..], number));
      altsettings, dropped := altsettings + [a], dropped + skipped;
      b, parsed := b[used..], parsed + used;
      // check whether an alternate to this one follows
      if stop || |b| < INTERFACE_SIZE || b[1] != DT_INTERFACE || b[2] != number {
        return parsed, altsettings;
      }
    }
    assert altsettings + [] == altsettings;
    r := parsed;
  }

  /** parse_configuration returns the number of bytes that are left over. */
  method ParseConfiguration(buffer: Bytes) returns (r: int, config: Config)
    ensures var p := ParseConfig(buffer);
      if p.IoError? then r == ERROR_IO else r == |buffer| - p.used && config == p.value
  {
    hide Spec.ParseInterface, SkipExtras, ParseBody;
    config := Config(0, 0, 0, 0, 0, 0, [], []);
    if |buffer| < CONFIG_SIZE { return ERROR_IO, config; }
    if buffer[1] != DT_CONFIG { return ERROR_IO, config; }
    if buffer[0] < CONFIG_SIZE { return ERROR_IO, config; }
    if buffer[0] > |buffer| { return ERROR_IO, config; }
    if buffer[4] > MAX_INTERFACES { return ERROR_IO, config; }
    var body: Body;
    r, body := ParseInterfaces(buffer[4], buffer[buffer[0]..]);
    config := ConfigHeader(buffer).(extra := body.extra, interfaces := body.interfaces);
  }

  /** ParseBody, one round unfolded onto what came before. */
  lemma BodyRound(front: Body, used: nat, dropped: nat, n: nat, b: Bytes, k: nat, i: Parsed<Interface>)
    requires n > 0 && k <= |b| && SkipExtras(b) == Stop(k) && Spec.ParseInterface(b[k..]) == i
    ensures i.IoError? ==> ParseBody(n, b).IoError?
    ensures i.Parsed? && i.used == 0 ==>
      Below(front, used, dropped, ParseBody(n, b))
        == Parsed(Body(front.extra + b[..k], front.interfaces), used + k, dropped)
    ensures i.Parsed? && i.used != 0 ==>
      Below(front, used, dropped, ParseBody(n, b))
        == Below(Body(front.extra + b[..k], front.interfaces + [i.value]),
                 used + k + i.used, dropped + i.dropped, ParseBody(n - 1, b[k + i.used..]))
  {
    hide Spec.ParseInterface, SkipExtras;
    if i.Parsed? && i.used != 0 {
      BelowBoth(front, used, dropped, Body(b[..k], [i.value]), k + i.used, i.dropped,
                ParseBody(n - 1, b[k + i.used..]));
    } else {
      assert front.interfaces + [] == front.interfaces;
    }
  }

  lemma BodyEnds(front: Body, used: nat, dropped: nat, n: nat, b: Bytes)
    ensures n == 0 ==> Below(front, used, dropped, ParseBody(n, b)) == Parsed(front, used, dropped)
    ensures n > 0 && SkipExtras(b).BadLength? ==> ParseBody(n, b).IoError?
    ensures n > 0 && SkipExtras(b).Truncated? ==>
      var k := SkipExtras(b).n; Below(front, used, dropped, ParseBody(n, b)) == Parsed(front, used + k, dropped + k)
  {
    hide Spec.ParseInterface, SkipExtras;
    assert front.extra + [] == front.extra && front.interfaces + [] == front.interfaces;
  }

  /** The interface loop of parse_configuration, which also returns the bytes that are left. */
  method ParseInterfaces(n: nat, buffer: Bytes) returns (r: int, body: Body)
    ensures var p := ParseBody(n, buffer);
      if p.IoError? then r == ERROR_IO else r == |buffer| - p.used && body == p.value
  {
    hide Spec.ParseInterface, SkipExtras, ParseBody;
    var b: Bytes, i := buffer, 0;
    ghost var dropped: nat := 0;
    body := Body([], []);
    BelowNothing(ParseBody(n, buffer));
    while i < n
      invariant 0 <= i <= n && |b| <= |buffer|
      invariant ParseBody(n, buffer) == Below(body, |buffer| - |b|, dropped, ParseBody(n - i, b))
    {
      BodyEnds(body, |buffer| - |b|, dropped, n - i, b);
      var skip := SkipClassDescriptors(b);
      match skip
      case BadLength => return ERROR_IO, body;
      case Truncated(k) => return |b| - k, body;
      case Stop(k) =>
        ghost var interface := Spec.ParseInterface(b[k..]);
        BodyRound(body, |buffer| - |b|, dropped, n - i, b, k, interface);
        var extra := b[..k];
        if k == 0 { assert body.extra + extra == body.extra; }
        if k > 0 { body := body.(extra := body.extra + extra); }
        var used, altsettings := ParseInterface(b[k..]);
        if used < 0 { return ERROR_IO, body; }
        if used == 0 { return |b| - k, body; }
        dropped := dropped + interface.dropped;
        body := body.(interfaces := body.interfaces + [altsettings]);
        b, i := b[k + used..], i + 1;
    }
    BodyEnds(body, |buffer| - |b|, dropped, n - i, b);
    r := |b|;
  }
}
