/** What the descriptor parsers guarantee: no byte of the buffer goes unaccounted for, and a
    printed configuration parses back to itself. */
module DescriptorRoundTrip {
  import opened Descriptors

  // ---------------------------------------------------------------- accounting

  function EndpointSize(e: Endpoint): nat {
    e.bLength + |e.extra|
  }

  function EndpointsSize(es: seq<Endpoint>): nat {
    if es == [] then 0 else EndpointSize(es[0]) + EndpointsSize(es[1..])
  }

  function AltSize(a: AltSetting): nat {
    a.bLength + |a.extra| + EndpointsSize(a.endpoints)
  }

  function InterfaceSize(i: Interface): nat {
    if i == [] then 0 else AltSize(i[0]) + InterfaceSize(i[1..])
  }

  function InterfacesSize(ifs: seq<Interface>): nat {
    if ifs == [] then 0 else InterfaceSize(ifs[0]) + InterfacesSize(ifs[1..])
  }

  function ConfigSize(c: Config): nat {
    c.bLength + |c.extra| + InterfacesSize(c.interfaces)
  }

  lemma EndpointAccounts(b: Bytes)
    requires ParseEndpoint(b).Parsed? && ParseEndpoint(b).used != 0
    ensures var r := ParseEndpoint(b); r.used == EndpointSize(r.value) + r.dropped
  {
    hide SkipExtras;
  }

  lemma {:induction false} EndpointsAccount(n: nat, b: Bytes)
    requires ParseEndpoints(n, b).Parsed?
    ensures var r := ParseEndpoints(n, b); r.used == EndpointsSize(r.value) + r.dropped
  {
    hide ParseEndpoint, SkipExtras;
    if n > 0 {
      var r := ParseEndpoint(b);
      if r.used != 0 {
        EndpointAccounts(b);
        EndpointsAccount(n - 1, b[r.used..]);
        var rest := ParseEndpoints(n - 1, b[r.used..]).value;
        assert ([r.value] + rest)[1..] == rest;
      }
    }
  }

  lemma AltAccounts(b: Bytes)
    requires |b| >= INTERFACE_SIZE && ParseAlt(b).Alt?
    ensures var r := ParseAlt(b); r.used == AltSize(r.value) + r.dropped
  {
    hide ParseEndpoints, SkipExtras;
    var rest := b[b[0]..];
    match SkipExtras(rest)
    case Truncated(n) =>
    case Stop(n) => EndpointsAccount(b[4], rest[n..]);
  }

  lemma {:induction false} InterfaceAccounts(b: Bytes, number: int)
    requires -1 <= number < 256 && ParseAlts(b, number).Parsed?
    ensures var r := ParseAlts(b, number); r.used == InterfaceSize(r.value) + r.dropped
    decreases |b|
  {
    hide ParseAlt, SkipExtras, MoreAlts;
    if |b| >= INTERFACE_SIZE && ParseAlt(b).Alt? {
      AltAccounts(b);
      var r := ParseAlt(b);
      var number' := if number == -1 then r.value.bInterfaceNumber else number;
      if !r.stop && MoreAlts(b[r.used..], number') {
        InterfaceAccounts(b[r.used..], number');
        var rest := ParseAlts(b[r.used..], number').value;
        assert ([r.value] + rest)[1..] == rest;
      }
    }
  }

  lemma WholeInterfaceAccounts(b: Bytes)
    requires ParseInterface(b).Parsed?
    ensures var r := ParseInterface(b); r.used == InterfaceSize(r.value) + r.dropped
  {
    InterfaceAccounts(b, -1);
  }

  lemma ConsInterface(i: Interface, ifs: seq<Interface>)
    ensures InterfacesSize([i] + ifs) == InterfaceSize(i) + InterfacesSize(ifs)
  {
    assert ([i] + ifs)[1..] == ifs;
  }

  /** ParseBody, one round unfolded. */
  lemma BodyRound(n: nat, b: Bytes, k: nat, i: Parsed<Interface>)
    requires n > 0 && k <= |b| && i.Parsed? && i.used != 0 && k + i.used <= |b|
    ensures SkipExtras(b) == Stop(k) && ParseInterface(b[k..]) == i ==>
      var rest := ParseBody(n - 1, b[k + i.used..]);
      ParseBody(n, b) ==
        if rest.IoError? then IoError
        else Parsed(Body(b[..k] + rest.value.extra, [i.value] + rest.value.interfaces),
                    k + i.used + rest.used, i.dropped + rest.dropped)
  {
    hide ParseInterface, SkipExtras;
  }

  lemma {:induction false} BodyAccounts(n: nat, b: Bytes)
    ensures var r := ParseBody(n, b);
      r.Parsed? ==> r.used == |r.value.extra| + InterfacesSize(r.value.interfaces) + r.dropped
  {
    hide ParseInterface, ParseAlts, SkipExtras;
    if n > 0 && SkipExtras(b).Stop? && ParseBody(n, b).Parsed? {
      var k := SkipExtras(b).n;
      var i := ParseInterface(b[k..]);
      if i.Parsed? && i.used != 0 {
        BodyRound(n, b, k, i);
        WholeInterfaceAccounts(b[k..]);
        BodyAccounts(n - 1, b[k + i.used..]);
        ConsInterface(i.value, ParseBody(n - 1, b[k + i.used..]).value.interfaces);
      }
    }
  }

  /** On every buffer that parses, each byte is either left over, or part of the tree (counting
      every descriptor by its own bLength), or was skipped in front of a truncated class
      descriptor. */
  lemma ConfigAccounts(b: Bytes)
    ensures
      var r := ParseConfig(b);
      r.Parsed? ==>
        var leftOver := |b| - r.used;
        leftOver >= 0 && |b| == leftOver + ConfigSize(r.value) + r.dropped
  {
    hide ParseBody, InterfacesSize;
    if ParseConfig(b).Parsed? { BodyAccounts(b[4], b[b[0]..]); }
  }

  /** The parser stops after a setting exactly if its class descriptors were truncated.  Such a
      setting has no extra bytes and no endpoints, although it still announces them: announced
      and present endpoints agree otherwise, or if none were announced. */
  lemma AltInStep(b: Bytes)
    requires |b| >= INTERFACE_SIZE && ParseAlt(b).Alt?
    ensures var r := ParseAlt(b);
      && (r.stop <==> SkipExtras(b[b[0]..]).Truncated?)
      && (r.stop ==> r.value.endpoints == [] && r.value.extra == [] && r.value.bNumEndpoints == b[4])
      && (|r.value.endpoints| == r.value.bNumEndpoints <==> !r.stop || b[4] == 0)
  {
  }

  predicate InStep(a: AltSetting) {
    a.bNumEndpoints == |a.endpoints|
  }

  /** A setting announces endpoints that are not there only if its class descriptors were
      truncated; it has then lost them as well, and it is the last one of its interface. */
  lemma {:induction false} OnlyTheLastAltIsOutOfStep(b: Bytes, number: int)
    requires -1 <= number < 256 && ParseAlts(b, number).Parsed?
    ensures EndsOutOfStep(ParseAlts(b, number).value)
    decreases |b|
  {
    if |b| >= INTERFACE_SIZE && ParseAlt(b).Alt? {
      AltInStep(b);
      var r := ParseAlt(b);
      var number' := if number == -1 then r.value.bInterfaceNumber else number;
      if !r.stop && MoreAlts(b[r.used..], number') {
        OnlyTheLastAltIsOutOfStep(b[r.used..], number');
        ConsInStep(r.value, ParseAlts(b[r.used..], number').value);
      }
    }
  }

  predicate EndsOutOfStep(i: Interface) {
    forall k | 0 <= k < |i| :: InStep(i[k]) || (k == |i| - 1 && i[k].endpoints == [] && i[k].extra == [])
  }

  lemma ConsInStep(a: AltSetting, i: Interface)
    requires InStep(a) && EndsOutOfStep(i)
    ensures EndsOutOfStep([a] + i)
  {
  }

  // ---------------------------------------------------------------- printing

  // Tables 9-5, 9-10, 9-12 and 9-13 of the USB 2.0 specification: types and sizes are written out.
  // A descriptor may be longer than the fields that are known; the rest of it is printed as zeros.

  function Zeros(n: nat): Bytes {
    seq(n, _ => 0)
  }

  ghost predicate WellFormedEndpoint(e: Endpoint) {
    && e.bLength >= 7 && (e.bLength < 9 ==> e.bRefresh == 0 && e.bSynchAddress == 0)
    && 0 <= e.wMaxPacketSize < 65536 && Extras(e.extra)
  }

  function PrintEndpointHeader(e: Endpoint): Bytes
    requires e.bLength >= 7 && 0 <= e.wMaxPacketSize < 65536
  {
    [e.bLength, 0x05, e.bEndpointAddress, e.bmAttributes,
     e.wMaxPacketSize % 256, e.wMaxPacketSize / 256, e.bInterval]
    + if e.bLength >= 9 then [e.bRefresh, e.bSynchAddress] + Zeros(e.bLength - 9) else Zeros(e.bLength - 7)
  }

  ghost function PrintEndpoint(e: Endpoint): Bytes
    requires WellFormedEndpoint(e)
  {
    PrintEndpointHeader(e) + e.extra
  }

  ghost function PrintEndpoints(es: seq<Endpoint>): Bytes
    requires forall k | 0 <= k < |es| :: WellFormedEndpoint(es[k])
  {
    if es == [] then [] else PrintEndpoint(es[0]) + PrintEndpoints(es[1..])
  }

  ghost predicate WellFormedAlt(a: AltSetting) {
    && a.bLength >= 9 && InStep(a) && |a.endpoints| <= 32 && Extras(a.extra)
    && forall k | 0 <= k < |a.endpoints| :: WellFormedEndpoint(a.endpoints[k])
  }

  /** The header of a setting that announces n endpoints. */
  function PrintAltHeader(a: AltSetting, n: byte): Bytes
    requires a.bLength >= 9
  {
    [a.bLength, 0x04, a.bInterfaceNumber, a.bAlternateSetting, n,
     a.bInterfaceClass, a.bInterfaceSubClass, a.bInterfaceProtocol, a.iInterface] + Zeros(a.bLength - 9)
  }

  ghost function PrintAlt(a: AltSetting, n: byte): Bytes
    requires WellFormedAlt(a)
  {
    PrintAltHeader(a, n) + a.extra + PrintEndpoints(a.endpoints)
  }

  ghost predicate AllWellFormed(i: Interface) {
    forall k | 0 <= k < |i| :: WellFormedAlt(i[k])
  }

  ghost function PrintInterface(i: Interface): Bytes
    requires AllWellFormed(i)
  {
    if i == [] then [] else PrintAlt(i[0], i[0].bNumEndpoints) + PrintInterface(i[1..])
  }

  /** All settings of an interface share its number. */
  ghost predicate WellFormedInterface(i: Interface) {
    i != [] && AllWellFormed(i) && forall k | 0 <= k < |i| :: i[k].bInterfaceNumber == i[0].bInterfaceNumber
  }

  ghost function PrintInterfaces(ifs: seq<Interface>): Bytes
    requires forall k | 0 <= k < |ifs| :: WellFormedInterface(ifs[k])
  {
    if ifs == [] then [] else assert WellFormedInterface(ifs[0]); PrintInterface(ifs[0]) + PrintInterfaces(ifs[1..])
  }

  /** Neighbouring interfaces have different numbers, or they would be one interface. */
  ghost predicate Separate(ifs: seq<Interface>) {
    && (forall k | 0 <= k < |ifs| :: WellFormedInterface(ifs[k]))
    && forall k | 0 < k < |ifs| :: ifs[k - 1][0].bInterfaceNumber != ifs[k][0].bInterfaceNumber
  }

  ghost predicate WellFormed(c: Config) {
    && c.bLength >= 9 && 0 <= c.wTotalLength < 65536 && |c.interfaces| <= 32
    && Extras(c.extra) && (c.interfaces == [] ==> c.extra == [])
    && Separate(c.interfaces)
  }

  /** The header of a configuration that announces n interfaces. */
  function PrintConfigHeader(c: Config, n: byte): Bytes
    requires 0 <= c.wTotalLength < 65536 && c.bLength >= 9
  {
    [c.bLength, 0x02, c.wTotalLength % 256, c.wTotalLength / 256, n,
     c.bConfigurationValue, c.iConfiguration, c.bmAttributes, c.MaxPower] + Zeros(c.bLength - 9)
  }

  ghost function PrintConfig(c: Config, n: byte): Bytes
    requires WellFormed(c)
  {
    PrintConfigHeader(c, n) + c.extra + PrintInterfaces(c.interfaces)
  }

  // ---------------------------------------------------------------- endpoints

  lemma HeaderIsBoundary(b: Bytes)
    requires |b| >= 2 && 2 <= b[0] <= |b| && (b[1] == 2 || b[1] == 4 || b[1] == 5)
    ensures Boundary(b)
  {
  }

  lemma Associates(a: Bytes, b: Bytes, c: Bytes)
    ensures (a + b) + c == a + (b + c)
  {
  }

  /** What a parser makes of an endpoint from what follows it. */
  function EndpointBehind(e: Endpoint, s: Skip, rest: Bytes): Parsed<Endpoint>
    requires s.Stop? ==> s.n <= |rest|
  {
    match s
    case BadLength => IoError
    case Truncated(k) => Parsed(e, e.bLength + k, k)
    case Stop(k) => Parsed(e.(extra := rest[..k]), e.bLength + k, 0)
  }

  /** The known part of an endpoint of any length, in front of anything. */
  lemma EndpointFromHeader(e: Endpoint, rest: Bytes)
    requires e.bLength >= 7 && 0 <= e.wMaxPacketSize < 65536 && e.extra == []
    requires e.bLength < 9 ==> e.bRefresh == 0 && e.bSynchAddress == 0
    ensures Boundary(PrintEndpointHeader(e) + rest)
    ensures ParseEndpoint(PrintEndpointHeader(e) + rest) == EndpointBehind(e, SkipExtras(rest), rest)
  {
    hide SkipExtras;
    var head := PrintEndpointHeader(e);
    var b := head + rest;
    assert |head| == e.bLength && b[e.bLength..] == rest;
    assert EndpointHeader(b) == e;
    HeaderIsBoundary(b);
  }

  lemma EndpointRoundTrip(e: Endpoint, rest: Bytes)
    requires WellFormedEndpoint(e) && Boundary(rest)
    ensures PrintEndpoint(e) != [] && ParseEndpoint(PrintEndpoint(e) + rest) == Parsed(e, |PrintEndpoint(e)|, 0)
    ensures Boundary(PrintEndpoint(e) + rest)
  {
    hide SkipExtras, ParseEndpoint, Extras, Boundary;
    Associates(PrintEndpointHeader(e), e.extra, rest);
    EndpointFromHeader(e.(extra := []), e.extra + rest);
    SkipPrinted(e.extra, rest);
    assert (e.extra + rest)[..|e.extra|] == e.extra;
  }

  /** A descriptor without a valid length behind an endpoint is an error; one that is cut off costs the
      endpoint all its extra bytes. */
  lemma EndpointWithBadExtras(e: Endpoint, ds: seq<Bytes>, rest: Bytes)
    requires WellFormedEndpoint(e) && e.extra == [] && Blocks(ds) && |rest| >= 2 && (rest[0] < 2 || rest[0] > |rest|)
    ensures ParseEndpoint(PrintEndpoint(e) + (Flatten(ds) + rest)) ==
      if rest[0] < 2 then IoError else Parsed(e, e.bLength + |Flatten(ds)|, |Flatten(ds)|)
  {
    hide SkipExtras, ParseEndpoint, Extras;
    assert PrintEndpoint(e) == PrintEndpointHeader(e);
    EndpointFromHeader(e, Flatten(ds) + rest);
    BlocksAreSkipped(ds, rest);
  }

  /** Where there is no endpoint: an error, or nothing used. */
  lemma NoEndpointHere(b: Bytes)
    ensures |b| < 2 ==> ParseEndpoint(b).IoError?
    ensures |b| >= 2 && b[1] != 5 ==> ParseEndpoint(b).Parsed? && ParseEndpoint(b).used == 0
    ensures |b| >= 2 && b[1] == 5 && b[0] < 7 ==> ParseEndpoint(b).IoError?
    ensures |b| >= 2 && b[1] == 5 && 7 <= b[0] && b[0] > |b| ==> ParseEndpoint(b).Parsed? && ParseEndpoint(b).used == 0
  {
    hide SkipExtras;
  }

  lemma ConsEndpoint(n: nat, head: Bytes, tail: Bytes, e: Endpoint)
    requires head != [] && ParseEndpoint(head + tail) == Parsed(e, |head|, 0)
    ensures ParseEndpoints(n + 1, head + tail) == Onto([e], |head|, 0, ParseEndpoints(n, tail))
  {
    hide ParseEndpoint, SkipExtras;
    assert (head + tail)[|head|..] == tail;
  }

  /** Endpoints in front of others are read first, and what the parser makes of the rest, be it an
      error, does not depend on them. */
  lemma {:induction false} EndpointsInFront(es: seq<Endpoint>, m: nat, rest: Bytes)
    requires forall k | 0 <= k < |es| :: WellFormedEndpoint(es[k])
    requires Boundary(rest)
    ensures ParseEndpoints(|es| + m, PrintEndpoints(es) + rest)
      == Onto(es, |PrintEndpoints(es)|, 0, ParseEndpoints(m, rest))
    ensures Boundary(PrintEndpoints(es) + rest)
  {
    hide ParseEndpoint, PrintEndpoint, SkipExtras, ParseEndpoints, Onto, Boundary, WellFormedEndpoint;
    if es == [] {
      OntoNothing(ParseEndpoints(m, rest));
      assert PrintEndpoints(es) + rest == rest;
    } else {
      var head, tail := PrintEndpoint(es[0]), PrintEndpoints(es[1..]) + rest;
      EndpointsInFront(es[1..], m, rest);
      EndpointRoundTrip(es[0], tail);
      Associates(head, PrintEndpoints(es[1..]), rest);
      ConsEndpoint(|es| - 1 + m, head, tail, es[0]);
      OntoBoth([es[0]], |head|, 0, es[1..], |PrintEndpoints(es[1..])|, 0, ParseEndpoints(m, rest));
      assert es == [es[0]] + es[1..];
    }
  }

  /** The first endpoint that is missing ends the list, and the first that is in error is an error. */
  lemma EndpointsEnd(m: nat, rest: Bytes)
    ensures ParseEndpoints(0, rest) == Parsed([], 0, 0)
    ensures m > 0 && ParseEndpoint(rest).IoError? ==> ParseEndpoints(m, rest).IoError?
    ensures m > 0 && ParseEndpoint(rest).Parsed? && ParseEndpoint(rest).used == 0 ==>
      ParseEndpoints(m, rest) == Parsed([], 0, 0)
  {
  }

  // ---------------------------------------------------------------- alternate settings

  /** Another setting of that interface follows. */
  predicate Continues(b: Bytes, number: byte) {
    |b| >= 9 && b[1] == 4 && b[2] == number
  }

  /** What a parser makes of a header with n announced endpoints from what follows it. */
  function AltBehind(a: AltSetting, n: nat, s: Skip, rest: Bytes): AltResult
    requires a.endpoints == [] && n <= 32 && (s.Stop? ==> s.n <= |rest|)
  {
    match s
    case BadLength => AltError
    case Truncated(k) => Alt(a, a.bLength + k, k, true)
    case Stop(k) => WithEndpoints(a.(extra := rest[..k]), a.bLength + k, ParseEndpoints(n, rest[k..]))
  }

  /** A setting with the endpoints that were read behind `used` bytes. */
  function WithEndpoints(a: AltSetting, used: nat, p: Parsed<seq<Endpoint>>): AltResult
    requires p.Parsed? ==> |a.endpoints| + |p.value| <= 32
  {
    match p
    case IoError => AltError
    case Parsed(es, u, d) =>
      Alt(a.(endpoints := a.endpoints + es, bNumEndpoints := |a.endpoints| + |es|), used + u, d, false)
  }

  lemma AltFromHeader(a: AltSetting, n: byte, rest: Bytes)
    requires a.bLength >= 9 && a.bNumEndpoints == n && a.extra == [] && a.endpoints == []
    ensures Boundary(PrintAltHeader(a, n) + rest) && Continues(PrintAltHeader(a, n) + rest, a.bInterfaceNumber)
    ensures ParseAlt(PrintAltHeader(a, n) + rest) ==
      if n > 32 then AltError else AltBehind(a, n, SkipExtras(rest), rest)
  {
    hide ParseEndpoints, SkipExtras;
    var head := PrintAltHeader(a, n);
    var b := head + rest;
    assert |head| == a.bLength && b[a.bLength..] == rest;
    assert AltHeader(b) == a;
    HeaderIsBoundary(b);
  }

  /** A setting that announces n endpoints and has some well-formed ones: the parser goes on to look
      for the others, and corrects the number if there are none. */
  lemma AltAnnouncing(a: AltSetting, n: byte, rest: Bytes)
    requires WellFormedAlt(a) && |a.endpoints| <= n <= 32 && Boundary(rest)
    ensures ParseAlt(PrintAlt(a, n) + rest) ==
      WithEndpoints(a, |PrintAlt(a, n)|, ParseEndpoints(n - |a.endpoints|, rest))
    ensures Continues(PrintAlt(a, n) + rest, a.bInterfaceNumber) && Boundary(PrintAlt(a, n) + rest)
  {
    hide ParseAlt, ParseEndpoints, SkipExtras, PrintEndpoints, Boundary, Extras;
    var tail := PrintEndpoints(a.endpoints) + rest;
    EndpointsInFront(a.endpoints, n - |a.endpoints|, rest);
    SkipPrinted(a.extra, tail);
    AltFromHeader(a.(extra := [], endpoints := [], bNumEndpoints := n), n, a.extra + tail);
    assert PrintAlt(a, n) + rest == PrintAltHeader(a, n) + (a.extra + tail);
    assert (a.extra + tail)[..|a.extra|] == a.extra && (a.extra + tail)[|a.extra|..] == tail;
    assert PrintAltHeader(a, n) == PrintAltHeader(a.(extra := [], endpoints := [], bNumEndpoints := n), n);
  }

  /** In front of a descriptor of another type, and only there, announcing too many does no harm. */
  lemma AltAnnouncingTooMany(a: AltSetting, n: byte, rest: Bytes)
    requires WellFormedAlt(a) && |a.endpoints| < n <= 32 && Boundary(rest)
    requires |rest| < 2 || rest[1] != 5
    ensures ParseAlt(PrintAlt(a, n) + rest) ==
      if |rest| < 2 then AltError else Alt(a, |PrintAlt(a, n)|, 0, false)
  {
    hide ParseAlt, ParseEndpoints, ParseEndpoint, SkipExtras, PrintAlt, Boundary, Extras;
    AltAnnouncing(a, n, rest);
    EndpointsEnd(n - |a.endpoints|, rest);
    NoEndpointHere(rest);
    assert a.endpoints + [] == a.endpoints;
  }

  lemma AltRoundTrip(a: AltSetting, rest: Bytes)
    requires WellFormedAlt(a) && Boundary(rest)
    ensures var b := PrintAlt(a, a.bNumEndpoints) + rest;
      && ParseAlt(b) == Alt(a, |PrintAlt(a, a.bNumEndpoints)|, 0, false)
      && Continues(b, a.bInterfaceNumber) && Boundary(b)
  {
    hide ParseAlt, ParseEndpoints, SkipExtras, PrintAlt, Boundary, Extras;
    AltAnnouncing(a, a.bNumEndpoints, rest);
    EndpointsEnd(0, rest);
    assert a.endpoints + [] == a.endpoints;
  }

  /** The same two ways for class descriptors to go wrong; here a cut off one costs the endpoints too,
      although they stay announced. */
  lemma AltWithBadExtras(a: AltSetting, n: byte, ds: seq<Bytes>, rest: Bytes)
    requires a.bLength >= 9 && a.bNumEndpoints == n <= 32 && a.extra == [] && a.endpoints == []
    requires Blocks(ds) && |rest| >= 2 && (rest[0] < 2 || rest[0] > |rest|)
    ensures ParseAlt(PrintAltHeader(a, n) + (Flatten(ds) + rest)) ==
      if rest[0] < 2 then AltError else Alt(a, a.bLength + |Flatten(ds)|, |Flatten(ds)|, true)
  {
    hide SkipExtras, ParseAlt, ParseEndpoints;
    AltFromHeader(a, n, Flatten(ds) + rest);
    BlocksAreSkipped(ds, rest);
  }

  /** Where there is no setting: the interface ends, or is in error. */
  lemma NoAltHere(b: Bytes, number: int)
    requires -1 <= number < 256
    ensures |b| < 9 || b[1] != 4 || (9 <= b[0] && b[0] > |b|) ==> ParseAlts(b, number) == Parsed([], 0, 0)
    ensures |b| >= 9 && b[1] == 4 && (b[0] < 9 || (b[0] <= |b| && b[4] > 32)) ==> ParseAlts(b, number).IoError?
    ensures |b| >= 9 && ParseAlt(b).AltError? ==> ParseAlts(b, number).IoError?
  {
    hide SkipExtras, ParseEndpoints;
  }

  lemma ConsAlt(head: Bytes, tail: Bytes, a: AltSetting, number: int)
    requires number == -1 || number == a.bInterfaceNumber
    requires |head + tail| >= 9 && ParseAlt(head + tail) == Alt(a, |head|, 0, false)
    ensures ParseAlts(head + tail, number) ==
      if Continues(tail, a.bInterfaceNumber) then Onto([a], |head|, 0, ParseAlts(tail, a.bInterfaceNumber))
      else Parsed([a], |head|, 0)
  {
    hide ParseAlt, SkipExtras;
    assert (head + tail)[|head|..] == tail;
  }

  /** The settings of an interface in front of anything. */
  lemma {:induction false} InterfaceInFront(i: Interface, rest: Bytes, number: int)
    requires WellFormedInterface(i) && Boundary(rest)
    requires number == -1 || number == i[0].bInterfaceNumber
    ensures ParseAlts(PrintInterface(i) + rest, number) ==
      if Continues(rest, i[0].bInterfaceNumber)
      then Onto(i, |PrintInterface(i)|, 0, ParseAlts(rest, i[0].bInterfaceNumber))
      else Parsed(i, |PrintInterface(i)|, 0)
    ensures PrintInterface(i) != []
    ensures Continues(PrintInterface(i) + rest, i[0].bInterfaceNumber) && Boundary(PrintInterface(i) + rest)
  {
    hide ParseAlt, ParseAlts, SkipExtras, PrintAlt, Boundary, WellFormedAlt, Onto;
    var head, tail := PrintAlt(i[0], i[0].bNumEndpoints), PrintInterface(i[1..]) + rest;
    Associates(head, PrintInterface(i[1..]), rest);
    assert i == [i[0]] + i[1..];
    assert |PrintInterface(i)| == |head| + |PrintInterface(i[1..])|;
    var n := i[0].bInterfaceNumber;
    if |i| == 1 {
      assert tail == rest && [i[0]] == i;
    } else {
      assert WellFormedInterface(i[1..]) && i[1..][0].bInterfaceNumber == n;
      InterfaceInFront(i[1..], rest, n);
      OntoBoth([i[0]], |head|, 0, i[1..], |PrintInterface(i[1..])|, 0, ParseAlts(rest, n));
      OntoOnly([i[0]], |head|, 0, i[1..], |PrintInterface(i[1..])|);
    }
    AltRoundTrip(i[0], tail);
    ConsAlt(head, tail, i[0], number);
    AltIsNotEmpty(i[0], i[0].bNumEndpoints);
  }

  lemma OntoOnly<T>(a: seq<T>, used: nat, dropped: nat, b: seq<T>, u: nat)
    ensures Onto(a, used, dropped, Parsed(b, u, 0)) == Parsed(a + b, used + u, dropped)
  {
  }

  lemma AltIsNotEmpty(a: AltSetting, n: byte)
    requires WellFormedAlt(a)
    ensures |PrintAlt(a, n)| >= 9
  {
    hide WellFormedEndpoint, Extras;
  }

  /** The settings of one interface come back together, up to what does not belong to it. */
  lemma InterfaceRoundTrip(i: Interface, rest: Bytes)
    requires WellFormedInterface(i) && Boundary(rest) && !Continues(rest, i[0].bInterfaceNumber)
    ensures ParseInterface(PrintInterface(i) + rest) == Parsed(i, |PrintInterface(i)|, 0)
  {
    InterfaceInFront(i, rest, -1);
  }

  // ---------------------------------------------------------------- configurations

  /** What may follow a printed list of interfaces without being taken for part of it. */
  predicate Follows(rest: Bytes, ifs: seq<Interface>)
    requires forall k | 0 <= k < |ifs| :: ifs[k] != []
  {
    Boundary(rest) && (ifs != [] ==> !Continues(rest, ifs[|ifs| - 1][0].bInterfaceNumber))
  }

  lemma ConsBody(m: nat, extra: Bytes, head: Bytes, tail: Bytes, i: Interface)
    requires head != []
    ensures
      SkipExtras(extra + (head + tail)) == Stop(|extra|) && ParseInterface(head + tail) == Parsed(i, |head|, 0) ==>
        ParseBody(m + 1, extra + (head + tail)) == Below(Body(extra, [i]), |extra| + |head|, 0, ParseBody(m, tail))
  {
    hide ParseInterface, SkipExtras, ParseBody;
    var b := extra + (head + tail);
    assert b[..|extra|] == extra && b[|extra|..] == head + tail && b[|extra| + |head|..] == tail;
    BodyRound(m + 1, b, |extra|, Parsed(i, |head|, 0));
  }

  lemma SeparateTail(ifs: seq<Interface>, rest: Bytes)
    requires ifs != [] && Separate(ifs) && Follows(rest, ifs)
    ensures Separate(ifs[1..]) && Follows(rest, ifs[1..])
  {
    hide WellFormedInterface;
    assert forall k | 0 <= k < |ifs| :: WellFormedInterface(ifs[k]);
    forall k | 0 <= k < |ifs[1..]|
      ensures WellFormedInterface(ifs[1..][k])
    {
      assert ifs[1..][k] == ifs[k + 1];
    }
  }

  /** The interfaces of a configuration in front of anything. */
  lemma {:induction false} InterfacesInFront(ifs: seq<Interface>, extra: Bytes, m: nat, rest: Bytes)
    requires ifs != [] && Separate(ifs) && Follows(rest, ifs) && Extras(extra)
    ensures ParseBody(|ifs| + m, extra + (PrintInterfaces(ifs) + rest))
      == Below(Body(extra, ifs), |extra| + |PrintInterfaces(ifs)|, 0, ParseBody(m, rest))
    ensures Boundary(PrintInterfaces(ifs) + rest)
    ensures Continues(PrintInterfaces(ifs) + rest, ifs[0][0].bInterfaceNumber)
  {
    hide ParseAlts, PrintInterface, SkipExtras, Extras, Boundary, ParseBody, AllWellFormed, Below;
    var head, tail := PrintInterface(ifs[0]), PrintInterfaces(ifs[1..]) + rest;
    assert WellFormedInterface(ifs[0]);
    Associates(head, PrintInterfaces(ifs[1..]), rest);
    if |ifs| > 1 {
      assert ifs[1..][0] == ifs[1] && ifs[0][0].bInterfaceNumber != ifs[1][0].bInterfaceNumber;
      SeparateTail(ifs, rest);
      NothingIsExtra();
      InterfacesInFront(ifs[1..], [], m, rest);
      assert [] + tail == tail;
    } else {
      assert tail == rest && [ifs[0]] == ifs;
    }
    assert |PrintInterfaces(ifs)| == |head| + |PrintInterfaces(ifs[1..])|;
    InterfaceInFront(ifs[0], tail, -1);
    SkipPrinted(extra, head + tail);
    ConsBody(|ifs| - 1 + m, extra, head, tail, ifs[0]);
    if |ifs| > 1 {
      BelowBoth(Body(extra, [ifs[0]]), |extra| + |head|, 0,
                Body([], ifs[1..]), |PrintInterfaces(ifs[1..])|, 0, ParseBody(m, rest));
      assert extra + [] == extra;
    }
    assert ifs == [ifs[0]] + ifs[1..];
  }

  lemma NothingIsExtra()
    ensures Extras([])
  {
    assert Blocks([]) && Flatten([]) == [];
  }

  /** Where there is no interface: class descriptors are kept up to the end of the configuration, and
      the two ways for them to go wrong are an error and a cut. */
  lemma NoInterfaceHere(m: nat, ds: seq<Bytes>, rest: Bytes)
    requires Blocks(ds)
    requires |rest| < 2 || rest[0] < 2 || rest[0] > |rest| || (Boundary(rest) && (|rest| < 9 || rest[1] != 4))
    ensures ParseBody(0, Flatten(ds) + rest) == Parsed(Body([], []), 0, 0)
    ensures m > 0 ==>
      var n := |Flatten(ds)|;
      ParseBody(m, Flatten(ds) + rest) ==
        if |rest| >= 2 && rest[0] < 2 then IoError
        else if |rest| >= 2 && rest[0] > |rest| then Parsed(Body([], []), n, n)
        else Parsed(Body(Flatten(ds), []), n, 0)
  {
    hide SkipExtras, ParseAlts;
    BlocksAreSkipped(ds, rest);
    var b := Flatten(ds) + rest;
    assert b[..|Flatten(ds)|] == Flatten(ds) && b[|Flatten(ds)|..] == rest;
    NoAltHere(rest, -1);
  }

  /** An error in an interface is an error of the configuration, whatever precedes it. */
  lemma InterfaceError(m: nat, ds: seq<Bytes>, rest: Bytes)
    requires m > 0 && Blocks(ds) && Boundary(rest) && ParseInterface(rest).IoError?
    ensures ParseBody(m, Flatten(ds) + rest).IoError?
  {
    hide SkipExtras, ParseAlts;
    BlocksAreSkipped(ds, rest);
    var b := Flatten(ds) + rest;
    assert b[|Flatten(ds)|..] == rest;
  }

  function WithBody(c: Config, used: nat, p: Parsed<Body>): Parsed<Config> {
    match p
    case IoError => IoError
    case Parsed(body, u, d) => Parsed(c.(extra := body.extra, interfaces := body.interfaces), used + u, d)
  }

  /** The known part of a configuration header of any length, in front of anything. */
  lemma ConfigFromHeader(c: Config, n: byte, rest: Bytes)
    requires c.bLength >= 9 && 0 <= c.wTotalLength < 65536
    ensures ParseConfig(PrintConfigHeader(c, n) + rest) ==
      if n > 32 then IoError else WithBody(c, c.bLength, ParseBody(n, rest))
  {
    hide ParseBody;
    var head := PrintConfigHeader(c, n);
    var b := head + rest;
    assert |head| == c.bLength && b[c.bLength..] == rest;
    assert Le16(c.wTotalLength % 256, c.wTotalLength / 256) == c.wTotalLength;
  }

  /** What is no configuration is an error. */
  lemma NoConfigHere(b: Bytes)
    requires |b| < 9 || b[1] != 2 || b[0] < 9 || b[0] > |b|
    ensures ParseConfig(b).IoError?
  {
  }

  /** A configuration that announces n interfaces and has some well-formed ones: the parser goes on to
      look for the others, and its result is the printed tree with what it finds. */
  lemma ConfigAnnouncing(c: Config, n: byte, rest: Bytes)
    requires WellFormed(c) && |c.interfaces| <= n <= 32 && c.interfaces != [] && Follows(rest, c.interfaces)
    ensures ParseConfig(PrintConfig(c, n) + rest) ==
      WithBody(c, |PrintConfig(c, n)|,
               Below(Body(c.extra, c.interfaces), 0, 0, ParseBody(n - |c.interfaces|, rest)))
  {
    hide ParseBody, ParseConfig, PrintInterfaces, SkipExtras, Extras, Boundary, WellFormedInterface;
    var body := c.extra + (PrintInterfaces(c.interfaces) + rest);
    InterfacesInFront(c.interfaces, c.extra, n - |c.interfaces|, rest);
    ConfigFromHeader(c, n, body);
    assert PrintConfig(c, n) + rest == PrintConfigHeader(c, n) + body;
    assert |PrintConfigHeader(c, n)| == c.bLength;
  }

  /** Printing any well-formed configuration and parsing the bytes gives back the same tree, with
      every extra block attached to its own parent, and leaves exactly what followed. */
  lemma ConfigRoundTrip(c: Config, rest: Bytes)
    requires WellFormed(c) && Follows(rest, c.interfaces)
    ensures ParseConfig(PrintConfig(c, |c.interfaces|) + rest) == Parsed(c, |PrintConfig(c, |c.interfaces|)|, 0)
  {
    hide ParseBody, ParseConfig, PrintInterfaces, SkipExtras, Separate, Extras, Boundary;
    NoInterfaceAtAll(rest);
    if c.interfaces == [] {
      ConfigFromHeader(c, 0, rest);
      PrintsHeaderOnly(c);
    } else {
      ConfigAnnouncing(c, |c.interfaces|, rest);
      assert c.extra + [] == c.extra && c.interfaces + [] == c.interfaces;
    }
  }

  lemma NoInterfaceAtAll(rest: Bytes)
    ensures ParseBody(0, rest) == Parsed(Body([], []), 0, 0)
  {
  }

  lemma PrintsHeaderOnly(c: Config)
    requires WellFormed(c) && c.interfaces == []
    ensures PrintConfig(c, 0) == PrintConfigHeader(c, 0) && |PrintConfigHeader(c, 0)| == c.bLength
  {
  }

  /** Announcing too many interfaces does no harm either. */
  lemma ConfigAnnouncingTooMany(c: Config, n: byte, rest: Bytes)
    requires WellFormed(c) && c.interfaces != [] && |c.interfaces| < n <= 32
    requires Boundary(rest) && (|rest| < 9 || rest[1] != 4)
    ensures ParseConfig(PrintConfig(c, n) + rest) == Parsed(c, |PrintConfig(c, n)|, 0)
  {
    hide ParseBody, ParseConfig, PrintConfig, PrintInterfaces, SkipExtras, Separate, Extras;
    ConfigAnnouncing(c, n, rest);
    NoInterfaceHere(n - |c.interfaces|, [], rest);
    assert Flatten([]) + rest == rest;
    assert c.extra + [] == c.extra && c.interfaces + [] == c.interfaces;
  }

  /** In particular nothing is left over of a configuration that stands alone. */
  lemma NothingLeftOver(c: Config)
    requires WellFormed(c)
    ensures ParseConfig(PrintConfig(c, |c.interfaces|)) == Parsed(c, |PrintConfig(c, |c.interfaces|)|, 0)
  {
    ConfigRoundTrip(c, []);
    assert PrintConfig(c, |c.interfaces|) + [] == PrintConfig(c, |c.interfaces|);
  }
}
