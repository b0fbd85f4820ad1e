/** Binary device object store descriptors (section 9.6.2 of the USB 3.0 specification), and the
    search for the SuperSpeed companion among the extra descriptors of an endpoint. */
module BosDescriptors {
  import opened Descriptors

  const DT_BOS: byte := 0x0f
  const DT_DEVICE_CAPABILITY: byte := 0x10
  const DT_SS_ENDPOINT_COMPANION: byte := 0x30
  const BOS_SIZE := 5
  const DEVICE_CAPABILITY_SIZE := 3
  const COMPANION_SIZE := 6

  const ERROR_IO := -1
  const ERROR_NOT_FOUND := -5
  const SUCCESS := 0

  // ---------------------------------------------------------------- the capability store

  /** `caps` are the capability descriptors, each with its own header. */
  datatype Bos = Bos(bLength: byte, wTotalLength: int, caps: seq<Bytes>)

  /** At most n capabilities: reading stops at anything that is not a whole capability, and fails at
      one that is too short to be one. */
  function ParseCaps(n: nat, b: Bytes): (r: Parsed<seq<Bytes>>)
    ensures r.Parsed? ==> r.used <= |b| && |r.value| <= n && r.dropped == 0
    decreases n
  {
    if n == 0 || |b| < DEVICE_CAPABILITY_SIZE || b[1] != DT_DEVICE_CAPABILITY then Parsed([], 0, 0)
    else if b[0] < DEVICE_CAPABILITY_SIZE then IoError
    else if b[0] > |b| then Parsed([], 0, 0)
    else
      match ParseCaps(n - 1, b[b[0]..])
      case IoError => IoError
      case Parsed(caps, used, _) => Parsed([b[..b[0]]] + caps, b[0] + used, 0)
  }

  function ParseBos(b: Bytes): (r: Parsed<Bos>)
    ensures r.Parsed? ==> r.used <= |b| && r.dropped == 0
  {
    if |b| < BOS_SIZE || b[1] != DT_BOS || b[0] < BOS_SIZE || b[0] > |b| then IoError
    else
      match ParseCaps(b[4], b[b[0]..])
      case IoError => IoError
      case Parsed(caps, used, _) => Parsed(Bos(b[0], Le16(b[2], b[3]), caps), b[0] + used, 0)
  }

  /** The capabilities are exactly the bytes that were used, cut into descriptors. */
  lemma {:induction false} CapsAccount(n: nat, b: Bytes)
    requires ParseCaps(n, b).Parsed?
    ensures Flatten(ParseCaps(n, b).value) == b[..ParseCaps(n, b).used]
    ensures forall c | c in ParseCaps(n, b).value :: WellFormedCap(c)
    decreases n
  {
    var r := ParseCaps(n, b);
    if r.value != [] {
      CapsAccount(n - 1, b[b[0]..]);
      var rest := ParseCaps(n - 1, b[b[0]..]);
      assert ([b[..b[0]]] + rest.value)[1..] == rest.value;
      assert b[..b[0]] + b[b[0]..][..rest.used] == b[..r.used];
    }
  }

  /** Tables 9-12 and 9-13 of the USB 3.0 specification, with the numbers written out. */
  predicate WellFormedCap(c: Bytes) {
    3 <= |c| < 256 && c[0] == |c| && c[1] == 0x10
  }

  /** Every byte of the buffer is in the header, in a capability, or left over. */
  lemma BosAccounts(b: Bytes)
    requires ParseBos(b).Parsed?
    ensures var r := ParseBos(b);
      && b == b[..r.value.bLength] + Flatten(r.value.caps) + b[r.used..]
      && r.used == r.value.bLength + |Flatten(r.value.caps)|
  {
    CapsAccount(b[4], b[b[0]..]);
    var r := ParseBos(b);
    assert b[b[0]..][..r.used - b[0]] == b[b[0]..r.used];
  }

  predicate WellFormedBos(bos: Bos) {
    && bos.bLength >= 5 && 0 <= bos.wTotalLength < 65536 && |bos.caps| < 256
    && forall c | c in bos.caps :: WellFormedCap(c)
  }

  /** A store that announces n capabilities; bytes of the header that are not known are zero. */
  function PrintBos(bos: Bos, n: byte): Bytes
    requires WellFormedBos(bos)
  {
    [bos.bLength, 0x0f, bos.wTotalLength % 256, bos.wTotalLength / 256, n]
    + seq(bos.bLength - 5, _ => 0) + Flatten(bos.caps)
  }

  lemma ConsCap(n: nat, c: Bytes, tail: Bytes)
    requires WellFormedCap(c)
    ensures ParseCaps(n + 1, c + tail) == Onto([c], |c|, 0, ParseCaps(n, tail))
  {
    assert (c + tail)[..|c|] == c && (c + tail)[|c|..] == tail;
  }

  /** Where there is no capability: the store ends, or one that is too short is an error. */
  lemma NoCapHere(n: nat, b: Bytes)
    requires |b| < 3 || b[1] != 0x10 || b[0] < 3 || b[0] > |b|
    ensures ParseCaps(0, b) == Parsed([], 0, 0)
    ensures n > 0 ==>
      ParseCaps(n, b) == if |b| >= 3 && b[1] == 0x10 && b[0] < 3 then IoError else Parsed([], 0, 0)
  {
  }

  /** Capabilities in front of anything. */
  lemma {:induction false} CapsInFront(caps: seq<Bytes>, n: nat, rest: Bytes)
    requires forall c | c in caps :: WellFormedCap(c)
    ensures ParseCaps(|caps| + n, Flatten(caps) + rest) == Onto(caps, |Flatten(caps)|, 0, ParseCaps(n, rest))
  {
    hide ParseCaps, WellFormedCap, Onto;
    if caps == [] {
      OntoNothing(ParseCaps(n, rest));
      assert Flatten(caps) + rest == rest;
    } else {
      var c, back := caps[0], caps[1..];
      assert c in caps;
      CapsInFront(back, n, rest);
      ConsCap(|back| + n, c, Flatten(back) + rest);
      assert Flatten(caps) + rest == c + (Flatten(back) + rest);
      OntoBoth([c], |c|, 0, back, |Flatten(back)|, 0, ParseCaps(n, rest));
      assert [c] + back == caps;
    }
  }

  /** A printed store that announces n capabilities: the parser goes on to look for those that are
      missing, and fails only at one that is too short. */
  lemma BosAnnouncing(bos: Bos, n: byte, rest: Bytes)
    requires WellFormedBos(bos) && |bos.caps| <= n
    requires |bos.caps| == n || |rest| < 3 || rest[1] != 0x10 || rest[0] < 3 || rest[0] > |rest|
    ensures ParseBos(PrintBos(bos, n) + rest) ==
      if |bos.caps| < n && |rest| >= 3 && rest[1] == 0x10 && rest[0] < 3 then IoError
      else Parsed(bos, |PrintBos(bos, n)|, 0)
  {
    hide ParseCaps;
    var b := PrintBos(bos, n) + rest;
    assert b[bos.bLength..] == Flatten(bos.caps) + rest;
    CapsInFront(bos.caps, n - |bos.caps|, rest);
    if |bos.caps| < n { NoCapHere(n - |bos.caps|, rest); } else { NoCapsAtAll(rest); }
    assert bos.caps + [] == bos.caps;
    assert Le16(bos.wTotalLength % 256, bos.wTotalLength / 256) == bos.wTotalLength;
  }

  lemma NoCapsAtAll(rest: Bytes)
    ensures ParseCaps(0, rest) == Parsed([], 0, 0)
  {
  }

  /** Printing a well-formed store and parsing the bytes gives it back, whatever follows. */
  lemma BosRoundTrip(bos: Bos, rest: Bytes)
    requires WellFormedBos(bos)
    ensures ParseBos(PrintBos(bos, |bos.caps|) + rest) == Parsed(bos, |PrintBos(bos, |bos.caps|)|, 0)
  {
    BosAnnouncing(bos, |bos.caps|, rest);
  }

  /** What is no store is an error. */
  lemma NoBosHere(b: Bytes)
    requires |b| < 5 || b[1] != 0x0f || b[0] < 5 || b[0] > |b|
    ensures ParseBos(b).IoError?
  {
  }

  /** One round of the loop of parse_bos, behind the capabilities that it has read. */
  lemma CapRound(n: nat, b: Bytes, read: seq<Bytes>)
    requires n > 0 && |b| >= DEVICE_CAPABILITY_SIZE && b[1] == DT_DEVICE_CAPABILITY
    requires DEVICE_CAPABILITY_SIZE <= b[0] <= |b|
    ensures ParseCaps(n, b).IoError? <==> ParseCaps(n - 1, b[b[0]..]).IoError?
    ensures ParseCaps(n, b).Parsed? ==>
      read + ParseCaps(n, b).value == (read + [b[..b[0]]]) + ParseCaps(n - 1, b[b[0]..]).value
  {
    if ParseCaps(n - 1, b[b[0]..]).Parsed? {
      var rest := ParseCaps(n - 1, b[b[0]..]).value;
      assert read + ([b[..b[0]]] + rest) == (read + [b[..b[0]]]) + rest;
    }
  }

  /** parse_bos. */
  method ParseBosDescriptor(buffer: Bytes) returns (r: int, bos: Bos)
    ensures var p := ParseBos(buffer);
      if p.IoError? then r == ERROR_IO else r == SUCCESS && bos == p.value
  {
    bos := Bos(0, 0, []);
    if |buffer| < BOS_SIZE { return ERROR_IO, bos; }
    if buffer[1] != DT_BOS { return ERROR_IO, bos; }
    if buffer[0] < BOS_SIZE { return ERROR_IO, bos; }
    if buffer[0] > |buffer| { return ERROR_IO, bos; }
    bos := Bos(buffer[0], Le16(buffer[2], buffer[3]), []);
    var b: Bytes, i := buffer[buffer[0]..], 0;
    ghost var all := ParseCaps(buffer[4], b);
    assert all.Parsed? ==> [] + all.value == all.value;
    while i < buffer[4]
      invariant 0 <= i <= buffer[4]
      invariant bos == Bos(buffer[0], Le16(buffer[2], buffer[3]), bos.caps)
      invariant match ParseCaps(buffer[4] - i, b)
        case IoError => all.IoError?
        case Parsed(caps, _, _) => all.Parsed? && all.value == bos.caps + caps
    {
      if |b| < DEVICE_CAPABILITY_SIZE { break; }
      if b[1] != DT_DEVICE_CAPABILITY { break; }
      if b[0] < DEVICE_CAPABILITY_SIZE { return ERROR_IO, bos; }
      if b[0] > |b| { break; }
      CapRound(buffer[4] - i, b, bos.caps);
      bos := bos.(caps := bos.caps + [b[..b[0]]]);
      b, i := b[b[0]..], i + 1;
    }
    assert bos.caps + [] == bos.caps;
    r := SUCCESS;
  }

  // ---------------------------------------------------------------- companions

  /** What an endpoint keeps as its extra bytes is a run of whole class descriptors. */
  lemma EndpointExtraIsARun(b: Bytes)
    requires ParseEndpoint(b).Parsed?
    ensures Extras(ParseEndpoint(b).value.extra)
  {
    hide SkipExtras;
    var e := ParseEndpoint(b);
    if e.used != 0 && SkipExtras(b[b[0]..]).Stop? {
      var ds, rest := SkippedAreBlocks(b[b[0]..]);
      assert e.value.extra == Flatten(ds);
    } else {
      assert Blocks([]) && Flatten([]) == [];
    }
  }

  /** `first` is the first companion (table 9-26 of the USB 3.0 specification, type 0x30) of a list
      of descriptors, or empty without one. */
  predicate IsFirstCompanion(ds: seq<Bytes>, first: Bytes) {
    if first == [] then forall d | d in ds && |d| >= 2 :: d[1] != 0x30
    else exists k | 0 <= k < |ds| ::
      && ds[k] == first && |first| >= 2 && first[1] == 0x30
      && forall j | 0 <= j < k && |ds[j]| >= 2 :: ds[j][1] != 0x30
  }

  function FirstCompanion(ds: seq<Bytes>): (r: Bytes)
    ensures IsFirstCompanion(ds, r)
  {
    if ds == [] then []
    else if |ds[0]| >= HEADER_LENGTH && ds[0][1] == DT_SS_ENDPOINT_COMPANION then ds[0]
    else
      var r := FirstCompanion(ds[1..]);
      FirstIsBehind(ds, r);
      r
  }

  lemma FirstIsBehind(ds: seq<Bytes>, first: Bytes)
    requires ds != [] && (|ds[0]| >= 2 ==> ds[0][1] != 0x30) && IsFirstCompanion(ds[1..], first)
    ensures IsFirstCompanion(ds, first)
  {
    assert ds == [ds[0]] + ds[1..];
    if first != [] {
      var k :| 0 <= k < |ds[1..]| && ds[1..][k] == first
               && forall j | 0 <= j < k && |ds[1..][j]| >= 2 :: ds[1..][j][1] != 0x30;
      assert ds[k + 1] == first;
      forall j | 0 <= j < k + 1 && |ds[j]| >= 2
        ensures ds[j][1] != 0x30
      {
        if j > 0 { assert ds[j] == ds[1..][j - 1]; }
      }
    }
  }

  /** Some descriptors of a list, read one after the other. */
  ghost predicate Reading(extra: Bytes, ds: seq<Bytes>, b: Bytes, left: seq<Bytes>) {
    Blocks(ds) && Flatten(ds) == extra ==>
      Blocks(left) && Flatten(left) == b && FirstCompanion(ds) == FirstCompanion(left)
  }

  lemma ReadOn(b: Bytes, left: seq<Bytes>)
    requires Blocks(left) && Flatten(left) == b && |b| >= 2
    ensures left != [] && |left[0]| == b[0] <= |b| && 2 <= b[0] && left[0] == b[..b[0]] && left[0][1] == b[1]
    ensures Blocks(left[1..]) && Flatten(left[1..]) == b[b[0]..]
  {
    if left != [] {
      assert Block(left[0]) && b == left[0] + Flatten(left[1..]);
    }
  }

  /** libusb_get_ss_endpoint_companion_descriptor.  On the extra bytes of a parsed endpoint it finds
      the first companion; it fails only if that is too short, and it does not look further. */
  method GetCompanion(extra: Bytes, ghost ds: seq<Bytes>) returns (r: int, companion: Bytes)
    ensures Blocks(ds) && Flatten(ds) == extra ==>
      var first := FirstCompanion(ds);
      if first == [] then r == ERROR_NOT_FOUND
      else if |first| < 6 then r == ERROR_IO
      else r == SUCCESS && companion == first
    ensures r == SUCCESS ==> 6 <= |companion| && companion[1] == 0x30
  {
    hide Blocks, Flatten, Block;
    var b: Bytes := extra;
    companion := [];
    ghost var left := ds;
    while |b| >= HEADER_LENGTH
      invariant Reading(extra, ds, b, left)
      decreases |b|
    {
      if Blocks(ds) && Flatten(ds) == extra { ReadOn(b, left); }
      if b[1] != DT_SS_ENDPOINT_COMPANION {
        if b[0] < HEADER_LENGTH { return ERROR_IO, companion; }
        // the code goes on with a negative size, which ends the loop
        b := if b[0] <= |b| then b[b[0]..] else [];
        left := if left != [] then left[1..] else [];
      } else if b[0] < COMPANION_SIZE {
        return ERROR_IO, companion;
      } else if b[0] > |b| {
        return ERROR_IO, companion;
      } else {
        return SUCCESS, b[..b[0]];
      }
    }
    if Blocks(ds) && Flatten(ds) == extra { ReadAll(b, left); }
    r := ERROR_NOT_FOUND;
  }

  lemma ReadAll(b: Bytes, left: seq<Bytes>)
    requires Blocks(left) && Flatten(left) == b
    ensures left != [] ==> |b| >= 2
  {
    if left != [] { assert Block(left[0]); }
  }
}
