/** Frames of the register protocol: [start of frame] [checksum] [command] [argument] [argument],
    and the incremental decoder that assembles them from whatever pieces arrive. */
module Framing {
  import opened Crc8

  const START_OF_FRAME: Byte := 0x12
  const ARGS_OFFSET := 3
  const FRAME_MAXSIZE := 5

  const CMD_SET: Byte := 0
  const CMD_GET: Byte := 1
  const CMD_REPLY: Byte := 2
  const CMD_ERR_CRC: Byte := 3
  const CMD_ERR_ARG: Byte := 4

  /** proto_getArgsSize.  The table gives CMD_ERR_CRC one argument and CMD_ERR_ARG two. */
  function ArgsSize(cmd: Byte): (n: nat)
    ensures n <= 2
  {
    if cmd == CMD_SET || cmd == CMD_ERR_ARG then 2
    else if cmd == CMD_GET || cmd == CMD_REPLY || cmd == CMD_ERR_CRC then 1
    else 0
  }

  type Frame = f: seq<Byte> | |f| == FRAME_MAXSIZE witness [0, 0, 0, 0, 0]

  /** The bytes received so far: the first nb of the frame.  What follows them is stale. */
  datatype Rx = Rx(frame: Frame, nb: nat)

  function Length(f: Frame): (n: nat)
    ensures ARGS_OFFSET <= n <= FRAME_MAXSIZE
  {
    ARGS_OFFSET + ArgsSize(f[2])
  }

  function FrameCrc(f: Frame): Byte {
    Crc(f[2..Length(f)])
  }

  // ---------------------------------------------------------------- a byte at a time

  /** The decoder, a byte at a time: it waits for a start of frame, takes as many bytes as the
      command calls for, and then ignores everything until the frame is fetched. */
  function Feed(rx: Rx, b: Byte): Rx {
    if rx.nb == 0 && b != START_OF_FRAME then rx
    else if rx.nb < ARGS_OFFSET || rx.nb < Length(rx.frame) then Rx(rx.frame[rx.nb := b], rx.nb + 1)
    else rx
  }

  function FeedAll(rx: Rx, bytes: seq<Byte>): Rx {
    if bytes == [] then rx else Feed(FeedAll(rx, bytes[..|bytes| - 1]), bytes[|bytes| - 1])
  }

  predicate Complete(rx: Rx) {
    rx.nb >= ARGS_OFFSET && rx.nb == Length(rx.frame)
  }

  datatype Decoded =
    | Waiting
    | Completed(cmd: Byte, arg0: Byte, arg1: Byte)
    | Refused(received: Byte, computed: Byte)

  /** proto_decodeFrame.  Only a frame with the right checksum is taken out: a refused one stays. */
  function Decode(rx: Rx): (Decoded, Rx) {
    if rx.nb < ARGS_OFFSET || rx.nb < Length(rx.frame) then (Waiting, rx)
    else if FrameCrc(rx.frame) != rx.frame[1] then (Refused(rx.frame[1], FrameCrc(rx.frame)), rx)
    else (Completed(rx.frame[2], rx.frame[3], rx.frame[4]), rx.(nb := 0))
  }

  // ---------------------------------------------------------------- making a frame

  function Framed(cmd: Byte, arg0: Byte, arg1: Byte): (f: Frame)
    ensures f[1] == FrameCrc(f)
  {
    var n := ArgsSize(cmd);
    var a, b := if n >= 1 then arg0 else 0, if n == 2 then arg1 else 0;
    var args := [cmd, a, b];
    PayloadOf(Crc(args[..n + 1]), cmd, a, b, n);
    [START_OF_FRAME, Crc(args[..n + 1]), cmd, a, b]
  }

  lemma PayloadOf(crc8: Byte, cmd: Byte, a: Byte, b: Byte, n: nat)
    requires n <= 2
    ensures [START_OF_FRAME, crc8, cmd, a, b][2..ARGS_OFFSET + n] == [cmd, a, b][..n + 1]
  {
    var f := [START_OF_FRAME, crc8, cmd, a, b];
    assert f[2..] == [cmd, a, b];
    assert f[2..ARGS_OFFSET + n] == f[2..][..n + 1];
  }

  /** The bytes that go over the line. */
  function Message(cmd: Byte, arg0: Byte, arg1: Byte): seq<Byte> {
    Framed(cmd, arg0, arg1)[..ARGS_OFFSET + ArgsSize(cmd)]
  }

  /** The number of arguments on the line: two for SET and ERR_ARG, one for GET, REPLY and ERR_CRC,
      none for anything else. */
  function Arguments(cmd: Byte, arg0: Byte, arg1: Byte): seq<Byte> {
    match cmd as int
    case 0 => [arg0, arg1]
    case 1 => [arg0]
    case 2 => [arg0]
    case 3 => [arg0]
    case 4 => [arg0, arg1]
    case _ => []
  }

  /** What is on the line: the byte 0x12, the checksum of all that follows it, the command, and its
      arguments. */
  lemma WireFormat(cmd: Byte, arg0: Byte, arg1: Byte)
    ensures var args := Arguments(cmd, arg0, arg1);
      Message(cmd, arg0, arg1) == [0x12, Crc([cmd] + args), cmd] + args
  {
    hide Crc;
    var n := ArgsSize(cmd);
    var a, b := if n >= 1 then arg0 else 0, if n == 2 then arg1 else 0;
    assert [cmd, a, b][..n + 1] == [cmd] + Arguments(cmd, arg0, arg1);
  }

  // ---------------------------------------------------------------- chunks do not matter

  lemma {:induction false} FeedAllConcat(rx: Rx, a: seq<Byte>, b: seq<Byte>)
    ensures FeedAll(rx, a + b) == FeedAll(FeedAll(rx, a), b)
  {
    hide Feed;
    if b == [] {
      assert a + b == a;
    } else {
      FeedAllConcat(rx, a, b[..|b| - 1]);
      assert (a + b)[..|a + b| - 1] == a + b[..|b| - 1];
    }
  }

  function FeedChunks(rx: Rx, chunks: seq<seq<Byte>>): Rx
    decreases |chunks|
  {
    if chunks == [] then rx else FeedChunks(FeedAll(rx, chunks[0]), chunks[1..])
  }

  function Flatten(chunks: seq<seq<Byte>>): seq<Byte> {
    if chunks == [] then [] else chunks[0] + Flatten(chunks[1..])
  }

  lemma {:induction false} ChunksDoNotMatter(rx: Rx, chunks: seq<seq<Byte>>)
    ensures FeedChunks(rx, chunks) == FeedAll(rx, Flatten(chunks))
    decreases |chunks|
  {
    hide FeedAll;
    if chunks == [] {
      FeedNothing(rx);
    } else {
      ChunksDoNotMatter(FeedAll(rx, chunks[0]), chunks[1..]);
      FeedAllConcat(rx, chunks[0], Flatten(chunks[1..]));
    }
  }

  lemma FeedNothing(rx: Rx)
    ensures FeedAll(rx, []) == rx
  {
  }

  lemma FeedOne(rx: Rx, bytes: seq<Byte>, n: nat)
    requires n < |bytes|
    ensures FeedAll(rx, bytes[..n + 1]) == Feed(FeedAll(rx, bytes[..n]), bytes[n])
  {
    assert bytes[..n + 1][..n] == bytes[..n];
  }

  lemma {:induction false} NoiseIsIgnored(rx: Rx, noise: seq<Byte>)
    requires rx.nb == 0 && START_OF_FRAME !in noise
    ensures FeedAll(rx, noise) == rx
  {
    if noise != [] { NoiseIsIgnored(rx, noise[..|noise| - 1]); }
  }

  lemma {:induction false} FullIsFull(rx: Rx, bytes: seq<Byte>)
    requires rx.nb >= ARGS_OFFSET && rx.nb >= Length(rx.frame)
    ensures FeedAll(rx, bytes) == rx
  {
    if bytes != [] { FullIsFull(rx, bytes[..|bytes| - 1]); }
  }

  lemma FeedNext(f: Frame, stale: Frame, n: nat)
    requires f[0] == START_OF_FRAME && n < Length(f)
    ensures Feed(Rx(f[..n] + stale[n..], n), f[n]) == Rx(f[..n + 1] + stale[n + 1..], n + 1)
  {
    hide Crc;
    var g: Frame := f[..n] + stale[n..];
    assert g[n := f[n]] == f[..n + 1] + stale[n + 1..];
    if n >= ARGS_OFFSET { assert g[2] == f[2]; }
  }

  /** What the decoder holds after the first bytes of a message. */
  lemma {:induction false} PrefixIsKept(rx: Rx, cmd: Byte, arg0: Byte, arg1: Byte, n: nat)
    requires rx.nb == 0 && n <= |Message(cmd, arg0, arg1)|
    ensures FeedAll(rx, Message(cmd, arg0, arg1)[..n]) == Rx(Framed(cmd, arg0, arg1)[..n] + rx.frame[n..], n)
  {
    hide Framed, Feed, FeedAll;
    FramedShape(cmd, arg0, arg1);
    var f, m := Framed(cmd, arg0, arg1), Message(cmd, arg0, arg1);
    if n > 0 {
      PrefixIsKept(rx, cmd, arg0, arg1, n - 1);
      FeedOne(rx, m, n - 1);
      FeedNext(f, rx.frame, n - 1);
    } else {
      FeedNothing(rx);
      assert f[..0] + rx.frame[0..] == rx.frame;
    }
  }

  lemma FramedShape(cmd: Byte, arg0: Byte, arg1: Byte)
    ensures var f := Framed(cmd, arg0, arg1);
      && f[0] == START_OF_FRAME && f[2] == cmd
      && (ArgsSize(cmd) >= 1 ==> f[3] == arg0) && (ArgsSize(cmd) == 2 ==> f[4] == arg1)
  {
  }

  /** The checksum covers the significant bytes only. */
  lemma SameCrc(f: Frame, g: Frame)
    requires f[2] == g[2] && f[..Length(f)] == g[..Length(f)]
    ensures FrameCrc(f) == FrameCrc(g) && Length(f) == Length(g)
  {
    hide Crc;
    assert f[2..Length(f)] == f[..Length(f)][2..];
    assert g[2..Length(f)] == g[..Length(f)][2..];
  }

  /** A message after any noise without a start of frame, in whatever pieces it arrives, decodes to
      its command and significant arguments, and leaves the decoder ready for the next one. */
  lemma MessageRoundTrip(rx: Rx, noise: seq<Byte>, cmd: Byte, arg0: Byte, arg1: Byte, chunks: seq<seq<Byte>>)
    requires rx.nb == 0 && START_OF_FRAME !in noise
    requires Flatten(chunks) == noise + Message(cmd, arg0, arg1)
    ensures var rx' := FeedChunks(rx, chunks);
      && Complete(rx') && Decode(rx').0.Completed? && Decode(rx').0.cmd == cmd
      && (ArgsSize(cmd) >= 1 ==> Decode(rx').0.arg0 == arg0)
      && (ArgsSize(cmd) == 2 ==> Decode(rx').0.arg1 == arg1)
      && Decode(rx').1.nb == 0
  {
    hide Framed, Crc, FeedAll;
    var m := Message(cmd, arg0, arg1);
    ChunksDoNotMatter(rx, chunks);
    FeedAllConcat(rx, noise, m);
    NoiseIsIgnored(rx, noise);
    assert m[..|m|] == m;
    PrefixIsKept(rx, cmd, arg0, arg1, |m|);
    FramedShape(cmd, arg0, arg1);
    SameCrc(Framed(cmd, arg0, arg1), FeedChunks(rx, chunks).frame);
  }

  // ---------------------------------------------------------------- corruption

  /** A single corrupted byte is detected, be it the checksum, an argument, or the command as long
      as the wrong command has the same number of arguments. */
  lemma CorruptionIsRefused(rx: Rx, i: nat, b: Byte)
    requires Complete(rx) && Decode(rx).0.Completed?
    requires 0 < i < rx.nb && b != rx.frame[i] && (i == 2 ==> ArgsSize(b) == ArgsSize(rx.frame[2]))
    ensures Decode(rx.(frame := rx.frame[i := b])).0.Refused?
  {
    hide Crc;
    var f := rx.frame;
    var g: Frame := f[i := b];
    var n := Length(f);
    if i >= 2 {
      OneByteChangesCrc(f[2..n], i - 2, b);
      assert g[2..n] == f[2..n][i - 2 := b];
    } else {
      assert g[2..n] == f[2..n];
    }
  }

  // ---------------------------------------------------------------- the code

  /** The index of the first start of frame. */
  function FirstSof(bytes: seq<Byte>): (i: nat)
    requires START_OF_FRAME in bytes
    ensures i < |bytes| && bytes[i] == START_OF_FRAME && START_OF_FRAME !in bytes[..i]
  {
    if bytes[0] == START_OF_FRAME then 0 else FirstSof(bytes[1..]) + 1
  }

  /** What proto_pushToFrame returns: -1 without a start of frame; the length of the piece when that
      ends within or right after the header, whether or not a frame is complete; and otherwise
      the number of bytes used, or -1 if the frame is still incomplete. */
  function PushResult(rx: Rx, buf: seq<Byte>): int {
    if rx.nb == 0 && START_OF_FRAME !in buf then -1
    else
      var skipped := if rx.nb == 0 then FirstSof(buf) else 0;
      var rx' := FeedAll(rx, buf);
      if rx.nb < ARGS_OFFSET && |buf| - skipped <= ARGS_OFFSET - rx.nb then |buf|
      else if rx'.nb == Length(rx'.frame) then skipped + (rx'.nb - rx.nb)
      else -1
  }

  /** The piece starts a frame, or goes on with one, and ends no later than its header. */
  predicate EndsInHeader(rx: Rx, buf: seq<Byte>) {
    && rx.nb < ARGS_OFFSET && (rx.nb == 0 ==> START_OF_FRAME in buf)
    && |buf| - (if rx.nb == 0 then FirstSof(buf) else 0) <= ARGS_OFFSET - rx.nb
  }

  lemma {:induction false} FeedAllGrows(rx: Rx, bytes: seq<Byte>)
    ensures FeedAll(rx, bytes).nb >= rx.nb
  {
    if bytes != [] { FeedAllGrows(rx, bytes[..|bytes| - 1]); }
  }

  /** The result tells whether a frame is complete, except for a piece that ends in the header:
      that is reported as success, complete or not. */
  lemma ResultTellsCompleteness(rx: Rx, buf: seq<Byte>)
    requires buf != []
    ensures PushResult(rx, buf) >= 0 <==>
      || EndsInHeader(rx, buf)
      || (Complete(FeedAll(rx, buf)) && (rx.nb == 0 ==> START_OF_FRAME in buf))
  {
    hide FeedAll;
    FeedAllGrows(rx, buf);
  }

  /** The decoder takes no more bytes. */
  predicate Full(rx: Rx) {
    rx.nb >= ARGS_OFFSET && rx.nb >= Length(rx.frame)
  }

  /** Every byte counts until the decoder is full. */
  lemma {:induction false} FeedCounts(rx: Rx, bytes: seq<Byte>, n: nat)
    requires !Full(rx) && bytes != [] && (rx.nb == 0 ==> bytes[0] == START_OF_FRAME) && n <= |bytes|
    ensures var now := FeedAll(rx, bytes[..n]);
      && (now.nb == rx.nb + n || (n > 1 && Full(now) && now.nb < rx.nb + n))
      && (n > 0 ==> (now.nb == rx.nb + n <==> !Full(FeedAll(rx, bytes[..n - 1]))))
  {
    hide FeedAll;
    if n == 0 {
      FeedNothing(rx);
      assert bytes[..0] == [];
    } else {
      FeedCounts(rx, bytes, n - 1);
      FeedOne(rx, bytes, n - 1);
      FeedNothing(rx);
      assert bytes[..0] == [];
    }
  }

  /** The number of bytes that were taken is the number of bytes it took. */
  lemma TakenInFront(rx: Rx, bytes: seq<Byte>, used: nat)
    requires !Full(rx) && bytes != [] && (rx.nb == 0 ==> bytes[0] == START_OF_FRAME)
    requires Complete(FeedAll(rx, bytes)) && FeedAll(rx, bytes).nb == rx.nb + used
    ensures 0 < used <= |bytes|
    ensures Complete(FeedAll(rx, bytes[..used])) && !Complete(FeedAll(rx, bytes[..used - 1]))
  {
    hide FeedAll, Feed, Full, Complete;
    FeedCounts(rx, bytes, 1);
    FeedTwice(rx, bytes, 1);
    assert bytes[..|bytes|] == bytes;
    FeedCounts(rx, bytes, |bytes|);
    FeedCounts(rx, bytes, used);
    FeedTwice(rx, bytes, used);
    if used < |bytes| {
      FeedCounts(rx, bytes, used + 1);
      FeedTwice(rx, bytes, used + 1);
    }
    CompleteIsFull(FeedAll(rx, bytes));
    CompleteIsFull(FeedAll(rx, bytes[..used - 1]));
  }

  lemma CompleteIsFull(rx: Rx)
    ensures Complete(rx) ==> Full(rx)
  {
  }

  /** Feeding the rest does not lower the count, and changes nothing once the decoder is full. */
  lemma FeedTwice(rx: Rx, bytes: seq<Byte>, n: nat)
    requires n <= |bytes|
    ensures FeedAll(rx, bytes).nb >= FeedAll(rx, bytes[..n]).nb
    ensures Full(FeedAll(rx, bytes[..n])) ==> FeedAll(rx, bytes) == FeedAll(rx, bytes[..n])
  {
    hide FeedAll;
    assert bytes == bytes[..n] + bytes[n..];
    FeedAllConcat(rx, bytes[..n], bytes[n..]);
    FeedAllGrows(FeedAll(rx, bytes[..n]), bytes[n..]);
    if Full(FeedAll(rx, bytes[..n])) { FullIsFull(FeedAll(rx, bytes[..n]), bytes[n..]); }
  }

  /** A non-negative result is the length of a piece that ends in the header; otherwise it counts the
      bytes up to the one that completes the frame. */
  lemma ResultCountsBytes(rx: Rx, buf: seq<Byte>)
    requires buf != [] && PushResult(rx, buf) >= 0 && !Complete(rx)
    ensures PushResult(rx, buf) <= |buf|
    ensures if EndsInHeader(rx, buf) then PushResult(rx, buf) == |buf|
      else
        var r := PushResult(rx, buf);
        r > 0 && Complete(FeedAll(rx, buf[..r])) && !Complete(FeedAll(rx, buf[..r - 1]))
  {
    hide FeedAll;
    if !EndsInHeader(rx, buf) {
      ResultTellsCompleteness(rx, buf);
      if rx.nb != 0 && Full(rx) { FullIsFull(rx, buf); }
      var skipped := if rx.nb == 0 then FirstSof(buf) else 0;
      var rest, used := buf[skipped..], FeedAll(rx, buf).nb - rx.nb;
      PiecesOf(rx, buf, skipped);
      FeedAllGrows(rx, buf);
      TakenInFront(rx, rest, used);
      SkippedNoise(rx, buf, skipped, used);
      SkippedNoise(rx, buf, skipped, used - 1);
    }
  }

  lemma SkippedNoise(rx: Rx, buf: seq<Byte>, skipped: nat, n: nat)
    requires skipped + n <= |buf| && (rx.nb != 0 ==> skipped == 0) && START_OF_FRAME !in buf[..skipped]
    ensures FeedAll(rx, buf[..skipped + n]) == FeedAll(rx, buf[skipped..][..n])
  {
    hide FeedAll;
    assert buf[..skipped + n] == buf[..skipped] + buf[skipped..][..n];
    FeedAllConcat(rx, buf[..skipped], buf[skipped..][..n]);
    if rx.nb == 0 { NoiseIsIgnored(rx, buf[..skipped]); } else { FeedNothing(rx); }
  }

  lemma HalfAHeaderIsSuccess(f: Frame)
    ensures PushResult(Rx(f, 0), [START_OF_FRAME]) == 1 && !Complete(FeedAll(Rx(f, 0), [START_OF_FRAME]))
  {
    FeedOne(Rx(f, 0), [START_OF_FRAME], 0);
    assert [START_OF_FRAME][..1] == [START_OF_FRAME];
  }

  /** Skipping up to the start of frame changes nothing. */
  lemma PiecesOf(rx: Rx, buf: seq<Byte>, cursor: nat)
    requires cursor <= |buf|
    requires cursor == if rx.nb == 0 && START_OF_FRAME in buf then FirstSof(buf) else 0
    ensures FeedAll(rx, buf) == FeedAll(rx, buf[cursor..])
  {
    hide FeedAll;
    assert buf[..cursor] + buf[cursor..] == buf;
    FeedAllConcat(rx, buf[..cursor], buf[cursor..]);
    if rx.nb == 0 {
      NoiseIsIgnored(rx, buf[..cursor]);
    } else {
      FeedNothing(rx);
    }
  }

  class Handle {
    const frame: array<Byte>
    var nbBytes: nat

    ghost predicate Valid()
      reads this, frame
    {
      frame.Length == FRAME_MAXSIZE && nbBytes <= FRAME_MAXSIZE
    }

    ghost function View(): Rx
      reads this, frame
      requires Valid()
    {
      Rx(frame[..], nbBytes)
    }

    constructor ()
      ensures Valid() && fresh(frame) && View() == Rx([0, 0, 0, 0, 0], 0)
    {
      frame := new Byte[FRAME_MAXSIZE](_ => 0);
      nbBytes := 0;
      new;
      assert frame[..] == [0, 0, 0, 0, 0];
    }

    method GetFrameCrc() returns (crc8: Byte)
      requires Valid()
      ensures crc8 == FrameCrc(frame[..])
    {
      hide Crc;
      var n := ARGS_OFFSET + ArgsSize(frame[2]);
      assert frame[2..n] == frame[..][2..n];
      crc8 := GetCrc(frame[2..n]);
    }

    /** proto_makeFrame. */
    method MakeFrame(command: Byte, arg0: Byte, arg1: Byte) returns (n: nat)
      requires Valid()
      modifies frame
      ensures frame[..] == Framed(command, arg0, arg1) && n == |Message(command, arg0, arg1)|
    {
      var argSize := ArgsSize(command);
      frame[0], frame[2] := START_OF_FRAME, command;
      frame[3], frame[4] := 0, 0;
      if argSize >= 1 { frame[3] := arg0; }
      if argSize >= 2 { frame[4] := arg1; }
      assert frame[..][2..ARGS_OFFSET + argSize] == [command, frame[3], frame[4]][..argSize + 1];
      var crc8 := GetFrameCrc();
      frame[1] := crc8;
      n := ARGS_OFFSET + argSize;
      assert frame[..] == [START_OF_FRAME, crc8, command, frame[3], frame[4]];
    }

    method Store(b: Byte)
      requires Valid() && nbBytes < FRAME_MAXSIZE
      modifies this, frame
      ensures Valid() && View() == var rx := old(View()); Rx(rx.frame[rx.nb := b], rx.nb + 1)
    {
      frame[nbBytes] := b;
      nbBytes := nbBytes + 1;
    }

    /** The loops that copy bytes until the frame has `limit` of them: the header, then the rest. */
    method Copy(buf: seq<Byte>, start: nat, limit: nat) returns (cursor: nat)
      requires Valid() && start <= |buf| && (nbBytes == 0 && start < |buf| ==> buf[start] == START_OF_FRAME)
      requires limit == ARGS_OFFSET || (nbBytes >= ARGS_OFFSET && limit == Length(frame[..]))
      modifies this, frame
      ensures Valid() && start <= cursor <= |buf| && nbBytes == old(nbBytes) + (cursor - start)
      ensures cursor == |buf| || nbBytes >= limit
      ensures cursor > start ==> nbBytes <= limit
      ensures View() == FeedAll(old(View()), buf[start..cursor])
      ensures old(nbBytes) >= ARGS_OFFSET ==> Length(frame[..]) == old(Length(frame[..]))
    {
      hide Crc, FeedAll;
      ghost var rx := View();
      FeedNothing(rx);
      cursor := start;
      assert buf[start..cursor] == [];
      while nbBytes < limit && cursor < |buf|
        invariant start <= cursor <= |buf| && Valid() && nbBytes == rx.nb + (cursor - start)
        invariant cursor > start ==> nbBytes <= limit
        invariant View() == FeedAll(rx, buf[start..cursor])
        invariant rx.nb >= ARGS_OFFSET ==> Length(frame[..]) == Length(rx.frame)
      {
        FeedOne(rx, buf[start..], cursor - start);
        assert buf[start..][..cursor - start] == buf[start..cursor];
        assert buf[start..][..cursor + 1 - start] == buf[start..cursor + 1];
        Store(buf[cursor]);
        cursor := cursor + 1;
      }
    }

    method FindSof(buf: seq<Byte>) returns (cursor: nat)
      ensures cursor == if START_OF_FRAME in buf then FirstSof(buf) else |buf|
    {
      cursor := 0;
      while cursor < |buf| && buf[cursor] != START_OF_FRAME
        invariant 0 <= cursor <= |buf| && START_OF_FRAME !in buf[..cursor]
      {
        cursor := cursor + 1;
      }
      assert buf[..|buf|] == buf;
    }

    /** The second loop; what it leaves of the piece does not matter any more. */
    method TakeRest(buf: seq<Byte>, start: nat, framelen: nat) returns (cursor: nat)
      requires Valid() && start <= |buf| && nbBytes >= ARGS_OFFSET && framelen == Length(frame[..])
      modifies this, frame
      ensures Valid() && start <= cursor <= |buf| && nbBytes == old(nbBytes) + (cursor - start)
      ensures View() == FeedAll(old(View()), buf[start..]) && framelen == Length(frame[..])
    {
      hide Crc, FeedAll;
      ghost var header := View();
      cursor := Copy(buf, start, framelen);
      assert buf[start..cursor] + buf[cursor..] == buf[start..];
      FeedAllConcat(header, buf[start..cursor], buf[cursor..]);
      if nbBytes >= framelen {
        FullIsFull(View(), buf[cursor..]);
      } else {
        FeedNothing(View());
      }
    }

    /** proto_pushToFrame. */
    method PushToFrame(buf: seq<Byte>) returns (r: int)
      requires Valid() && buf != []
      modifies this, frame
      ensures Valid() && View() == FeedAll(old(View()), buf)
      ensures r == PushResult(old(View()), buf)
    {
      hide Crc, FeedAll;
      ghost var rx := View();
      var cursor := 0;
      if nbBytes == 0 {
        cursor := FindSof(buf);
        if cursor == |buf| {
          NoiseIsIgnored(rx, buf);
          return -1;
        }
      }
      PiecesOf(rx, buf, cursor);
      ghost var skipped := cursor;
      cursor := Copy(buf, cursor, ARGS_OFFSET);
      if cursor == |buf| {
        assert buf[skipped..cursor] == buf[skipped..];
        return |buf|;
      }
      FeedAllConcat(rx, buf[skipped..cursor], buf[cursor..]);
      assert buf[skipped..cursor] + buf[cursor..] == buf[skipped..];
      var framelen := ARGS_OFFSET + ArgsSize(frame[2]);
      cursor := TakeRest(buf, cursor, framelen);
      r := if nbBytes == framelen then cursor else -1;
    }

    /** proto_decodeFrame. */
    method DecodeFrame() returns (d: Decoded)
      requires Valid()
      modifies `nbBytes
      ensures Valid() && (d, View()) == Decode(old(View()))
    {
      if nbBytes < ARGS_OFFSET {
        return Waiting;
      } else if nbBytes < ARGS_OFFSET + ArgsSize(frame[2]) {
        return Waiting;
      } else {
        var crc8 := GetFrameCrc();
        if crc8 != frame[1] { return Refused(frame[1], crc8); }
      }
      d := Completed(frame[2], frame[3], frame[4]);
      nbBytes := 0;
    }
  }
}
