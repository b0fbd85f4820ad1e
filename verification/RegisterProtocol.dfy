/** The master/slave register protocol end to end: what a master sees through frames, chunks, a
    ring buffer and a polled slave is a plain array of registers with checked bounds. */
module RegisterProtocol {
  import opened Crc8
  import opened Framing
  import opened Stm32Fifo

  const TABLE_LEN := 5

  type Table = t: seq<Byte> | |t| == TABLE_LEN witness [0, 0, 0, 0, 0]

  // ---------------------------------------------------------------- the slave

  datatype Answer = Answer(ok: bool, table: Table, arg0: Byte, arg1: Byte)

  /** slave_receive, the callback behind the protocol. */
  function Receive(table: Table, cmd: Byte, arg0: Byte, arg1: Byte): Answer {
    if cmd == CMD_SET && arg0 as int < TABLE_LEN then Answer(true, table[arg0 as int := arg1], arg0, arg1)
    else if cmd == CMD_GET && arg0 as int < TABLE_LEN then Answer(true, table, table[arg0 as int], arg1)
    else Answer(false, table, arg0, arg1)
  }

  function ReplyCommand(a: Answer): Byte {
    if a.ok then CMD_REPLY else CMD_ERR_ARG
  }

  datatype Call = Call(cmd: Byte, arg0: Byte, arg1: Byte)

  /** `calls` records every call of the callback. */
  datatype Slave = Slave(rx: Rx, fifo: seq<Byte>, table: Table, calls: seq<Call>)

  datatype Iteration = Iteration(slave: Slave, sent: seq<Byte>, ret: int)

  /** proto_readFrame over the ring buffer device: as much as still fits the frame.  The second
      result tells whether it returns without an error. */
  function ReadFrame(s: Slave): (Slave, bool) {
    var n := if s.rx.nb < FRAME_MAXSIZE then FRAME_MAXSIZE - s.rx.nb else 0;
    var k := if n < |s.fifo| then n else |s.fifo|;
    if k == 0 then (s, false)
    else
      var buf := s.fifo[..k];
      (s.(rx := FeedAll(s.rx, buf), fifo := s.fifo[k..]), PushResult(s.rx, buf) >= 0)
  }

  /** The rest of an iteration of proto_slave_main.  The reply is built in the frame of the
      receiver. */
  function Process(s: Slave): Iteration {
    match Decode(s.rx).0
    case Waiting => Iteration(s, [], 0)
    case Completed(cmd, arg0, arg1) =>
      var a := Receive(s.table, cmd, arg0, arg1);
      Iteration(
        Slave(Rx(Framed(ReplyCommand(a), a.arg0, a.arg1), 0), s.fifo, a.table, s.calls + [Call(cmd, arg0, arg1)]),
        Message(ReplyCommand(a), a.arg0, a.arg1), 1)
    case Refused(received, computed) =>
      Iteration(
        s.(rx := Rx(Framed(CMD_ERR_CRC, received, computed), s.rx.nb)),
        Message(CMD_ERR_CRC, received, computed), 1)
  }

  function SlaveMain(s: Slave): Iteration {
    var (s', ok) := ReadFrame(s);
    if ok then Process(s') else Iteration(s', [], 0)
  }

  // ---------------------------------------------------------------- the master

  /** The statuses of the library; Aborted stands for the failed assertion of the master that
      decodes an incomplete reply. */
  datatype Status = NoError | ErrSys | ErrCrc | PeerErrCrc | InvalidArg | Timeout | ErrProto | Aborted

  datatype Outcome = Outcome(status: Status, value: Byte, rx: Rx)

  function StatusOf(cmd: Byte): Status {
    if cmd == CMD_REPLY then NoError
    else if cmd == CMD_ERR_CRC then PeerErrCrc
    else if cmd == CMD_ERR_ARG then InvalidArg
    else ErrProto
  }

  /** proto_readFrame over a device that holds `incoming`. */
  function MasterPoll(rx: Rx, incoming: seq<Byte>): (Rx, Status) {
    var n := if rx.nb < FRAME_MAXSIZE then FRAME_MAXSIZE - rx.nb else 0;
    var k := if n < |incoming| then n else |incoming|;
    if k == 0 then (rx, Timeout)
    else (FeedAll(rx, incoming[..k]), if PushResult(rx, incoming[..k]) < 0 then Timeout else NoError)
  }

  /** proto_master_readFrame, which polls its device once, whatever the deadline says. */
  function MasterRead(rx: Rx, incoming: seq<Byte>): Outcome {
    var (rx', status) := MasterPoll(rx, incoming);
    if status != NoError then Outcome(status, 0, rx')
    else
      match Decode(rx').0
      case Waiting => Outcome(Aborted, 0, rx')
      case Refused(_, _) => Outcome(ErrCrc, 0, rx')
      case Completed(cmd, arg0, _) =>
        Outcome(StatusOf(cmd), arg0, Decode(rx').1)
  }

  datatype Request = Get(reg: Byte) | Set(reg: Byte, value: Byte)

  function Command(r: Request): Byte {
    if r.Get? then CMD_GET else CMD_SET
  }

  function Value(r: Request): Byte {
    if r.Get? then 0 else r.value
  }

  function RequestMessage(r: Request): seq<Byte> {
    Message(Command(r), r.reg, Value(r))
  }

  // ---------------------------------------------------------------- the line

  /** Some bytes of the request reach the slave, or the slave runs one iteration. */
  datatype Event = Deliver(n: nat) | Poll

  /** The bytes on their way to the slave, the slave, and what it has sent. */
  datatype Line = Line(pending: seq<Byte>, slave: Slave, replies: seq<Byte>)

  function Happen(l: Line, e: Event): Line {
    match e
    case Deliver(n) =>
      var k := if n < |l.pending| then n else |l.pending|;
      Line(l.pending[k..], l.slave.(fifo := PushAll(l.slave.fifo, l.pending[..k])), l.replies)
    case Poll =>
      var it := SlaveMain(l.slave);
      Line(l.pending, it.slave, l.replies + it.sent)
  }

  function HappenAll(l: Line, es: seq<Event>): Line {
    if es == [] then l else Happen(HappenAll(l, es[..|es| - 1]), es[|es| - 1])
  }

  function Delivered(es: seq<Event>): nat {
    if es == [] then 0 else Delivered(es[..|es| - 1]) + if es[|es| - 1].Deliver? then es[|es| - 1].n else 0
  }

  /** The slave runs at least once after n bytes have been delivered. */
  predicate Enough(es: seq<Event>, n: nat) {
    es != [] &&
    var before := es[..|es| - 1];
    Enough(before, n) || (es[|es| - 1].Poll? && Delivered(before) >= n)
  }

  predicate Idle(s: Slave) {
    s.rx.nb == 0 && s.fifo == []
  }

  // ---------------------------------------------------------------- one request

  /** The slave has called back once, for this request, and answered accordingly.  (A second
      argument that the request does not have is whatever the frame held before.) */
  predicate Served(s: Slave, r: Request, l: Line) {
    && |l.slave.calls| == |s.calls| + 1 && l.slave.calls[..|s.calls|] == s.calls
    && var c := l.slave.calls[|s.calls|];
      var a := Receive(s.table, c.cmd, c.arg0, c.arg1);
      && c.cmd == Command(r) && c.arg0 == r.reg && (r.Set? ==> c.arg1 == r.value)
      && l.pending == [] && Idle(l.slave)
      && l.slave.table == a.table && l.replies == Message(ReplyCommand(a), a.arg0, a.arg1)
  }

  /** d bytes of the request are delivered, c of them are in the frame of the slave, and nothing
      else has happened. */
  predicate Underway(s: Slave, r: Request, d: nat, c: nat, l: Line) {
    var m := RequestMessage(r);
    && c <= d <= |m| && c < |m|
    && l.pending == m[d..] && l.replies == []
    && l.slave == s.(rx := FeedAll(s.rx, m[..c]), fifo := m[c..d])
  }

  lemma MessageSize(r: Request)
    ensures |RequestMessage(r)| == if r.Get? then 4 else 5
  {
    hide Crc;
  }

  /** A proper prefix of a message leaves the decoder waiting. */
  lemma PrefixWaits(rx: Rx, r: Request, n: nat)
    requires rx.nb == 0 && n < |RequestMessage(r)|
    ensures var rx' := FeedAll(rx, RequestMessage(r)[..n]); rx'.nb == n && Decode(rx').0.Waiting?
  {
    hide Framed, FeedAll, FrameCrc;
    PrefixIsKept(rx, Command(r), r.reg, Value(r), n);
    FramedShape(Command(r), r.reg, Value(r));
  }

  /** The whole message completes a frame; the piece that completes it is not refused. */
  lemma WholeCompletes(rx: Rx, cmd: Byte, arg0: Byte, arg1: Byte, c: nat)
    requires rx.nb == 0 && c < |Message(cmd, arg0, arg1)|
    ensures var m := Message(cmd, arg0, arg1);
      var rx' := FeedAll(rx, m);
      && rx' == FeedAll(FeedAll(rx, m[..c]), m[c..]) && Complete(rx')
      && PushResult(FeedAll(rx, m[..c]), m[c..]) >= 0
      && Decode(rx').0.Completed? && Decode(rx').0.cmd == cmd
      && (ArgsSize(cmd) >= 1 ==> Decode(rx').0.arg0 == arg0)
      && (ArgsSize(cmd) == 2 ==> Decode(rx').0.arg1 == arg1)
      && Decode(rx').1.nb == 0
  {
    hide Framed, FeedAll, FrameCrc, Crc;
    var m := Message(cmd, arg0, arg1);
    FramedShape(cmd, arg0, arg1);
    assert m[..|m|] == m && m[..c] + m[c..] == m;
    PrefixIsKept(rx, cmd, arg0, arg1, |m|);
    PrefixIsKept(rx, cmd, arg0, arg1, c);
    SameCrc(Framed(cmd, arg0, arg1), FeedAll(rx, m).frame);
    FeedAllConcat(rx, m[..c], m[c..]);
    if c == 0 { assert m[c..][0] == START_OF_FRAME; }
    ResultTellsCompleteness(FeedAll(rx, m[..c]), m[c..]);
  }

  lemma DeliverKeeps(s: Slave, r: Request, d: nat, c: nat, l: Line, n: nat)
    requires Underway(s, r, d, c, l)
    ensures var m := RequestMessage(r);
      Underway(s, r, if d + n < |m| then d + n else |m|, c, Happen(l, Deliver(n)))
  {
    hide FeedAll, RequestMessage, PushAll;
    var m := RequestMessage(r);
    MessageSize(r);
    var k := if n < |m| - d then n else |m| - d;
    Slices(m, c, d, k);
    QueueIffNotFull(m[c..d], m[d..][..k]);
  }

  lemma Slices(m: seq<Byte>, c: nat, d: nat, k: nat)
    requires c <= d && d + k <= |m|
    ensures m[c..d] + m[d..][..k] == m[c..d + k] && m[d..][k..] == m[d + k..] && |m[d..]| == |m| - d
  {
  }

  lemma PollKeeps(s: Slave, r: Request, d: nat, c: nat, l: Line)
    requires s.rx.nb == 0 && Underway(s, r, d, c, l) && d < |RequestMessage(r)|
    ensures Underway(s, r, d, d, Happen(l, Poll))
  {
    hide FeedAll, Message, PushResult;
    var m := RequestMessage(r);
    MessageSize(r);
    PrefixWaits(s.rx, r, c);
    PrefixWaits(s.rx, r, d);
    assert m[c..d][..d - c] == m[c..d] && m[c..d][d - c..] == [];
    assert m[..c] + m[c..d] == m[..d];
    FeedAllConcat(s.rx, m[..c], m[c..d]);
  }

  lemma PollServes(s: Slave, r: Request, c: nat, l: Line)
    requires s.rx.nb == 0 && Underway(s, r, |RequestMessage(r)|, c, l)
    ensures Served(s, r, Happen(l, Poll))
  {
    hide FeedAll, Message, PushResult, Decode, Receive, Framed;
    var m := RequestMessage(r);
    MessageSize(r);
    PrefixWaits(s.rx, r, c);
    WholeCompletes(s.rx, Command(r), r.reg, Value(r), c);
    assert m[c..|m|][..|m| - c] == m[c..] && m[c..|m|][|m| - c..] == [];
  }

  lemma ServedStays(s: Slave, r: Request, l: Line, e: Event)
    requires Served(s, r, l)
    ensures Served(s, r, Happen(l, e))
  {
    hide FeedAll, Message, PushResult, Decode, Receive;
    assert l.replies + [] == l.replies;
  }

  /** However the request is cut into pieces and whenever the slave is polled: it is executed once,
      and answered, as soon as the slave runs after the last byte; before that, nothing happens. */
  lemma {:induction false} RequestIsServedOnce(s: Slave, r: Request, es: seq<Event>) returns (c: nat)
    requires Idle(s)
    ensures var m, l := RequestMessage(r), HappenAll(Line(RequestMessage(r), s, []), es);
      if Enough(es, |m|) then Served(s, r, l)
      else Underway(s, r, if Delivered(es) < |m| then Delivered(es) else |m|, c, l)
  {
    hide FeedAll, Message, Happen, Served, Underway;
    var m := RequestMessage(r);
    if es == [] {
      c := 0;
      NothingYet(s, r);
    } else {
      var n := |es| - 1;
      c := RequestIsServedOnce(s, r, es[..n]);
      var l := HappenAll(Line(m, s, []), es[..n]);
      if Enough(es[..n], |m|) {
        ServedStays(s, r, l, es[n]);
      } else {
        var d := if Delivered(es[..n]) < |m| then Delivered(es[..n]) else |m|;
        match es[n]
        case Deliver(k) => DeliverKeeps(s, r, d, c, l, k);
        case Poll =>
          if d < |m| {
            PollKeeps(s, r, d, c, l);
            c := d;
          } else {
            PollServes(s, r, c, l);
          }
      }
    }
  }

  lemma NothingYet(s: Slave, r: Request)
    requires Idle(s)
    ensures Underway(s, r, 0, 0, Line(RequestMessage(r), s, []))
  {
    hide Message;
    MessageSize(r);
    FeedNothing(s.rx);
  }

  // ---------------------------------------------------------------- a session

  /** A plain array of registers. */
  datatype Reply = Reply(status: Status, value: Byte)

  function ArrayStep(t: Table, r: Request): (Table, Reply) {
    if r.reg as int >= 5 then (t, Reply(InvalidArg, 0))
    else if r.Get? then (t, Reply(NoError, t[r.reg as int]))
    else (t[r.reg as int := r.value], Reply(NoError, 0))
  }

  function ArraySession(t: Table, rs: seq<Request>): (Table, seq<Reply>)
    decreases |rs|
  {
    if rs == [] then (t, [])
    else
      var (t', reply) := ArrayStep(t, rs[0]);
      var (t'', replies) := ArraySession(t', rs[1..]);
      (t'', [reply] + replies)
  }

  /** The decoder of the master, and the slave. */
  datatype World = World(master: Rx, slave: Slave)

  predicate Ready(w: World) {
    w.master.nb == 0 && Idle(w.slave)
  }

  /** proto_master_get and proto_master_set, with the events on the line between the write and the
      one read of the master. */
  function Transaction(w: World, r: Request, es: seq<Event>): (World, Reply) {
    var sent := Rx(Framed(Command(r), r.reg, Value(r)), w.master.nb);
    var l := HappenAll(Line(RequestMessage(r), w.slave, []), es);
    var o := MasterRead(sent, l.replies);
    (World(o.rx, l.slave), Reply(o.status, if r.Get? && o.status == NoError then o.value else 0))
  }

  datatype Exchange = Exchange(request: Request, events: seq<Event>)

  function Session(w: World, xs: seq<Exchange>): (World, seq<Reply>)
    decreases |xs|
  {
    if xs == [] then (w, [])
    else
      var (w', reply) := Transaction(w, xs[0].request, xs[0].events);
      var (w'', replies) := Session(w', xs[1..]);
      (w'', [reply] + replies)
  }

  /** What the commands of the slave mean to the master. */
  function Meaning(cmd: Byte): Status {
    match cmd as int
    case 2 => NoError
    case 3 => PeerErrCrc
    case 4 => InvalidArg
    case _ => ErrProto
  }

  lemma MasterReads(rx: Rx, cmd: Byte, arg0: Byte, arg1: Byte)
    requires rx.nb == 0
    ensures var o := MasterRead(rx, Message(cmd, arg0, arg1));
      o.rx.nb == 0 && o.status == Meaning(cmd) && (ArgsSize(cmd) >= 1 ==> o.value == arg0)
  {
    hide FeedAll, PushResult, Decode, Framed;
    var m := Message(cmd, arg0, arg1);
    assert |m| <= FRAME_MAXSIZE by { MessageFits(cmd, arg0, arg1); }
    WholeCompletes(rx, cmd, arg0, arg1, 0);
    assert m[..0] == [] && m[0..] == m == m[..|m|];
    FeedNothing(rx);
  }

  /** A reply of which only n bytes are there when the master polls: without any it times out, and so it
      does when the header is complete and an argument is missing; but a reply that is cut within or
      right behind the header fails the assertion that it cannot be incomplete. */
  lemma PartOfAReply(rx: Rx, cmd: Byte, arg0: Byte, arg1: Byte, n: nat)
    requires rx.nb == 0 && n < |Message(cmd, arg0, arg1)|
    ensures MasterRead(rx, Message(cmd, arg0, arg1)[..n]).status == if 1 <= n <= 3 then Aborted else Timeout
  {
    hide FeedAll, Framed, FrameCrc, PushResult;
    var m := Message(cmd, arg0, arg1);
    MessageFits(cmd, arg0, arg1);
    FramedShape(cmd, arg0, arg1);
    PrefixIsKept(rx, cmd, arg0, arg1, n);
    assert m[..n][..n] == m[..n];
    if n > 0 {
      assert m[..n][0] == START_OF_FRAME;
      ResultTellsCompleteness(rx, m[..n]);
    }
  }

  lemma MasterUnderstands(rx: Rx, s: Slave, r: Request, l: Line)
    requires rx.nb == 0 && Served(s, r, l)
    ensures var o, (t, reply) := MasterRead(rx, l.replies), ArrayStep(s.table, r);
      && o.rx.nb == 0 && o.status == reply.status && l.slave.table == t
      && (r.Get? && o.status == NoError ==> o.value == reply.value)
  {
    hide MasterRead, Message;
    var c := l.slave.calls[|s.calls|];
    var a := Receive(s.table, c.cmd, c.arg0, c.arg1);
    MasterReads(rx, ReplyCommand(a), a.arg0, a.arg1);
  }

  predicate Answers(c: Call, r: Request) {
    c.cmd == Command(r) && c.arg0 == r.reg && (r.Set? ==> c.arg1 == r.value)
  }

  /** Between a and b the callback was called once for each request, in order. */
  predicate CalledFor(a: seq<Call>, rs: seq<Request>, b: seq<Call>) {
    && |b| == |a| + |rs| && b[..|a|] == a
    && forall i | 0 <= i < |rs| :: Answers(b[|a| + i], rs[i])
  }

  lemma TransactionIsAnArrayStep(w: World, r: Request, es: seq<Event>)
    requires Ready(w) && Enough(es, |RequestMessage(r)|)
    ensures var (w', reply), (t, reply') := Transaction(w, r, es), ArrayStep(w.slave.table, r);
      && Ready(w') && reply == reply' && w'.slave.table == t
      && CalledFor(w.slave.calls, [r], w'.slave.calls)
  {
    hide HappenAll, MasterRead, Framed, Enough, Receive;
    var _ := RequestIsServedOnce(w.slave, r, es);
    var l := HappenAll(Line(RequestMessage(r), w.slave, []), es);
    MasterUnderstands(Rx(Framed(Command(r), r.reg, Value(r)), w.master.nb), w.slave, r, l);
  }

  lemma NoCalls(calls: seq<Call>)
    ensures CalledFor(calls, [], calls)
  {
  }

  lemma CalledForMore(a: seq<Call>, rs: seq<Request>, b: seq<Call>, c: seq<Call>)
    requires rs != [] && CalledFor(a, [rs[0]], b) && CalledFor(b, rs[1..], c)
    ensures CalledFor(a, rs, c)
  {
    assert c[..|a|] == c[..|b|][..|a|];
    assert c[|a|] == c[..|b|][|a|];
    forall i | 0 <= i < |rs|
      ensures Answers(c[|a| + i], rs[i])
    {
      if i == 0 {
        assert Answers(b[|a| + 0], [rs[0]][0]);
      } else {
        assert Answers(c[|b| + (i - 1)], rs[1..][i - 1]);
      }
    }
  }

  function Requests(xs: seq<Exchange>): seq<Request> {
    if xs == [] then [] else [xs[0].request] + Requests(xs[1..])
  }

  /** Over any sequence of gets and sets, with every request cut up and every poll scheduled at
      will, the master gets exactly the answers of a register array with checked bounds, the
      slave ends with its contents, every request is executed exactly once, and both cursors
      are back at zero. */
  lemma {:induction false} SessionIsAnArray(w: World, xs: seq<Exchange>)
    requires Ready(w)
    requires forall i | 0 <= i < |xs| :: Enough(xs[i].events, |RequestMessage(xs[i].request)|)
    ensures var (w', replies), (t, replies') := Session(w, xs), ArraySession(w.slave.table, Requests(xs));
      && replies == replies' && w'.slave.table == t && Ready(w')
      && CalledFor(w.slave.calls, Requests(xs), w'.slave.calls)
    decreases |xs|
  {
    hide Transaction, ArrayStep, Enough, Message, Ready, CalledFor;
    if xs == [] {
      NoCalls(w.slave.calls);
    } else {
      var (w', reply) := Transaction(w, xs[0].request, xs[0].events);
      TransactionIsAnArrayStep(w, xs[0].request, xs[0].events);
      SessionIsAnArray(w', xs[1..]);
      CalledForMore(w.slave.calls, Requests(xs), w'.slave.calls, Session(w', xs[1..]).0.slave.calls);
      assert Requests(xs)[1..] == Requests(xs[1..]);
    }
  }

  // ---------------------------------------------------------------- corrupted messages

  /** A wrong byte that leaves the frame as long as it was, and at its place. */
  predicate Corrupts(cmd: Byte, arg0: Byte, arg1: Byte, i: nat, b: Byte) {
    var m := Message(cmd, arg0, arg1);
    0 < i < |m| && b != m[i] && (i == 2 ==> ArgsSize(b) == ArgsSize(cmd))
  }

  lemma {:induction false} FeedCorrupted(rx: Rx, cmd: Byte, arg0: Byte, arg1: Byte, i: nat, b: Byte, n: nat)
    requires rx.nb == 0 && Corrupts(cmd, arg0, arg1, i, b) && n <= |Message(cmd, arg0, arg1)|
    ensures FeedAll(rx, Message(cmd, arg0, arg1)[i := b][..n]) ==
      var good := FeedAll(rx, Message(cmd, arg0, arg1)[..n]);
      if i < n then good.(frame := good.frame[i := b]) else good
  {
    hide Crc, Framed, FeedAll;
    var m := Message(cmd, arg0, arg1);
    PrefixIsKept(rx, cmd, arg0, arg1, n);
    if n > 0 {
      FeedCorrupted(rx, cmd, arg0, arg1, i, b, n - 1);
      PrefixIsKept(rx, cmd, arg0, arg1, n - 1);
      FramedShape(cmd, arg0, arg1);
      FeedOne(rx, m, n - 1);
      FeedOne(rx, m[i := b], n - 1);
    } else {
      assert m[i := b][..0] == m[..0];
    }
  }

  /** The decoder refuses a corrupted message. */
  lemma CorruptedFrame(rx: Rx, cmd: Byte, arg0: Byte, arg1: Byte, i: nat, b: Byte)
    requires rx.nb == 0 && Corrupts(cmd, arg0, arg1, i, b)
    ensures var m := Message(cmd, arg0, arg1)[i := b];
      var rx' := FeedAll(rx, m);
      Complete(rx') && rx'.nb == |m| && Decode(rx').0.Refused? && PushResult(rx, m) >= 0
  {
    hide Crc, Framed, FeedAll, PushResult;
    var m := Message(cmd, arg0, arg1);
    WholeCompletes(rx, cmd, arg0, arg1, 0);
    assert m[..|m|] == m;
    PrefixIsKept(rx, cmd, arg0, arg1, |m|);
    CorruptionIsRefused(FeedAll(rx, m), i, b);
    FeedCorrupted(rx, cmd, arg0, arg1, i, b, |m|);
    assert (m[i := b])[..|m|] == m[i := b];
    FramedShape(cmd, arg0, arg1);
    assert m[i := b][0] == START_OF_FRAME;
    ResultTellsCompleteness(rx, m[i := b]);
  }

  /** The decoder after a refusal: the report is built in the frame, and the cursor stays. */
  function Reported(rx: Rx): Rx {
    Rx(Framed(CMD_ERR_CRC, rx.frame[1], FrameCrc(rx.frame)), rx.nb)
  }

  /** A corrupted request is not executed: the slave reports the checksum, and the master learns of
      it; but the report stays in the frame of the slave, with the cursor behind the request. */
  lemma CorruptedRequestIsReported(s: Slave, rx: Rx, r: Request, i: nat, b: Byte)
    requires Idle(s) && rx.nb == 0 && Corrupts(Command(r), r.reg, Value(r), i, b)
    ensures var m := RequestMessage(r)[i := b];
      var it := SlaveMain(s.(fifo := m));
      && it.slave == s.(rx := Reported(FeedAll(s.rx, m))) && it.slave.rx.nb == |RequestMessage(r)|
      && MasterRead(rx, it.sent).status == PeerErrCrc
  {
    hide PushResult, Crc, FeedAll, Framed, MasterRead, Message;
    var m: seq<Byte> := RequestMessage(r)[i := b];
    MessageSize(r);
    CorruptedFrame(s.rx, Command(r), r.reg, Value(r), i, b);
    assert m[..|m|] == m && m[|m|..] == [];
    var f := FeedAll(s.rx, m).frame;
    FramedShape(CMD_ERR_CRC, f[1], FrameCrc(f));
    MasterReads(rx, CMD_ERR_CRC, f[1], FrameCrc(f));
  }

  /** A corrupted reply is refused by the master. */
  lemma CorruptedReplyIsRefused(rx: Rx, cmd: Byte, arg0: Byte, arg1: Byte, i: nat, b: Byte)
    requires rx.nb == 0 && Corrupts(cmd, arg0, arg1, i, b)
    ensures MasterRead(rx, Message(cmd, arg0, arg1)[i := b]).status == ErrCrc
  {
    hide PushResult, Crc, FeedAll, Framed, Message;
    var m: seq<Byte> := Message(cmd, arg0, arg1)[i := b];
    assert |m| <= FRAME_MAXSIZE by { MessageFits(cmd, arg0, arg1); }
    CorruptedFrame(rx, cmd, arg0, arg1, i, b);
    assert m[..|m|] == m;
  }

  lemma MessageFits(cmd: Byte, arg0: Byte, arg1: Byte)
    ensures |Message(cmd, arg0, arg1)| <= FRAME_MAXSIZE
  {
  }

  // ---------------------------------------------------------------- after a refused frame

  /** When the slave is ready for another frame: it is, after an iteration, if and only if it has
      not started one, or the frame that is now complete carries the checksum of its bytes. */
  lemma ReadyIffAccepted(s: Slave)
    ensures var (now, ok) := ReadFrame(s);
      SlaveMain(s).slave.rx.nb == 0 <==>
        now.rx.nb == 0 || (ok && Complete(now.rx) && FrameCrc(now.rx.frame) == now.rx.frame[1])
  {
    hide FeedAll, FrameCrc, Receive, Framed, PushResult;
    var n := if s.rx.nb < FRAME_MAXSIZE then FRAME_MAXSIZE - s.rx.nb else 0;
    var k := if n < |s.fifo| then n else |s.fifo|;
    if k > 0 && PushResult(s.rx, s.fifo[..k]) >= 0 { NoOverrun(s.rx, s.fifo[..k]); }
  }

  predicate WithinFrame(rx: Rx) {
    rx.nb <= ARGS_OFFSET || rx.nb <= Length(rx.frame)
  }

  lemma {:induction false} FeedAllStaysWithin(rx: Rx, bytes: seq<Byte>)
    requires WithinFrame(rx)
    ensures WithinFrame(FeedAll(rx, bytes))
  {
    if bytes != [] { FeedAllStaysWithin(rx, bytes[..|bytes| - 1]); }
  }

  /** Bytes are only taken without an error by a decoder that has not gone past its frame. */
  lemma NoOverrun(rx: Rx, bytes: seq<Byte>)
    requires PushResult(rx, bytes) >= 0
    ensures WithinFrame(FeedAll(rx, bytes))
  {
    hide FeedAll;
    if WithinFrame(rx) { FeedAllStaysWithin(rx, bytes); } else { FullIsFull(rx, bytes); }
  }

  /** A complete frame with another checksum stays, whatever its length: three bytes for a command
      nobody knows, four for a read, five for a write. */
  lemma RefusedFrameStays(s: Slave)
    requires ReadFrame(s).1 && Complete(ReadFrame(s).0.rx)
    requires FrameCrc(ReadFrame(s).0.rx.frame) != ReadFrame(s).0.rx.frame[1]
    ensures var now, it := ReadFrame(s).0, SlaveMain(s);
      && it.slave == now.(rx := Reported(now.rx)) && it.slave.rx.nb == Length(now.rx.frame)
      && it.sent == Message(CMD_ERR_CRC, now.rx.frame[1], FrameCrc(now.rx.frame))
  {
    hide FeedAll, PushResult, FrameCrc, Receive, Framed, ReadFrame;
  }

  /** The return value tells whether a frame was answered. */
  lemma AnswersAreReported(s: Slave)
    ensures SlaveMain(s).ret == if SlaveMain(s).sent != [] then 1 else 0
  {
    hide FeedAll, PushResult, FrameCrc, Receive, Framed, ReadFrame;
    NoEmptyMessages();
  }

  lemma NoEmptyMessages()
    ensures forall cmd, arg0, arg1 :: Message(cmd, arg0, arg1) != []
  {
  }

  /** After a refused five-byte frame the slave never reads again: whatever is sent and however
      often it is polled, it executes and answers nothing. */
  lemma {:induction false} RefusedSetIsForever(l: Line, es: seq<Event>)
    requires l.slave.rx.nb == FRAME_MAXSIZE
    ensures var l' := HappenAll(l, es);
      l'.replies == l.replies && l'.slave.table == l.slave.table && l'.slave.calls == l.slave.calls
      && l'.slave.rx == l.slave.rx
  {
    if es != [] {
      var n := |es| - 1;
      RefusedSetIsForever(l, es[..n]);
      assert HappenAll(l, es[..n]).replies + [] == HappenAll(l, es[..n]).replies;
    }
  }

  /** Every get and set of that session then times out and changes nothing. */
  lemma {:induction false} NothingWorksAnyMore(w: World, xs: seq<Exchange>)
    requires w.slave.rx.nb == FRAME_MAXSIZE
    ensures var (w', replies) := Session(w, xs);
      && replies == seq(|xs|, _ => Reply(Timeout, 0))
      && w'.slave.table == w.slave.table && w'.slave.calls == w.slave.calls
    decreases |xs|
  {
    hide FeedAll, PushResult, Decode, Framed, HappenAll, Message;
    if xs != [] {
      RefusedSetIsForever(Line(RequestMessage(xs[0].request), w.slave, []), xs[0].events);
      NothingWorksAnyMore(Transaction(w, xs[0].request, xs[0].events).0, xs[1..]);
    }
  }

  /** One wrong byte in one write request, as long as it does not change the length, and the
      slave is lost for good: all later gets and sets of the master time out. */
  lemma CorruptedSetEndsTheSession(w: World, r: Request, i: nat, b: Byte, xs: seq<Exchange>)
    requires Idle(w.slave) && r.Set? && Corrupts(Command(r), r.reg, Value(r), i, b)
    ensures var w' := w.(slave := SlaveMain(w.slave.(fifo := RequestMessage(r)[i := b])).slave);
      && Session(w', xs).1 == seq(|xs|, _ => Reply(Timeout, 0))
      && Session(w', xs).0.slave.table == w.slave.table && Session(w', xs).0.slave.calls == w.slave.calls
  {
    hide SlaveMain, MasterRead, Session, FeedAll, Framed, Message;
    MessageSize(r);
    CorruptedRequestIsReported(w.slave, Rx([0, 0, 0, 0, 0], 0), r, i, b);
    var w' := w.(slave := SlaveMain(w.slave.(fifo := RequestMessage(r)[i := b])).slave);
    NothingWorksAnyMore(w', xs);
  }

  /** After a refused four-byte frame the slave swallows the next byte, takes its own report for a
      request, and answers once too often. */
  lemma RefusedGetAnswersTwice(s: Slave, received: Byte, computed: Byte)
    requires s.rx == Rx(Framed(CMD_ERR_CRC, received, computed), 4) && s.fifo != []
    ensures var it := SlaveMain(s);
      && it.slave.fifo == s.fifo[1..] && it.slave.rx.nb == 0 && it.slave.table == s.table
      && it.sent == Message(CMD_ERR_ARG, received, 0) && it.slave.calls == s.calls + [Call(CMD_ERR_CRC, received, 0)]
  {
    hide Crc;
    FullIsFull(s.rx, s.fifo[..1]);
  }

  /** One wrong byte in a read request, and whatever byte comes next is lost and answered as a
      request that nobody made. */
  lemma CorruptedGetIsAnsweredTwice(s: Slave, r: Request, i: nat, b: Byte, more: seq<Byte>)
    requires Idle(s) && r.Get? && Corrupts(Command(r), r.reg, Value(r), i, b) && more != []
    ensures var m := RequestMessage(r)[i := b];
      var first := SlaveMain(s.(fifo := m)).slave;
      var it, received := SlaveMain(first.(fifo := more)), FeedAll(s.rx, m).frame[1];
      && it.slave.fifo == more[1..] && it.slave.rx.nb == 0 && it.slave.table == s.table
      && it.sent == Message(CMD_ERR_ARG, received, 0) && it.slave.calls == s.calls + [Call(CMD_ERR_CRC, received, 0)]
  {
    hide SlaveMain, MasterRead, FeedAll, Framed, Message, Crc;
    MessageSize(r);
    CorruptedRequestIsReported(s, Rx([0, 0, 0, 0, 0], 0), r, i, b);
    var m: seq<Byte> := RequestMessage(r)[i := b];
    var f := FeedAll(s.rx, m).frame;
    RefusedGetAnswersTwice(s.(rx := Reported(FeedAll(s.rx, m)), fifo := more), f[1], FrameCrc(f));
  }

  /** After a refused three-byte frame the next byte becomes the argument of the report, and up to
      one more is lost.  The slave gets out of it at once if and only if that byte is the
      checksum it had reported; otherwise it refuses its own report and is where a refused
      read request leaves it. */
  lemma RefusedUnknownTakesOneMore(s: Slave, received: Byte, computed: Byte)
    requires s.rx == Rx(Framed(CMD_ERR_CRC, received, computed), 3) && s.fifo != []
    ensures var it, b := SlaveMain(s), s.fifo[0];
      var f := s.rx.frame[3 := b];
      && it.slave.fifo == s.fifo[if |s.fifo| == 1 then 1 else 2..] && it.slave.table == s.table
      && (it.slave.rx.nb == 0 <==> b == received)
      && (b == received ==>
            it.sent == Message(CMD_ERR_ARG, b, 0) && it.slave.calls == s.calls + [Call(CMD_ERR_CRC, b, 0)])
      && (b != received ==>
            it.slave.rx == Rx(Framed(CMD_ERR_CRC, f[1], FrameCrc(f)), 4) && it.slave.calls == s.calls)
  {
    hide Crc, Framed, FeedAll, PushResult, FrameCrc;
    var k := if |s.fifo| == 1 then 1 else 2;
    var b, buf := s.fifo[0], s.fifo[..k];
    var f: Frame := s.rx.frame[3 := b];
    ReportShape(received, computed);
    TakesOne(s.rx, buf);
    ReportIsAcceptedIff(received, computed, b);
    assert ReadFrame(s) == (s.(rx := Rx(f, 4), fifo := s.fifo[k..]), true);
  }

  lemma ReportShape(received: Byte, computed: Byte)
    ensures var f := Framed(CMD_ERR_CRC, received, computed);
      f[2] == CMD_ERR_CRC && f[3] == received && f[4] == 0 && Length(f) == 4
  {
    hide Crc;
  }

  /** The byte after a header completes a frame with one argument; a second one is dropped. */
  lemma TakesOne(rx: Rx, buf: seq<Byte>)
    requires rx.nb == 3 && Length(rx.frame) == 4 && 1 <= |buf| <= 2
    ensures FeedAll(rx, buf) == Rx(rx.frame[3 := buf[0]], 4) && PushResult(rx, buf) == 1
  {
    hide FeedAll;
    FeedNothing(rx);
    assert buf[..0] == [] && buf[..|buf|] == buf;
    FeedOne(rx, buf, 0);
    if |buf| == 2 { FeedOne(rx, buf, 1); }
  }

  lemma ReportIsAcceptedIff(received: Byte, computed: Byte, b: Byte)
    ensures var f := Framed(CMD_ERR_CRC, received, computed)[3 := b];
      FrameCrc(f) == f[1] <==> b == received
  {
    hide Crc, Framed;
    ReportShape(received, computed);
    var f := Framed(CMD_ERR_CRC, received, computed);
    if b == received {
      assert f[3 := b] == f;
    } else {
      OneByteChangesCrc(f[2..4], 1, b);
      assert f[3 := b][2..4] == f[2..4][1 := b];
    }
  }
}
