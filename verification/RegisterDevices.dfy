/** The two ends of the register protocol as the C code has them, against RegisterProtocol. */
module RegisterDevices {
  import opened Crc8
  import opened Framing
  import opened Stm32Fifo
  import Spec = RegisterProtocol
  import opened RegisterProtocol

  /** The slave on the board: its protocol handle, its ring buffer and its table of registers. */
  class SlaveDevice {
    const handle: Handle
    const fifo: Fifo
    const myTable: array<Byte>
    ghost var calls: seq<Call>

    ghost predicate Valid()
      reads this, handle, handle.frame, fifo, fifo.buffer, myTable
    {
      && handle.Valid() && fifo.Valid() && myTable.Length == TABLE_LEN
      && handle.frame != fifo.buffer && handle.frame != myTable && fifo.buffer != myTable
    }

    ghost function View(): Slave
      reads this, handle, handle.frame, fifo, fifo.buffer, myTable
      requires Valid()
    {
      Slave(handle.View(), fifo.Contents(), myTable[..], calls)
    }

    constructor ()
      ensures Valid() && View() == Slave(Rx([0, 0, 0, 0, 0], 0), [], [0, 0, 0, 0, 0], [])
      ensures fresh(handle) && fresh(handle.frame) && fresh(fifo) && fresh(fifo.buffer) && fresh(myTable)
    {
      handle := new Handle();
      fifo := new Fifo();
      myTable := new Byte[TABLE_LEN](_ => 0);
      calls := [];
      new;
      assert myTable[..] == [0, 0, 0, 0, 0];
    }

    /** _CDC_Receive_FS_user: bytes arrive from the USB interface. */
    method OnUsbData(bytes: seq<Byte>)
      requires Valid()
      modifies fifo, fifo.buffer
      ensures Valid() && View() == old(View()).(fifo := PushAll(old(View()).fifo, bytes))
    {
      fifo.PushBytes(bytes);
    }

    /** slave_receive. */
    method Callback(command: Byte, arg0: Byte, arg1: Byte) returns (ret: int, out0: Byte)
      requires Valid()
      modifies this, myTable
      ensures Valid()
      ensures var a := Receive(old(myTable[..]), command, arg0, arg1);
        myTable[..] == a.table && out0 == a.arg0 && (ret == 0 <==> a.ok)
      ensures calls == old(calls) + [Call(command, arg0, arg1)]
    {
      calls := calls + [Call(command, arg0, arg1)];
      ret, out0 := 0, arg0;
      if command == CMD_SET {
        if arg0 as int < TABLE_LEN { myTable[arg0 as int] := arg1; } else { ret := -1; }
      } else if command == CMD_GET {
        if arg0 as int < TABLE_LEN { out0 := myTable[arg0 as int]; } else { ret := -1; }
      } else {
        ret := -1;
      }
    }

    /** proto_writeFrame: the frame is made in place and handed to the device. */
    method WriteFrame(command: Byte, arg0: Byte, arg1: Byte) returns (sent: seq<Byte>)
      requires Valid()
      modifies handle.frame
      ensures Valid() && sent == Message(command, arg0, arg1)
      ensures View() == old(View()).(rx := Rx(Framed(command, arg0, arg1), old(View()).rx.nb))
    {
      var n := handle.MakeFrame(command, arg0, arg1);
      sent := handle.frame[..n];
    }

    /** proto_readFrame. */
    method ReadFrame() returns (ok: bool)
      requires Valid()
      modifies handle, handle.frame, fifo
      ensures Valid() && (View(), ok) == Spec.ReadFrame(old(View()))
    {
      hide FeedAll, PushResult, Crc;
      ghost var s := View();
      var buf := fifo.Read(FRAME_MAXSIZE - handle.nbBytes);
      if buf == [] { return false; }
      assert s.fifo[..|buf|] == buf && s.fifo[|buf|..] == fifo.Contents();
      var pushed := handle.PushToFrame(buf);
      ok := pushed >= 0;
    }

    /** proto_slave_main. */
    method Iterate() returns (ret: int, sent: seq<Byte>)
      requires Valid()
      modifies this, handle, handle.frame, fifo, myTable
      ensures Valid() && Iteration(View(), sent, ret) == SlaveMain(old(View()))
    {
      hide Decode, Receive, Framed, Message, Spec.ReadFrame;
      ret, sent := 0, [];
      var ok := ReadFrame();
      if !ok { return; }
      var d := handle.DecodeFrame();
      DecodeKeeps(old(View()));
      match d {
        case Waiting =>
        case Completed(cmd, arg0, arg1) =>
          ReceiveKeepsArg1(myTable[..], cmd, arg0, arg1);
          var r, out0 := Callback(cmd, arg0, arg1);
          sent := WriteFrame(if r == 0 then CMD_REPLY else CMD_ERR_ARG, out0, arg1);
          ret := 1;
        case Refused(received, computed) =>
          sent := WriteFrame(CMD_ERR_CRC, received, computed);
          ret := 1;
      }
    }
  }

  lemma DecodeKeeps(s: Slave)
    ensures var rx := Spec.ReadFrame(s).0.rx;
      && (Decode(rx).0.Completed? ==> Decode(rx).1.nb == 0)
      && (!Decode(rx).0.Completed? ==> Decode(rx).1 == rx)
  {
    hide Spec.ReadFrame, FrameCrc;
  }

  lemma ReceiveKeepsArg1(t: Table, cmd: Byte, arg0: Byte, arg1: Byte)
    ensures Receive(t, cmd, arg0, arg1).arg1 == arg1
  {
  }

  /** The master, over a device that returns `incoming` when it is read. */
  class Master {
    const handle: Handle

    ghost predicate Valid()
      reads handle, handle.frame
    {
      handle.Valid()
    }

    constructor ()
      ensures Valid() && fresh(handle) && fresh(handle.frame) && handle.View().nb == 0
    {
      handle := new Handle();
    }

    /** proto_writeFrame; nothing is read before the device has taken the whole frame. */
    method WriteFrame(command: Byte, arg0: Byte, arg1: Byte) returns (sent: seq<Byte>)
      requires Valid()
      modifies handle.frame
      ensures Valid() && sent == Message(command, arg0, arg1)
      ensures handle.View() == Rx(Framed(command, arg0, arg1), old(handle.View()).nb)
    {
      var n := handle.MakeFrame(command, arg0, arg1);
      sent := handle.frame[..n];
    }

    /** proto_readFrame over a device that holds `incoming`. */
    method Poll(incoming: seq<Byte>) returns (status: Status)
      requires Valid()
      modifies handle, handle.frame
      ensures Valid() && (handle.View(), status) == MasterPoll(old(handle.View()), incoming)
    {
      hide FeedAll, PushResult, Crc;
      var n := FRAME_MAXSIZE - handle.nbBytes;
      var buf := incoming[..if n < |incoming| then n else |incoming|];
      if buf == [] { return Timeout; }
      var pushed := handle.PushToFrame(buf);
      status := if pushed < 0 then Timeout else NoError;
    }

    /** proto_master_readFrame.  `polls` are the bytes that the device holds at each poll that
        still begins before the deadline.  However many there are, the loop ends after the first,
        because its exit test looks at a constant instead of the status. */
    method ReadFrame(polls: seq<seq<Byte>>) returns (status: Status, value: Byte, made: nat)
      requires Valid() && polls != []
      modifies handle, handle.frame
      ensures Valid() && Outcome(status, value, handle.View()) == MasterRead(old(handle.View()), polls[0])
      ensures made == 1
    {
      hide FeedAll, PushResult, Crc, Framed, MasterPoll, LeavesLoop, MayGoOn;
      value, status, made := 0, NoError, 0;
      while true
        invariant Valid() && made < |polls|
        invariant made == 0 ==> handle.View() == old(handle.View())
        invariant made > 0 ==> MayGoOn()
        decreases |polls| - made
      {
        status := Poll(polls[made]);
        made := made + 1;
        if LeavesLoop(status) { break; }
        GoesOn(status);
        if made == |polls| { break; }
      }
      NeverGoesOn();
      if status == NoError {
        var d := handle.DecodeFrame();
        match d {
          case Waiting => status := Aborted;
          case Refused(_, _) => status := ErrCrc;
          case Completed(cmd, arg0, _) =>
            value := arg0;
            if cmd == CMD_REPLY {
              status := NoError;
            } else if cmd == CMD_ERR_CRC {
              status := PeerErrCrc;
            } else if cmd == CMD_ERR_ARG {
              status := InvalidArg;
            } else {
              status := ErrProto;
            }
        }
      }
    }
  }

  /** The value of proto_ERR_SYS. */
  const ERR_SYS := 1

  /** The test that leaves the loop of proto_master_readFrame: its second operand is the constant. */
  predicate LeavesLoop(status: Status) {
    status == NoError || ERR_SYS != 0
  }

  /** Some status lets the loop go on. */
  ghost predicate MayGoOn() {
    exists status :: !LeavesLoop(status)
  }

  lemma GoesOn(status: Status)
    requires !LeavesLoop(status)
    ensures MayGoOn()
  {
  }

  lemma NeverGoesOn()
    ensures !MayGoOn()
  {
  }

  /** proto_master_get and proto_master_set against a real slave: what is on the line in between is
      given by the events, and what reaches the master in time for a second poll by `later`. */
  method Exchange(master: Master, slave: SlaveDevice, request: Request, events: seq<Event>, later: seq<seq<Byte>>)
    returns (reply: Spec.Reply)
    requires master.Valid() && slave.Valid() && Separate(master, slave)
    modifies master.handle, master.handle.frame
    modifies slave, slave.handle, slave.handle.frame, slave.fifo, slave.fifo.buffer, slave.myTable
    ensures master.Valid() && slave.Valid()
    ensures (World(master.handle.View(), slave.View()), reply)
      == Transaction(World(old(master.handle.View()), old(slave.View())), request, events)
  {
    hide FeedAll, PushResult, Crc, Receive, Framed, SlaveMain, MasterRead, PushAll, HappenAll;
    var pending := master.WriteFrame(Command(request), request.reg, Value(request));
    var replies := OnTheLine(slave, pending, events);
    var status, value, _ := master.ReadFrame([replies] + later);
    reply := Reply(status, if request.Get? && status == NoError then value else 0);
  }

  /** What happens between the write and the read of the master. */
  method OnTheLine(slave: SlaveDevice, request: seq<Byte>, events: seq<Event>) returns (replies: seq<Byte>)
    requires slave.Valid()
    modifies slave, slave.handle, slave.handle.frame, slave.fifo, slave.fifo.buffer, slave.myTable
    ensures slave.Valid()
    ensures var l := HappenAll(Line(request, old(slave.View()), []), events);
      slave.View() == l.slave && replies == l.replies
  {
    hide FeedAll, PushResult, Crc, Receive, Framed, SlaveMain, PushAll, HappenAll;
    ghost var line := Line(request, slave.View(), []);
    var pending, i := request, 0;
    replies := [];
    HappenNothing(line);
    while i < |events|
      invariant 0 <= i <= |events| && slave.Valid()
      invariant Line(pending, slave.View(), replies) == HappenAll(line, events[..i])
    {
      HappenNext(line, events, i);
      match events[i] {
        case Deliver(n) =>
          var k := if n < |pending| then n else |pending|;
          slave.OnUsbData(pending[..k]);
          pending := pending[k..];
        case Poll =>
          var _, answer := slave.Iterate();
          replies := replies + answer;
      }
      i := i + 1;
    }
    assert events[..i] == events;
  }

  lemma HappenNext(l: Line, es: seq<Event>, i: nat)
    requires i < |es|
    ensures HappenAll(l, es[..i + 1]) == Happen(HappenAll(l, es[..i]), es[i])
  {
    assert es[..i + 1][..i] == es[..i];
  }

  lemma HappenNothing(l: Line)
    ensures HappenAll(l, []) == l
  {
  }

  /** The two ends share no memory. */
  ghost predicate Separate(master: Master, slave: SlaveDevice) {
    && master.handle != slave.handle
    && master.handle.frame != slave.handle.frame && master.handle.frame != slave.fifo.buffer
    && master.handle.frame != slave.myTable
  }
}
