/** ezusb_load_ram: the loops over the lines of the image and over the control transfers, against
    HexImage. */
module HexLoader {
  import opened HexImage

  const ERROR_IO := -5
  const ERROR_INVAL := -22
  const LIBUSB_ERROR_TIMEOUT := -7
  const RETRY_LIMIT := 5

  /** The answers to control transfers; the device may disappear when its processor is started. */
  datatype Answer = Done | IoError | TimedOut | OtherError

  /** What has reached the device. */
  datatype Event = CpuStopped | CpuStarted | Wrote(segment: Segment, external: bool)

  datatype Device = Device(log: seq<Event>, transfers: nat)

  datatype Mode = InternalOnly | SkipInternal | SkipExternal

  type Environment = nat -> Answer

  // ---------------------------------------------------------------- what should happen

  /** Refused segments are an error, skipped ones are not; a write that fails is not tried again. */
  function Poke(env: Environment, mode: Mode, chip: Chip, d: Device, s: Segment): (Device, int) {
    var external := IsExternal(chip, s.addr, |s.data|);
    if mode.InternalOnly? && external then (d, ERROR_INVAL)
    else if (mode.SkipInternal? && !external) || (mode.SkipExternal? && external) then (d, 0)
    else if env(d.transfers).Done? then (Device(d.log + [Wrote(s, external)], d.transfers + 1), 0)
    else (d.(transfers := d.transfers + 1), ERROR_IO)
  }

  /** All segments, up to the first failure. */
  function PokeAll(env: Environment, mode: Mode, chip: Chip, d: Device, ss: seq<Segment>): (Device, bool) {
    if ss == [] then (d, true)
    else
      var (d', ok) := PokeAll(env, mode, chip, d, ss[..|ss| - 1]);
      if !ok then (d', false)
      else var (d'', rc) := Poke(env, mode, chip, d', ss[|ss| - 1]); (d'', rc >= 0)
  }

  lemma {:induction false} PokeAllConcat(env: Environment, mode: Mode, chip: Chip, d: Device,
                                         a: seq<Segment>, b: seq<Segment>)
    ensures var (d', ok) := PokeAll(env, mode, chip, d, a);
      PokeAll(env, mode, chip, d, a + b) == if ok then PokeAll(env, mode, chip, d', b) else (d', false)
  {
    hide Poke;
    if b == [] {
      assert a + b == a;
    } else {
      PokeAllConcat(env, mode, chip, d, a, b[..|b| - 1]);
      assert (a + b)[..|a + b| - 1] == a + b[..|b| - 1];
    }
  }

  function Writes(ss: seq<Segment>, external: bool): seq<Event> {
    if ss == [] then [] else Writes(ss[..|ss| - 1], external) + [Wrote(ss[|ss| - 1], external)]
  }

  /** From one log to another: a part of the expected events from the front, or all of them. */
  predicate Progress(before: seq<Event>, after: seq<Event>, expected: seq<Event>, all: bool) {
    before <= after && after[|before|..] <= expected && (all ==> after == before + expected)
  }

  lemma ProgressMore(before: seq<Event>, after: seq<Event>, expected: seq<Event>, more: seq<Event>, all: bool)
    requires Progress(before, after, expected, all)
    ensures Progress(before, after, expected + more, all && more == [])
    ensures all ==> Progress(before, after + more, expected + more, true)
  {
    if more == [] { assert expected + more == expected; }
    if all { assert (after + more)[|before|..] == expected + more; }
  }

  lemma PartRound(chip: Chip, ss: seq<Segment>, s: Segment, e: bool)
    ensures var part := Part(chip, ss, e);
      if IsExternal(chip, s.addr, |s.data|) == e
      then Part(chip, ss + [s], e) == part + [s] && Writes(part + [s], e) == Writes(part, e) + [Wrote(s, e)]
      else Part(chip, ss + [s], e) == part
  {
    hide IsExternal;
    assert (ss + [s])[..|ss|] == ss;
    assert (Part(chip, ss, e) + [s])[..|Part(chip, ss, e)|] == Part(chip, ss, e);
  }

  /** One pass writes the segments of one kind, in order, or a part of them from the front. */
  lemma {:induction false} PassWritesOnePart(env: Environment, mode: Mode, chip: Chip, d: Device, ss: seq<Segment>)
    ensures var (d', ok), e := PokeAll(env, mode, chip, d, ss), mode.SkipInternal?;
      && Progress(d.log, d'.log, Writes(Part(chip, ss, e), e), ok)
      && (ok && mode.InternalOnly? ==> Part(chip, ss, true) == [])
  {
    hide IsExternal, Progress, Part, Writes;
    var e := mode.SkipInternal?;
    if ss == [] {
      NoProgress(d.log, chip, e);
    } else {
      var n := |ss| - 1;
      PassWritesOnePart(env, mode, chip, d, ss[..n]);
      assert ss[..n] + [ss[n]] == ss;
      PartRound(chip, ss[..n], ss[n], e);
      PartRound(chip, ss[..n], ss[n], true);
      var (d', ok) := PokeAll(env, mode, chip, d, ss[..n]);
      ProgressMore(d.log, d'.log, Writes(Part(chip, ss[..n], e), e), [Wrote(ss[n], e)], ok);
      ProgressMore(d.log, d'.log, Writes(Part(chip, ss[..n], e), e), [], ok);
      LessThanAll(d.log, d'.log, Writes(Part(chip, ss[..n], e), e), ok);
    }
  }

  lemma NoProgress(log: seq<Event>, chip: Chip, e: bool)
    ensures Progress(log, log, Writes(Part(chip, [], e), e), true) && Part(chip, [], true) == []
  {
    assert log + [] == log;
  }

  lemma LessThanAll(before: seq<Event>, after: seq<Event>, expected: seq<Event>, all: bool)
    requires Progress(before, after, expected, all)
    ensures Progress(before, after, expected, false)
  {
  }

  /** The whole load: in one stage the on-chip segments are written while the processor is stopped; in
      two stages the external ones are written first, while the second-stage loader is running. */
  function Expected(chip: Chip, stage: bool, ss: seq<Segment>): seq<Event> {
    (if stage then Writes(Part(chip, ss, true), true) else [])
    + [CpuStopped] + Writes(Part(chip, ss, false), false) + [CpuStarted]
  }

  /** The segments that were written, in order. */
  function Loaded(events: seq<Event>): seq<Segment> {
    if events == [] then []
    else
      var e := events[|events| - 1];
      Loaded(events[..|events| - 1]) + if e.Wrote? then [e.segment] else []
  }

  lemma {:induction false} LoadedConcat(a: seq<Event>, b: seq<Event>)
    ensures Loaded(a + b) == Loaded(a) + Loaded(b)
  {
    if b == [] {
      assert a + b == a;
    } else {
      LoadedConcat(a, b[..|b| - 1]);
      assert (a + b)[..|a + b| - 1] == a + b[..|b| - 1];
    }
  }

  lemma {:induction false} LoadedWrites(ss: seq<Segment>, external: bool)
    ensures Loaded(Writes(ss, external)) == ss
  {
    if ss != [] {
      LoadedWrites(ss[..|ss| - 1], external);
      assert ss == ss[..|ss| - 1] + [ss[|ss| - 1]];
    }
  }

  lemma LoadedExpected(chip: Chip, stage: bool, ss: seq<Segment>)
    ensures Loaded(Expected(chip, stage, ss)) == (if stage then Part(chip, ss, true) else []) + Part(chip, ss, false)
  {
    hide Part, Writes;
    var x, y := if stage then Writes(Part(chip, ss, true), true) else [], Writes(Part(chip, ss, false), false);
    LoadedConcat(x + [CpuStopped] + y, [CpuStarted]);
    LoadedConcat(x + [CpuStopped], y);
    LoadedConcat(x, [CpuStopped]);
    LoadedWrites(Part(chip, ss, true), true);
    LoadedWrites(Part(chip, ss, false), false);
    assert Loaded([CpuStopped]) == Loaded([CpuStarted]) == [];
  }

  /** The events of a successful load write every segment exactly once, and leave the memory with the
      bytes of the records at their addresses. */
  lemma LoadStoresTheImage(chip: Chip, stage: bool, lines: seq<Line>, mem: map<nat, byte>)
    requires Ending(lines) == 0 && (stage || Part(chip, Segments(lines), true) == [])
    requires Aligned(Records(lines)) && Consistent(RecordWrites(Records(lines)))
    ensures var loaded := Loaded(Expected(chip, stage, Segments(lines)));
      && multiset(loaded) == multiset(Segments(lines))
      && Store(mem, SegmentWrites(loaded)) == Store(mem, RecordWrites(Records(lines)))
  {
    hide Segments, Part, Aligned, Consistent, Store, SegmentWrites, RecordWrites, Expected, Loaded;
    var ss := Segments(lines);
    LoadedExpected(chip, stage, ss);
    PartsMakeTheWhole(chip, ss);
    TwoPassesStoreTheImage(chip, lines, mem);
  }

  /** On-chip memory is only written while the processor is stopped. */
  predicate Stopped(events: seq<Event>) {
    events != [] &&
    match events[|events| - 1]
    case CpuStopped => true
    case CpuStarted => false
    case Wrote(_, _) => Stopped(events[..|events| - 1])
  }

  lemma {:induction false} StoppedDuring(before: seq<Event>, ss: seq<Segment>, k: nat)
    requires k <= |ss| && |Writes(ss, false)| == |ss|
    ensures Stopped(before + [CpuStopped] + Writes(ss, false)[..k])
  {
    var events := before + [CpuStopped] + Writes(ss, false)[..k];
    if k == 0 {
      assert events == before + [CpuStopped];
    } else {
      StoppedDuring(before, ss, k - 1);
      assert events[..|events| - 1] == before + [CpuStopped] + Writes(ss, false)[..k - 1];
      IsWrote(ss, false, k - 1);
      assert events[|events| - 1] == Writes(ss, false)[k - 1];
    }
  }

  lemma {:induction false} IsWrote(ss: seq<Segment>, external: bool, i: nat)
    requires i < |ss|
    ensures |Writes(ss, external)| == |ss| && Writes(ss, external)[i] == Wrote(ss[i], external)
  {
    if i < |ss| - 1 { IsWrote(ss[..|ss| - 1], external, i); } else { WritesSize(ss[..|ss| - 1], external); }
  }

  lemma {:induction false} WritesSize(ss: seq<Segment>, external: bool)
    ensures |Writes(ss, external)| == |ss|
  {
    if ss != [] { WritesSize(ss[..|ss| - 1], external); }
  }

  /** Each on-chip write of a load happens while the processor is stopped. */
  lemma OnChipWritesAreSafe(chip: Chip, stage: bool, ss: seq<Segment>, i: nat)
    requires i < |Expected(chip, stage, ss)|
    requires Expected(chip, stage, ss)[i].Wrote? && !Expected(chip, stage, ss)[i].external
    ensures Stopped(Expected(chip, stage, ss)[..i])
  {
    hide Part, Writes, Stopped;
    var before := if stage then Writes(Part(chip, ss, true), true) else [];
    var part := Part(chip, ss, false);
    WritesSize(Part(chip, ss, true), true);
    WritesSize(part, false);
    if i < |before| {
      IsWrote(Part(chip, ss, true), true, i);
    } else {
      var k := i - |before| - 1;
      StoppedDuring(before, part, k);
      assert Expected(chip, stage, ss)[..i] == before + [CpuStopped] + Writes(part, false)[..k];
    }
  }

  /** The second-stage loader runs while external memory is written; in the end the processor is started,
      for the first time in the whole load. */
  lemma LoaderRunsMeanwhile(chip: Chip, stage: bool, ss: seq<Segment>, i: nat)
    requires i < |Expected(chip, stage, ss)|
    ensures var e := Expected(chip, stage, ss);
      && (e[i].Wrote? && e[i].external ==> CpuStopped !in e[..i])
      && (e[i].CpuStarted? <==> i == |e| - 1)
  {
    hide Part, Writes;
    var before := if stage then Writes(Part(chip, ss, true), true) else [];
    var part := Part(chip, ss, false);
    WritesSize(Part(chip, ss, true), true);
    WritesSize(part, false);
    var e := Expected(chip, stage, ss);
    forall j | 0 <= j < |before|
      ensures e[j].Wrote?
    {
      IsWrote(Part(chip, ss, true), true, j);
    }
    if |before| < i < |e| - 1 { IsWrote(part, false, i - |before| - 1); }
  }

  /** How the expected events begin, step by step. */
  lemma Order(chip: Chip, stage: bool, ss: seq<Segment>)
    ensures var e := Expected(chip, stage, ss);
      var x, y := Writes(Part(chip, ss, true), true), Writes(Part(chip, ss, false), false);
      && [] <= e
      && (!stage ==> [] + [CpuStopped] <= e && [] + [CpuStopped] + y <= e && [] + [CpuStopped] + y + [CpuStarted] == e)
      && (stage ==> [] + x <= e && [] + x + [CpuStopped] <= e)
      && (stage ==> [] + x + [CpuStopped] + y <= e && [] + x + [CpuStopped] + y + [CpuStarted] == e)
  {
    hide Part, Writes;
    var x, y := Writes(Part(chip, ss, true), true), Writes(Part(chip, ss, false), false);
    assert [] + x == x;
  }

  ghost predicate AllDone(env: Environment) {
    forall k :: env(k).Done?
  }

  lemma {:induction false} PokeAllSucceeds(env: Environment, mode: Mode, chip: Chip, d: Device, ss: seq<Segment>)
    requires AllDone(env) && (mode.InternalOnly? ==> Part(chip, ss, true) == [])
    ensures PokeAll(env, mode, chip, d, ss).1
  {
    hide IsExternal, Part, Writes, Poke, AllDone;
    if ss != [] {
      var before, s := ss[..|ss| - 1], ss[|ss| - 1];
      assert before + [s] == ss;
      PartRound(chip, before, s, true);
      PokeAllSucceeds(env, mode, chip, d, before);
      PokeSucceeds(env, mode, chip, PokeAll(env, mode, chip, d, before).0, s);
    }
  }

  lemma PokeSucceeds(env: Environment, mode: Mode, chip: Chip, d: Device, s: Segment)
    requires AllDone(env) && (mode.InternalOnly? ==> !IsExternal(chip, s.addr, |s.data|))
    ensures Poke(env, mode, chip, d, s).1 >= 0
  {
    hide IsExternal;
  }

  /** Events that were made, of the ones that are expected. */
  lemma DoneSoFar(before: seq<Event>, done: seq<Event>, expected: seq<Event>)
    requires done <= expected
    ensures Progress(before, before + done, expected, false)
    ensures done == expected ==> Progress(before, before + done, expected, true)
  {
  }

  lemma PassExtends(before: seq<Event>, done: seq<Event>, part: seq<Event>, expected: seq<Event>,
                    after: seq<Event>, all: bool)
    requires done + part <= expected && Progress(before + done, after, part, all)
    ensures Progress(before, after, expected, false)
    ensures all ==> after == before + (done + part)
  {
    var made := after[|before + done|..];
    assert after == (before + done) + made == before + (done + made);
    assert after[|before|..] == done + made;
    assert made == part[..|made|];
    assert done + made == (done + part)[..|done| + |made|] == expected[..|done| + |made|];
  }

  // ---------------------------------------------------------------- the lines that are left

  /** rs are the records of the lines before these. */
  ghost predicate ReadUpTo(lines: seq<Line>, i: nat, rs: seq<Record>) {
    i <= |lines| && Records(lines) == rs + Records(lines[i..]) && Ending(lines) == Ending(lines[i..])
  }

  lemma ReadNothing(lines: seq<Line>)
    ensures ReadUpTo(lines, 0, [])
  {
    assert lines[0..] == lines;
    assert [] + Records(lines) == Records(lines);
  }

  lemma ReadNext(lines: seq<Line>, i: nat, rs: seq<Record>)
    requires ReadUpTo(lines, i, rs)
    ensures i == |lines| ==> Records(lines) == rs && Ending(lines) == 0
    ensures i < |lines| ==>
      match lines[i]
      case Comment => ReadUpTo(lines, i + 1, rs)
      case Garbage => Records(lines) == rs && Ending(lines) == NOT_IHEX
      case Hex(off, kind, len, data) =>
        if kind == 1 then Records(lines) == rs && Ending(lines) == 0
        else if kind != 0 then Records(lines) == rs && Ending(lines) == UNSUPPORTED_TYPE
        else if |data| < len then Records(lines) == rs && Ending(lines) == TOO_SHORT
        else ReadUpTo(lines, i + 1, rs + [Record(off, data[..len])])
  {
    var rest := lines[i..];
    assert rs + [] == rs;
    if i < |lines| {
      assert rest[1..] == lines[i + 1..];
      match lines[i] {
        case Hex(off, kind, len, data) =>
          if kind == 0 && |data| >= len {
            var r := Record(off, data[..len]);
            assert rs + ([r] + Records(rest[1..])) == (rs + [r]) + Records(rest[1..]);
          }
        case _ =>
      }
    }
  }

  lemma {:induction false} FlushedFirst(rs: seq<Record>, more: seq<Record>)
    ensures Flushed(rs) <= Flushed(rs + more)
  {
    hide MustFlush, Flush;
    if more == [] {
      assert rs + more == rs;
    } else {
      var n := |more| - 1;
      FlushedFirst(rs, more[..n]);
      assert (rs + more)[..|rs + more| - 1] == rs + more[..n];
    }
  }

  /** A failure on the way is a failure of the whole. */
  lemma FailsEarly(env: Environment, mode: Mode, chip: Chip, d: Device, lines: seq<Line>, i: nat, rs: seq<Record>)
    requires ReadUpTo(lines, i, rs) && !PokeAll(env, mode, chip, d, Flushed(rs)).1
    ensures PokeAll(env, mode, chip, d, Segments(lines)) == PokeAll(env, mode, chip, d, Flushed(rs))
  {
    hide PokeAll, Flush, Flushed, Buffered;
    FlushedFirst(rs, Records(lines[i..]));
    var a, whole := Flushed(rs), Segments(lines);
    assert a <= whole;
    assert whole == a + whole[|a|..];
    PokeAllConcat(env, mode, chip, d, a, whole[|a|..]);
  }

  lemma NothingFlushed(env: Environment, mode: Mode, chip: Chip, d: Device)
    ensures PokeAll(env, mode, chip, d, Flushed([])) == (d, true) && Buffered([]) == EMPTY
  {
  }

  lemma FlushIs(b: Buffer)
    ensures b.data != [] ==> Flush(b) == [Segment(b.addr, b.data)]
  {
  }

  lemma PokeOneMore(env: Environment, mode: Mode, chip: Chip, d: Device, ss: seq<Segment>, s: Segment)
    ensures var (d', ok) := PokeAll(env, mode, chip, d, ss);
      PokeAll(env, mode, chip, d, ss + [s]) ==
        if !ok then (d', false) else (Poke(env, mode, chip, d', s).0, Poke(env, mode, chip, d', s).1 >= 0)
  {
    hide Poke;
    assert (ss + [s])[..|ss|] == ss;
  }

  lemma NothingToFlush(b: Buffer)
    ensures b.data == [] ==> Flush(b) == []
  {
  }

  // ---------------------------------------------------------------- the code

  /** The buffer of parse_ihex with its address and length. */
  class MergeBuffer {
    const data: array<byte>
    var addr: nat
    var len: nat
    var first: bool

    ghost predicate Valid()
      reads this, data
    {
      data.Length == BUFFER_SIZE && len <= BUFFER_SIZE
    }

    ghost function View(): Buffer
      reads this, data
      requires Valid()
    {
      Buffer(first, addr, data[..len])
    }

    constructor ()
      ensures Valid() && fresh(data) && View() == EMPTY
    {
      data := new byte[BUFFER_SIZE](_ => 0);
      addr, len, first := 0, 0, true;
    }

    method Append(bytes: Bytes)
      requires Valid() && len + |bytes| <= BUFFER_SIZE
      modifies data, `len
      ensures Valid() && View() == old(View()).(data := old(View()).data + bytes)
    {
      var idx := 0;
      while idx < |bytes|
        invariant 0 <= idx <= |bytes| && Valid() && len + |bytes| <= BUFFER_SIZE
        invariant data[..len + idx] == old(data[..len]) + bytes[..idx]
      {
        data[len + idx] := bytes[idx];
        idx := idx + 1;
      }
      len := len + |bytes|;
      assert bytes[..idx] == bytes;
    }
  }

  /** What ezusb_write makes of the answer to its transfer: every failure is an input/output
      error, a timeout too. */
  function WriteCode(a: Answer): int {
    if a.Done? then 0 else ERROR_IO
  }

  /** The code that the loop of ram_poke waits for can be reported. */
  ghost predicate MayTimeOut() {
    exists a :: WriteCode(a) == LIBUSB_ERROR_TIMEOUT
  }

  lemma TimedOutWith(a: Answer)
    requires WriteCode(a) == LIBUSB_ERROR_TIMEOUT
    ensures MayTimeOut()
  {
  }

  lemma WriteNeverTimesOut()
    ensures !MayTimeOut()
  {
  }

  lemma WriteReports(a: Answer)
    ensures WriteCode(a) == if a.Done? then 0 else ERROR_IO
  {
  }

  class Loader {
    const env: Environment
    const chip: Chip
    var mode: Mode
    var transfers: nat
    ghost var log: seq<Event>

    ghost function View(): Device
      reads this
    {
      Device(log, transfers)
    }

    constructor (env: Environment, chip: Chip)
      ensures this.env == env && this.chip == chip && View() == Device([], 0)
    {
      this.env, this.chip := env, chip;
      mode, transfers, log := InternalOnly, 0, [];
    }

    method ControlTransfer(ghost effect: Event) returns (a: Answer)
      modifies `transfers, `log
      ensures a == env(old(transfers)) && transfers == old(transfers) + 1
      ensures log == if a.Done? || (a.IoError? && effect.CpuStarted?) then old(log) + [effect] else old(log)
    {
      a := env(transfers);
      transfers := transfers + 1;
      if a.Done? || (a.IoError? && effect.CpuStarted?) { log := log + [effect]; }
    }

    /** Every failure is reported as an input/output error. */
    method EzusbWrite(addr: nat, external: bool, data: Bytes) returns (rc: int)
      modifies `transfers, `log
      ensures rc == WriteCode(env(old(transfers))) && transfers == old(transfers) + 1
      ensures log == if env(old(transfers)).Done? then old(log) + [Wrote(Segment(addr, data), external)] else old(log)
    {
      var a := ControlTransfer(Wrote(Segment(addr, data), external));
      rc := WriteCode(a);
    }

    /** ram_poke.  Its loop would try again after a timeout, up to RETRY_LIMIT times; but the write
        reports every failure as an input/output error, so there is at most one attempt. */
    method RamPoke(addr: nat, external: bool, data: Bytes) returns (rc: int)
      requires external == IsExternal(chip, addr, |data|)
      modifies `transfers, `log
      ensures (View(), rc) == Poke(env, mode, chip, old(View()), Segment(addr, data))
      ensures transfers <= old(transfers) + 1
    {
      hide WriteCode, MayTimeOut;
      var retry := 0;
      match mode {
        case InternalOnly => if external { return ERROR_INVAL; }
        case SkipInternal => if !external { return 0; }
        case SkipExternal => if external { return 0; }
      }
      while true
        invariant 0 <= retry <= RETRY_LIMIT
        invariant retry == 0 ==> View() == old(View())
        invariant retry > 0 ==> MayTimeOut()
        decreases RETRY_LIMIT - retry
      {
        ghost var answer := env(transfers);
        rc := EzusbWrite(addr, external, data);
        if rc >= 0 || retry >= RETRY_LIMIT { break; }
        if rc != LIBUSB_ERROR_TIMEOUT { break; }
        TimedOutWith(answer);
        retry := retry + 1;
      }
      WriteNeverTimesOut();
      WriteReports(env(old(transfers)));
    }

    /** The flush of parse_ihex: the buffered bytes are handed to ram_poke. */
    method FlushBuffer(buffer: MergeBuffer, ghost d: Device, ghost ss: seq<Segment>) returns (rc: int)
      requires buffer.Valid() && buffer.len > 0 && PokeAll(env, mode, chip, d, ss) == (View(), true)
      modifies `transfers, `log
      ensures (View(), rc >= 0) == PokeAll(env, mode, chip, d, ss + Flush(buffer.View()))
    {
      hide Poke, PokeAll, Flush;
      var addr, data := buffer.addr, buffer.data[..buffer.len];
      var external := IsExternal(chip, addr, |data|);
      FlushIs(buffer.View());
      PokeOneMore(env, mode, chip, d, ss, Segment(addr, data));
      rc := RamPoke(addr, external, data);
    }

    /** One data record of parse_ihex. */
    method AddRecord(buffer: MergeBuffer, off: nat, bytes: Data, ghost d: Device, ghost rs: seq<Record>)
      returns (ok: bool)
      requires buffer.Valid() && buffer.View() == Buffered(rs)
      requires PokeAll(env, mode, chip, d, Flushed(rs)) == (View(), true)
      modifies `transfers, `log, buffer, buffer.data
      ensures PokeAll(env, mode, chip, d, Flushed(rs + [Record(off, bytes)])) == (View(), ok)
      ensures ok ==> buffer.Valid() && buffer.View() == Buffered(rs + [Record(off, bytes)])
    {
      hide PokeAll, Buffered, Flushed;
      OneRound(rs, Record(off, bytes));
      assert Flushed(rs) + [] == Flushed(rs);
      if buffer.first {
        buffer.addr := off;
        buffer.first := false;
      }
      if buffer.len != 0 && (off != buffer.addr + buffer.len || buffer.len + |bytes| > BUFFER_SIZE) {
        var rc := FlushBuffer(buffer, d, Flushed(rs));
        if rc < 0 { return false; }
        buffer.addr := off;
        buffer.len := 0;
      }
      buffer.Append(bytes);
      ok := true;
    }

    /** parse_ihex. */
    method ParseIhex(lines: seq<Line>) returns (rc: int)
      modifies `transfers, `log
      ensures var (d, ok) := PokeAll(env, mode, chip, old(View()), Segments(lines));
        View() == d && rc == if ok then Ending(lines) else -1
    {
      hide PokeAll, Buffered, Flushed, ReadUpTo, Flush;
      ghost var d, rs := View(), [];
      var buffer := new MergeBuffer();
      var i := 0;
      ReadNothing(lines);
      NothingFlushed(env, mode, chip, d);
      while i < |lines|
        invariant 0 <= i <= |lines| && ReadUpTo(lines, i, rs)
        invariant fresh(buffer) && fresh(buffer.data) && buffer.Valid() && buffer.View() == Buffered(rs)
        invariant PokeAll(env, mode, chip, d, Flushed(rs)) == (View(), true)
      {
        ReadNext(lines, i, rs);
        assert Flushed(rs) + [] == Flushed(rs);
        match lines[i] {
          case Comment =>
          case Garbage => return NOT_IHEX;
          case Hex(off, kind, len, data) =>
            if kind == 1 { break; }
            if kind != 0 { return UNSUPPORTED_TYPE; }
            if |data| < len { return TOO_SHORT; }
            var ok := AddRecord(buffer, off, data[..len], d, rs);
            rs := rs + [Record(off, data[..len])];
            if !ok {
              FailsEarly(env, mode, chip, d, lines, i + 1, rs);
              return -1;
            }
        }
        i := i + 1;
      }
      if i == |lines| { ReadNext(lines, i, rs); }
      NothingToFlush(buffer.View());
      assert Flushed(rs) + [] == Flushed(rs);
      rc := 0;
      if buffer.len != 0 {
        rc := FlushBuffer(buffer, d, Flushed(rs));
        if rc < 0 { return -1; }
        rc := 0;
      }
    }

    /** ezusb_cpucs: the device may disappear when its processor is started. */
    method EzusbCpucs(run: bool) returns (ok: bool)
      modifies `transfers, `log
      ensures AllDone(env) ==> ok
      ensures ok <==> env(old(transfers)).Done? || (run && env(old(transfers)).IoError?)
      ensures log == if ok then old(log) + [if run then CpuStarted else CpuStopped] else old(log)
    {
      var a := ControlTransfer(if run then CpuStarted else CpuStopped);
      ok := a.Done? || (run && a.IoError?);
    }

    /** One pass over the image, after the events `done`. */
    method Pass(lines: seq<Line>, ghost before: seq<Event>, ghost done: seq<Event>, ghost expected: seq<Event>)
      returns (ghost ok: bool, status: int)
      requires log == before + done
      requires done + Writes(Part(chip, Segments(lines), mode.SkipInternal?), mode.SkipInternal?) <= expected
      modifies `transfers, `log
      ensures Progress(before, log, expected, false)
      ensures status == if ok then Ending(lines) else -1
      ensures ok ==>
        log == before + (done + Writes(Part(chip, Segments(lines), mode.SkipInternal?), mode.SkipInternal?))
      ensures ok && mode.InternalOnly? ==> Part(chip, Segments(lines), true) == []
      ensures AllDone(env) && (mode.InternalOnly? ==> Part(chip, Segments(lines), true) == []) ==> ok
    {
      hide Progress, Part, PokeAll, Segments, Writes, AllDone;
      ghost var d, ss, e := View(), Segments(lines), mode.SkipInternal?;
      status := ParseIhex(lines);
      ok := PokeAll(env, mode, chip, d, ss).1;
      PassWritesOnePart(env, mode, chip, d, ss);
      PassExtends(before, done, Writes(Part(chip, ss, e), e), expected, log, ok);
      if AllDone(env) && (mode.InternalOnly? ==> Part(chip, ss, true) == []) {
        PokeAllSucceeds(env, mode, chip, d, ss);
      }
    }

    /** ezusb_load_ram for an Intel HEX image and a chip before the FX3.  Whatever fails, the device
        has seen a part of the expected events from the front; a successful load has made all
        of them; and nothing fails unless a transfer or the image does. */
    method LoadRam(lines: seq<Line>, stage: bool) returns (ret: int)
      modifies this
      ensures Progress(old(log), log, Expected(chip, stage, Segments(lines)), ret == 0)
      ensures ret == 0 ==> Ending(lines) == 0 && (stage || Part(chip, Segments(lines), true) == [])
      ensures AllDone(env) && Ending(lines) == 0 && (stage || Part(chip, Segments(lines), true) == []) ==> ret == 0
    {
      hide Progress, Part, PokeAll, Segments, Writes, AllDone, Expected, Ending;
      ghost var ss, before := Segments(lines), log;
      ghost var expected := Expected(chip, stage, ss);
      ghost var done := [];
      assert before == before + done;
      Order(chip, stage, ss);
      DoneSoFar(before, done, expected);
      if !stage {
        mode := InternalOnly;
        var ok := EzusbCpucs(false);
        if !ok { return -1; }
        done := done + [CpuStopped];
      } else {
        mode := SkipInternal;
      }
      assert log == before + done;
      var status: int;
      ghost var passed: bool;
      passed, status := Pass(lines, before, done, expected);
      if status < 0 { return status; }
      done := done + Writes(Part(chip, ss, stage), stage);
      if stage {
        mode := SkipExternal;
        DoneSoFar(before, done, expected);
        var ok := EzusbCpucs(false);
        if !ok { return -1; }
        done := done + [CpuStopped];
        assert log == before + done;
        passed, status := Pass(lines, before, done, expected);
        if status < 0 { return status; }
        done := done + Writes(Part(chip, ss, false), false);
      }
      DoneSoFar(before, done, expected);
      var ok := EzusbCpucs(true);
      DoneSoFar(before, done + [CpuStarted], expected);
      assert log == before + (done + [CpuStarted]) || !ok;
      ret := if ok then 0 else -1;
    }
  }
}
