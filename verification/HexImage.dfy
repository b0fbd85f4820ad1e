/** Intel HEX images as the EZ-USB firmware loader reads them: records are merged into segments,
    and the segments go to on-chip or to external memory. */
module HexImage {

  type byte = x: int | 0 <= x < 256
  type Bytes = seq<byte>

  /** The size of the merge buffer. */
  const BUFFER_SIZE := 1023

  // ---------------------------------------------------------------- lines and records

  /** A line of the file: a comment, something that does not start with a colon, or a record that
      announces `len` bytes and has room for the bytes `data`. */
  datatype Line = Comment | Garbage | Hex(off: nat, kind: int, len: byte, data: Bytes)

  /** The length field has one byte. */
  type Data = d: Bytes | |d| < 256 witness []

  datatype Record = Record(off: nat, data: Data)

  const NOT_IHEX := -2
  const UNSUPPORTED_TYPE := -3
  const TOO_SHORT := -4

  /** How reading ends: at an end record or at the end of the file, or with an error. */
  function Ending(lines: seq<Line>): (r: int)
    ensures r <= 0
  {
    if lines == [] then 0
    else match lines[0]
      case Comment => Ending(lines[1..])
      case Garbage => NOT_IHEX
      case Hex(_, kind, len, data) =>
        if kind == 1 then 0
        else if kind != 0 then UNSUPPORTED_TYPE
        else if |data| < len then TOO_SHORT
        else Ending(lines[1..])
  }

  /** The data records up to there. */
  function Records(lines: seq<Line>): seq<Record> {
    if lines == [] then []
    else match lines[0]
      case Comment => Records(lines[1..])
      case Garbage => []
      case Hex(off, kind, len, data) =>
        if kind != 0 || |data| < len then [] else [Record(off, data[..len])] + Records(lines[1..])
  }

  /** The line is a data record (type 0) with at least the bytes that it announces. */
  predicate Shows(line: Line, r: Record) {
    line.Hex? && line.kind == 0 && line.off == r.off && |r.data| == line.len && r.data <= line.data
  }

  /** The lines show these records in order, with comments anywhere between them. */
  predicate Represents(lines: seq<Line>, rs: seq<Record>)
    decreases |lines|
  {
    if lines == [] then rs == []
    else
      var n := |lines| - 1;
      || (lines[n].Comment? && Represents(lines[..n], rs))
      || (rs != [] && Shows(lines[n], rs[|rs| - 1]) && Represents(lines[..n], rs[..|rs| - 1]))
  }

  /** Such lines are read as those records, whatever follows. */
  lemma {:induction false} LinesInFront(lines: seq<Line>, rs: seq<Record>, rest: seq<Line>)
    requires Represents(lines, rs)
    ensures Records(lines + rest) == rs + Records(rest) && Ending(lines + rest) == Ending(rest)
    decreases |lines|
  {
    if lines == [] {
      assert lines + rest == rest;
    } else {
      var n := |lines| - 1;
      var last := [lines[n]] + rest;
      assert lines + rest == lines[..n] + last && last[1..] == rest;
      if lines[n].Comment? && Represents(lines[..n], rs) {
        LinesInFront(lines[..n], rs, last);
      } else {
        var m := |rs| - 1;
        LinesInFront(lines[..n], rs[..m], last);
        assert lines[n].data[..lines[n].len] == rs[m].data;
        assert rs[..m] + ([rs[m]] + Records(rest)) == rs + Records(rest);
      }
    }
  }

  /** Where reading ends: at the end of the file or at an end record (type 1) without an error; and with
      one at a line that does not start with a colon, at a record of another type, and at one with
      too few bytes. */
  lemma ReadingEnds(rest: seq<Line>)
    requires rest == [] || rest[0].Garbage? || (rest[0].Hex? && (rest[0].kind != 0 || |rest[0].data| < rest[0].len))
    ensures Records(rest) == []
    ensures Ending(rest) ==
      if rest == [] then 0
      else if rest[0].Garbage? then -2
      else if rest[0].kind == 1 then 0
      else if rest[0].kind != 0 then -3
      else -4
  {
  }

  // ---------------------------------------------------------------- merging

  datatype Segment = Segment(addr: nat, data: Bytes)

  /** data_addr and the used part of the buffer; `first` until the first record was read. */
  datatype Buffer = Buffer(first: bool, addr: nat, data: Bytes)

  const EMPTY := Buffer(true, 0, [])

  predicate MustFlush(b: Buffer, r: Record) {
    b.data != [] && (r.off != b.addr + |b.data| || |b.data| + |r.data| > BUFFER_SIZE)
  }

  function Fill(b: Buffer, r: Record): Buffer {
    var addr := if b.first then r.off else b.addr;
    if MustFlush(b.(addr := addr), r) then Buffer(false, r.off, r.data)
    else Buffer(false, addr, b.data + r.data)
  }

  /** The buffer after the records. */
  function Buffered(rs: seq<Record>): (b: Buffer)
    ensures |b.data| <= BUFFER_SIZE && (b.first ==> b == EMPTY)
  {
    if rs == [] then EMPTY else Fill(Buffered(rs[..|rs| - 1]), rs[|rs| - 1])
  }

  function Flush(b: Buffer): seq<Segment> {
    if b.data == [] then [] else [Segment(b.addr, b.data)]
  }

  /** The segments that were handed on while the records were read. */
  function Flushed(rs: seq<Record>): seq<Segment> {
    if rs == [] then []
    else
      var b, r := Buffered(rs[..|rs| - 1]), rs[|rs| - 1];
      Flushed(rs[..|rs| - 1]) + if MustFlush(b, r) then Flush(b) else []
  }

  /** All segments of an image; on an error what is buffered is lost. */
  function Segments(lines: seq<Line>): seq<Segment> {
    Flushed(Records(lines)) + if Ending(lines) == 0 then Flush(Buffered(Records(lines))) else []
  }

  // ---------------------------------------------------------------- what is written where

  datatype Write = Write(addr: nat, value: byte)

  function WritesAt(addr: nat, data: Bytes): (ws: seq<Write>)
    ensures |ws| == |data|
    ensures forall i | 0 <= i < |data| :: ws[i] == Write(addr + i, data[i])
  {
    seq(|data|, i requires 0 <= i < |data| => Write(addr + i, data[i]))
  }

  function RecordWrites(rs: seq<Record>): seq<Write> {
    if rs == [] then [] else RecordWrites(rs[..|rs| - 1]) + WritesAt(rs[|rs| - 1].off, rs[|rs| - 1].data)
  }

  function SegmentWrites(ss: seq<Segment>): seq<Write> {
    if ss == [] then [] else SegmentWrites(ss[..|ss| - 1]) + WritesAt(ss[|ss| - 1].addr, ss[|ss| - 1].data)
  }

  /** Where a reader of the records alone knows the buffer to be: untouched, full up to an address,
      or emptied with a fixed address by a record without data. */
  datatype Where = Untouched | FilledTo(end: nat) | Stuck(addr: nat)

  function Position(rs: seq<Record>): Where {
    if rs == [] then Untouched
    else
      var at, r := Position(rs[..|rs| - 1]), rs[|rs| - 1];
      if r.data != [] then FilledTo(r.off + |r.data|)
      else if at.Stuck? || (at.FilledTo? && r.off == at.end) then at
      else Stuck(r.off)
  }

  /** After a record without data that is out of line, the next one with data starts there too. */
  predicate Aligned(rs: seq<Record>) {
    rs == [] ||
    var at, r := Position(rs[..|rs| - 1]), rs[|rs| - 1];
    Aligned(rs[..|rs| - 1]) && (r.data != [] && at.Stuck? ==> r.off == at.addr)
  }

  predicate Agrees(at: Where, b: Buffer) {
    match at
    case Untouched => b == EMPTY
    case FilledTo(end) => !b.first && b.data != [] && end == b.addr + |b.data|
    case Stuck(addr) => !b.first && b.data == [] && b.addr == addr
  }

  lemma {:induction false} PositionAgrees(rs: seq<Record>)
    requires Aligned(rs)
    ensures Agrees(Position(rs), Buffered(rs))
  {
    if rs != [] {
      var b, r := Buffered(rs[..|rs| - 1]), rs[|rs| - 1];
      PositionAgrees(rs[..|rs| - 1]);
      assert |b.data + r.data| == |b.data| + |r.data|;
    }
  }

  lemma {:induction false} SegmentWritesConcat(a: seq<Segment>, b: seq<Segment>)
    ensures SegmentWrites(a + b) == SegmentWrites(a) + SegmentWrites(b)
  {
    if b == [] {
      assert a + b == a;
    } else {
      var n := |b| - 1;
      SegmentWritesConcat(a, b[..n]);
      assert (a + b)[..|a + b| - 1] == a + b[..n];
      assert (SegmentWrites(a) + SegmentWrites(b[..n])) + WritesAt(b[n].addr, b[n].data)
        == SegmentWrites(a) + (SegmentWrites(b[..n]) + WritesAt(b[n].addr, b[n].data));
    }
  }

  /** What is written by now, and what the buffer will write. */
  function Written(rs: seq<Record>): seq<Write> {
    SegmentWrites(Flushed(rs)) + WritesAt(Buffered(rs).addr, Buffered(rs).data)
  }

  lemma FlushWrites(b: Buffer)
    ensures SegmentWrites(Flush(b)) == WritesAt(b.addr, b.data)
  {
    if b.data != [] {
      assert [Segment(b.addr, b.data)][..0] == [];
      assert [] + WritesAt(b.addr, b.data) == WritesAt(b.addr, b.data);
    }
  }

  /** The address that the last record gets. */
  function Placed(b: Buffer, r: Record): nat {
    if b.data == [] && !b.first then b.addr else r.off
  }

  /** One record more writes its bytes, in order, at its place. */
  lemma OneRecordMore(rs: seq<Record>, r: Record)
    ensures Written(rs + [r]) == Written(rs) + WritesAt(Placed(Buffered(rs), r), r.data)
  {
    hide SegmentWrites, WritesAt, Buffered, Flushed;
    var b := Buffered(rs);
    OneRound(rs, r);
    if MustFlush(b, r) {
      SegmentWritesConcat(Flushed(rs), Flush(b));
      FlushWrites(b);
    } else {
      assert Flushed(rs) + [] == Flushed(rs);
      Split(if b.first then r.off else b.addr, b.data, r.data);
      NoWrites(b.addr);
      Associates(SegmentWrites(Flushed(rs)), WritesAt(b.addr, b.data), WritesAt(Placed(b, r), r.data));
    }
  }

  lemma Associates<T>(a: seq<T>, b: seq<T>, c: seq<T>)
    ensures (a + b) + c == a + (b + c)
  {
  }

  lemma OneRound(rs: seq<Record>, r: Record)
    ensures Buffered(rs + [r]) == Fill(Buffered(rs), r)
    ensures Flushed(rs + [r]) == Flushed(rs) + if MustFlush(Buffered(rs), r) then Flush(Buffered(rs)) else []
  {
    assert (rs + [r])[..|rs|] == rs;
  }

  lemma Split(addr: nat, a: Bytes, b: Bytes)
    ensures WritesAt(addr, a + b) == WritesAt(addr, a) + WritesAt(addr + |a|, b)
  {
  }

  lemma NoWrites(addr: nat)
    ensures WritesAt(addr, []) == []
  {
  }

  lemma SamePieces(a: seq<Write>, b: seq<Write>, x: seq<Write>, y: seq<Write>)
    requires |a| == |b| && |x| == |y|
    ensures a + x == b + y <==> a == b && x == y
  {
    if a + x == b + y {
      assert a == (a + x)[..|a|] == (b + y)[..|b|] == b;
      assert x == (a + x)[|a|..] == (b + y)[|b|..] == y;
    }
  }

  lemma SamePlace(a: nat, b: nat, data: Bytes)
    ensures WritesAt(a, data) == WritesAt(b, data) <==> a == b || data == []
  {
    if data != [] && a != b {
      assert WritesAt(a, data)[0] != WritesAt(b, data)[0];
    }
  }

  /** Merging writes exactly the bytes of the records, at their addresses and in their order, if and
      only if no record with data follows one without that has moved the buffer elsewhere. */
  lemma {:induction false} MergingIsFaithfulIffAligned(rs: seq<Record>)
    ensures |Written(rs)| == |RecordWrites(rs)|
    ensures Written(rs) == RecordWrites(rs) <==> Aligned(rs)
  {
    hide Written, WritesAt, Buffered, Position;
    if rs == [] {
      NothingWritten();
    } else {
      var n := |rs| - 1;
      var b, r := Buffered(rs[..n]), rs[n];
      MergingIsFaithfulIffAligned(rs[..n]);
      OneRecordMore(rs[..n], r);
      assert rs[..n] + [r] == rs;
      SamePieces(Written(rs[..n]), RecordWrites(rs[..n]), WritesAt(Placed(b, r), r.data), WritesAt(r.off, r.data));
      SamePlace(Placed(b, r), r.off, r.data);
      if Aligned(rs[..n]) { PositionAgrees(rs[..n]); }
    }
  }

  lemma NothingWritten()
    ensures Written([]) == []
  {
  }

  /** In particular merging is faithful when every record has data. */
  lemma {:induction false} RecordsWithDataAreAligned(rs: seq<Record>)
    requires forall r | r in rs :: r.data != []
    ensures Aligned(rs) && !Position(rs).Stuck?
  {
    if rs != [] { RecordsWithDataAreAligned(rs[..|rs| - 1]); }
  }

  /** An empty record at the front is enough to move the data that follows it. */
  lemma EmptyRecordMovesData(v: byte)
    ensures Written([Record(0, []), Record(16, [v])]) == [Write(0, v)]
    ensures RecordWrites([Record(0, []), Record(16, [v])]) == [Write(16, v)]
  {
    var a, b := Record(0, []), Record(16, [v]);
    OneRecordMore([], a);
    OneRecordMore([a], b);
    OneRound([], a);
    NothingWritten();
    assert [] + [a] == [a] && [a] + [b] == [a, b];
    hide Written, MustFlush, Flushed;
    assert Buffered([a]) == Fill(EMPTY, a) == Buffer(false, 0, []);
    assert [a, b][..1] == [a] && [a][..0] == [] && RecordWrites([a]) == [];
    assert WritesAt(0, [v]) == [Write(0, v)] && WritesAt(16, [v]) == [Write(16, v)];
  }

  lemma ReadToTheEnd(lines: seq<Line>)
    ensures SegmentWrites(Segments(lines)) <= Written(Records(lines))
    ensures Ending(lines) == 0 ==> SegmentWrites(Segments(lines)) == Written(Records(lines))
  {
    hide SegmentWrites, Flush, WritesAt;
    var rs := Records(lines);
    SegmentWritesConcat(Flushed(rs), Flush(Buffered(rs)));
    FlushWrites(Buffered(rs));
    assert Flushed(rs) + [] == Flushed(rs);
  }

  lemma {:induction false} FlushedFit(rs: seq<Record>)
    ensures forall s | s in Flushed(rs) :: 0 < |s.data| <= BUFFER_SIZE
  {
    if rs != [] { FlushedFit(rs[..|rs| - 1]); }
  }

  /** The image as a whole: without misplaced records, the segments of a file that is read to its end
      write exactly its records; after an error they write a part of them from the front.
      Segments are not empty and fit the buffer. */
  lemma SegmentsWriteTheRecords(lines: seq<Line>)
    requires Aligned(Records(lines))
    ensures SegmentWrites(Segments(lines)) <= RecordWrites(Records(lines))
    ensures Ending(lines) == 0 ==> SegmentWrites(Segments(lines)) == RecordWrites(Records(lines))
    ensures forall s | s in Segments(lines) :: 0 < |s.data| <= 1023
  {
    hide SegmentWrites, RecordWrites, Written, Aligned, Flushed, Buffered;
    MergingIsFaithfulIffAligned(Records(lines));
    ReadToTheEnd(lines);
    FlushedFit(Records(lines));
  }

  /** Of two segments in a row the second one does not go on where the first one ends, unless that had
      no room for one more record. */
  predicate NotMergeable(a: Segment, b: Segment) {
    a.addr + |a.data| == b.addr ==> |a.data| + 255 > 1023
  }

  predicate WellMerged(ss: seq<Segment>) {
    forall k | 0 < k < |ss| :: NotMergeable(ss[k - 1], ss[k])
  }

  /** What has been handed on is well merged, and what is in the buffer does not go on behind it either. */
  predicate MergedSoFar(ss: seq<Segment>, b: Buffer) {
    && WellMerged(ss)
    && (ss != [] ==> !b.first && NotMergeable(ss[|ss| - 1], Segment(b.addr, b.data)))
  }

  lemma {:induction false} RecordsAreMerged(rs: seq<Record>)
    ensures MergedSoFar(Flushed(rs), Buffered(rs))
  {
    hide Buffered, Flushed;
    if rs == [] {
      NothingFlushedYet();
    } else {
      var n := |rs| - 1;
      RecordsAreMerged(rs[..n]);
      OneRound(rs[..n], rs[n]);
      assert rs[..n] + [rs[n]] == rs;
      MergeRound(Flushed(rs[..n]), Buffered(rs[..n]), rs[n]);
    }
  }

  lemma NothingFlushedYet()
    ensures Flushed([]) == []
  {
  }

  lemma MergeRound(ss: seq<Segment>, b: Buffer, r: Record)
    requires MergedSoFar(ss, b) && (b.first ==> b == EMPTY)
    ensures MergedSoFar(ss + if MustFlush(b, r) then Flush(b) else [], Fill(b, r))
  {
    if !MustFlush(b, r) { assert ss + [] == ss; }
  }

  /** Merging leaves no two segments that could have been one. */
  lemma SegmentsAreMerged(lines: seq<Line>)
    ensures WellMerged(Segments(lines))
  {
    hide Buffered, Flushed;
    var rs := Records(lines);
    RecordsAreMerged(rs);
    assert Flushed(rs) + [] == Flushed(rs);
  }

  /** An error costs what is still in the buffer: at least the last record that was read. */
  lemma LastRecordIsLost(lines: seq<Line>)
    requires Ending(lines) != 0 && Records(lines) != []
    ensures var rs := Records(lines);
      |SegmentWrites(Segments(lines))| + |rs[|rs| - 1].data| <= |RecordWrites(rs)|
  {
    hide SegmentWrites, WritesAt, Flushed, Buffered;
    var rs := Records(lines);
    MergingIsFaithfulIffAligned(rs);
    assert Flushed(rs) + [] == Flushed(rs);
    LastIsBuffered(rs);
  }

  lemma LastIsBuffered(rs: seq<Record>)
    requires rs != []
    ensures |Buffered(rs).data| >= |rs[|rs| - 1].data|
  {
  }

  // ---------------------------------------------------------------- on-chip and external memory

  datatype Chip = Fx | Fx2 | Fx2lp

  /** fx_is_external, fx2_is_external and fx2lp_is_external. */
  predicate IsExternal(chip: Chip, addr: nat, len: nat) {
    match chip
    case Fx => if addr <= 0x1b3f then addr + len > 0x1b40 else true
    case Fx2 =>
      if addr <= 0x1fff then addr + len > 0x2000
      else if 0xe000 <= addr <= 0xe1ff then addr + len > 0xe200
      else true
    case Fx2lp =>
      if addr <= 0x3fff then addr + len > 0x4000
      else if 0xe000 <= addr <= 0xe1ff then addr + len > 0xe200
      else true
  }

  predicate OnChip(chip: Chip, a: nat) {
    match chip
    case Fx => a < 0x1b40
    case Fx2 => a < 0x2000 || 0xe000 <= a < 0xe200
    case Fx2lp => a < 0x4000 || 0xe000 <= a < 0xe200
  }

  /** A segment counts as external exactly if one of its bytes is not on the chip. */
  lemma ExternalMeansNotAllOnChip(chip: Chip, addr: nat, len: nat)
    requires len > 0
    ensures IsExternal(chip, addr, len) <==> exists a :: addr <= a < addr + len && !OnChip(chip, a)
  {
    var limit := match chip case Fx => 0x1b40 case Fx2 => 0x2000 case Fx2lp => 0x4000;
    assert !OnChip(chip, limit);
    assert !chip.Fx? ==> !OnChip(chip, 0xe200);
    assert IsExternal(chip, addr, len) ==>
      !OnChip(chip, addr) || (addr < limit < addr + len) || (!chip.Fx? && addr < 0xe200 < addr + len);
  }

  /** The segments of one kind. */
  function Part(chip: Chip, ss: seq<Segment>, external: bool): seq<Segment> {
    if ss == [] then []
    else
      var n := |ss| - 1;
      Part(chip, ss[..n], external) + if IsExternal(chip, ss[n].addr, |ss[n].data|) == external then [ss[n]] else []
  }

  lemma {:induction false} PartsMakeTheWhole(chip: Chip, ss: seq<Segment>)
    ensures multiset(Part(chip, ss, true)) + multiset(Part(chip, ss, false)) == multiset(ss)
    ensures forall e, s | s in Part(chip, ss, e) :: IsExternal(chip, s.addr, |s.data|) == e
  {
    hide IsExternal, Part;
    if ss == [] {
      NoParts(chip);
    } else {
      var n := |ss| - 1;
      PartsMakeTheWhole(chip, ss[..n]);
      PartOneMore(chip, ss, true);
      PartOneMore(chip, ss, false);
      assert multiset(ss) == multiset(ss[..n]) + multiset{ss[n]} by { assert ss == ss[..n] + [ss[n]]; }
    }
  }

  lemma NoParts(chip: Chip)
    ensures Part(chip, [], true) == [] && Part(chip, [], false) == []
  {
  }

  lemma PartOneMore(chip: Chip, ss: seq<Segment>, e: bool)
    requires ss != []
    ensures var n := |ss| - 1;
      var mine := IsExternal(chip, ss[n].addr, |ss[n].data|) == e;
      && multiset(Part(chip, ss, e))
           == multiset(Part(chip, ss[..n], e)) + (if mine then multiset{ss[n]} else multiset{})
      && forall s :: s in Part(chip, ss, e) <==> s in Part(chip, ss[..n], e) || (mine && s == ss[n])
  {
    hide IsExternal;
  }

  // ---------------------------------------------------------------- memory

  function Store(mem: map<nat, byte>, ws: seq<Write>): map<nat, byte> {
    if ws == [] then mem else Store(mem, ws[..|ws| - 1])[ws[|ws| - 1].addr := ws[|ws| - 1].value]
  }

  /** No address is given two different values. */
  ghost predicate Consistent(ws: seq<Write>) {
    forall v, w | v in ws && w in ws && v.addr == w.addr :: v == w
  }

  lemma {:induction false} StoredAt(mem: map<nat, byte>, ws: seq<Write>, w: Write)
    requires Consistent(ws) && w in ws
    ensures w.addr in Store(mem, ws) && Store(mem, ws)[w.addr] == w.value
  {
    var n := |ws| - 1;
    assert ws[n] in ws && ws == ws[..n] + [ws[n]];
    if ws[n].addr != w.addr { StoredAt(mem, ws[..n], w); }
  }

  lemma {:induction false} NotStoredAt(mem: map<nat, byte>, ws: seq<Write>, a: nat)
    requires forall w | w in ws :: w.addr != a
    ensures if a in mem then a in Store(mem, ws) && Store(mem, ws)[a] == mem[a] else a !in Store(mem, ws)
  {
    if ws != [] { NotStoredAt(mem, ws[..|ws| - 1], a); }
  }

  /** Consistent writes may be made in any order, and any number of times. */
  lemma OrderDoesNotMatter(mem: map<nat, byte>, ws: seq<Write>, vs: seq<Write>)
    requires Consistent(ws) && forall w :: w in ws <==> w in vs
    ensures Store(mem, ws) == Store(mem, vs)
  {
    forall a
      ensures a in Store(mem, ws) <==> a in Store(mem, vs)
      ensures a in Store(mem, ws) ==> Store(mem, ws)[a] == Store(mem, vs)[a]
    {
      if w :| w in ws && w.addr == a {
        StoredAt(mem, ws, w);
        StoredAt(mem, vs, w);
      } else {
        NotStoredAt(mem, ws, a);
        NotStoredAt(mem, vs, a);
      }
    }
  }

  lemma {:induction false} PartWrites(chip: Chip, ss: seq<Segment>, w: Write)
    ensures w in SegmentWrites(ss) <==>
      w in SegmentWrites(Part(chip, ss, true)) || w in SegmentWrites(Part(chip, ss, false))
  {
    hide IsExternal;
    if ss != [] {
      var n := |ss| - 1;
      PartWrites(chip, ss[..n], w);
      var e := IsExternal(chip, ss[n].addr, |ss[n].data|);
      assert (Part(chip, ss[..n], e) + [ss[n]])[..|Part(chip, ss[..n], e)|] == Part(chip, ss[..n], e);
      assert Part(chip, ss, !e) == Part(chip, ss[..n], !e);
    }
  }

  /** Writing the external segments first and the others in a second pass leaves the memory as one
      pass over the records would, as long as the records do not contradict each other. */
  lemma TwoPassesStoreTheImage(chip: Chip, lines: seq<Line>, mem: map<nat, byte>)
    requires Ending(lines) == 0 && Aligned(Records(lines)) && Consistent(RecordWrites(Records(lines)))
    ensures var ss := Segments(lines);
      Store(mem, SegmentWrites(Part(chip, ss, true) + Part(chip, ss, false)))
      == Store(mem, RecordWrites(Records(lines)))
  {
    hide Part, SegmentWrites, RecordWrites, Segments, Consistent, Aligned, Store;
    var ss := Segments(lines);
    var x, y := Part(chip, ss, true), Part(chip, ss, false);
    SegmentsWriteTheRecords(lines);
    SegmentWritesConcat(x, y);
    forall w
      ensures w in SegmentWrites(ss) <==> w in SegmentWrites(x + y)
    {
      PartWrites(chip, ss, w);
    }
    OrderDoesNotMatter(mem, SegmentWrites(ss), SegmentWrites(x + y));
  }
}
