/** What each step of `FlyingTransfers` does to every record, to the list and to the timer, in terms of
    the step and of the state before it; and what follows for cancellations. */
module TransferLedger {
  import opened Deadlines
  import opened FlyingTransfers

  /** The step finds the time-out of the transfer expired: it is on the list, has a deadline that is not
      later than now, and that is neither handled yet nor left to the OS. */
  predicate Expires(s: State, c: Step, id: Id)
    requires id in s.xfers
  {
    var x := s.xfers[id];
    && (c.HandleTimeouts? || c.TimerTrigger?) && id in s.flying
    && x.deadline != Timespec(0, 0) && Nanos(x.deadline) <= Nanos(c.now)
    && !x.timeoutHandled && !x.osHandles
  }

  /** The calls of the backend's cancel function that a step makes for a transfer: one, if the user or
      an expired time-out asks for it, the transfer is in flight, and it is not being cancelled. */
  function Asked(s: State, c: Step, id: Id): seq<CancelCall>
    requires id in s.xfers
  {
    var x := s.xfers[id];
    if !x.inFlight || x.cancelling then []
    else if c.UserCancel? && c.id == id then [CancelCall(FromUser, c.result)]
    else if Expires(s, c, id) then [CancelCall(FromTimeout, c.results(id))]
    else []
  }

  /** The step submits the transfer, which is not busy. */
  predicate Resubmits(s: State, c: Step, id: Id) {
    c.Submit? && c.id == id && !InFlight(s, id)
  }

  /** The record of a transfer after a step that does not submit it. */
  predicate RecordMoves(s: State, c: Step, id: Id, y: Xfer)
    requires id in s.xfers
  {
    var x, asked := s.xfers[id], Asked(s, c, id);
    && y.deadline == x.deadline && y.osHandles == x.osHandles
    && y.handle == (if c.Close? && id in s.flying && x.handle == Some(c.handle) then None else x.handle)
    && y.inFlight == (x.inFlight && !(c.Complete? && c.id == id))
    && y.timeoutHandled == (x.timeoutHandled || Expires(s, c, id))
    && y.cancelling == (x.cancelling || asked != [])
    && y.disappeared == (x.disappeared || (asked != [] && asked[0].result == -4))
    && y.timedOut == (x.timedOut || (asked != [] && asked[0].source == FromTimeout && asked[0].result == 0))
    && y.cancels == x.cancels + asked
  }

  predicate SaneClock(c: Step) {
    (c.HandleTimeouts? || c.TimerTrigger?) ==> Normal(c.now)
  }

  /** Every step, every record. */
  lemma EveryRecord(s: State, c: Step, id: Id)
    requires Inv(s) && Enabled(s, c) && SaneClock(c) && id in s.xfers && !Resubmits(s, c, id)
    ensures id in Apply(s, c).xfers && RecordMoves(s, c, id, Apply(s, c).xfers[id])
  {
    hide Sorted, AllAttributed, NextTimer, RecordMoves, SweepFrom;
    match c
    case HandleTimeouts(now, results) => SweptRecord(s, c, id, now, results);
    case TimerTrigger(now, results) => SweptRecord(s, c, id, now, results);
    case UserCancel(other, result) => CancelledRecord(s, c, id);
    case Submit(_, _, _, _, _, _) => OtherRecord(s, c, id);
    case _ => OtherRecord(s, c, id);
  }

  lemma OtherRecord(s: State, c: Step, id: Id)
    requires Inv(s) && Enabled(s, c) && id in s.xfers && !Resubmits(s, c, id)
    requires c.Submit? || c.DropRefused? || c.Complete? || c.Close? || c.OsTimer?
    ensures id in Apply(s, c).xfers && RecordMoves(s, c, id, Apply(s, c).xfers[id])
  {
    hide Sorted, AllAttributed, NextTimer, FirstLater, Without, Normal, Deadline, RecordMoves, Keep, InsertAt,
      ArmsTimer;
    KeptMoves(s, c, id);
    assert id in Apply(s, c).xfers && Apply(s, c).xfers[id] == Kept(s, c, id);
  }

  function Kept(s: State, c: Step, id: Id): Xfer
    requires id in s.xfers
  {
    var x := s.xfers[id];
    if c.Complete? && c.id == id then x.(inFlight := false)
    else if c.Close? && id in s.flying && x.handle == Some(c.handle) then x.(handle := None)
    else x
  }

  lemma KeptMoves(s: State, c: Step, id: Id)
    requires id in s.xfers && !c.UserCancel? && !c.HandleTimeouts? && !c.TimerTrigger?
    ensures RecordMoves(s, c, id, Kept(s, c, id))
  {
    NothingMore(s.xfers[id].cancels);
  }

  lemma NothingMore(cancels: seq<CancelCall>)
    ensures cancels + [] == cancels
  {
  }

  lemma CancelledRecord(s: State, c: Step, id: Id)
    requires Inv(s) && Enabled(s, c) && id in s.xfers && c.UserCancel?
    ensures id in Apply(s, c).xfers && RecordMoves(s, c, id, Apply(s, c).xfers[id])
  {
    hide Sorted, AllAttributed, Listed;
    NothingMore(s.xfers[id].cancels);
  }

  lemma SweptRecord(s: State, c: Step, id: Id, now: Timespec, results: Id -> int)
    requires Inv(s) && id in s.xfers && Normal(now)
    requires (c.HandleTimeouts? || c.TimerTrigger?) && c.now == now && c.results == results
    ensures id in Sweep(s, now, results).xfers && RecordMoves(s, c, id, Sweep(s, now, results).xfers[id])
  {
    SweepIsExact(s, 0, now, results);
    assert s.flying[0..] == s.flying;
    assert Normal(s.xfers[id].deadline);
    hide Sweep, Sorted, AllAttributed, Listed, RecordMoves;
    SweptMoves(s, c, id);
  }

  lemma SweptMoves(s: State, c: Step, id: Id)
    requires id in s.xfers && (c.HandleTimeouts? || c.TimerTrigger?) && Normal(c.now) && Normal(s.xfers[id].deadline)
    ensures RecordMoves(s, c, id, Swept(s.xfers[id], id in s.flying, c.now, c.results(id)))
  {
    hide Nanos, Later;
    ComparisonIsNumeric(s.xfers[id].deadline, c.now);
    NothingMore(s.xfers[id].cancels);
  }

  /** The deadline d is earlier than those of all transfers on the list. */
  predicate Foremost(s: State, d: Timespec)
    requires Listed(s)
  {
    forall k | 0 <= k < |s.flying| :: IsSet(d) && (!IsSet(At(s, k).deadline) || Later(At(s, k).deadline, d))
  }

  /** The OS must be asked to set the timer, and refuses. */
  predicate TimerFails(s: State, d: Timespec)
    requires Listed(s)
  {
    s.usingTimer && s.armResult != 0 && d != Timespec(0, 0) && Foremost(s, d)
  }

  lemma ForemostIsInserted(s: State, d: Timespec)
    requires Listed(s) && Sorted(s) && Normal(d)
    ensures Foremost(s, d) <==> s.flying == [] || InsertAt(s, d) == 0
  {
    InsertPosition(s, d);
    if s.flying != [] && InsertAt(s, d) > 0 { assert NotAfter(At(s, 0).deadline, d); }
  }

  /** A submission: the new record, and who is on the list. */
  lemma SubmittedRecord(s: State, c: Step)
    requires Inv(s) && c.Submit? && Enabled(s, c) && !InFlight(s, c.id)
    ensures var d, t := Deadline(c.now, c.timeoutMs), Apply(s, c);
      && c.id in t.xfers
      && (c.id in t.flying <==> !TimerFails(s, d))
      && t.xfers[c.id] ==
           (if TimerFails(s, d) then Xfer(Some(c.handle), d, false, false, false, false, false, false, [])
            else Xfer(Some(c.handle), d, c.result == 0, false, false, false, c.osHandles, false, []))
      && t.timer == (if s.usingTimer && IsSet(d) && Foremost(s, d) && s.armResult == 0 then Some(d) else s.timer)
  {
    hide Sorted, AllAttributed, FirstLater;
    var d := Deadline(c.now, c.timeoutMs);
    StartSubmitKeepsInv(s, c.id, c.handle, d);
    var reset := StartSubmit(s, c.id, c.handle, d);
    ForemostIsInserted(reset, d);
    assert forall k | 0 <= k < |s.flying| :: At(reset, k) == At(s, k);
    if !NotArmed(reset, d) { assert Insert(reset, c.id).flying[InsertAt(reset, d)] == c.id; }
  }

  /** Who else is on the list: everybody but those the step completes, drops or closes. */
  lemma EveryMember(s: State, c: Step, id: Id)
    requires Inv(s) && Enabled(s, c) && !Resubmits(s, c, id)
    ensures id in Apply(s, c).flying <==>
      && id in s.flying && !((c.Complete? || c.DropRefused?) && c.id == id)
      && !(c.Close? && s.xfers[id].handle == Some(c.handle))
  {
    hide Sorted, AllAttributed, Normal, NextTimer, FirstLater, Keep, Without, Remove, Insert;
    match c
    case Submit(other, h, ms, now, _, _) =>
      if !InFlight(s, other) {
        StartSubmitIsListed(s, other, h, Deadline(now, ms));
        InsertedMember(StartSubmit(s, other, h, Deadline(now, ms)), other, id);
      }
    case DropRefused(other) => RemovedMember(s, other, id);
    case Complete(other) => RemovedMember(s, other, id);
    case Close(h) => KeepIsSubsequence(s, s.flying, h);
    case _ =>
  }

  lemma InsertedMember(s: State, other: Id, id: Id)
    requires Listed(s) && other in s.xfers && id != other
    ensures id in Insert(s, other).flying <==> id in s.flying
  {
    hide Listed, FirstLater, InsertAt;
    var k := InsertAt(s, s.xfers[other].deadline);
    assert s.flying == s.flying[..k] + s.flying[k..];
  }

  lemma RemovedMember(s: State, other: Id, id: Id)
    requires Inv(s) && other in s.flying
    ensures id in Remove(s, other).flying <==> id in s.flying && id != other
  {
    hide Sorted, AllAttributed, NextTimer;
    RemoveKeepsOrder(s, other);
    var k := IndexOf(s.flying, other);
    assert s.flying == s.flying[..k] + [other] + s.flying[k + 1..];
  }

  /** t is the earliest deadline on the list that libusb still has to act on, or none. */
  ghost predicate EarliestOf(s: State, t: Option<Timespec>)
    requires Listed(s)
  {
    match t
    case None => forall j | 0 <= j < |s.flying| :: !Awaited(At(s, j))
    case Some(d) =>
      && (exists j | 0 <= j < |s.flying| :: Awaited(At(s, j)) && At(s, j).deadline == d)
      && forall j | 0 <= j < |s.flying| :: Awaited(At(s, j)) ==> !Later(d, At(s, j).deadline)
  }

  predicate Awaited(x: Xfer) {
    x.deadline != Timespec(0, 0) && !x.timeoutHandled && !x.osHandles
  }

  /** The timer after a step other than a submission: set to the earliest deadline by a timer trigger and
      by the removal of the first transfer, if that had a deadline; and left alone by all others
      and by an OS that refuses. */
  lemma EveryTimer(s: State, c: Step)
    requires Inv(s) && Enabled(s, c) && !c.Submit?
    ensures Listed(Apply(s, c))
    ensures
      var sets := c.TimerTrigger? || ((c.Complete? || c.DropRefused?) && c.id == s.flying[0]
                                      && s.xfers[c.id].deadline != Timespec(0, 0));
      if sets && s.usingTimer && s.armResult == 0 then EarliestOf(Apply(s, c), Apply(s, c).timer)
      else Apply(s, c).timer == s.timer
  {
    hide Normal, FirstLater, EarliestOf, Remove, Rearm, Keep;
    StepKeepsInv(s, c);
    match c
    case DropRefused(id) => RemovedTimer(s, id);
    case Complete(id) =>
      RemovedTimer(s, id);
      SameEarliest(Remove(s, id), Apply(s, c));
    case TimerTrigger(now, results) =>
      SweepKeepsInv(s, now, results);
      RearmedTimer(Sweep(s, now, results));
      RearmedOrNot(Sweep(s, now, results));
    case _ =>
  }

  lemma RearmedOrNot(s: State)
    requires Listed(s)
    ensures !(s.usingTimer && s.armResult == 0) ==> Rearm(s) == s
  {
  }

  /** Whether a transfer is in flight does not matter to the timer. */
  lemma SameEarliest(s: State, t: State)
    requires Listed(s) && Listed(t) && t == s.(xfers := t.xfers)
    requires forall id <- s.xfers :: id in t.xfers && t.xfers[id] == s.xfers[id].(inFlight := t.xfers[id].inFlight)
    ensures t.timer == s.timer && (EarliestOf(s, s.timer) ==> EarliestOf(t, s.timer))
  {
    assert forall j | 0 <= j < |s.flying| :: At(t, j) == At(s, j).(inFlight := At(t, j).inFlight);
  }

  lemma RearmedTimer(s: State)
    requires Inv(s)
    ensures s.usingTimer && s.armResult == 0 ==> EarliestOf(Rearm(s), Rearm(s).timer)
  {
    hide NextTimer;
    NextTimerIsEarliest(s, 0);
    assert forall j | 0 <= j < |s.flying| :: At(Rearm(s), j) == At(s, j);
  }

  lemma RemovedTimer(s: State, id: Id)
    requires Inv(s) && id in s.flying
    ensures Inv(Remove(s, id))
    ensures
      if s.usingTimer && s.armResult == 0 && id == s.flying[0] && s.xfers[id].deadline != Timespec(0, 0)
      then EarliestOf(Remove(s, id), Remove(s, id).timer)
      else Remove(s, id).timer == s.timer
  {
    hide NextTimer;
    RemoveKeepsOrder(s, id);
    RemoveIsListed(s, id);
    var r := s.(flying := Without(s.flying, id));
    assert forall j | 0 <= j < |r.flying| :: At(r, j) == At(Remove(s, id), j);
    if IsSet(s.xfers[id].deadline) && s.flying[0] == id { RearmedTimer(r); }
  }

  /** The identifiers of r are in ids, in the same order, and none twice. */
  ghost predicate InOrder(r: seq<Id>, ids: seq<Id>) {
    && (forall i | 0 <= i < |r| :: r[i] in ids)
    && forall i, j | 0 <= i < j < |r| :: r[i] != r[j] && IndexOf(ids, r[i]) < IndexOf(ids, r[j])
  }

  lemma InOrderBehind(r: seq<Id>, id: Id, ids: seq<Id>)
    requires InOrder(r, ids) && id !in ids
    ensures InOrder(r, [id] + ids) && InOrder([id] + r, [id] + ids)
  {
    assert ([id] + ids)[1..] == ids;
    assert forall x | x in ids :: IndexOf([id] + ids, x) == 1 + IndexOf(ids, x);
  }

  /** The transfers that are notified when a device goes away: each once, in list order. */
  lemma {:induction false} InFlightInOrder(s: State, ids: seq<Id>, h: Handle)
    requires Known(s, ids) && forall i, j | 0 <= i < j < |ids| :: ids[i] != ids[j]
    ensures InOrder(InFlightOn(s, ids, h), ids)
  {
    hide InFlightOn, InOrder;
    InFlightUnfolds(s, ids, h);
    if ids != [] {
      var id, rest := ids[0], InFlightOn(s, ids[1..], h);
      InFlightInOrder(s, ids[1..], h);
      InOrderBehind(rest, id, ids[1..]);
      assert ids == [id] + ids[1..] && [] + rest == rest;
    } else {
      assert InOrder([], ids) by { NothingInOrder(ids); }
    }
  }

  lemma NothingInOrder(ids: seq<Id>)
    ensures InOrder([], ids)
  {
  }

  /** Nobody asks for the cancellation of a transfer that is not in flight, however often the user
      tries and however late it is: its record keeps its history until it is submitted again. */
  lemma {:induction false} NotInFlightNotCancelled(s: State, cs: seq<Step>, id: Id)
    requires Inv(s) && Run(s, cs) && id in s.xfers && !s.xfers[id].inFlight
    requires forall i | 0 <= i < |cs| :: SaneClock(cs[i]) && !(cs[i].Submit? && cs[i].id == id)
    ensures id in After(s, cs).xfers && !After(s, cs).xfers[id].inFlight
    ensures After(s, cs).xfers[id].cancels == s.xfers[id].cancels
    decreases |cs|
  {
    if cs != [] {
      StepKeepsInv(s, cs[0]);
      EveryRecord(s, cs[0], id);
      hide Apply, Enabled, Inv;
      NotInFlightNotCancelled(Apply(s, cs[0]), cs[1..], id);
    }
  }
}
