/** The list of flying transfers of a libusb context: submission, time-outs, cancellation,
    completion and device removal.

    A transfer is known by an identifier (its address); `xfers` holds the record behind each
    identifier, so that an update through the list and an update through a user's pointer reach
    the same record.  The functions say what each operation does to the whole context; `Context`
    carries the operations out on the fields, with the loops of the code. */
module FlyingTransfers {
  import opened Deadlines

  type Id = nat
  type Handle = nat
  datatype Option<T> = None | Some(value: T)

  const SUCCESS := 0
  const ERROR_NO_DEVICE := -4
  const ERROR_NOT_FOUND := -5
  const ERROR_BUSY := -6

  datatype Source = FromUser | FromTimeout

  /** One call of the backend's cancel function, and what it returned. */
  datatype CancelCall = CancelCall(source: Source, result: int)

  /** struct usbi_transfer with its flags spelled out.  `cancels` is the history of calls of the
      backend's cancel function since the last submission. */
  datatype Xfer = Xfer(
    handle: Option<Handle>,
    deadline: Timespec,
    inFlight: bool, cancelling: bool, disappeared: bool,
    timeoutHandled: bool, osHandles: bool, timedOut: bool,
    cancels: seq<CancelCall>)

  /** `armResult` is what the OS answers at present when the timer is armed or disarmed; the timer
      stays as it is if that is an error. */
  datatype State = State(
    flying: seq<Id>,
    xfers: map<Id, Xfer>,
    timer: Option<Timespec>,
    usingTimer: bool,
    armResult: int)

  function Initial(usingTimer: bool): State {
    State([], map[], None, usingTimer, SUCCESS)
  }

  // ---------------------------------------------------------------- well-formed contexts

  /** Order of expiry: a transfer without deadline never comes before one with a deadline. */
  predicate NotAfter(a: Timespec, b: Timespec) {
    !IsSet(b) || (IsSet(a) && !Later(a, b))
  }

  predicate Listed(s: State) {
    && (forall i | 0 <= i < |s.flying| :: s.flying[i] in s.xfers)
    && (forall i, j | 0 <= i < j < |s.flying| :: s.flying[i] != s.flying[j])
    && (forall id <- s.xfers :: Normal(s.xfers[id].deadline))
  }

  predicate Known(s: State, ids: seq<Id>) {
    forall i | 0 <= i < |ids| :: ids[i] in s.xfers
  }

  function At(s: State, i: int): Xfer
    requires Listed(s) && 0 <= i < |s.flying|
  {
    s.xfers[s.flying[i]]
  }

  /** The list is sorted by deadline, transfers without deadline last. */
  predicate Sorted(s: State)
    requires Listed(s)
  {
    forall i, j | 0 <= i < j < |s.flying| :: NotAfter(At(s, i).deadline, At(s, j).deadline)
  }

  /** A deadline that libusb itself still has to act on. */
  predicate Pending(x: Xfer) {
    IsSet(x.deadline) && !x.timeoutHandled && !x.osHandles
  }

  /** The OS timer is armed at or before the deadline of the first transfer of the list, if that
      one is pending. */
  predicate TimerCovers(s: State)
    requires Listed(s)
  {
    s.usingTimer && s.flying != [] && Pending(At(s, 0)) ==>
      s.timer.Some? && Normal(s.timer.value) && NotAfter(s.timer.value, At(s, 0).deadline)
  }

  /** Per submission, cancel is asked for at most once, and TIMED_OUT is set exactly when that
      one call came from the time-out handler and was accepted. */
  predicate Attributed(x: Xfer) {
    && |x.cancels| <= 1
    && (x.cancelling <==> |x.cancels| == 1)
    && (x.timedOut <==> x.cancels == [CancelCall(FromTimeout, SUCCESS)])
  }

  predicate AllAttributed(s: State) {
    forall id <- s.xfers :: Attributed(s.xfers[id])
  }

  predicate Inv(s: State) {
    Listed(s) && Sorted(s) && AllAttributed(s)
  }

  // ---------------------------------------------------------------- insertion and removal

  /** The first position from i on whose transfer has no deadline or a later one than d. */
  function FirstLater(s: State, d: Timespec, i: nat): (k: nat)
    requires Listed(s) && i <= |s.flying|
    ensures i <= k <= |s.flying|
    decreases |s.flying| - i
  {
    if i == |s.flying| || !IsSet(At(s, i).deadline) || Later(At(s, i).deadline, d) then i
    else FirstLater(s, d, i + 1)
  }

  function InsertAt(s: State, d: Timespec): (k: nat)
    requires Listed(s)
    ensures k <= |s.flying|
  {
    if s.flying == [] then 0
    else if !IsSet(d) then |s.flying|
    else FirstLater(s, d, 0)
  }

  /** Whether add_to_flying_list arms the timer: its variable `first` stays set for an empty list
      and for an insertion in front. */
  predicate ArmsTimer(s: State, d: Timespec)
    requires Listed(s)
  {
    s.usingTimer && IsSet(d) && InsertAt(s, d) == 0
  }

  /** add_to_flying_list: the transfer stays off the list if the timer must be armed and is not. */
  function Insert(s: State, id: Id): State
    requires Listed(s) && id in s.xfers
  {
    var d := s.xfers[id].deadline;
    var k := InsertAt(s, d);
    if NotArmed(s, d) then s
    else
      s.(flying := s.flying[..k] + [id] + s.flying[k..],
         timer := if ArmsTimer(s, d) then Some(d) else s.timer)
  }

  predicate NotArmed(s: State, d: Timespec)
    requires Listed(s)
  {
    ArmsTimer(s, d) && s.armResult != SUCCESS
  }

  function IndexOf(ids: seq<Id>, id: Id): (k: nat)
    requires id in ids
    ensures k < |ids| && ids[k] == id
  {
    if ids[0] == id then 0 else 1 + IndexOf(ids[1..], id)
  }

  function Without(ids: seq<Id>, id: Id): seq<Id> {
    if id in ids then var k := IndexOf(ids, id); ids[..k] + ids[k + 1..] else ids
  }

  /** What arm_timer_for_next_timeout sets the timer to: the first pending deadline before the
      transfers without deadline, or nothing. */
  function NextTimer(s: State, i: nat): (t: Option<Timespec>)
    requires Listed(s) && i <= |s.flying|
    decreases |s.flying| - i
  {
    if i == |s.flying| || !IsSet(At(s, i).deadline) then None
    else if Pending(At(s, i)) then Some(At(s, i).deadline)
    else NextTimer(s, i + 1)
  }

  function Rearm(s: State): State
    requires Listed(s)
  {
    if s.usingTimer && s.armResult == SUCCESS then s.(timer := NextTimer(s, 0)) else s
  }

  /** remove_from_flying_list: the timer is set anew when the first transfer, with a deadline, leaves. */
  function Remove(s: State, id: Id): State
    requires Listed(s) && id in s.flying
  {
    RemoveIsListed(s, id);
    var r := s.(flying := Without(s.flying, id));
    if IsSet(s.xfers[id].deadline) && s.flying[0] == id then Rearm(r) else r
  }

  lemma WithoutAt(ids: seq<Id>, id: Id)
    requires id in ids && forall i, j | 0 <= i < j < |ids| :: ids[i] != ids[j]
    ensures id !in Without(ids, id)
    ensures |Without(ids, id)| == |ids| - 1
    ensures forall i | 0 <= i < |ids| - 1 :: Without(ids, id)[i] == ids[if i < IndexOf(ids, id) then i else i + 1]
  {
    hide IndexOf;
    var k := IndexOf(ids, id);
    assert Without(ids, id) == ids[..k] + ids[k + 1..];
    assert forall i | 0 <= i < |ids| && i != k :: ids[i] != ids[k];
  }

  lemma RemoveIsListed(s: State, id: Id)
    requires Listed(s) && id in s.flying
    ensures Listed(s.(flying := Without(s.flying, id)))
  {
    WithoutAt(s.flying, id);
  }

  /** FIFO among equals: the new transfer comes after everything due no later, and before
      everything due strictly later or never (an endless one comes last of all). */
  lemma InsertPosition(s: State, d: Timespec)
    requires Listed(s) && Sorted(s) && Normal(d)
    ensures var k := InsertAt(s, d);
      && (forall i | 0 <= i < k :: NotAfter(At(s, i).deadline, d))
      && (forall i | k <= i < |s.flying| :: IsSet(d) && !NotAfter(At(s, i).deadline, d))
  {
    if IsSet(d) {
      FirstLaterSplits(s, d, 0);
    }
  }

  lemma {:induction false} FirstLaterSplits(s: State, d: Timespec, i: nat)
    requires Listed(s) && Sorted(s) && Normal(d) && IsSet(d) && i <= |s.flying|
    ensures forall j | i <= j < FirstLater(s, d, i) :: NotAfter(At(s, j).deadline, d)
    ensures forall j | FirstLater(s, d, i) <= j < |s.flying| :: !NotAfter(At(s, j).deadline, d)
    decreases |s.flying| - i
  {
    if FirstLater(s, d, i) == i {
      forall j | i <= j < |s.flying| ensures !NotAfter(At(s, j).deadline, d) {
        if j > i { NotAfterTransitive(s, i, j, d); }
      }
    } else {
      FirstLaterSplits(s, d, i + 1);
    }
  }

  lemma NotAfterTransitive(s: State, i: nat, j: nat, d: Timespec)
    requires Listed(s) && Sorted(s) && i < j < |s.flying| && Normal(d)
    ensures NotAfter(At(s, j).deadline, d) ==> NotAfter(At(s, i).deadline, d)
  {
  }

  lemma InsertIsListed(s: State, id: Id)
    requires Listed(s) && id in s.xfers && id !in s.flying && !NotArmed(s, s.xfers[id].deadline)
    ensures Listed(Insert(s, id)) && |Insert(s, id).flying| == |s.flying| + 1
    ensures
      var k := InsertAt(s, s.xfers[id].deadline);
      forall i | 0 <= i <= |s.flying| ::
        Insert(s, id).flying[i] == if i < k then s.flying[i] else if i == k then id else s.flying[i - 1]
  {
  }

  lemma InsertKeepsOrder(s: State, id: Id)
    requires Listed(s) && Sorted(s) && id in s.xfers && id !in s.flying
    ensures Listed(Insert(s, id)) && Sorted(Insert(s, id))
  {
    var d, r := s.xfers[id].deadline, Insert(s, id);
    if NotArmed(s, d) { return; }
    InsertIsListed(s, id);
    var k := InsertAt(s, d);
    InsertPosition(s, d);
    forall i | 0 <= i < |r.flying|
      ensures At(r, i) == if i < k then At(s, i) else if i == k then s.xfers[id] else At(s, i - 1)
    {
      assert r.flying[i] == if i < k then s.flying[i] else if i == k then id else s.flying[i - 1];
    }
    forall i, j | 0 <= i < j < |r.flying| ensures NotAfter(At(r, i).deadline, At(r, j).deadline) {
      var a, b := if i < k then i else i - 1, if j < k then j else j - 1;
      if i == k {
        assert !NotAfter(At(s, b).deadline, d);
      } else if j == k {
        assert NotAfter(At(s, a).deadline, d);
      } else {
        assert NotAfter(At(s, a).deadline, At(s, b).deadline);
      }
    }
  }

  lemma InsertKeepsTimer(s: State, id: Id)
    requires Listed(s) && Sorted(s) && TimerCovers(s) && id in s.xfers && id !in s.flying
    ensures Listed(Insert(s, id)) && TimerCovers(Insert(s, id))
  {
    InsertKeepsOrder(s, id);
    var d, r := s.xfers[id].deadline, Insert(s, id);
    if NotArmed(s, d) {
      assert r == s;
    } else if InsertAt(s, d) > 0 {
      assert r.flying[0] == s.flying[0];
    } else {
      assert r.flying[0] == id;
    }
  }

  lemma RearmCovers(s: State)
    requires Listed(s) && s.armResult == SUCCESS
    ensures TimerCovers(Rearm(s))
  {
  }

  /** After arm_timer_for_next_timeout the timer is set to the earliest pending deadline of all,
      not just of the first transfer, and is off if nothing is pending. */
  lemma {:induction false} NextTimerIsEarliest(s: State, i: nat)
    requires Listed(s) && Sorted(s) && i <= |s.flying|
    ensures NextTimer(s, i) == None ==> forall j | i <= j < |s.flying| :: !Pending(At(s, j))
    ensures NextTimer(s, i).Some? ==>
      && (exists j | i <= j < |s.flying| :: Pending(At(s, j)) && At(s, j).deadline == NextTimer(s, i).value)
      && (forall j | i <= j < |s.flying| && Pending(At(s, j)) :: NotAfter(NextTimer(s, i).value, At(s, j).deadline))
    decreases |s.flying| - i
  {
    if i < |s.flying| && IsSet(At(s, i).deadline) {
      if !Pending(At(s, i)) {
        NextTimerIsEarliest(s, i + 1);
      }
    } else if i < |s.flying| {
      assert forall j | i <= j < |s.flying| :: NotAfter(At(s, i).deadline, At(s, j).deadline);
    }
  }

  lemma RemoveKeepsOrder(s: State, id: Id)
    requires Listed(s) && Sorted(s) && id in s.flying
    ensures Listed(Remove(s, id)) && Sorted(Remove(s, id)) && id !in Remove(s, id).flying
  {
    RemoveIsListed(s, id);
    WithoutAt(s.flying, id);
    var k, r := IndexOf(s.flying, id), Remove(s, id);
    forall i, j | 0 <= i < j < |r.flying| ensures NotAfter(At(r, i).deadline, At(r, j).deadline) {
      assert At(r, i) == At(s, if i < k then i else i + 1);
      assert At(r, j) == At(s, if j < k then j else j + 1);
    }
  }

  lemma RemoveKeepsTimer(s: State, id: Id)
    requires Listed(s) && Sorted(s) && TimerCovers(s) && id in s.flying && s.armResult == SUCCESS
    ensures Listed(Remove(s, id)) && TimerCovers(Remove(s, id))
  {
    RemoveIsListed(s, id);
    WithoutAt(s.flying, id);
    var r := s.(flying := Without(s.flying, id));
    if s.flying[0] != id {
      assert r.flying[0] == s.flying[0];
    } else if !IsSet(s.xfers[id].deadline) {
      if r.flying != [] {
        assert r.flying[0] == s.flying[1];
        assert NotAfter(At(s, 0).deadline, At(s, 1).deadline);
      }
    } else {
      RearmCovers(r);
    }
  }

  // ---------------------------------------------------------------- cancellation and time-outs

  /** libusb_cancel_transfer, with `result` what the backend returns if it is called. */
  function Cancel(x: Xfer, source: Source, result: int): (Xfer, int) {
    if !x.inFlight || x.cancelling then (x, ERROR_NOT_FOUND)
    else (x.(disappeared := x.disappeared || result == ERROR_NO_DEVICE, cancelling := true,
             cancels := x.cancels + [CancelCall(source, result)]), result)
  }

  /** handle_timeout */
  function TimeOut(x: Xfer, result: int): Xfer {
    var (c, r) := Cancel(x.(timeoutHandled := true), FromTimeout, result);
    if r == SUCCESS then c.(timedOut := true) else c
  }

  function Update(s: State, id: Id, x: Xfer): State {
    s.(xfers := s.xfers[id := x])
  }

  /** handle_timeouts_locked from position i on; `result` is what the backend answers to the
      cancellation of each transfer. */
  function SweepFrom(s: State, i: nat, now: Timespec, result: Id -> int): (r: State)
    requires Listed(s) && i <= |s.flying|
    ensures Listed(r) && r.flying == s.flying && r.timer == s.timer && r.usingTimer == s.usingTimer
    ensures r.armResult == s.armResult
    ensures r.xfers.Keys == s.xfers.Keys
    decreases |s.flying| - i
  {
    if i == |s.flying| || !IsSet(At(s, i).deadline) then s
    else if !Pending(At(s, i)) then SweepFrom(s, i + 1, now, result)
    else if Later(At(s, i).deadline, now) then s
    else SweepFrom(Update(s, s.flying[i], TimeOut(At(s, i), result(s.flying[i]))), i + 1, now, result)
  }

  function Sweep(s: State, now: Timespec, result: Id -> int): State
    requires Listed(s)
  {
    SweepFrom(s, 0, now, result)
  }

  predicate Due(x: Xfer, now: Timespec) {
    Pending(x) && !Later(x.deadline, now)
  }

  /** What a sweep does to one record, given whether the transfer is in the swept part. */
  function Swept(x: Xfer, inRange: bool, now: Timespec, result: int): Xfer {
    if inRange && Due(x, now) then TimeOut(x, result) else x
  }

  /** Where the sweep stops, nothing further down the list is due. */
  lemma NothingDueFrom(s: State, i: nat, now: Timespec)
    requires Listed(s) && Sorted(s) && i < |s.flying|
    requires !IsSet(At(s, i).deadline) || Later(At(s, i).deadline, now)
    ensures forall id <- s.flying[i..] :: !Due(s.xfers[id], now)
  {
    forall id <- s.flying[i..] ensures !Due(s.xfers[id], now) {
      var j :| i <= j < |s.flying| && s.flying[j] == id;
      assert i < j ==> NotAfter(At(s, i).deadline, At(s, j).deadline);
    }
  }

  lemma UpdateKeepsOrder(s: State, id: Id, x: Xfer)
    requires Listed(s) && Sorted(s) && id in s.xfers && x.deadline == s.xfers[id].deadline
    ensures Listed(Update(s, id, x)) && Sorted(Update(s, id, x))
  {
    assert forall j | 0 <= j < |s.flying| :: At(Update(s, id, x), j).deadline == At(s, j).deadline;
  }

  lemma TimeOutKeepsDeadline(x: Xfer, result: int)
    ensures TimeOut(x, result).deadline == x.deadline
  {
  }

  /** Although it returns at the first transfer that is not due yet, a sweep handles every due
      transfer of the list, and it touches nothing else. */
  lemma {:induction false} SweepIsExact(s: State, i: nat, now: Timespec, result: Id -> int)
    requires Listed(s) && Sorted(s) && i <= |s.flying|
    ensures forall id <- s.xfers ::
      SweepFrom(s, i, now, result).xfers[id] == Swept(s.xfers[id], id in s.flying[i..], now, result(id))
    decreases |s.flying| - i
  {
    hide NotAfter, Normal, Sorted, TimeOut;
    if i < |s.flying| {
      var head, rest := s.flying[i], s.flying[i + 1..];
      assert s.flying[i..] == [head] + rest;
      if !IsSet(At(s, i).deadline) || (Pending(At(s, i)) && Later(At(s, i).deadline, now)) {
        NothingDueFrom(s, i, now);
      } else if Pending(At(s, i)) {
        var next := Update(s, head, TimeOut(s.xfers[head], result(head)));
        TimeOutKeepsDeadline(s.xfers[head], result(head));
        UpdateKeepsOrder(s, head, TimeOut(s.xfers[head], result(head)));
        SweepIsExact(next, i + 1, now, result);
        assert head !in rest;
      } else {
        SweepIsExact(s, i + 1, now, result);
      }
    }
  }

  /** In particular no pending deadline at or before `now` survives a sweep. */
  lemma SweepLeavesNothingDue(s: State, now: Timespec, result: Id -> int)
    requires Listed(s) && Sorted(s)
    ensures forall id <- s.flying :: !Due(Sweep(s, now, result).xfers[id], now)
  {
    SweepIsExact(s, 0, now, result);
    forall id <- s.flying ensures !Due(Sweep(s, now, result).xfers[id], now) {
      assert id in s.flying[0..];
    }
  }

  lemma SweepKeepsInv(s: State, now: Timespec, result: Id -> int)
    requires Inv(s)
    ensures Inv(Sweep(s, now, result))
    ensures TimerCovers(s) ==> TimerCovers(Sweep(s, now, result))
  {
    SweepIsExact(s, 0, now, result);
    var r := Sweep(s, now, result);
    forall id <- r.xfers ensures Attributed(r.xfers[id]) && r.xfers[id].deadline == s.xfers[id].deadline {
      SweptIsAttributed(s.xfers[id], id in s.flying[0..], now, result(id));
    }
    assert forall j | 0 <= j < |s.flying| :: At(r, j).deadline == At(s, j).deadline;
  }

  lemma SweptIsAttributed(x: Xfer, inRange: bool, now: Timespec, result: int)
    requires Attributed(x)
    ensures var y := Swept(x, inRange, now, result);
      Attributed(y) && y.deadline == x.deadline && (Pending(y) ==> Pending(x))
  {
    assert x.cancels == [] ==> x.cancels + [CancelCall(FromTimeout, result)] == [CancelCall(FromTimeout, result)];
  }

  // ---------------------------------------------------------------- the life of a transfer

  /** A record as libusb_submit_transfer resets it. */
  function Fresh(h: Handle, d: Timespec): Xfer {
    Xfer(Some(h), d, false, false, false, false, false, false, [])
  }

  /** What happens to the context.  A submission that the backend refuses leaves the transfer on
      the list until its second half (`DropRefused`) takes the lock again.  Two steps stand for
      more than one locked region: an accepted submission releases flying_transfers_lock before
      the backend answers, though not the lock of the transfer, and a completion takes the
      transfer off the list before it clears the flag under the lock of the transfer.  Every
      other step is one stretch of code under one lock. */
  datatype Step =
    | Submit(id: Id, handle: Handle, timeoutMs: nat, now: Timespec, osHandles: bool, result: int)
    | DropRefused(id: Id)
    | UserCancel(id: Id, result: int)
    | HandleTimeouts(now: Timespec, results: Id -> int)
    | TimerTrigger(now: Timespec, results: Id -> int)
    | Complete(id: Id)
    | Close(handle: Handle)
    | OsTimer(answer: int)    // from now on the OS answers like this when the timer is set

  predicate InFlight(s: State, id: Id) {
    id in s.xfers && s.xfers[id].inFlight
  }

  /** A program does not submit a transfer while an earlier submission of it is still under way,
      and only transfers in flight complete. */
  predicate Enabled(s: State, c: Step) {
    match c
    case Submit(id, _, _, now, _, _) => Normal(now) && (id !in s.flying || InFlight(s, id))
    case DropRefused(id) => id in s.flying && id in s.xfers && !s.xfers[id].inFlight
    case UserCancel(id, _) => id in s.xfers
    case Complete(id) => id in s.flying && InFlight(s, id)
    case _ => true
  }

  function StartSubmit(s: State, id: Id, h: Handle, d: Timespec): State {
    Update(s, id, Fresh(h, d))
  }

  /** The backend accepts or refuses; it may take over the time-out. */
  function Launch(x: Xfer, osHandles: bool, result: int): Xfer {
    x.(osHandles := osHandles, inFlight := result == SUCCESS)
  }

  lemma StartSubmitIsListed(s: State, id: Id, h: Handle, d: Timespec)
    requires Listed(s) && Normal(d)
    ensures Listed(StartSubmit(s, id, h, d))
  {
  }

  /** The transfers of a list that do not belong to a handle, in order. */
  function Keep(s: State, ids: seq<Id>, h: Handle): (r: seq<Id>)
    requires Known(s, ids)
    ensures forall i | 0 <= i < |r| :: r[i] in ids
  {
    if ids == [] then []
    else if s.xfers[ids[0]].handle == Some(h) then Keep(s, ids[1..], h)
    else [ids[0]] + Keep(s, ids[1..], h)
  }

  /** The records after the transfers of `ids` that use the handle forgot it. */
  function Forget(s: State, ids: seq<Id>, h: Handle): map<Id, Xfer> {
    map id <- s.xfers ::
      if id in ids && s.xfers[id].handle == Some(h) then s.xfers[id].(handle := None) else s.xfers[id]
  }

  /** do_close: the transfers of the handle leave the list and forget the handle. */
  function Detach(s: State, h: Handle): State
    requires Listed(s)
  {
    s.(flying := Keep(s, s.flying, h), xfers := Forget(s, s.flying, h))
  }

  function Apply(s: State, c: Step): State
    requires Listed(s) && Enabled(s, c)
  {
    match c
    case Submit(id, h, ms, now, os, result) =>
      if InFlight(s, id) then s
      else
        StartSubmitIsListed(s, id, h, Deadline(now, ms));
        var d := Deadline(now, ms);
        var r := Insert(StartSubmit(s, id, h, d), id);
        if NotArmed(StartSubmit(s, id, h, d), d) then r else Update(r, id, Launch(r.xfers[id], os, result))
    case DropRefused(id) => Remove(s, id)
    case UserCancel(id, result) => Update(s, id, Cancel(s.xfers[id], FromUser, result).0)
    case HandleTimeouts(now, results) => Sweep(s, now, results)
    case TimerTrigger(now, results) => Rearm(Sweep(s, now, results))
    case Complete(id) =>
      var r := Remove(s, id);
      Update(r, id, r.xfers[id].(inFlight := false))
    case Close(h) => Detach(s, h)
    case OsTimer(answer) => s.(armResult := answer)
  }

  lemma SetKeepsInv(s: State, id: Id, x: Xfer)
    requires Inv(s) && id in s.xfers && x.deadline == s.xfers[id].deadline && Attributed(x)
    ensures Inv(Update(s, id, x))
    ensures TimerCovers(s) && (Pending(x) ==> Pending(s.xfers[id])) ==> TimerCovers(Update(s, id, x))
  {
    UpdateKeepsOrder(s, id, x);
  }

  lemma TimeOutIsListed(s: State, id: Id, result: int)
    requires Listed(s) && id in s.xfers
    ensures Listed(Update(s, id, TimeOut(s.xfers[id], result)))
  {
  }

  lemma StartSubmitKeepsInv(s: State, id: Id, h: Handle, d: Timespec)
    requires Inv(s) && id !in s.flying && Normal(d)
    ensures var r := StartSubmit(s, id, h, d);
      Inv(r) && (TimerCovers(s) ==> TimerCovers(r))
  {
    StartSubmitIsListed(s, id, h, d);
    var r := StartSubmit(s, id, h, d);
    assert forall j | 0 <= j < |s.flying| :: At(r, j) == At(s, j);
  }

  lemma SubmitKeepsInv(s: State, c: Step)
    requires Inv(s) && c.Submit? && Enabled(s, c)
    ensures Inv(Apply(s, c)) && (TimerCovers(s) ==> TimerCovers(Apply(s, c)))
  {
    if !InFlight(s, c.id) {
      var d := Deadline(c.now, c.timeoutMs);
      StartSubmitKeepsInv(s, c.id, c.handle, d);
      var r0 := StartSubmit(s, c.id, c.handle, d);
      InsertKeepsOrder(r0, c.id);
      if TimerCovers(s) { InsertKeepsTimer(r0, c.id); }
      var r := Insert(r0, c.id);
      if !NotArmed(r0, d) { SetKeepsInv(r, c.id, Launch(r.xfers[c.id], c.osHandles, c.result)); }
    }
  }

  lemma CancelIsAttributed(x: Xfer, result: int)
    requires Attributed(x)
    ensures var y := Cancel(x, FromUser, result).0;
      Attributed(y) && y.deadline == x.deadline && (Pending(y) ==> Pending(x))
  {
    var call := CancelCall(FromUser, result);
    assert x.cancels == [] ==> x.cancels + [call] == [call] && [call][0].source == FromUser;
  }

  lemma RearmKeepsInv(s: State)
    requires Inv(s)
    ensures Inv(Rearm(s))
  {
    assert forall j | 0 <= j < |s.flying| :: At(Rearm(s), j) == At(s, j);
  }

  lemma {:induction false} KeepIsSubsequence(s: State, ids: seq<Id>, h: Handle)
    requires Known(s, ids)
    requires forall i, j | 0 <= i < j < |ids| :: ids[i] != ids[j]
    ensures var r := Keep(s, ids, h);
      && (forall i, j | 0 <= i < j < |r| :: r[i] != r[j] && IndexOf(ids, r[i]) < IndexOf(ids, r[j]))
      && (forall id :: id in r <==> id in ids && s.xfers[id].handle != Some(h))
  {
    if ids != [] {
      KeepIsSubsequence(s, ids[1..], h);
      assert ids == [ids[0]] + ids[1..];
    }
  }

  lemma ForgetKeepsRecords(s: State, ids: seq<Id>, h: Handle)
    requires Listed(s) && AllAttributed(s)
    ensures var r := Forget(s, ids, h);
      r.Keys == s.xfers.Keys && forall id <- r :: Attributed(r[id]) && r[id].deadline == s.xfers[id].deadline
  {
  }

  lemma DetachKeepsInv(s: State, h: Handle)
    requires Inv(s)
    ensures Inv(Detach(s, h))
  {
    KeepIsSubsequence(s, s.flying, h);
    ForgetKeepsRecords(s, s.flying, h);
    var r := Detach(s, h);
    assert Listed(r);
    forall i, j | 0 <= i < j < |r.flying| ensures NotAfter(At(r, i).deadline, At(r, j).deadline) {
      var a, b := IndexOf(s.flying, r.flying[i]), IndexOf(s.flying, r.flying[j]);
      assert NotAfter(At(s, a).deadline, At(s, b).deadline);
    }
  }

  lemma {:induction false} KeepSplits(s: State, a: seq<Id>, b: seq<Id>, h: Handle)
    requires Known(s, a) && Known(s, b)
    ensures Known(s, a + b) && Keep(s, a + b, h) == Keep(s, a, h) + Keep(s, b, h)
  {
    if a == [] {
      assert a + b == b;
    } else {
      KeepSplits(s, a[1..], b, h);
      assert (a + b)[0] == a[0] && (a + b)[1..] == a[1..] + b;
      var x, y := Keep(s, a[1..], h), Keep(s, b, h);
      assert [a[0]] + (x + y) == ([a[0]] + x) + y;
    }
  }

  lemma KeepRound(s: State, k: nat, h: Handle)
    requires Listed(s) && k < |s.flying|
    ensures var id := s.flying[k];
      Keep(s, s.flying[..k + 1], h) == Keep(s, s.flying[..k], h) + (if s.xfers[id].handle == Some(h) then [] else [id])
  {
    var id, a := s.flying[k], s.flying[..k];
    assert s.flying[..k + 1] == a + [id];
    KeepSplits(s, a, [id], h);
    assert [id][1..] == [];
  }

  lemma ForgetRound(s: State, k: nat, h: Handle)
    requires Listed(s) && k < |s.flying|
    ensures var id, a := s.flying[k], s.flying[..k];
      && id in Forget(s, a, h) && Forget(s, a, h)[id] == s.xfers[id]
      && Forget(s, s.flying[..k + 1], h) ==
           if s.xfers[id].handle == Some(h) then Forget(s, a, h)[id := s.xfers[id].(handle := None)]
           else Forget(s, a, h)
  {
    var id, a := s.flying[k], s.flying[..k];
    assert s.flying[..k + 1] == a + [id] && id !in a;
    assert forall other :: other in a + [id] <==> other in a || other == id;
  }

  /** The steps that may leave the timer as it is although the first transfer goes away: closing a
      handle, and removing a transfer while the OS refuses to set the timer. */
  predicate LeavesTimer(s: State, c: Step) {
    c.Close? || ((c.DropRefused? || c.Complete?) && s.armResult != SUCCESS)
  }

  /** Every step keeps the list sorted and every cancellation attributed; every other step keeps
      the timer covering the first transfer. */
  lemma StepKeepsInv(s: State, c: Step)
    requires Inv(s) && Enabled(s, c)
    ensures Inv(Apply(s, c))
    ensures TimerCovers(s) && !LeavesTimer(s, c) ==> TimerCovers(Apply(s, c))
  {
    hide SweepFrom, NextTimer, FirstLater, Keep, Without;
    match c
    case Submit(_, _, _, _, _, _) => SubmitKeepsInv(s, c);
    case DropRefused(id) =>
      RemoveKeepsOrder(s, id);
      if TimerCovers(s) && s.armResult == SUCCESS { RemoveKeepsTimer(s, id); }
    case UserCancel(id, result) =>
      CancelIsAttributed(s.xfers[id], result);
      SetKeepsInv(s, id, Cancel(s.xfers[id], FromUser, result).0);
    case HandleTimeouts(now, results) => SweepKeepsInv(s, now, results);
    case TimerTrigger(now, results) =>
      SweepKeepsInv(s, now, results);
      RearmKeepsInv(Sweep(s, now, results));
      if s.armResult == SUCCESS { RearmCovers(Sweep(s, now, results)); }
    case Complete(id) =>
      RemoveKeepsOrder(s, id);
      if TimerCovers(s) && s.armResult == SUCCESS { RemoveKeepsTimer(s, id); }
      var r := Remove(s, id);
      SetKeepsInv(r, id, r.xfers[id].(inFlight := false));
    case Close(h) => DetachKeepsInv(s, h);
    case OsTimer(_) => assert forall j | 0 <= j < |s.flying| :: At(Apply(s, c), j) == At(s, j);
  }

  /** Any sequence of steps. */
  ghost predicate Run(s: State, cs: seq<Step>)
    requires Inv(s)
    decreases |cs|
  {
    cs == [] || (Enabled(s, cs[0]) && (StepKeepsInv(s, cs[0]); Run(Apply(s, cs[0]), cs[1..])))
  }

  ghost function After(s: State, cs: seq<Step>): (r: State)
    requires Inv(s) && Run(s, cs)
    ensures Inv(r)
    decreases |cs|
  {
    if cs == [] then s else StepKeepsInv(s, cs[0]); After(Apply(s, cs[0]), cs[1..])
  }

  /** As long as no handle is closed and the OS sets the timer when it is asked to, the timer always
      covers the first transfer. */
  lemma {:induction false} TimerAlwaysCovers(s: State, cs: seq<Step>)
    requires Inv(s) && TimerCovers(s) && Run(s, cs) && s.armResult == SUCCESS
    requires forall i | 0 <= i < |cs| :: !cs[i].Close? && (cs[i].OsTimer? ==> cs[i].answer == SUCCESS)
    ensures TimerCovers(After(s, cs))
    decreases |cs|
  {
    if cs != [] {
      StepKeepsInv(s, cs[0]);
      TimerAlwaysCovers(Apply(s, cs[0]), cs[1..]);
    }
  }

  datatype Status = Cancelled | TimedOut

  /** usbi_handle_transfer_cancellation */
  function ReportCancellation(x: Xfer): Status {
    if x.timedOut then TimedOut else Cancelled
  }

  /** In every run, from the empty context on: the backend is asked at most once per submission
      to cancel a transfer, and a cancellation is reported as a time-out exactly when that one
      request came from the time-out handler and was accepted. */
  lemma CancellationAttribution(usingTimer: bool, cs: seq<Step>, id: Id)
    requires Run(Initial(usingTimer), cs)
    requires id in After(Initial(usingTimer), cs).xfers
    ensures
      var x := After(Initial(usingTimer), cs).xfers[id];
      && |x.cancels| <= 1
      && (ReportCancellation(x) == TimedOut <==> |x.cancels| == 1 && x.cancels[0] == CancelCall(FromTimeout, SUCCESS))
  {
    assert Attributed(After(Initial(usingTimer), cs).xfers[id]);
  }

  /** In flight, but not on the list: nothing of libusb will ever look at it again. */
  predicate Detached(s: State, id: Id) {
    InFlight(s, id) && id !in s.flying
  }

  /** The step closes the handle that a flying transfer in flight uses. */
  predicate ClosesUnder(s: State, c: Step, id: Id) {
    c.Close? && InFlight(s, id) && id in s.flying && s.xfers[id].handle == Some(c.handle)
  }

  lemma SubmitDetachesNothing(s: State, c: Step, id: Id)
    requires Inv(s) && c.Submit? && Enabled(s, c)
    ensures Detached(Apply(s, c), id) <==> Detached(s, id)
  {
    hide Sorted, AllAttributed, Normal, FirstLater, InsertAt, ArmsTimer, IsSet, Deadline;
    if !InFlight(s, c.id) {
      var d := Deadline(c.now, c.timeoutMs);
      StartSubmitIsListed(s, c.id, c.handle, d);
      var reset := StartSubmit(s, c.id, c.handle, d);
      var k := InsertAt(reset, d);
      assert s.flying == s.flying[..k] + s.flying[k..];
    }
  }

  lemma RemovalDetachesNothing(s: State, c: Step, id: Id)
    requires Inv(s) && (c.DropRefused? || c.Complete?) && Enabled(s, c)
    ensures Detached(Apply(s, c), id) <==> Detached(s, id)
  {
    hide Sorted, AllAttributed, Normal, NextTimer;
    RemoveKeepsOrder(s, c.id);
    var k := IndexOf(s.flying, c.id);
    assert s.flying == s.flying[..k] + [c.id] + s.flying[k + 1..];
  }

  /** The only step that takes a transfer in flight off the list without completing it is closing
      its handle; and no step ever brings it back. */
  lemma OnlyCloseDetaches(s: State, c: Step, id: Id)
    requires Inv(s) && Enabled(s, c)
    ensures Detached(Apply(s, c), id) <==> Detached(s, id) || ClosesUnder(s, c, id)
  {
    hide Sorted, AllAttributed, Normal, NextTimer;
    match c
    case Submit(_, _, _, _, _, _) => SubmitDetachesNothing(s, c, id);
    case DropRefused(_) => RemovalDetachesNothing(s, c, id);
    case Complete(_) => RemovalDetachesNothing(s, c, id);
    case UserCancel(_, _) =>
    case HandleTimeouts(now, results) => SweepIsExact(s, 0, now, results);
    case TimerTrigger(now, results) => SweepIsExact(s, 0, now, results);
    case Close(h) => KeepIsSubsequence(s, s.flying, h);
    case OsTimer(_) =>
  }

  /** Somewhere in the run a handle is closed under the transfer. */
  ghost predicate ClosedUnder(s: State, cs: seq<Step>, id: Id)
    requires Inv(s) && Run(s, cs)
    decreases |cs|
  {
    cs != [] &&
    (ClosesUnder(s, cs[0], id) || (StepKeepsInv(s, cs[0]); ClosedUnder(Apply(s, cs[0]), cs[1..], id)))
  }

  /** After any run, a transfer is in flight but off the list if and only if its handle was closed
      under it: this is permanent, and it comes about in no other way. */
  lemma {:induction false} DetachedIffClosedUnder(s: State, cs: seq<Step>, id: Id)
    requires Inv(s) && Run(s, cs)
    ensures Detached(After(s, cs), id) <==> Detached(s, id) || ClosedUnder(s, cs, id)
    decreases |cs|
  {
    if cs != [] {
      StepKeepsInv(s, cs[0]);
      OnlyCloseDetaches(s, cs[0], id);
      DetachedIffClosedUnder(Apply(s, cs[0]), cs[1..], id);
    }
  }

  /** A transfer that was in flight when its handle was closed can never be submitted again: after
      whatever follows the close it is still in flight, so every submission of it is refused
      as busy and changes nothing. */
  lemma ClosedInFlightStaysBusy(s: State, h: Handle, cs: seq<Step>, id: Id, again: Step)
    requires Inv(s) && id in s.flying && InFlight(s, id) && s.xfers[id].handle == Some(h)
    requires Run(s, [Close(h)] + cs)
    requires again.Submit? && again.id == id && Normal(again.now)
    ensures var t := After(s, [Close(h)] + cs);
      InFlight(t, id) && id !in t.flying && Enabled(t, again) && Apply(t, again) == t
  {
    assert ([Close(h)] + cs)[0] == Close(h);
    DetachedIffClosedUnder(s, [Close(h)] + cs, id);
  }

  /** A submission that the list has taken, followed by its second half if the backend refuses. */
  predicate Submitted(s: State, c: Step, t: State)
    requires Listed(s) && c.Submit? && Enabled(s, c)
  {
    var submitted := Apply(s, c);
    if c.result == SUCCESS then t == submitted
    else Listed(submitted) && Enabled(submitted, DropRefused(c.id)) && t == Apply(submitted, DropRefused(c.id))
  }

  // ---------------------------------------------------------------- limits of the timer

  /** The timer is about the first transfer only: behind a transfer whose time-out was handled
      but whose cancellation is still under way, a new deadline is not armed for, so nothing
      pending need be covered. */
  lemma HiddenDeadline(s: State, c: Step)
    requires Inv(s) && TimerCovers(s) && c.Submit? && Enabled(s, c) && !InFlight(s, c.id)
    requires s.usingTimer && s.timer == None && s.flying != [] && c.timeoutMs != 0 && !c.osHandles
    requires IsSet(At(s, 0).deadline) && !Later(At(s, 0).deadline, Deadline(c.now, c.timeoutMs))
    ensures var r := Apply(s, c);
      r.timer == None && c.id in r.flying && Pending(r.xfers[c.id])
  {
    var d := Deadline(c.now, c.timeoutMs);
    StartSubmitIsListed(s, c.id, c.handle, d);
    var r0 := StartSubmit(s, c.id, c.handle, d);
    assert InsertAt(r0, d) == FirstLater(r0, d, 0) == FirstLater(r0, d, 1) > 0;
    InsertIsListed(r0, c.id);
    assert Insert(r0, c.id).flying[InsertAt(r0, d)] == c.id;
  }

  /** The timer covers every pending deadline of the list, not only the first transfer. */
  predicate AllCovered(s: State) {
    s.usingTimer ==>
      forall id <- s.flying :: id in s.xfers && Pending(s.xfers[id]) ==>
        s.timer.Some? && NotAfter(s.timer.value, s.xfers[id].deadline)
  }

  /** Submission keeps that exactly if the new transfer has no deadline for libusb to act on, goes to
      the front of the list, or is not earlier than the timer already is. */
  lemma SubmitCoversAllUnless(s: State, c: Step)
    requires Inv(s) && AllCovered(s) && s.usingTimer && c.Submit? && Enabled(s, c) && !InFlight(s, c.id)
    ensures Listed(StartSubmit(s, c.id, c.handle, Deadline(c.now, c.timeoutMs)))
    ensures var d := Deadline(c.now, c.timeoutMs);
      AllCovered(Apply(s, c)) <==>
        || !IsSet(d) || c.osHandles
        || InsertAt(StartSubmit(s, c.id, c.handle, d), d) == 0
        || (s.timer.Some? && NotAfter(s.timer.value, d))
  {
    hide Sorted, AllAttributed, NextTimer, FirstLater, AllCovered, NotAfter;
    var d := Deadline(c.now, c.timeoutMs);
    StartSubmitKeepsInv(s, c.id, c.handle, d);
    var reset := StartSubmit(s, c.id, c.handle, d);
    if NotArmed(reset, d) {
      SameCover(s, reset, c.id);
      return;
    }
    InsertIsListed(reset, c.id);
    InsertKeepsOrder(reset, c.id);
    var t := Insert(reset, c.id);
    assert t.flying[InsertAt(reset, d)] == c.id;
    var armed := InsertAt(reset, d) == 0 && IsSet(d);
    if armed { HeadIsEarliest(t); }
    OneMoreToCover(s, Apply(s, c), c.id, armed);
  }

  /** A record off the list does not matter. */
  lemma SameCover(s: State, t: State, id: Id)
    requires Listed(s) && t == s.(xfers := t.xfers) && id !in s.flying
    requires forall other <- s.xfers :: other in t.xfers && (other != id ==> t.xfers[other] == s.xfers[other])
    requires AllCovered(s)
    ensures AllCovered(t)
  {
  }

  lemma HeadIsEarliest(s: State)
    requires Listed(s) && Sorted(s) && s.flying != []
    ensures forall id <- s.flying :: NotAfter(At(s, 0).deadline, s.xfers[id].deadline)
  {
    hide NotAfter;
    forall id <- s.flying
      ensures NotAfter(At(s, 0).deadline, s.xfers[id].deadline)
    {
      var j := IndexOf(s.flying, id);
      assert At(s, j) == s.xfers[id];
      assert 0 < j ==> NotAfter(At(s, 0).deadline, At(s, j).deadline);
      NotAfterItself(At(s, 0).deadline);
    }
  }

  lemma NotAfterItself(d: Timespec)
    ensures NotAfter(d, d)
  {
  }

  /** From s to t the list got one more transfer, and the timer was set to it or not at all. */
  lemma OneMoreToCover(s: State, t: State, id: Id, armed: bool)
    requires AllCovered(s) && s.usingTimer && t.usingTimer && id in t.xfers && id !in s.flying
    requires forall other :: other in t.flying <==> other in s.flying || other == id
    requires forall other <- s.flying :: other in s.xfers && other in t.xfers && t.xfers[other] == s.xfers[other]
    requires t.timer == if armed then Some(t.xfers[id].deadline) else s.timer
    requires armed ==>
      forall other <- t.flying :: other in t.xfers && NotAfter(t.xfers[id].deadline, t.xfers[other].deadline)
    ensures AllCovered(t) <==>
      !Pending(t.xfers[id]) || armed || (s.timer.Some? && NotAfter(s.timer.value, t.xfers[id].deadline))
  {
    hide NotAfter, Pending;
  }

  /** Removing a transfer breaks the cover exactly if the OS refuses to set the timer, the transfer is
      the first one and had its time-out handled or left to the OS, and the next one is pending
      while the timer is off or armed for later. */
  lemma RemoveKeepsTimerUnless(s: State, id: Id)
    requires Inv(s) && TimerCovers(s) && id in s.flying && (s.timer.Some? ==> Normal(s.timer.value))
    ensures Listed(Remove(s, id))
    ensures TimerCovers(Remove(s, id)) <==>
      !(s.armResult != SUCCESS && s.usingTimer && id == s.flying[0] && |s.flying| > 1
        && !Pending(At(s, 0)) && Pending(At(s, 1))
        && (s.timer.None? || !NotAfter(s.timer.value, At(s, 1).deadline)))
  {
    RemoveKeepsOrder(s, id);
    if s.armResult == SUCCESS {
      RemoveKeepsTimer(s, id);
    } else {
      var r := Remove(s, id);
      WithoutAt(s.flying, id);
      if id == s.flying[0] {
        assert IndexOf(s.flying, id) == 0;
        if |s.flying| > 1 {
          assert r.flying[0] == s.flying[1];
          assert NotAfter(At(s, 0).deadline, At(s, 1).deadline);
        }
      } else {
        assert r.flying[0] == s.flying[0];
      }
    }
  }

  /** Such a state is reached: a transfer with a time-out of a second times out, and while its
      cancellation is under way another handle submits one, also with a second to go.  Then the
      first handle is closed. */
  const UNCOVERING: seq<Step> := [
    Submit(0, 7, 1000, Timespec(0, 0), false, SUCCESS),
    TimerTrigger(Timespec(1, 0), _ => SUCCESS),
    Submit(1, 8, 1000, Timespec(1, 0), false, SUCCESS),
    Close(7)]

  const FIRST := Fresh(7, Timespec(1, 0)).(inFlight := true)
  const EXPIRED := FIRST.(timeoutHandled := true, cancelling := true, timedOut := true,
                          cancels := [CancelCall(FromTimeout, SUCCESS)])
  const SECOND := Fresh(8, Timespec(2, 0)).(inFlight := true)

  /** The context after the first steps of that run. */
  function Uncovering(i: nat): State {
    if i == 0 then Initial(true)
    else if i == 1 then State([0], map[0 := FIRST], Some(Timespec(1, 0)), true, SUCCESS)
    else if i == 2 then State([0], map[0 := EXPIRED], None, true, SUCCESS)
    else if i == 3 then State([0, 1], map[0 := EXPIRED, 1 := SECOND], None, true, SUCCESS)
    else State([1], map[0 := EXPIRED.(handle := None), 1 := SECOND], None, true, SUCCESS)
  }

  lemma FirstIsSubmitted()
    ensures Enabled(Uncovering(0), UNCOVERING[0]) && Apply(Uncovering(0), UNCOVERING[0]) == Uncovering(1)
  {
    assert InsertAt(StartSubmit(Uncovering(0), 0, 7, Timespec(1, 0)), Timespec(1, 0)) == 0;
  }

  lemma FirstExpires()
    ensures Listed(Uncovering(1)) && Enabled(Uncovering(1), UNCOVERING[1])
    ensures Apply(Uncovering(1), UNCOVERING[1]) == Uncovering(2)
  {
    var s, c := Uncovering(1), UNCOVERING[1];
    assert FIRST.cancels + [CancelCall(FromTimeout, SUCCESS)] == [CancelCall(FromTimeout, SUCCESS)];
    assert TimeOut(FIRST, SUCCESS) == EXPIRED;
    assert Sweep(s, c.now, c.results) == SweepFrom(Update(s, 0, EXPIRED), 1, c.now, c.results);
  }

  lemma SecondIsSubmitted()
    ensures Listed(Uncovering(2)) && Enabled(Uncovering(2), UNCOVERING[2])
    ensures Apply(Uncovering(2), UNCOVERING[2]) == Uncovering(3)
  {
    var reset := StartSubmit(Uncovering(2), 1, 8, Timespec(2, 0));
    assert InsertAt(reset, Timespec(2, 0)) == FirstLater(reset, Timespec(2, 0), 1) == 1;
  }

  lemma FirstHandleIsClosed()
    ensures Listed(Uncovering(3)) && Enabled(Uncovering(3), UNCOVERING[3])
    ensures Apply(Uncovering(3), UNCOVERING[3]) == Uncovering(4)
  {
    var s := Uncovering(3);
    var ids := s.flying;
    assert Keep(s, ids, 7) == Keep(s, ids[1..], 7) == [1] + Keep(s, ids[1..][1..], 7) == [1];
  }

  lemma {:induction false} UncoveringStep(i: nat)
    requires i < 4
    ensures var s := Uncovering(i);
      && Inv(s) && Enabled(s, UNCOVERING[i]) && Apply(s, UNCOVERING[i]) == Uncovering(i + 1)
      && Inv(Uncovering(i + 1))
  {
    hide Apply, Enabled, Inv, Uncovering;
    if i == 0 {
      InitialIsWellFormed();
      FirstIsSubmitted();
    } else {
      UncoveringStep(i - 1);
      if i == 1 { FirstExpires(); } else if i == 2 { SecondIsSubmitted(); } else { FirstHandleIsClosed(); }
    }
    StepKeepsInv(Uncovering(i), UNCOVERING[i]);
  }

  lemma {:induction false} UncoveringRuns(i: nat, n: nat)
    requires i <= n <= 4
    ensures Inv(Uncovering(i)) && Run(Uncovering(i), UNCOVERING[i..n])
    ensures After(Uncovering(i), UNCOVERING[i..n]) == Uncovering(n)
    decreases n - i
  {
    hide Apply, Enabled, Inv, Uncovering, Run, After;
    if i == n {
      UncoveringStep(if n == 4 then 3 else n);
      assert UNCOVERING[i..n] == [];
      RunNothing(Uncovering(n));
    } else {
      UncoveringStep(i);
      UncoveringRuns(i + 1, n);
      RunFirst(Uncovering(i), UNCOVERING[i], UNCOVERING[i + 1..n]);
      assert UNCOVERING[i..n] == [UNCOVERING[i]] + UNCOVERING[i + 1..n];
    }
  }

  lemma InitialIsWellFormed()
    ensures Inv(Uncovering(0))
  {
  }

  lemma RunNothing(s: State)
    requires Inv(s)
    ensures Run(s, []) && After(s, []) == s
  {
  }

  lemma RunFirst(s: State, c: Step, cs: seq<Step>)
    requires Inv(s) && Enabled(s, c) && Inv(Apply(s, c)) && Run(Apply(s, c), cs)
    ensures Run(s, [c] + cs) && After(s, [c] + cs) == After(Apply(s, c), cs)
  {
    assert ([c] + cs)[0] == c && ([c] + cs)[1..] == cs;
  }

  /** From the empty context on, three steps lead to a pending deadline while the timer is off. */
  lemma HiddenDeadlineIsReached()
    ensures Run(Initial(true), UNCOVERING[..3])
    ensures var s := After(Initial(true), UNCOVERING[..3]);
      && s.flying == [0, 1] && s.usingTimer && s.timer == None && 1 in s.xfers && Pending(s.xfers[1])
      && TimerCovers(s) && !AllCovered(s)
  {
    UncoveringRuns(0, 3);
    assert UNCOVERING[0..3] == UNCOVERING[..3];
    var s := Uncovering(3);
    assert s.flying[1] in s.flying;
  }

  /** Closing a handle does not set the timer anew, so it can break the cover: one step more, and
      the pending deadline is that of the first transfer while the timer is still off. */
  lemma CloseCanUncover()
    ensures Run(Initial(true), UNCOVERING)
    ensures var s := After(Initial(true), UNCOVERING);
      s.flying == [1] && s.usingTimer && s.timer == None && 1 in s.xfers && Pending(s.xfers[1]) && !TimerCovers(s)
  {
    UncoveringRuns(0, 4);
    assert UNCOVERING[0..4] == UNCOVERING;
  }

  /** The first position of the list, from i on, that is not on the handle. */
  function FirstOther(s: State, h: Handle, i: nat): (k: nat)
    requires Listed(s) && i <= |s.flying|
    ensures i <= k <= |s.flying|
    ensures forall j | i <= j < k :: At(s, j).handle == Some(h)
    ensures k < |s.flying| ==> At(s, k).handle != Some(h)
    decreases |s.flying| - i
  {
    if i == |s.flying| || At(s, i).handle != Some(h) then i else FirstOther(s, h, i + 1)
  }

  lemma {:induction false} FirstLeft(s: State, h: Handle, i: nat)
    requires Listed(s) && i <= |s.flying|
    ensures var k, kept := FirstOther(s, h, i), Keep(s, s.flying[i..], h);
      if k < |s.flying| then kept != [] && kept[0] == s.flying[k] else kept == []
    decreases |s.flying| - i
  {
    if i < |s.flying| {
      assert s.flying[i..][1..] == s.flying[i + 1..];
      FirstLeft(s, h, i + 1);
    }
  }

  /** Closing a handle breaks the cover exactly if the first transfer belongs to it, has its time-out
      handled or left to the OS, and the first one that stays is pending while the timer is off or
      armed for later. */
  lemma CloseKeepsTimerUnless(s: State, h: Handle)
    requires Inv(s) && TimerCovers(s) && (s.timer.Some? ==> Normal(s.timer.value))
    ensures Listed(Detach(s, h))
    ensures var k := FirstOther(s, h, 0);
      TimerCovers(Detach(s, h)) <==>
        !(s.usingTimer && 0 < k < |s.flying| && !Pending(At(s, 0)) && Pending(At(s, k))
          && (s.timer.None? || !NotAfter(s.timer.value, At(s, k).deadline)))
  {
    DetachKeepsInv(s, h);
    FirstLeft(s, h, 0);
    assert s.flying[0..] == s.flying;
    var k, r := FirstOther(s, h, 0), Detach(s, h);
    if k < |s.flying| {
      assert r.flying[0] == s.flying[k];
      assert r.xfers[s.flying[k]] == s.xfers[s.flying[k]];
      if k > 0 && Pending(At(s, 0)) { assert NotAfter(At(s, 0).deadline, At(s, k).deadline); }
    }
  }

  // ---------------------------------------------------------------- device removal

  /** The transfers of a handle that are in flight, in list order. */
  function InFlightOn(s: State, ids: seq<Id>, h: Handle): (r: seq<Id>)
    requires Known(s, ids)
    ensures forall id :: id in r <==> id in ids && s.xfers[id].inFlight && s.xfers[id].handle == Some(h)
  {
    if ids == [] then []
    else if s.xfers[ids[0]].handle == Some(h) && s.xfers[ids[0]].inFlight then [ids[0]] + InFlightOn(s, ids[1..], h)
    else InFlightOn(s, ids[1..], h)
  }

  lemma InFlightUnfolds(s: State, ids: seq<Id>, h: Handle)
    requires Known(s, ids)
    ensures ids == [] ==> InFlightOn(s, ids, h) == []
    ensures ids != [] ==> Known(s, ids[1..])
    ensures ids != [] ==>
      InFlightOn(s, ids, h) ==
        (if s.xfers[ids[0]].handle == Some(h) && s.xfers[ids[0]].inFlight then [ids[0]] else [])
        + InFlightOn(s, ids[1..], h)
  {
    if ids != [] { assert [] + InFlightOn(s, ids[1..], h) == InFlightOn(s, ids[1..], h); }
  }

  lemma {:induction false} InFlightSplits(s: State, a: seq<Id>, b: seq<Id>, h: Handle)
    requires Known(s, a) && Known(s, b)
    ensures Known(s, a + b) && InFlightOn(s, a + b, h) == InFlightOn(s, a, h) + InFlightOn(s, b, h)
  {
    hide InFlightOn;
    InFlightUnfolds(s, a, h);
    if a == [] {
      assert a + b == b;
    } else {
      InFlightSplits(s, a[1..], b, h);
      assert (a + b)[0] == a[0] && (a + b)[1..] == a[1..] + b;
      InFlightUnfolds(s, a + b, h);
    }
  }

  /** Two states show the same handle and the same in-flight flag for all of `ids`. */
  predicate Agree(s: State, t: State, ids: seq<Id>) {
    && Known(s, ids) && Known(t, ids)
    && forall i | 0 <= i < |ids| ::
         t.xfers[ids[i]].handle == s.xfers[ids[i]].handle && t.xfers[ids[i]].inFlight == s.xfers[ids[i]].inFlight
  }

  lemma {:induction false} KeepFrame(s: State, t: State, ids: seq<Id>, h: Handle)
    requires Agree(s, t, ids)
    ensures Keep(t, ids, h) == Keep(s, ids, h)
  {
    if ids != [] { KeepFrame(s, t, ids[1..], h); }
  }

  lemma {:induction false} InFlightFrame(s: State, t: State, ids: seq<Id>, h: Handle)
    requires Agree(s, t, ids)
    ensures InFlightOn(t, ids, h) == InFlightOn(s, ids, h)
  {
    if ids != [] { InFlightFrame(s, t, ids[1..], h); }
  }

  /** The two states differ in the record of `id` at most. */
  predicate DifferAt(s: State, t: State, id: Id) {
    t.xfers.Keys == s.xfers.Keys && forall other <- s.xfers :: other != id ==> t.xfers[other] == s.xfers[other]
  }

  lemma AgreeElsewhere(s: State, t: State, ids: seq<Id>, id: Id)
    requires Known(s, ids) && id !in ids && DifferAt(s, t, id)
    ensures Agree(s, t, ids)
  {
    assert forall i | 0 <= i < |ids| :: ids[i] != id;
  }

  lemma FirstInFlight(s: State, a: seq<Id>, id: Id, b: seq<Id>, h: Handle)
    requires Known(s, a) && Known(s, b) && id in s.xfers && s.xfers[id].handle == Some(h) && s.xfers[id].inFlight
    requires InFlightOn(s, a, h) == []
    ensures Known(s, a + ([id] + b))
    ensures InFlightOn(s, a + ([id] + b), h) == [id] + InFlightOn(s, b, h)
    ensures Keep(s, a + ([id] + b), h) == Keep(s, a, h) + Keep(s, b, h)
  {
    assert ([id] + b)[1..] == b;
    KeepSplits(s, a, [id] + b, h);
    InFlightSplits(s, a, [id] + b, h);
  }

  lemma CompleteFirstSelects(s: State, t: State, a: seq<Id>, id: Id, b: seq<Id>, h: Handle)
    requires Known(s, a) && Known(s, b) && id in s.xfers && s.xfers[id].handle == Some(h) && s.xfers[id].inFlight
    requires id !in a && id !in b && InFlightOn(s, a, h) == []
    requires DifferAt(s, t, id)
    ensures Known(s, a + ([id] + b)) && Known(t, a + b)
    ensures InFlightOn(s, a + ([id] + b), h) == [id] + InFlightOn(t, a + b, h)
    ensures Keep(t, a + b, h) == Keep(s, a + ([id] + b), h)
  {
    FirstInFlight(s, a, id, b, h);
    AgreeElsewhere(s, t, a, id);
    AgreeElsewhere(s, t, b, id);
    KeepFrame(s, t, a, h);
    KeepFrame(s, t, b, h);
    InFlightFrame(s, t, a, h);
    InFlightFrame(s, t, b, h);
    KeepSplits(t, a, b, h);
    InFlightSplits(t, a, b, h);
  }

  lemma CompleteDiffers(s: State, k: nat)
    requires Inv(s) && k < |s.flying| && At(s, k).inFlight
    ensures Enabled(s, Complete(s.flying[k]))
    ensures var t := Apply(s, Complete(s.flying[k]));
      && Inv(t) && t.usingTimer == s.usingTimer && DifferAt(s, t, s.flying[k])
      && t.flying == s.flying[..k] + s.flying[k + 1..]
  {
    var id := s.flying[k];
    StepKeepsInv(s, Complete(id));
    assert IndexOf(s.flying, id) == k;
  }

  lemma {:induction false} KeepMembers(s: State, ids: seq<Id>, h: Handle)
    requires Known(s, ids)
    ensures forall id <- Keep(s, ids, h) :: id in s.xfers && s.xfers[id].handle != Some(h)
  {
    if ids != [] { KeepMembers(s, ids[1..], h); }
  }

  /** From s to t the transfers of other handles keep their order and their records. */
  predicate OthersUndisturbed(s: State, t: State, h: Handle)
    requires Listed(s) && Listed(t)
  {
    && Keep(t, t.flying, h) == Keep(s, s.flying, h)
    && forall other <- Keep(s, s.flying, h) :: other in s.xfers && other in t.xfers && t.xfers[other] == s.xfers[other]
  }

  /** `id` is the first transfer in flight on the handle in s and no longer is in t, where the
      rest of that selection still is; other handles see no difference. */
  predicate TakenOut(s: State, t: State, id: Id, h: Handle)
    requires Listed(s) && Listed(t)
  {
    InFlightOn(s, s.flying, h) == [id] + InFlightOn(t, t.flying, h) && OthersUndisturbed(s, t, h)
  }

  lemma TakeOut(s: State, t: State, k: nat, h: Handle)
    requires Listed(s) && Listed(t) && k < |s.flying| && At(s, k).handle == Some(h) && At(s, k).inFlight
    requires InFlightOn(s, s.flying[..k], h) == []
    requires DifferAt(s, t, s.flying[k]) && t.flying == s.flying[..k] + s.flying[k + 1..]
    ensures TakenOut(s, t, s.flying[k], h)
  {
    var id, a, b := s.flying[k], s.flying[..k], s.flying[k + 1..];
    assert s.flying == a + ([id] + b);
    CompleteFirstSelects(s, t, a, id, b, h);
    KeepMembers(s, s.flying, h);
  }

  /** Completing the first transfer in flight on a handle takes it, and nothing else, off that
      selection. */
  lemma CompleteFirst(s: State, k: nat, h: Handle)
    requires Inv(s) && k < |s.flying| && At(s, k).handle == Some(h) && At(s, k).inFlight
    requires InFlightOn(s, s.flying[..k], h) == []
    ensures Enabled(s, Complete(s.flying[k]))
    ensures Inv(Apply(s, Complete(s.flying[k]))) && TakenOut(s, Apply(s, Complete(s.flying[k])), s.flying[k], h)
  {
    CompleteDiffers(s, k);
    TakeOut(s, Apply(s, Complete(s.flying[k])), k, h);
  }

  /** What an application callback may do to the context while a device goes away: anything that
      keeps it well-formed, except changing which transfers are in flight on the lost handle. */
  ghost predicate Harmless(callback: (State, Id) -> State, h: Handle) {
    forall s: State, id: Id :: Inv(s) ==>
      var t := callback(s, id);
      Inv(t) && t.usingTimer == s.usingTimer && InFlightOn(t, t.flying, h) == InFlightOn(s, s.flying, h)
  }

  /** A callback that does not touch the transfers of other handles either. */
  ghost predicate Discreet(callback: (State, Id) -> State, h: Handle) {
    forall s: State, id: Id :: Inv(s) && Inv(callback(s, id)) ==> OthersUndisturbed(s, callback(s, id), h)
  }

  lemma UndisturbedReflexive(s: State, h: Handle)
    requires Listed(s)
    ensures OthersUndisturbed(s, s, h)
  {
    KeepMembers(s, s.flying, h);
  }

  lemma UndisturbedTransitive(s: State, t: State, u: State, h: Handle)
    requires Listed(s) && Listed(t) && Listed(u) && OthersUndisturbed(s, t, h) && OthersUndisturbed(t, u, h)
    ensures OthersUndisturbed(s, u, h)
  {
    hide Keep, Listed;
  }

  /** One round of the loop in handle_timeouts_locked. */
  lemma SweepRound(s: State, i: nat, now: Timespec, result: Id -> int)
    requires Listed(s) && i <= |s.flying|
    ensures SweepFrom(s, i, now, result) ==
      if i == |s.flying| || !IsSet(At(s, i).deadline) then s
      else if !Pending(At(s, i)) then SweepFrom(s, i + 1, now, result)
      else if Later(At(s, i).deadline, now) then s
      else SweepFrom(Update(s, s.flying[i], TimeOut(At(s, i), result(s.flying[i]))), i + 1, now, result)
  {
  }
}
