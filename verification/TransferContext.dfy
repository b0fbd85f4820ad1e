/** The functions of io.c and core.c that work on the flying transfers, on the fields of the
    context.  Each is proved to do what the corresponding function of `FlyingTransfers` says. */
module TransferContext {
  import opened Deadlines
  import opened FlyingTransfers

  lemma InsertThenRemove(ids: seq<Id>, k: nat, id: Id)
    requires k <= |ids| && id !in ids
    ensures Without(ids[..k] + [id] + ids[k..], id) == ids
  {
    var all := ids[..k] + [id] + ids[k..];
    assert all[k] == id && forall i | 0 <= i < |all| && i != k :: all[i] != id;
  }

  /** A transfer that was enlisted and handed to the backend; a refused one is dropped again. */
  lemma Launched(before: State, c: Step)
    requires Inv(before) && c.Submit? && Enabled(before, c) && !InFlight(before, c.id)
    requires Listed(StartSubmit(before, c.id, c.handle, Deadline(c.now, c.timeoutMs)))
    requires !NotArmed(StartSubmit(before, c.id, c.handle, Deadline(c.now, c.timeoutMs)), Deadline(c.now, c.timeoutMs))
    ensures
      var s := Insert(StartSubmit(before, c.id, c.handle, Deadline(c.now, c.timeoutMs)), c.id);
      c.id in s.xfers &&
      var t := Update(s, c.id, Launch(s.xfers[c.id], c.osHandles, c.result));
      && Inv(t) && c.id in t.flying && t == Apply(before, c)
      && (c.result == SUCCESS ==> InFlight(t, c.id) && Submitted(before, c, t))
      && (c.result != SUCCESS ==> Submitted(before, c, Remove(t, c.id)) && Remove(t, c.id).flying == before.flying)
  {
    hide Sorted, FirstLater, Without, NextTimer;
    var d := Deadline(c.now, c.timeoutMs);
    var reset := StartSubmit(before, c.id, c.handle, d);
    InsertIsListed(reset, c.id);
    var s := Insert(reset, c.id);
    assert s.flying[InsertAt(reset, d)] == c.id;
    StartSubmitKeepsInv(before, c.id, c.handle, d);
    InsertKeepsOrder(reset, c.id);
    SetKeepsInv(s, c.id, Launch(s.xfers[c.id], c.osHandles, c.result));
    InsertThenRemove(reset.flying, InsertAt(reset, d), c.id);
  }

  /** After k rounds of the walk in do_close over a list that began as s. */
  ghost predicate WalkedTo(s: State, k: nat, i: int, h: Handle, flying: seq<Id>, xfers: map<Id, Xfer>)
    requires Listed(s)
  {
    && k <= |s.flying| && i == |Keep(s, s.flying[..k], h)|
    && flying == Keep(s, s.flying[..k], h) + s.flying[k..]
    && xfers == Forget(s, s.flying[..k], h)
  }

  /** One round: the transfer at position i is detached or passed over. */
  lemma WalkRound(s: State, k: nat, i: nat, h: Handle, flying: seq<Id>, xfers: map<Id, Xfer>)
    requires Listed(s) && k < |s.flying| && WalkedTo(s, k, i, h, flying, xfers)
    ensures i < |flying| && flying[i] == s.flying[k] && s.flying[k] in xfers
    ensures xfers[s.flying[k]].handle == Some(h) ==>
      WalkedTo(s, k + 1, i, h, flying[..i] + flying[i + 1..], xfers[s.flying[k] := xfers[s.flying[k]].(handle := None)])
    ensures xfers[s.flying[k]].handle != Some(h) ==> WalkedTo(s, k + 1, i + 1, h, flying, xfers)
  {
    hide Keep, Forget, Listed;
    KeepRound(s, k, h);
    ForgetRound(s, k, h);
    CutMiddle(flying[..i], s.flying[k..]);
  }

  class Context {
    var flying: seq<Id>
    var xfers: map<Id, Xfer>
    var timer: Option<Timespec>
    const usingTimer: bool
    var armResult: int    // what the OS answers when the timer is armed or disarmed

    ghost function View(): State
      reads this
    {
      State(flying, xfers, timer, usingTimer, armResult)
    }

    ghost predicate Valid()
      reads this
    {
      Inv(View())
    }

    constructor (usingTimer: bool)
      ensures Valid() && View() == Initial(usingTimer)
    {
      flying, xfers, timer, armResult := [], map[], None, SUCCESS;
      this.usingTimer := usingTimer;
    }

    /** add_to_flying_list for a transfer whose record was just reset.  If the timer must be armed
        and is not, the transfer is taken off again. */
    method AddToFlyingList(id: Id) returns (r: int)
      requires Valid() && id in xfers && id !in flying
      modifies `flying, `timer
      ensures View() == Insert(old(View()), id)
      ensures r == if NotArmed(old(View()), xfers[id].deadline) then armResult else SUCCESS
    {
      ghost var before := View();
      var deadline, first := xfers[id].deadline, true;
      var k := 0;
      if flying != [] {
        if !IsSet(deadline) {
          k := |flying|;
        } else {
          while k < |flying| && IsSet(xfers[flying[k]].deadline) && !Later(xfers[flying[k]].deadline, deadline)
            invariant k <= |flying| && first == (k == 0)
            invariant FirstLater(before, deadline, 0) == FirstLater(before, deadline, k)
          {
            first := false;
            k := k + 1;
          }
        }
      }
      assert k == InsertAt(before, deadline);
      r := 0;
      if first && usingTimer && IsSet(deadline) {
        r := SetTimer(Some(deadline));
      }
      if r == 0 {
        flying := flying[..k] + [id] + flying[k..];
      }
    }

    /** usbi_arm_timer and, for None, usbi_disarm_timer. */
    method SetTimer(t: Option<Timespec>) returns (r: int)
      modifies `timer
      ensures r == armResult && timer == if r == SUCCESS then t else old(timer)
    {
      r := armResult;
      if r == SUCCESS { timer := t; }
    }

    /** arm_timer_for_next_timeout */
    method ArmTimerForNextTimeout() returns (r: int)
      requires Listed(View())
      modifies `timer
      ensures View() == Rearm(old(View()))
      ensures r == if usingTimer then armResult else SUCCESS
    {
      if !usingTimer { return SUCCESS; }
      ghost var before := View();
      var i := 0;
      while i < |flying| && IsSet(xfers[flying[i]].deadline)
        invariant i <= |flying| && View() == before
        invariant NextTimer(before, 0) == NextTimer(before, i)
      {
        var x := xfers[flying[i]];
        if !(x.timeoutHandled || x.osHandles) {
          r := SetTimer(Some(x.deadline));
          return;
        }
        i := i + 1;
      }
      r := SetTimer(None);
    }

    /** remove_from_flying_list: the transfer leaves the list in any case. */
    method RemoveFromFlyingList(id: Id) returns (r: int)
      requires Valid() && id in flying
      modifies `flying, `timer
      ensures Valid() && View() == Remove(old(View()), id)
      ensures r == if usingTimer && IsSet(xfers[id].deadline) && old(flying)[0] == id then armResult else SUCCESS
    {
      r := SUCCESS;
      RemoveKeepsOrder(View(), id);
      RemoveIsListed(View(), id);
      var rearm := IsSet(xfers[id].deadline) && flying[0] == id;
      flying := Without(flying, id);
      if rearm { r := ArmTimerForNextTimeout(); }
    }

    /** libusb_submit_transfer up to the release of flying_transfers_lock. */
    method EnlistTransfer(id: Id, h: Handle, deadline: Timespec) returns (r: int)
      requires Valid() && Normal(deadline) && id !in flying
      modifies `xfers, `flying, `timer
      ensures Valid() && Listed(StartSubmit(old(View()), id, h, deadline))
      ensures
        var reset := StartSubmit(old(View()), id, h, deadline);
        View() == Insert(reset, id) && r == if NotArmed(reset, deadline) then armResult else SUCCESS
    {
      StartSubmitKeepsInv(View(), id, h, deadline);
      xfers := xfers[id := Fresh(h, deadline)];
      InsertKeepsOrder(View(), id);
      r := AddToFlyingList(id);
    }

    /** libusb_submit_transfer.  A refusal of the backend shows as its result; the transfer is
        then dropped from the list again.  In any case a failure leaves the list as it was. */
    method SubmitTransfer(id: Id, h: Handle, timeoutMs: nat, now: Timespec, osHandles: bool, result: int)
      returns (r: int)
      requires Valid() && Normal(now) && (id !in flying || InFlight(View(), id))
      modifies `xfers, `flying, `timer
      ensures Valid()
      ensures InFlight(old(View()), id) ==> r == ERROR_BUSY && View() == old(View())
      ensures !InFlight(old(View()), id) ==>
        && Listed(StartSubmit(old(View()), id, h, Deadline(now, timeoutMs)))
        && var c := Submit(id, h, timeoutMs, now, osHandles, result);
           if NotArmed(StartSubmit(old(View()), id, h, Deadline(now, timeoutMs)), Deadline(now, timeoutMs))
           then r == armResult && View() == Apply(old(View()), c)
           else r == result && Submitted(old(View()), c, View())
      ensures r != SUCCESS ==> flying == old(flying)
      ensures r == SUCCESS ==> InFlight(View(), id) && id in flying
    {
      hide Sorted, AllAttributed, FirstLater, Without, Listed, Submitted, ArmsTimer;
      if id in xfers && xfers[id].inFlight { return ERROR_BUSY; }
      ghost var before := View();
      var deadline := Deadline(now, timeoutMs);
      r := EnlistTransfer(id, h, deadline);
      if r != SUCCESS { return; }
      r := LaunchTransfer(id, osHandles, result, before, Submit(id, h, timeoutMs, now, osHandles, result));
    }

    /** The rest of libusb_submit_transfer, for a transfer that has just been put on the list. */
    method LaunchTransfer(id: Id, osHandles: bool, result: int, ghost before: State, ghost c: Step) returns (r: int)
      requires Valid() && Inv(before) && c.Submit? && Enabled(before, c) && !InFlight(before, id)
      requires c.id == id && c.osHandles == osHandles && c.result == result
      requires Listed(StartSubmit(before, id, c.handle, Deadline(c.now, c.timeoutMs)))
      requires !NotArmed(StartSubmit(before, id, c.handle, Deadline(c.now, c.timeoutMs)), Deadline(c.now, c.timeoutMs))
      requires View() == Insert(StartSubmit(before, id, c.handle, Deadline(c.now, c.timeoutMs)), id)
      modifies `xfers, `flying, `timer
      ensures Valid() && r == result && Submitted(before, c, View())
      ensures if r == SUCCESS then InFlight(View(), id) && id in flying else flying == before.flying
    {
      hide Inv, Listed, Insert, Remove, Submitted, Apply, Enabled, Deadline, NotArmed;
      Launched(before, c);
      r := result;
      xfers := xfers[id := xfers[id].(osHandles := osHandles, inFlight := r == SUCCESS)];
      if r != SUCCESS {
        var _ := RemoveFromFlyingList(id);
      }
    }

    method CancelTransfer(id: Id, source: Source, result: int) returns (r: int)
      requires id in xfers
      modifies `xfers
      ensures xfers == old(xfers)[id := Cancel(old(xfers)[id], source, result).0]
      ensures r == Cancel(old(xfers)[id], source, result).1
      ensures !old(xfers)[id].inFlight || old(xfers)[id].cancelling ==> r == ERROR_NOT_FOUND && xfers == old(xfers)
      ensures old(xfers)[id].inFlight && !old(xfers)[id].cancelling ==>
        && r == result && xfers.Keys == old(xfers).Keys && xfers[id].cancelling
        && xfers[id].cancels == old(xfers)[id].cancels + [CancelCall(source, result)]
        && (xfers[id].disappeared <==> old(xfers)[id].disappeared || result == ERROR_NO_DEVICE)
    {
      var x := xfers[id];
      if !x.inFlight || x.cancelling { return ERROR_NOT_FOUND; }
      r := result;
      if r == ERROR_NO_DEVICE { x := x.(disappeared := true); }
      xfers := xfers[id := x.(cancelling := true, cancels := x.cancels + [CancelCall(source, r)])];
    }

    method HandleTimeout(id: Id, result: int)
      requires id in xfers
      modifies `xfers
      ensures View() == Update(old(View()), id, TimeOut(old(xfers)[id], result))
    {
      hide Inv;
      xfers := xfers[id := xfers[id].(timeoutHandled := true)];
      var r := CancelTransfer(id, FromTimeout, result);
      if r == SUCCESS {
        xfers := xfers[id := xfers[id].(timedOut := true)];
      }
    }

    /** handle_timeouts_locked: every transfer of the list that is due is handled, and no other
        record changes. */
    method HandleTimeoutsLocked(now: Timespec, results: Id -> int)
      requires Valid()
      modifies `xfers
      ensures Valid() && View() == Sweep(old(View()), now, results)
      ensures forall id <- flying :: !Due(xfers[id], now)
      ensures forall id <- old(xfers) :: xfers[id] == Swept(old(xfers)[id], id in flying, now, results(id))
    {
      hide Swept, Due;
      ghost var before := View();
      SweepKeepsInv(before, now, results);
      SweepIsExact(before, 0, now, results);
      SweepLeavesNothingDue(before, now, results);
      assert before.flying[0..] == before.flying;
      WalkForTimeouts(now, results);
    }

    /** The loop over the flying transfers in handle_timeouts_locked. */
    method WalkForTimeouts(now: Timespec, results: Id -> int)
      requires Listed(View())
      modifies `xfers
      ensures View() == Sweep(old(View()), now, results)
    {
      hide Sorted, TimeOut, SweepFrom, Normal;
      ghost var before := View();
      var i := 0;
      SweepRound(View(), i, now, results);
      while i < |flying|
        invariant i <= |flying| && flying == before.flying && Listed(View())
        invariant Sweep(before, now, results) == SweepFrom(View(), i, now, results)
      {
        SweepRound(View(), i, now, results);
        var x := xfers[flying[i]];
        if !IsSet(x.deadline) { return; }
        if !x.timeoutHandled && !x.osHandles {
          if Later(x.deadline, now) { return; }
          TimeOutIsListed(View(), flying[i], results(flying[i]));
          HandleTimeout(flying[i], results(flying[i]));
        }
        i := i + 1;
      }
      SweepRound(View(), i, now, results);
    }

    /** handle_timer_trigger */
    method HandleTimerTrigger(now: Timespec, results: Id -> int) returns (r: int)
      requires Valid()
      modifies `xfers, `timer
      ensures Valid() && View() == Apply(old(View()), TimerTrigger(now, results))
      ensures r == if usingTimer then armResult else SUCCESS
      ensures r == SUCCESS || TimerCovers(old(View())) ==> TimerCovers(View())
    {
      SweepKeepsInv(View(), now, results);
      HandleTimeoutsLocked(now, results);
      RearmKeepsInv(View());
      if armResult == SUCCESS { RearmCovers(View()); }
      r := ArmTimerForNextTimeout();
    }

    /** The part of usbi_handle_transfer_completion before the user's callback. */
    method HandleTransferCompletion(id: Id) returns (r: int)
      requires Valid() && Enabled(View(), Complete(id))
      modifies `xfers, `flying, `timer
      ensures Valid() && View() == Apply(old(View()), Complete(id))
      ensures r == if usingTimer && IsSet(xfers[id].deadline) && old(flying)[0] == id then armResult else SUCCESS
    {
      StepKeepsInv(View(), Complete(id));
      r := RemoveFromFlyingList(id);
      xfers := xfers[id := xfers[id].(inFlight := false)];
    }

    /** usbi_handle_transfer_cancellation: the status that the user will see. */
    method HandleTransferCancellation(id: Id) returns (status: Status)
      requires Valid() && Enabled(View(), Complete(id))
      modifies this
      ensures Valid() && View() == Apply(old(View()), Complete(id))
      ensures status == TimedOut <==>
        old(xfers)[id].cancels == [CancelCall(FromTimeout, SUCCESS)]
    {
      assert Attributed(xfers[id]);
      var timedOut := xfers[id].timedOut;
      var _ := HandleTransferCompletion(id);
      status := if timedOut then TimedOut else Cancelled;
    }

    /** usbi_handle_disconnect: every transfer in flight on the handle gets exactly one callback
        (with NO_DEVICE), in list order, and none stays in flight.  The loop ends because each
        round takes one transfer out of flight, whatever the callbacks do to other transfers;
        if they leave them alone, transfers of other handles keep their order and records. */
    method HandleDisconnect(h: Handle, callback: (State, Id) -> State) returns (notified: seq<Id>)
      requires Valid() && Harmless(callback, h)
      modifies this
      ensures Valid()
      ensures notified == InFlightOn(old(View()), old(flying), h)
      ensures InFlightOn(View(), flying, h) == []
      ensures Discreet(callback, h) ==> OthersUndisturbed(old(View()), View(), h)
    {
      hide Sorted, AllAttributed, OthersUndisturbed, Harmless, Discreet, InFlightOn, Keep, Normal;
      ghost var before := View();
      notified := [];
      UndisturbedReflexive(before, h);
      while true
        invariant Valid() && (Discreet(callback, h) ==> OthersUndisturbed(before, View(), h))
        invariant InFlightOn(before, before.flying, h) == notified + InFlightOn(View(), flying, h)
        decreases |InFlightOn(View(), flying, h)|
      {
        var k := FindInFlight(h);
        if k == |flying| { return; }
        ghost var s := View();
        ghost var sofar, id := notified, flying[k];
        notified := notified + [flying[k]];
        NotifyOne(k, h, callback);
        Associates(sofar, [id], InFlightOn(View(), flying, h));
        if Discreet(callback, h) { UndisturbedTransitive(before, s, View(), h); }
      }
    }

    /** One round: a transfer completes, its callback runs and leaves any harmless state behind. */
    method NotifyOne(k: nat, h: Handle, callback: (State, Id) -> State)
      requires Valid() && Harmless(callback, h)
      requires k < |flying| && xfers[flying[k]].handle == Some(h) && xfers[flying[k]].inFlight
      requires InFlightOn(View(), flying[..k], h) == []
      modifies this
      ensures Valid()
      ensures InFlightOn(old(View()), old(flying), h) == [old(flying)[k]] + InFlightOn(View(), flying, h)
      ensures Discreet(callback, h) ==> OthersUndisturbed(old(View()), View(), h)
    {
      hide Sorted, AllAttributed, Keep, InFlightOn, Apply, Enabled;
      ghost var s := View();
      var id := flying[k];
      CompleteFirst(s, k, h);
      var _ := HandleTransferCompletion(id);
      ghost var t := View();
      var after := callback(State(flying, xfers, timer, usingTimer, armResult), id);
      flying, xfers, timer, armResult := after.flying, after.xfers, after.timer, after.armResult;
      assert View() == callback(t, id);
      if Discreet(callback, h) { UndisturbedTransitive(s, t, View(), h); }
    }

    /** The search in usbi_handle_disconnect. */
    method FindInFlight(h: Handle) returns (k: nat)
      requires Valid()
      ensures k <= |flying| && InFlightOn(View(), flying[..k], h) == []
      ensures k < |flying| ==> xfers[flying[k]].handle == Some(h) && xfers[flying[k]].inFlight
      ensures k == |flying| ==> InFlightOn(View(), flying, h) == []
    {
      hide Sorted, AllAttributed;
      k := 0;
      while k < |flying|
        invariant k <= |flying| && InFlightOn(View(), flying[..k], h) == []
      {
        if xfers[flying[k]].handle == Some(h) {
          if xfers[flying[k]].inFlight { return; }
        }
        InFlightSplits(View(), flying[..k], [flying[k]], h);
        assert flying[..k] + [flying[k]] == flying[..k + 1];
        k := k + 1;
      }
      assert flying[..k] == flying;
    }

    /** libusb_get_next_timeout: the time left until the earliest pending deadline of all. */
    method GetNextTimeout(now: Timespec) returns (r: int, tv: Timeval)
      requires Valid() && Normal(now)
      ensures r == 0 <==> usingTimer || forall id <- flying :: !Pending(xfers[id])
      ensures r != 0 ==> r == 1 && exists id <- flying ::
        Pending(xfers[id]) && tv == TimeLeft(xfers[id].deadline, now) &&
        forall other <- flying :: Pending(xfers[other]) ==> NotAfter(xfers[id].deadline, xfers[other].deadline)
    {
      tv := Timeval(0, 0);
      if usingTimer || flying == [] { return 0, tv; }
      var next, i := NEVER, 0;
      while i < |flying|
        invariant i <= |flying| && next == NEVER
        invariant forall j | 0 <= j < i :: !Pending(xfers[flying[j]])
      {
        var x := xfers[flying[i]];
        if x.timeoutHandled || x.osHandles { i := i + 1; continue; }
        if IsSet(x.deadline) { next := x.deadline; }
        break;
      }
      ghost var s := View();
      assert forall j | i < j < |flying| :: NotAfter(At(s, i).deadline, At(s, j).deadline);
      if !IsSet(next) {
        forall id <- flying ensures !Pending(xfers[id]) {
          var j := IndexOf(flying, id);
          assert j <= i || NotAfter(At(s, i).deadline, At(s, j).deadline);
        }
        return 0, tv;
      }
      assert flying[i] in flying;
      forall other <- flying | Pending(xfers[other]) ensures NotAfter(next, xfers[other].deadline) {
        var j := IndexOf(flying, other);
        assert j == i || (i < j && NotAfter(At(s, i).deadline, At(s, j).deadline));
      }
      return 1, TimeLeft(next, now);
    }

    /** get_next_timeout: how long an event handler may wait, given the caller's limit. */
    method GetNextWait(now: Timespec, user: Timeval) returns (wait: Wait)
      requires Valid() && Normal(now)
      ensures (usingTimer || forall id <- flying :: !Pending(xfers[id])) ==> wait == NextWait(NothingPending, user)
      ensures !usingTimer && (exists id <- flying :: Pending(xfers[id])) ==>
        exists id <- flying ::
          Pending(xfers[id]) && wait == NextWait(Remaining(TimeLeft(xfers[id].deadline, now)), user) &&
          forall other <- flying :: Pending(xfers[other]) ==> NotAfter(xfers[id].deadline, xfers[other].deadline)
    {
      hide Inv, NotAfter, Pending, NextWait, TimeLeft;
      var r, left := GetNextTimeout(now);
      wait := if r != 0 then NextWait(Remaining(left), user) else NextWait(NothingPending, user);
    }

    /** do_close, as far as transfers are concerned. */
    method DoClose(h: Handle)
      requires Valid()
      modifies this
      ensures Valid() && View() == Detach(old(View()), h)
    {
      DetachTransfers(h);
      DetachKeepsInv(old(View()), h);
    }

    ghost predicate Walked(s: State, k: nat, i: int, h: Handle)
      requires Listed(s)
      reads this
    {
      WalkedTo(s, k, i, h, flying, xfers)
    }

    /** One round of that walk. */
    method WalkOne(ghost s: State, ghost k: nat, i: nat, h: Handle) returns (next: nat)
      requires Listed(s) && k < |s.flying| && Walked(s, k, i, h)
      modifies `flying, `xfers
      ensures Walked(s, k + 1, next, h)
    {
      hide WalkedTo, Listed;
      WalkRound(s, k, i, h, flying, xfers);
      var id := flying[i];
      next := i;
      if xfers[id].handle == Some(h) {
        flying := flying[..i] + flying[i + 1..];
        xfers := xfers[id := xfers[id].(handle := None)];
      } else {
        next := i + 1;
      }
    }

    /** The walk is over exactly when every transfer of the original list has been passed. */
    lemma WalkProgress(s: State, k: nat, i: int, h: Handle)
      requires Listed(s) && Walked(s, k, i, h)
      ensures k <= |s.flying| && 0 <= i && (i < |flying| <==> k < |s.flying|)
      ensures k == |s.flying| ==> flying == Detach(s, h).flying && xfers == Detach(s, h).xfers
    {
      assert k == |s.flying| ==> s.flying[..k] == s.flying;
    }

    lemma WalkBegins(s: State, h: Handle)
      requires Listed(s) && s == View()
      ensures Walked(s, 0, 0, h)
    {
      assert s.flying[..0] == [];
    }

    /** The safe walk over the list in do_close. */
    method DetachTransfers(h: Handle)
      requires Listed(View())
      modifies `flying, `xfers
      ensures View() == Detach(old(View()), h)
    {
      hide Keep, Forget, Listed, Walked;
      ghost var s, k: nat := View(), 0;
      var i: nat := 0;
      WalkBegins(s, h);
      WalkProgress(s, 0, 0, h);
      while i < |flying|
        invariant Walked(s, k, i, h) && k <= |s.flying| && (i < |flying| <==> k < |s.flying|)
        decreases |s.flying| - k
      {
        i := WalkOne(s, k, i, h);
        k := k + 1;
        WalkProgress(s, k, i, h);
      }
      WalkProgress(s, k, i, h);
    }
  }

  lemma Associates<T>(a: seq<T>, b: seq<T>, c: seq<T>)
    ensures (a + b) + c == a + (b + c)
  {
  }

  lemma CutMiddle(a: seq<Id>, b: seq<Id>)
    requires b != []
    ensures (a + b)[..|a|] + (a + b)[|a| + 1..] == a + b[1..]
    ensures a + b == a + [b[0]] + b[1..]
  {
  }
}
