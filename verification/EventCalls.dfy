/** What one call of libusb_handle_events_timeout_completed, libusb_lock_events or libusb_close does on
    its way, whatever other threads do meanwhile: when it handles events, when it waits, and when
    it returns.  The machine is that of `EventLocking`. */
module EventCalls {
  import opened EventLocking

  /** The flag whose address thread t passed is set. */
  predicate Flagged(s: State, t: Thread) {
    t in s.watching && t in s.completed
  }

  /** Where a step of its own may take a thread. */
  predicate Goes(s: State, t: Thread, p: Place, p': Place) {
    match p
    case Outside => p'.Outside? || p'.ReadClose? || p'.LockEvents? || p'.AnnounceClose?
    case ReadClose => if s.deviceClose != 0 then p'.TakeWaiters? else p'.TryEventsLock?
    case TryEventsLock => p'.MarkActive? || p'.TakeWaiters?
    case MarkActive => p'.TestCompleted?
    case TestCompleted => if Flagged(s, t) then p'.ClearActive? else p'.StartHandling?
    case StartHandling => p'.Handling?
    case Handling => p'.Handling? || p'.ClearActive? || (p'.InCallback? && !p'.application)
    case ClearActive => p'.DropEventsLock?
    case DropEventsLock => p'.TakeWaitersToBroadcast?
    case TakeWaitersToBroadcast => p'.Broadcast?
    case Broadcast => p'.DropWaitersAfterBroadcast?
    case DropWaitersAfterBroadcast => p'.Outside?
    case _ => GoesOn(s, t, p, p')
  }

  predicate GoesOn(s: State, t: Thread, p: Place, p': Place) {
    match p
    case TakeWaiters => p'.TestCompletedAsWaiter?
    case TestCompletedAsWaiter => if Flagged(s, t) then p'.DropWaitersAndReturn? else p'.ReadCloseAsWaiter?
    case ReadCloseAsWaiter => if s.deviceClose != 0 then p'.BeginWait? else p'.ReadActiveAsWaiter?
    case ReadActiveAsWaiter => if s.active then p'.BeginWait? else p'.DropWaitersToRetry?
    case BeginWait => p'.Asleep?
    case Asleep => p'.Woken?
    case Woken => p'.DropWaitersAndReturn?
    case DropWaitersToRetry => p'.ReadClose?
    case DropWaitersAndReturn => p'.Outside?
    case LockEvents => p'.MarkActiveForApplication?
    case MarkActiveForApplication => p'.ApplicationPolls?
    case ApplicationPolls => p'.ApplicationPolls? || p'.ClearActive? || (p'.InCallback? && p'.application)
    case AnnounceClose => p'.LockEventsToClose?
    case LockEventsToClose => p'.MarkActiveToClose?
    case MarkActiveToClose => p'.Closing?
    case Closing => p'.WithdrawClose?
    case WithdrawClose => p'.ClearActive?
    case InCallback(_, application) =>
      (p'.InCallback? && p'.application == application) || (if application then p'.ApplicationPolls? else p'.Handling?)
    case _ => false
  }

  lemma OwnStep(s: State, t: Thread, s': State)
    requires t in s.place && Step(s, t, s')
    ensures t in s'.place && Goes(s, t, s.place[t], s'.place[t])
  {
    match s.place[t]
    case ReadClose | TryEventsLock | MarkActive | TestCompleted | StartHandling | Handling => OwnHandlerStep(s, t, s');
    case InCallback(_, _) => OwnInsideStep(s, t, s');
    case _ => hide AdvanceToHandle, AdvanceInside, StepInside;
  }

  lemma OwnHandlerStep(s: State, t: Thread, s': State)
    requires t in s.place && Step(s, t, s')
    requires match s.place[t]
      case ReadClose | TryEventsLock | MarkActive | TestCompleted | StartHandling | Handling => true case _ => false
    ensures t in s'.place && Goes(s, t, s.place[t], s'.place[t])
  {
    hide AdvanceToUnlock, AdvanceToWait, AdvanceApplication, AdvanceToClose, AdvanceInside, StepInside, StepOutside;
  }

  lemma OwnInsideStep(s: State, t: Thread, s': State)
    requires t in s.place && Step(s, t, s') && s.place[t].InCallback?
    ensures t in s'.place && Goes(s, t, s.place[t], s'.place[t])
  {
    hide Advance, StepOutside, StepInBody, AdvanceInside, HoldsWaitersInside;
    InsideComesBack(s, t, s.place[t].inner, s.place[t].application);
  }

  lemma InsideComesBack(s: State, t: Thread, inner: Inner, application: bool)
    requires t in s.place && s.place[t] == InCallback(inner, application)
    ensures forall s' | StepInside(s, t, inner, application, s') ::
      && t in s'.place
      && var p' := s'.place[t];
        || (p'.InCallback? && p'.application == application)
        || (if application then p'.ApplicationPolls? else p'.Handling?)
  {
  }

  /** Any step, as far as thread t is concerned. */
  predicate Moved(s: State, t: Thread, s': State) {
    && t in s.place && t in s'.place
    && (Goes(s, t, s.place[t], s'.place[t]) || s'.place[t] == s.place[t] || s'.place[t] == Wake(s.place[t]))
    && (!s.place[t].Outside? ==>
          (t in s'.watching <==> t in s.watching) && (t in s.completed ==> t in s'.completed))
  }

  lemma AnyStep(s: State, u: Thread, s': State, t: Thread)
    requires u in s.place && t in s.place && Step(s, u, s')
    ensures Moved(s, t, s')
  {
    hide Step, Goes, LocksMove, Wake, Distance, WillBroadcast, NeedsBroadcast, IsLate, HoldsEvents, InBody;
    StepMoves(s, u, s');
    if u == t {
      OwnStep(s, t, s');
    } else {
      assert t in s.completed ==> t in s.completed - {u};
      assert (t in s.watching - {u} <==> t in s.watching) && (t in s'.watching - {u} <==> t in s'.watching);
    }
  }

  lemma StepOfRun(run: seq<State>, who: seq<Thread>, k: nat, t: Thread)
    requires Run(run, who) && k + 1 < |run| && t in run[k].place
    ensures Moved(run[k], t, run[k + 1])
  {
    hide Step, Moved, Initial;
    AnyStep(run[k], who[k], run[k + 1], t);
  }

  /** From run[i] to run[j] thread t is inside the library, within one call. */
  ghost predicate DuringCall(run: seq<State>, who: seq<Thread>, i: nat, j: nat, t: Thread) {
    && Run(run, who) && i <= j < |run|
    && forall k | i <= k <= j :: t in run[k].place && !run[k].place[t].Outside?
  }

  // ---------------------------------------------------------------- the completion flag

  /** Places from which a call with a set flag only returns: its next test of the flag is still ahead,
      or it is already on its way out. */
  predicate TestsAhead(p: Place) {
    match p
    case ReadClose | TryEventsLock | MarkActive | TestCompleted => true
    case TakeWaiters | TestCompletedAsWaiter | DropWaitersToRetry => true
    case ClearActive | DropEventsLock | TakeWaitersToBroadcast | Broadcast | DropWaitersAfterBroadcast => true
    case DropWaitersAndReturn => true
    case _ => false
  }

  lemma FlagStep(s: State, t: Thread, s': State)
    requires Moved(s, t, s') && !s.place[t].Outside? && Flagged(s, t) && TestsAhead(s.place[t])
    ensures Flagged(s', t) && (TestsAhead(s'.place[t]) || s'.place[t].Outside?)
  {
  }

  /** No set flag is overlooked: once the flag of a thread is set before its next test of it, be it as
      the event handler or as a waiter, the thread neither handles events nor sleeps before its call
      has returned, and the flag stays set until then. */
  lemma {:induction false} FlagIsNoticed(run: seq<State>, who: seq<Thread>, i: nat, j: nat, t: Thread)
    requires DuringCall(run, who, i, j, t)
    requires Flagged(run[i], t) && TestsAhead(run[i].place[t])
    ensures Flagged(run[j], t) && TestsAhead(run[j].place[t])
    ensures !run[j].place[t].Handling? && !NeedsBroadcast(run[j].place[t])
    decreases j
  {
    hide Moved, Run, TestsAhead, Flagged;
    if i < j {
      FlagIsNoticed(run, who, i, j - 1, t);
      StepOfRun(run, who, j - 1, t);
      FlagStep(run[j - 1], t, run[j]);
    }
    OnlyReturns(run[j].place[t]);
  }

  lemma OnlyReturns(p: Place)
    ensures TestsAhead(p) ==> !p.Handling? && !NeedsBroadcast(p)
  {
  }

  // ---------------------------------------------------------------- handling or waiting

  /** Places of libusb_handle_events between its begin and the first thing that it came for. */
  predicate NothingDone(p: Place) {
    match p
    case ReadClose | TryEventsLock | MarkActive | TestCompleted | StartHandling => true
    case TakeWaiters | TestCompletedAsWaiter | ReadCloseAsWaiter | ReadActiveAsWaiter | BeginWait => true
    case DropWaitersToRetry => true
    case _ => false
  }

  /** It handles events, or sleeps, or knows that it need do neither. */
  predicate Served(s: State, t: Thread) {
    t in s.place && (s.place[t].Handling? || s.place[t].Asleep? || Flagged(s, t))
  }

  lemma NothingStep(s: State, t: Thread, s': State)
    requires Moved(s, t, s') && NothingDone(s.place[t]) && !Flagged(s, t)
    ensures NothingDone(s'.place[t]) || Served(s', t)
  {
  }

  /** No call of libusb_handle_events returns for nothing: it has handled events, or slept, or seen its
      flag. */
  lemma {:induction false} CallsAreServed(run: seq<State>, who: seq<Thread>, i: nat, j: nat, t: Thread)
    requires Run(run, who) && i <= j < |run| && t in run[i].place && NothingDone(run[i].place[t])
    requires t in run[j].place && run[j].place[t].Outside?
    ensures exists k :: i <= k < j && Served(run[k], t)
    decreases j - i
  {
    hide Moved, Run, Served;
    if Flagged(run[i], t) {
      assert Served(run[i], t) by { FlaggedIsServed(run[i], t); }
    } else {
      StepOfRun(run, who, i, t);
      NothingStep(run[i], t, run[i + 1]);
      assert t in run[i + 1].place by { StillThere(run[i], t, run[i + 1]); }
      if NothingDone(run[i + 1].place[t]) {
        CallsAreServed(run, who, i + 1, j, t);
      } else if i + 1 == j {
        NothingLeadsOut(run[i], t, run[j]);
      }
    }
  }

  lemma FlaggedIsServed(s: State, t: Thread)
    requires t in s.place && Flagged(s, t)
    ensures Served(s, t)
  {
  }

  lemma StillThere(s: State, t: Thread, s': State)
    requires Moved(s, t, s')
    ensures t in s'.place
  {
  }

  lemma NothingLeadsOut(s: State, t: Thread, s': State)
    requires Moved(s, t, s') && NothingDone(s.place[t])
    ensures !s'.place[t].Outside?
  {
  }

  /** Places on the way out. */
  predicate Leaves(p: Place) {
    match p
    case ClearActive | DropEventsLock | TakeWaitersToBroadcast | Broadcast | DropWaitersAfterBroadcast => true
    case Asleep | Woken | DropWaitersAndReturn => true
    case _ => false
  }

  lemma LeaveStep(s: State, t: Thread, s': State)
    requires Moved(s, t, s') && Leaves(s.place[t])
    ensures Leaves(s'.place[t]) || s'.place[t].Outside?
  {
  }

  /** And once it has done either, it returns without trying again. */
  lemma {:induction false} ServedCallsReturn(run: seq<State>, who: seq<Thread>, i: nat, j: nat, t: Thread)
    requires DuringCall(run, who, i, j, t) && Leaves(run[i].place[t])
    ensures Leaves(run[j].place[t])
    decreases j
  {
    hide Moved, Run, Leaves;
    if i < j {
      ServedCallsReturn(run, who, i, j - 1, t);
      StepOfRun(run, who, j - 1, t);
      LeaveStep(run[j - 1], t, run[j]);
    }
  }

  /** Places at which libusb_handle_events is about to try for events_lock again. */
  predicate Retries(p: Place) {
    p.DropWaitersToRetry? || p.ReadClose?
  }

  lemma RetryStep(s: State, t: Thread, s': State)
    requires Moved(s, t, s') && s.active && !s.place[t].Outside? && !Retries(s.place[t])
    ensures !Retries(s'.place[t])
  {
  }

  /** Nobody spins: while somebody is handling events, a thread that has tried in vain waits. */
  lemma {:induction false} NobodySpins(run: seq<State>, who: seq<Thread>, i: nat, j: nat, t: Thread)
    requires DuringCall(run, who, i, j, t) && !Retries(run[i].place[t])
    requires forall k | i <= k < j :: run[k].active
    ensures !Retries(run[j].place[t])
    decreases j
  {
    hide Moved, Run, Retries;
    if i < j {
      NobodySpins(run, who, i, j - 1, t);
      StepOfRun(run, who, j - 1, t);
      RetryStep(run[j - 1], t, run[j]);
    }
  }

  // ---------------------------------------------------------------- closing

  /** Places at which libusb_handle_events is past its look at device_close, and may handle events. */
  predicate Handles(p: Place) {
    match p
    case TryEventsLock | MarkActive | TestCompleted | StartHandling | Handling => true
    case InCallback(_, application) => !application
    case _ => false
  }

  /** Or is about to try again although it was told to wait. */
  predicate Overtakes(p: Place) {
    Handles(p) || p.ReadActiveAsWaiter? || p.DropWaitersToRetry?
  }

  lemma CloseStep(s: State, t: Thread, s': State)
    requires Moved(s, t, s') && s.deviceClose != 0 && !Overtakes(s.place[t])
    ensures !Overtakes(s'.place[t])
  {
  }

  /** Nobody overtakes a thread that closes a device: from the moment it is announced until it is
      withdrawn, no other thread begins to handle events that had not got past its look at
      device_close before; and those that try wait for the end. */
  lemma {:induction false} ClosersComeFirst(run: seq<State>, who: seq<Thread>, i: nat, j: nat, t: Thread)
    requires Run(run, who) && i <= j < |run| && t in run[i].place && !Overtakes(run[i].place[t])
    requires forall k | i <= k < j :: run[k].deviceClose != 0
    ensures t in run[j].place && !Overtakes(run[j].place[t])
    decreases j
  {
    hide Moved, Run, Overtakes;
    if i < j {
      ClosersComeFirst(run, who, i, j - 1, t);
      StepOfRun(run, who, j - 1, t);
      StillThere(run[j - 1], t, run[j]);
      CloseStep(run[j - 1], t, run[j]);
    }
  }

  predicate BeforeClosing(p: Place) {
    p.AnnounceClose? || p.LockEventsToClose? || p.MarkActiveToClose?
  }

  lemma CloserStep(s: State, t: Thread, s': State)
    requires Moved(s, t, s') && BeforeClosing(s.place[t])
    ensures BeforeClosing(s'.place[t]) || s'.place[t].Closing?
  {
  }

  /** No call of libusb_close returns without having closed. */
  lemma {:induction false} ClosesAreDone(run: seq<State>, who: seq<Thread>, i: nat, j: nat, t: Thread)
    requires Run(run, who) && i <= j < |run| && t in run[i].place && BeforeClosing(run[i].place[t])
    requires t in run[j].place && run[j].place[t].Outside?
    ensures exists k :: i <= k < j && t in run[k].place && run[k].place[t].Closing?
    decreases j - i
  {
    hide Moved, Run;
    StepOfRun(run, who, i, t);
    CloserStep(run[i], t, run[i + 1]);
    StillThere(run[i], t, run[i + 1]);
    if BeforeClosing(run[i + 1].place[t]) {
      ClosesAreDone(run, who, i + 1, j, t);
    }
  }

  predicate BeforePolling(p: Place) {
    p.LockEvents? || p.MarkActiveForApplication?
  }

  lemma PollerStep(s: State, t: Thread, s': State)
    requires Moved(s, t, s') && BeforePolling(s.place[t])
    ensures BeforePolling(s'.place[t]) || s'.place[t].ApplicationPolls?
  {
  }

  /** Nor does an application unlock the events before it has had them locked. */
  lemma {:induction false} LocksAreHeld(run: seq<State>, who: seq<Thread>, i: nat, j: nat, t: Thread)
    requires Run(run, who) && i <= j < |run| && t in run[i].place && BeforePolling(run[i].place[t])
    requires t in run[j].place && run[j].place[t].Outside?
    ensures exists k :: i <= k < j && t in run[k].place && run[k].place[t].ApplicationPolls?
    decreases j - i
  {
    hide Moved, Run;
    StepOfRun(run, who, i, t);
    PollerStep(run[i], t, run[i + 1]);
    StillThere(run[i], t, run[i + 1]);
    if BeforePolling(run[i + 1].place[t]) {
      LocksAreHeld(run, who, i + 1, j, t);
    }
  }
}
