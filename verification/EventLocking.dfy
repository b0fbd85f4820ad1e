/** The multi-threaded event handling protocol of libusb: which thread may poll, which thread
    waits, and how a thread that closes a device takes event handling over.

    The model is a step machine over any number of threads.  One step is one access to shared
    state: taking or dropping a lock, one read or write of a shared variable, or one stretch of
    code that runs inside a lock-protected region.  Reads that the code makes without the lock
    that protects the variable (`event_handler_active`) are steps of their own. */
module EventLocking {

  type Thread = nat

  /** Where a thread is in a call of libusb_handle_events that it makes from within a callback, while
      it handles events itself.  The attempt to become the event handler fails, since nobody can
      take a default mutex twice, and the thread goes on to wait. */
  datatype Inner =
    | ReadCloseInside
    | TryInside
    | TakeWaitersInside
    | TestCompletedInside
    | ReadCloseAsWaiterInside
    | ReadActiveInside
    | BeginWaitInside
    | AsleepInside
    | WokenInside
    | DropWaitersToRetryInside
    | DropWaitersAndReturnInside

  /** Where a thread is.  Each value names the access the thread will make next. */
  datatype Place =
      // not inside the library
    | Outside
      // libusb_handle_events_timeout_completed: the attempt to become the event handler
    | ReadClose
    | TryEventsLock
    | MarkActive
    | TestCompleted
    | StartHandling
    | Handling
      // libusb_unlock_events
    | ClearActive
    | DropEventsLock
    | TakeWaitersToBroadcast
    | Broadcast
    | DropWaitersAfterBroadcast
      // libusb_handle_events_timeout_completed: the attempt to wait for the event handler
    | TakeWaiters
    | TestCompletedAsWaiter
    | ReadCloseAsWaiter
    | ReadActiveAsWaiter
    | BeginWait
    | Asleep
    | Woken
    | DropWaitersToRetry
    | DropWaitersAndReturn
      // libusb_lock_events called by an application that polls on its own
    | LockEvents
    | MarkActiveForApplication
    | ApplicationPolls
      // libusb_close called outside event handling
    | AnnounceClose
    | LockEventsToClose
    | MarkActiveToClose
    | Closing
    | WithdrawClose
      // a call made from a callback; `application` tells whose polling loop runs the callback
    | InCallback(inner: Inner, application: bool)

  datatype Owner = Free | By(thread: Thread)

  /** The shared state, and the private state of each thread.
      `completed[t]` is the flag whose address thread t passes (and a callback sets);
      `watching` are the threads whose current call was given such an address. */
  datatype State = State(
    place: map<Thread, Place>,
    eventsLock: Owner,
    waitersLock: Owner,
    active: bool,
    deviceClose: int,
    watching: set<Thread>,
    completed: set<Thread>,
    handleGone: set<Thread>)

  /** Places at which a thread owns events_lock. */
  predicate HoldsEvents(p: Place) {
    p.MarkActive? || p.TestCompleted? || p.StartHandling? || p.Handling? || p.ClearActive? ||
    p.DropEventsLock? || p.MarkActiveForApplication? || p.ApplicationPolls? || p.MarkActiveToClose? ||
    p.Closing? || p.WithdrawClose? || p.InCallback?
  }

  predicate HoldsWaitersInside(i: Inner) {
    i.TestCompletedInside? || i.ReadCloseAsWaiterInside? || i.ReadActiveInside? || i.BeginWaitInside? ||
    i.DropWaitersToRetryInside? || i.DropWaitersAndReturnInside?
  }

  /** Places at which a thread owns event_waiters_lock. */
  predicate HoldsWaiters(p: Place) {
    p.TestCompletedAsWaiter? || p.ReadCloseAsWaiter? || p.ReadActiveAsWaiter? || p.BeginWait? ||
    p.DropWaitersToRetry? || p.DropWaitersAndReturn? || p.Broadcast? || p.DropWaitersAfterBroadcast? ||
    (p.InCallback? && HoldsWaitersInside(p.inner))
  }

  /** Places between setting event_handler_active and clearing it. */
  predicate IsActive(p: Place) {
    p.TestCompleted? || p.StartHandling? || p.Handling? || p.ClearActive? || p.ApplicationPolls? ||
    p.Closing? || p.WithdrawClose? || p.InCallback?
  }

  /** Places at which a thread is counted in device_close. */
  predicate Announced(p: Place) {
    p.LockEventsToClose? || p.MarkActiveToClose? || p.Closing? || p.WithdrawClose?
  }

  /** Places from which a thread cannot return without broadcasting on event_waiters_cond. */
  predicate WillBroadcast(p: Place) {
    HoldsEvents(p) || p.LockEventsToClose? || p.TakeWaitersToBroadcast? || p.Broadcast?
  }

  /** Places at which a thread depends on somebody else's broadcast. */
  predicate NeedsBroadcast(p: Place) {
    p.BeginWait? || p.Asleep? || (p.InCallback? && (p.inner.BeginWaitInside? || p.inner.AsleepInside?))
  }

  /** Places at which event sources are polled or transfers and handles are taken apart. */
  predicate InBody(p: Place) {
    p.Handling? || p.ApplicationPolls? || p.Closing? || p.InCallback?
  }

  predicate Initial(s: State) {
    && (forall t <- s.place :: s.place[t] == Outside)
    && s.eventsLock == Free && s.waitersLock == Free && !s.active && s.deviceClose == 0
    && s.completed <= s.place.Keys
  }

  function GoTo(s: State, t: Thread, p: Place): State {
    s.(place := s.place[t := p])
  }

  /** A broadcast makes every sleeping thread compete for event_waiters_lock again. */
  function WakeAll(place: map<Thread, Place>): map<Thread, Place> {
    map t <- place :: Wake(place[t])
  }

  function Wake(p: Place): Place {
    match p
    case Asleep => Woken
    case InCallback(AsleepInside, application) => InCallback(WokenInside, application)
    case _ => p
  }

  /** What a thread may do between two calls into the library: begin a new synchronous transfer
      (which clears its flag), notice that its handle was closed (which sets its own flag,
      sync.c), call handle_events with or without a flag, lock events itself, or close. */
  predicate StepOutside(s: State, t: Thread, s': State)
    requires t in s.place
  {
    || s' == s.(completed := s.completed - {t}, handleGone := s.handleGone - {t})
    || (t in s.handleGone && s' == s.(completed := s.completed + {t}))
    || s' == GoTo(s, t, ReadClose).(watching := s.watching + {t})
    || s' == GoTo(s, t, ReadClose).(watching := s.watching - {t})
    || s' == GoTo(s, t, LockEvents)
    || s' == GoTo(s, t, AnnounceClose)
  }

  /** Code that runs while a thread polls or closes: callbacks set completion flags, and closing
      a handle (do_close, also from a callback) detaches the transfers other threads wait for. */
  ghost predicate StepInBody(s: State, s': State) {
    exists done: set<Thread>, gone: set<Thread> ::
      done <= s.place.Keys && gone <= s.place.Keys
      && s' == s.(completed := s.completed + done, handleGone := s.handleGone + gone)
  }

  /** Whether thread t waits for a lock that is taken. */
  predicate Blocked(s: State, t: Thread)
    requires t in s.place
  {
    var p := s.place[t];
    ((p.LockEvents? || p.LockEventsToClose?) && s.eventsLock != Free) ||
    ((p.TakeWaiters? || p.TakeWaitersToBroadcast? || p.Woken? ||
      (p.InCallback? && (p.inner.TakeWaitersInside? || p.inner.WokenInside?))) && s.waitersLock != Free)
  }

  /** The next access of thread t. */
  function Advance(s: State, t: Thread): State
    requires t in s.place
  {
    match s.place[t]
    case ReadClose | TryEventsLock | MarkActive | TestCompleted | StartHandling | Handling => AdvanceToHandle(s, t)
    case ClearActive | DropEventsLock | TakeWaitersToBroadcast | Broadcast | DropWaitersAfterBroadcast =>
      AdvanceToUnlock(s, t)
    case Outside | LockEvents | MarkActiveForApplication | ApplicationPolls => AdvanceApplication(s, t)
    case AnnounceClose | LockEventsToClose | MarkActiveToClose | Closing | WithdrawClose => AdvanceToClose(s, t)
    case InCallback(inner, application) => AdvanceInside(s, t, inner, application)
    case _ => AdvanceToWait(s, t)
  }

  function AdvanceToHandle(s: State, t: Thread): State
    requires t in s.place
  {
    match s.place[t]
    case ReadClose => GoTo(s, t, if s.deviceClose != 0 then TakeWaiters else TryEventsLock)
    case TryEventsLock =>
      if s.eventsLock == Free then GoTo(s, t, MarkActive).(eventsLock := By(t))
      else GoTo(s, t, TakeWaiters)
    case MarkActive => GoTo(s, t, TestCompleted).(active := true)
    case TestCompleted =>
      GoTo(s, t, if t in s.watching && t in s.completed then ClearActive else StartHandling)
    case StartHandling => GoTo(s, t, Handling)
    case _ => GoTo(s, t, ClearActive)
  }

  /** libusb_unlock_events. */
  function AdvanceToUnlock(s: State, t: Thread): State
    requires t in s.place
  {
    match s.place[t]
    case ClearActive => GoTo(s, t, DropEventsLock).(active := false)
    case DropEventsLock => GoTo(s, t, TakeWaitersToBroadcast).(eventsLock := Free)
    case TakeWaitersToBroadcast => GoTo(s, t, Broadcast).(waitersLock := By(t))
    case Broadcast => s.(place := WakeAll(s.place)[t := DropWaitersAfterBroadcast])
    case _ => GoTo(s, t, Outside).(waitersLock := Free)
  }

  function AdvanceToWait(s: State, t: Thread): State
    requires t in s.place
  {
    match s.place[t]
    case TakeWaiters => GoTo(s, t, TestCompletedAsWaiter).(waitersLock := By(t))
    case TestCompletedAsWaiter =>
      GoTo(s, t, if t in s.watching && t in s.completed then DropWaitersAndReturn else ReadCloseAsWaiter)
    case ReadCloseAsWaiter => GoTo(s, t, if s.deviceClose != 0 then BeginWait else ReadActiveAsWaiter)
    case ReadActiveAsWaiter => GoTo(s, t, if s.active then BeginWait else DropWaitersToRetry)
    // the condition variable releases the lock and puts the thread to sleep in one step
    case BeginWait => GoTo(s, t, Asleep).(waitersLock := Free)
    // the wait may time out
    case Asleep => GoTo(s, t, Woken)
    case Woken => GoTo(s, t, DropWaitersAndReturn).(waitersLock := By(t))
    case DropWaitersToRetry => GoTo(s, t, ReadClose).(waitersLock := Free)
    case _ => GoTo(s, t, Outside).(waitersLock := Free)
  }

  function AdvanceApplication(s: State, t: Thread): State
    requires t in s.place
  {
    match s.place[t]
    case LockEvents => GoTo(s, t, MarkActiveForApplication).(eventsLock := By(t))
    case MarkActiveForApplication => GoTo(s, t, ApplicationPolls).(active := true)
    case ApplicationPolls => GoTo(s, t, ClearActive)
    case _ => GoTo(s, t, LockEvents)
  }

  function AdvanceToClose(s: State, t: Thread): State
    requires t in s.place
  {
    match s.place[t]
    case AnnounceClose => GoTo(s, t, LockEventsToClose).(deviceClose := s.deviceClose + 1)
    case LockEventsToClose => GoTo(s, t, MarkActiveToClose).(eventsLock := By(t))
    case MarkActiveToClose => GoTo(s, t, Closing).(active := true)
    case Closing => GoTo(s, t, WithdrawClose)
    case _ => GoTo(s, t, ClearActive).(deviceClose := s.deviceClose - 1)
  }

  /** The same for a call made from a callback.  (Whether it finds a completion flag set is up to
      `Step`.) */
  function AdvanceInside(s: State, t: Thread, inner: Inner, application: bool): State {
    match inner
    case ReadCloseInside =>
      GoInside(s, t, if s.deviceClose != 0 then TakeWaitersInside else TryInside, application)
    case TryInside => GoInside(s, t, TakeWaitersInside, application)
    case TakeWaitersInside => GoInside(s, t, TestCompletedInside, application).(waitersLock := By(t))
    case TestCompletedInside => GoInside(s, t, ReadCloseAsWaiterInside, application)
    case ReadCloseAsWaiterInside =>
      GoInside(s, t, if s.deviceClose != 0 then BeginWaitInside else ReadActiveInside, application)
    case ReadActiveInside =>
      GoInside(s, t, if s.active then BeginWaitInside else DropWaitersToRetryInside, application)
    case BeginWaitInside => GoInside(s, t, AsleepInside, application).(waitersLock := Free)
    case AsleepInside => GoInside(s, t, WokenInside, application)
    case WokenInside => GoInside(s, t, DropWaitersAndReturnInside, application).(waitersLock := By(t))
    case DropWaitersToRetryInside => GoInside(s, t, ReadCloseInside, application).(waitersLock := Free)
    case DropWaitersAndReturnInside =>
      GoTo(s, t, if application then ApplicationPolls else Handling).(waitersLock := Free)
  }

  function GoInside(s: State, t: Thread, inner: Inner, application: bool): State {
    GoTo(s, t, InCallback(inner, application))
  }

  ghost predicate StepInside(s: State, t: Thread, inner: Inner, application: bool, s': State) {
    || s' == AdvanceInside(s, t, inner, application)
    || (inner.TestCompletedInside? && s' == GoInside(s, t, DropWaitersAndReturnInside, application))
  }

  /** What thread t may do in state s. */
  ghost predicate Step(s: State, t: Thread, s': State)
    requires t in s.place
  {
    && !Blocked(s, t)
    && match s.place[t]
       case Outside => StepOutside(s, t, s')
       case Handling =>
         s' == Advance(s, t) || StepInBody(s, s') || s' == GoTo(s, t, InCallback(ReadCloseInside, false))
       case ApplicationPolls =>
         s' == Advance(s, t) || StepInBody(s, s') || s' == GoTo(s, t, InCallback(ReadCloseInside, true))
       case InCallback(inner, application) => StepInside(s, t, inner, application, s')
       case Closing => StepInBody(Advance(s, t), s')
       case _ => s' == Advance(s, t)
  }

  /** A run: an initial state followed by steps of threads in any order. */
  ghost predicate Run(run: seq<State>, who: seq<Thread>) {
    && |run| == |who| + 1
    && Initial(run[0])
    && forall i | 0 <= i < |who| :: who[i] in run[i].place && Step(run[i], who[i], run[i + 1])
  }

  // ---------------------------------------------------------------- the invariant

  function Closers(place: map<Thread, Place>): set<Thread> {
    set t <- place | Announced(place[t])
  }

  /** A lock is owned by exactly the thread whose place says so. */
  ghost predicate Owns(place: map<Thread, Place>, holds: Place -> bool, lock: Owner) {
    && (forall t <- place :: holds(place[t]) <==> lock == By(t))
    && (lock.By? ==> lock.thread in place)
  }

  ghost predicate LocksAgree(s: State) {
    Owns(s.place, HoldsEvents, s.eventsLock) && Owns(s.place, HoldsWaiters, s.waitersLock)
  }

  /** The owner of events_lock while event_handler_active is set, nobody otherwise. */
  function ActiveOwner(s: State): Owner {
    if s.active then s.eventsLock else Free
  }

  /** event_handler_active is set exactly while the owner of events_lock is handling events. */
  ghost predicate ActiveAgrees(s: State) {
    Owns(s.place, IsActive, ActiveOwner(s)) && (s.active ==> s.eventsLock.By?)
  }

  /** device_close counts the threads between announcing a close and withdrawing it. */
  predicate CloseCounts(s: State) {
    s.deviceClose == |Closers(s.place)|
  }

  ghost predicate SomeoneWillBroadcast(s: State) {
    exists u <- s.place :: WillBroadcast(s.place[u])
  }

  ghost predicate WaitersCovered(s: State) {
    forall t <- s.place :: NeedsBroadcast(s.place[t]) ==> SomeoneWillBroadcast(s)
  }

  /** A thread that decided to handle events still has its completion flag clear. */
  predicate FlagsFresh(s: State) {
    forall t <- s.place :: s.place[t] == StartHandling && t in s.watching ==> t !in s.completed
  }

  ghost predicate Inv(s: State) {
    LocksAgree(s) && ActiveAgrees(s) && CloseCounts(s) && WaitersCovered(s) && FlagsFresh(s)
  }

  lemma InitialInv(s: State)
    requires Initial(s)
    ensures Inv(s)
  {
    assert Closers(s.place) == {};
  }

  /** How a lock may change in one step, given whether the stepping thread holds it
      before and after: it is taken only when free, and dropped only by its owner. */
  predicate LockMove(t: Thread, lock: Owner, held: bool, lock': Owner, held': bool) {
    if held == held' then lock' == lock
    else if held' then lock == Free && lock' == By(t)
    else lock' == Free
  }

  predicate IsLate(p: Place) {
    p.TakeWaitersToBroadcast? || p.Broadcast?
  }

  /** What a step of thread t does to the places: it moves t only, except that a broadcast wakes the
      sleepers; and an owed broadcast stays owed. */
  ghost predicate PlacesMove(s: State, t: Thread, s': State) {
    && t in s.place && s'.place.Keys == s.place.Keys
    && (forall u <- s.place | u != t ::
          s'.place[u] == if s.place[t].Broadcast? then Wake(s.place[u]) else s.place[u])
    && var p, p' := s.place[t], s'.place[t];
      && (WillBroadcast(p) && !p.Broadcast? ==> WillBroadcast(p'))
      && (NeedsBroadcast(p') ==> NeedsBroadcast(p) || p'.BeginWait? || p'.InCallback?)
      && (p'.BeginWait? ==> s.deviceClose != 0 || s.active)
      && (p'.InCallback? ==> HoldsEvents(p))
      && (IsLate(p') ==> p.DropEventsLock? || IsLate(p))
      && (p.Broadcast? ==> p'.DropWaitersAfterBroadcast?)
      && (WillBroadcast(p) ==> (InBody(p) && InBody(p')) || p.Broadcast? || Distance(p') < Distance(p))
  }

  /** ... and to the locks, the flag and the counter: they follow the place of t. */
  ghost predicate LocksMove(s: State, t: Thread, s': State) {
    && t in s.place && t in s'.place
    && var p, p' := s.place[t], s'.place[t];
      && LockMove(t, s.eventsLock, HoldsEvents(p), s'.eventsLock, HoldsEvents(p'))
      && LockMove(t, s.waitersLock, HoldsWaiters(p), s'.waitersLock, HoldsWaiters(p'))
      && s'.active == (if IsActive(p) == IsActive(p') then s.active else IsActive(p'))
      && (IsActive(p') && !IsActive(p) ==> HoldsEvents(p) && HoldsEvents(p'))
      && (IsActive(p) && !IsActive(p') ==> HoldsEvents(p) && HoldsEvents(p'))
      && s'.deviceClose == s.deviceClose - Indicator(Announced(p)) + Indicator(Announced(p'))
  }

  /** ... and to the completion flags: only a thread that owns events_lock sets those of others. */
  ghost predicate FlagsMove(s: State, t: Thread, s': State) {
    && t in s.place && t in s'.place
    && (!HoldsEvents(s.place[t]) ==> s'.completed <= s.completed + {t})
    && s.completed - {t} <= s'.completed && (!s.place[t].Outside? && t in s.completed ==> t in s'.completed)
    && s'.watching - {t} == s.watching - {t} && (!s.place[t].Outside? ==> s'.watching == s.watching)
    && (s'.place[t] == StartHandling && t in s'.watching ==> t !in s'.completed)
  }

  ghost predicate Moves(s: State, t: Thread, s': State) {
    PlacesMove(s, t, s') && LocksMove(s, t, s') && FlagsMove(s, t, s')
  }

  /** Callbacks and closing run inside a body, and leave the places alone. */
  lemma BodyMoves(s: State, t: Thread, s': State)
    requires t in s.place && (s.place[t].Handling? || s.place[t].ApplicationPolls?) && StepInBody(s, s')
    ensures Moves(s, t, s')
  {
    hide Wake;
  }

  lemma HandlerMoves(s: State, t: Thread, s': State)
    requires t in s.place && Step(s, t, s')
    requires match s.place[t]
      case ReadClose | TryEventsLock | MarkActive | TestCompleted | StartHandling | Handling => true case _ => false
    ensures Moves(s, t, s')
  {
    hide AdvanceToUnlock, AdvanceToWait, AdvanceApplication, AdvanceToClose, AdvanceInside, StepInside, StepOutside,
      StepInBody, Wake;
    if s.place[t].Handling? && StepInBody(s, s') {
      BodyMoves(s, t, s');
    } else {
      HandlerAdvances(s, t, s');
    }
  }

  lemma HandlerAdvances(s: State, t: Thread, s': State)
    requires t in s.place
    requires match s.place[t]
      case ReadClose | TryEventsLock | MarkActive | TestCompleted | StartHandling | Handling => true case _ => false
    requires s' == AdvanceToHandle(s, t)
      || (s.place[t].Handling? && s' == GoTo(s, t, InCallback(ReadCloseInside, false)))
    ensures Moves(s, t, s')
  {
    hide PlacesMove, LocksMove, FlagsMove, AdvanceToHandle, AdvanceToWait, StepOutside;
    HandlerAdvancesPlaces(s, t, s');
    HandlerAdvancesLocks(s, t, s');
    HandlerAdvancesFlags(s, t, s');
  }

  lemma HandlerAdvancesPlaces(s: State, t: Thread, s': State)
    requires t in s.place
    requires match s.place[t]
      case ReadClose | TryEventsLock | MarkActive | TestCompleted | StartHandling | Handling => true case _ => false
    requires s' == AdvanceToHandle(s, t)
      || (s.place[t].Handling? && s' == GoTo(s, t, InCallback(ReadCloseInside, false)))
    ensures PlacesMove(s, t, s')
  {
    hide Wake;
    assert s'.place == s.place[t := s'.place[t]];
  }

  lemma HandlerAdvancesLocks(s: State, t: Thread, s': State)
    requires t in s.place
    requires match s.place[t]
      case ReadClose | TryEventsLock | MarkActive | TestCompleted | StartHandling | Handling => true case _ => false
    requires s' == AdvanceToHandle(s, t)
      || (s.place[t].Handling? && s' == GoTo(s, t, InCallback(ReadCloseInside, false)))
    ensures LocksMove(s, t, s')
  {
    hide Wake;
    assert s'.place == s.place[t := s'.place[t]];
  }

  lemma HandlerAdvancesFlags(s: State, t: Thread, s': State)
    requires t in s.place
    requires match s.place[t]
      case ReadClose | TryEventsLock | MarkActive | TestCompleted | StartHandling | Handling => true case _ => false
    requires s' == AdvanceToHandle(s, t)
      || (s.place[t].Handling? && s' == GoTo(s, t, InCallback(ReadCloseInside, false)))
    ensures FlagsMove(s, t, s')
  {
    hide Wake;
    assert s'.place == s.place[t := s'.place[t]];
  }

  lemma UnlockMoves(s: State, t: Thread, s': State)
    requires t in s.place && Step(s, t, s')
    requires match s.place[t]
      case ClearActive | DropEventsLock | TakeWaitersToBroadcast | Broadcast | DropWaitersAfterBroadcast => true
      case _ => false
    ensures Moves(s, t, s')
  {
    hide PlacesMove, LocksMove, FlagsMove, Step, AdvanceToUnlock;
    UnlockIsAdvance(s, t, s');
    UnlockMovesPlaces(s, t);
    UnlockMovesLocks(s, t);
    UnlockMovesFlags(s, t);
  }

  predicate Unlocks(p: Place) {
    match p
    case ClearActive | DropEventsLock | TakeWaitersToBroadcast | Broadcast | DropWaitersAfterBroadcast => true
    case _ => false
  }

  lemma UnlockIsAdvance(s: State, t: Thread, s': State)
    requires t in s.place && Unlocks(s.place[t]) && Step(s, t, s')
    ensures s' == AdvanceToUnlock(s, t) && (s.place[t].TakeWaitersToBroadcast? ==> s.waitersLock == Free)
  {
    hide AdvanceToHandle, AdvanceToUnlock, AdvanceToWait, AdvanceApplication, AdvanceToClose, AdvanceInside, StepInside,
      StepOutside, StepInBody;
  }

  lemma UnlockMovesPlaces(s: State, t: Thread)
    requires t in s.place && Unlocks(s.place[t])
    requires s.place[t].TakeWaitersToBroadcast? ==> s.waitersLock == Free
    ensures PlacesMove(s, t, AdvanceToUnlock(s, t))
  {
  }

  lemma UnlockMovesLocks(s: State, t: Thread)
    requires t in s.place && Unlocks(s.place[t])
    requires s.place[t].TakeWaitersToBroadcast? ==> s.waitersLock == Free
    ensures LocksMove(s, t, AdvanceToUnlock(s, t))
  {
    hide Wake;
  }

  lemma UnlockMovesFlags(s: State, t: Thread)
    requires t in s.place && Unlocks(s.place[t])
    ensures FlagsMove(s, t, AdvanceToUnlock(s, t))
  {
    hide HoldsEvents;
  }

  lemma ApplicationMoves(s: State, t: Thread, s': State)
    requires t in s.place && Step(s, t, s')
    requires match s.place[t]
      case Outside | LockEvents | MarkActiveForApplication | ApplicationPolls => true case _ => false
    ensures Moves(s, t, s')
  {
    hide AdvanceToHandle, AdvanceToUnlock, AdvanceToWait, AdvanceToClose, AdvanceInside, StepInside, StepOutside,
      StepInBody, Wake;
    if s.place[t].Outside? {
      OutsideMoves(s, t, s');
    } else if s.place[t].ApplicationPolls? && StepInBody(s, s') {
      BodyMoves(s, t, s');
    } else {
      hide PlacesMove, LocksMove, FlagsMove, AdvanceApplication;
      ApplicationMovesPlaces(s, t, s');
      ApplicationMovesLocks(s, t, s');
      ApplicationMovesFlags(s, t, s');
    }
  }

  /** What an application that polls on its own does inside the library, callbacks apart. */
  predicate ApplicationStep(s: State, t: Thread, s': State)
    requires t in s.place
  {
    match s.place[t]
    case LockEvents => s.eventsLock == Free && s' == AdvanceApplication(s, t)
    case MarkActiveForApplication => s' == AdvanceApplication(s, t)
    case ApplicationPolls => s' == AdvanceApplication(s, t) || s' == GoTo(s, t, InCallback(ReadCloseInside, true))
    case _ => false
  }

  lemma ApplicationMovesPlaces(s: State, t: Thread, s': State)
    requires t in s.place && ApplicationStep(s, t, s')
    ensures PlacesMove(s, t, s')
  {
    hide Wake;
    assert s'.place == s.place[t := s'.place[t]];
  }

  lemma ApplicationMovesLocks(s: State, t: Thread, s': State)
    requires t in s.place && ApplicationStep(s, t, s')
    ensures LocksMove(s, t, s')
  {
  }

  lemma ApplicationMovesFlags(s: State, t: Thread, s': State)
    requires t in s.place && ApplicationStep(s, t, s')
    ensures FlagsMove(s, t, s')
  {
    hide HoldsEvents;
  }

  lemma OutsideMoves(s: State, t: Thread, s': State)
    requires t in s.place && s.place[t].Outside? && StepOutside(s, t, s')
    ensures Moves(s, t, s')
  {
    hide PlacesMove, LocksMove, FlagsMove, AdvanceToHandle, AdvanceToWait, StepOutside;
    OutsideMovesPlaces(s, t, s');
    OutsideMovesLocks(s, t, s');
    OutsideMovesFlags(s, t, s');
  }

  lemma OutsideMovesPlaces(s: State, t: Thread, s': State)
    requires t in s.place && s.place[t].Outside? && StepOutside(s, t, s')
    ensures PlacesMove(s, t, s')
  {
    hide Wake, HoldsWaiters, IsActive, Announced;
  }

  lemma OutsideMovesLocks(s: State, t: Thread, s': State)
    requires t in s.place && s.place[t].Outside? && StepOutside(s, t, s')
    ensures LocksMove(s, t, s')
  {
    hide Wake;
  }

  lemma OutsideMovesFlags(s: State, t: Thread, s': State)
    requires t in s.place && s.place[t].Outside? && StepOutside(s, t, s')
    ensures FlagsMove(s, t, s')
  {
    hide Wake;
  }

  lemma CloseMoves(s: State, t: Thread, s': State)
    requires t in s.place && Step(s, t, s')
    requires match s.place[t]
      case AnnounceClose | LockEventsToClose | MarkActiveToClose | Closing | WithdrawClose => true case _ => false
    ensures Moves(s, t, s')
  {
    hide AdvanceToHandle, AdvanceToUnlock, AdvanceToWait, AdvanceApplication, AdvanceToClose, AdvanceInside, StepInside,
      StepOutside, PlacesMove, LocksMove, FlagsMove;
    CloseMovesPlaces(s, t, s');
    CloseMovesLocks(s, t, s');
    CloseMovesFlags(s, t, s');
  }

  /** The steps of libusb_close. */
  ghost predicate CloseStep(s: State, t: Thread, s': State)
    requires t in s.place
  {
    match s.place[t]
    case LockEventsToClose => s.eventsLock == Free && s' == AdvanceToClose(s, t)
    case Closing => StepInBody(AdvanceToClose(s, t), s')
    case AnnounceClose | MarkActiveToClose | WithdrawClose => s' == AdvanceToClose(s, t)
    case _ => false
  }

  lemma CloseMovesPlaces(s: State, t: Thread, s': State)
    requires t in s.place && CloseStep(s, t, s')
    ensures PlacesMove(s, t, s')
  {
  }

  lemma CloseMovesLocks(s: State, t: Thread, s': State)
    requires t in s.place && CloseStep(s, t, s')
    ensures LocksMove(s, t, s')
  {
  }

  lemma CloseMovesFlags(s: State, t: Thread, s': State)
    requires t in s.place && CloseStep(s, t, s')
    ensures FlagsMove(s, t, s')
  {
  }

  lemma WaiterMoves(s: State, t: Thread, s': State)
    requires t in s.place && Step(s, t, s')
    requires match s.place[t]
      case TakeWaiters | TestCompletedAsWaiter | ReadCloseAsWaiter | ReadActiveAsWaiter | BeginWait | Asleep | Woken
        | DropWaitersToRetry | DropWaitersAndReturn => true
      case _ => false
    ensures Moves(s, t, s')
  {
    hide AdvanceToHandle, AdvanceToUnlock, AdvanceApplication, AdvanceToClose, AdvanceInside, StepInside, StepOutside,
      StepInBody, Wake, Moves;
    if s.place[t].TakeWaiters? || s.place[t].TestCompletedAsWaiter? || s.place[t].ReadCloseAsWaiter?
       || s.place[t].ReadActiveAsWaiter? {
      WaiterChecks(s, t);
    } else {
      WaiterWaits(s, t);
    }
  }

  lemma WaiterChecks(s: State, t: Thread)
    requires t in s.place && (s.place[t].TakeWaiters? ==> s.waitersLock == Free)
    requires s.place[t].TakeWaiters? || s.place[t].TestCompletedAsWaiter? || s.place[t].ReadCloseAsWaiter?
      || s.place[t].ReadActiveAsWaiter?
    ensures Moves(s, t, AdvanceToWait(s, t))
  {
    hide PlacesMove, LocksMove, FlagsMove, AdvanceToHandle, AdvanceToWait, StepOutside;
    WaiterChecksPlaces(s, t);
    WaiterChecksLocks(s, t);
  }

  lemma WaiterChecksPlaces(s: State, t: Thread)
    requires t in s.place && (s.place[t].TakeWaiters? ==> s.waitersLock == Free)
    requires s.place[t].TakeWaiters? || s.place[t].TestCompletedAsWaiter? || s.place[t].ReadCloseAsWaiter?
      || s.place[t].ReadActiveAsWaiter?
    ensures PlacesMove(s, t, AdvanceToWait(s, t))
  {
    hide Wake;
  }

  lemma WaiterChecksLocks(s: State, t: Thread)
    requires t in s.place && (s.place[t].TakeWaiters? ==> s.waitersLock == Free)
    requires s.place[t].TakeWaiters? || s.place[t].TestCompletedAsWaiter? || s.place[t].ReadCloseAsWaiter?
      || s.place[t].ReadActiveAsWaiter?
    ensures LocksMove(s, t, AdvanceToWait(s, t)) && FlagsMove(s, t, AdvanceToWait(s, t))
  {
    hide Wake;
  }

  lemma WaiterWaits(s: State, t: Thread)
    requires t in s.place && (s.place[t].Woken? ==> s.waitersLock == Free)
    requires s.place[t].BeginWait? || s.place[t].Asleep? || s.place[t].Woken? || s.place[t].DropWaitersToRetry?
      || s.place[t].DropWaitersAndReturn?
    ensures Moves(s, t, AdvanceToWait(s, t))
  {
    hide PlacesMove, LocksMove, FlagsMove, AdvanceToHandle, AdvanceToWait, StepOutside;
    WaiterWaitsPlaces(s, t);
    WaiterWaitsLocks(s, t);
    WaiterWaitsFlags(s, t);
  }

  lemma WaiterWaitsPlaces(s: State, t: Thread)
    requires t in s.place && (s.place[t].Woken? ==> s.waitersLock == Free)
    requires s.place[t].BeginWait? || s.place[t].Asleep? || s.place[t].Woken? || s.place[t].DropWaitersToRetry?
      || s.place[t].DropWaitersAndReturn?
    ensures PlacesMove(s, t, AdvanceToWait(s, t))
  {
    hide Wake;
  }

  lemma WaiterWaitsLocks(s: State, t: Thread)
    requires t in s.place && (s.place[t].Woken? ==> s.waitersLock == Free)
    requires s.place[t].BeginWait? || s.place[t].Asleep? || s.place[t].Woken? || s.place[t].DropWaitersToRetry?
      || s.place[t].DropWaitersAndReturn?
    ensures LocksMove(s, t, AdvanceToWait(s, t))
  {
    hide Wake;
  }

  lemma WaiterWaitsFlags(s: State, t: Thread)
    requires t in s.place && (s.place[t].Woken? ==> s.waitersLock == Free)
    requires s.place[t].BeginWait? || s.place[t].Asleep? || s.place[t].Woken? || s.place[t].DropWaitersToRetry?
      || s.place[t].DropWaitersAndReturn?
    ensures FlagsMove(s, t, AdvanceToWait(s, t))
  {
    hide Wake;
  }

  lemma InsideMoves(s: State, t: Thread, s': State)
    requires t in s.place && s.place[t].InCallback? && Step(s, t, s')
    ensures Moves(s, t, s')
  {
    hide Advance, StepOutside, StepInBody, AdvanceInside, HoldsWaitersInside, Wake;
    var inner, application := s.place[t].inner, s.place[t].application;
    InsideStaysInside(s, t, inner, application);
  }

  /** A call made from a callback moves its own thread and event_waiters_lock only. */
  lemma InsideStaysInside(s: State, t: Thread, inner: Inner, application: bool)
    requires t in s.place && s.place[t] == InCallback(inner, application)
    requires (inner.TakeWaitersInside? || inner.WokenInside?) ==> s.waitersLock == Free
    ensures forall s' | StepInside(s, t, inner, application, s') ::
      && s' == s.(place := s.place[t := s'.place[t]], waitersLock := s'.waitersLock)
      && (s'.place[t].InCallback? || s'.place[t].Handling? || s'.place[t].ApplicationPolls?)
      && LockMove(t, s.waitersLock, HoldsWaitersInside(inner), s'.waitersLock, HoldsWaiters(s'.place[t]))
  {
  }

  lemma StepMoves(s: State, t: Thread, s': State)
    requires t in s.place && Step(s, t, s')
    ensures Moves(s, t, s')
  {
    hide Step, Moves;
    match s.place[t]
    case ReadClose | TryEventsLock | MarkActive | TestCompleted | StartHandling | Handling => HandlerMoves(s, t, s');
    case ClearActive | DropEventsLock | TakeWaitersToBroadcast | Broadcast | DropWaitersAfterBroadcast =>
      UnlockMoves(s, t, s');
    case Outside | LockEvents | MarkActiveForApplication | ApplicationPolls => ApplicationMoves(s, t, s');
    case AnnounceClose | LockEventsToClose | MarkActiveToClose | Closing | WithdrawClose => CloseMoves(s, t, s');
    case InCallback(_, _) => InsideMoves(s, t, s');
    case _ => WaiterMoves(s, t, s');
  }

  lemma MoveKeepsOwner(t: Thread, holds: Place -> bool,
                       place: map<Thread, Place>, lock: Owner, place': map<Thread, Place>, lock': Owner)
    requires Owns(place, holds, lock) && place'.Keys == place.Keys && t in place
    requires forall u <- place | u != t :: holds(place'[u]) == holds(place[u])
    requires LockMove(t, lock, holds(place[t]), lock', holds(place'[t]))
    ensures Owns(place', holds, lock')
  {
  }

  /** Waking a sleeper does not change what it holds or owes. */
  lemma WakeKeeps(p: Place)
    ensures HoldsEvents(Wake(p)) == HoldsEvents(p) && HoldsWaiters(Wake(p)) == HoldsWaiters(p)
    ensures IsActive(Wake(p)) == IsActive(p) && Announced(Wake(p)) == Announced(p) && IsLate(Wake(p)) == IsLate(p)
    ensures NeedsBroadcast(Wake(p)) ==> NeedsBroadcast(p) && HoldsWaiters(p)
    ensures Wake(p) == StartHandling ==> p == StartHandling
  {
  }

  /** The other threads in terms of that. */
  lemma OthersKeep(s: State, t: Thread, s': State)
    requires PlacesMove(s, t, s')
    ensures s'.place.Keys == s.place.Keys
    ensures forall u <- s.place | u != t ::
      var p, p' := s.place[u], s'.place[u];
      && HoldsEvents(p') == HoldsEvents(p) && HoldsWaiters(p') == HoldsWaiters(p)
      && IsActive(p') == IsActive(p) && Announced(p') == Announced(p) && IsLate(p') == IsLate(p)
      && (p' == StartHandling ==> p == StartHandling)
      && (NeedsBroadcast(p') ==> NeedsBroadcast(p) && (s.place[t].Broadcast? ==> HoldsWaiters(p)))
  {
    hide HoldsEvents, HoldsWaiters, IsActive, Announced, IsLate, NeedsBroadcast, WillBroadcast, InBody, Distance, Wake;
    forall u <- s.place | u != t
      ensures var p, p' := s.place[u], s'.place[u];
        && HoldsEvents(p') == HoldsEvents(p) && HoldsWaiters(p') == HoldsWaiters(p)
        && IsActive(p') == IsActive(p) && Announced(p') == Announced(p) && IsLate(p') == IsLate(p)
        && (p' == StartHandling ==> p == StartHandling)
        && (NeedsBroadcast(p') ==> NeedsBroadcast(p) && (s.place[t].Broadcast? ==> HoldsWaiters(p)))
    {
      WakeKeeps(s.place[u]);
    }
  }

  lemma StepKeepsLocks(s: State, t: Thread, s': State)
    requires LocksAgree(s) && t in s.place && Moves(s, t, s')
    ensures LocksAgree(s')
  {
    hide HoldsEvents, HoldsWaiters, PlacesMove, FlagsMove, IsActive, Announced, LockMove, Owns;
    OthersKeep(s, t, s');
    MoveKeepsOwner(t, HoldsEvents, s.place, s.eventsLock, s'.place, s'.eventsLock);
    MoveKeepsOwner(t, HoldsWaiters, s.place, s.waitersLock, s'.place, s'.waitersLock);
  }

  lemma ActiveNeedsLock(p: Place)
    ensures IsActive(p) ==> HoldsEvents(p)
  {
  }

  lemma ActiveMoves(s: State, t: Thread, s': State)
    requires LocksMove(s, t, s')
    requires HoldsEvents(s.place[t]) <==> s.eventsLock == By(t)
    requires IsActive(s.place[t]) <==> ActiveOwner(s) == By(t)
    requires s.active ==> s.eventsLock.By?
    ensures LockMove(t, ActiveOwner(s), IsActive(s.place[t]), ActiveOwner(s'), IsActive(s'.place[t]))
    ensures s'.active ==> s'.eventsLock.By?
  {
    hide HoldsEvents, HoldsWaiters, IsActive, Announced;
    ActiveNeedsLock(s.place[t]);
    ActiveNeedsLock(s'.place[t]);
  }

  lemma StepKeepsActive(s: State, t: Thread, s': State)
    requires LocksAgree(s) && ActiveAgrees(s) && t in s.place && Moves(s, t, s')
    ensures ActiveAgrees(s')
  {
    hide HoldsEvents, HoldsWaiters, PlacesMove, FlagsMove, IsActive, Announced, LockMove;
    OthersKeep(s, t, s');
    ActiveMoves(s, t, s');
    MoveKeepsOwner(t, IsActive, s.place, ActiveOwner(s), s'.place, ActiveOwner(s'));
  }

  function Indicator(b: bool): int {
    if b then 1 else 0
  }

  lemma SizeWithout(a: set<Thread>, t: Thread)
    ensures |a| == |a - {t}| + Indicator(t in a)
  {
    assert t in a ==> a == (a - {t}) + {t};
    assert t !in a ==> a == a - {t};
  }

  lemma StepKeepsCount(s: State, t: Thread, s': State)
    requires CloseCounts(s) && t in s.place && Moves(s, t, s')
    ensures CloseCounts(s')
  {
    hide HoldsEvents, HoldsWaiters, PlacesMove, FlagsMove, IsActive, Announced, LockMove;
    OthersKeep(s, t, s');
    assert Closers(s.place) - {t} == Closers(s'.place) - {t};
    SizeWithout(Closers(s.place), t);
    SizeWithout(Closers(s'.place), t);
  }

  lemma StepKeepsCover(s: State, t: Thread, s': State)
    requires LocksAgree(s) && ActiveAgrees(s) && CloseCounts(s) && WaitersCovered(s)
    requires t in s.place && Moves(s, t, s')
    ensures WaitersCovered(s')
  {
    hide HoldsEvents, HoldsWaiters, LocksMove, FlagsMove, IsActive, Announced, WillBroadcast, NeedsBroadcast, InBody,
      IsLate, Wake, LocksAgree, ActiveAgrees, CloseCounts, Distance;
    OthersKeep(s, t, s');
    forall v <- s'.place | NeedsBroadcast(s'.place[v])
      ensures SomeoneWillBroadcast(s')
    {
      if s.place[t].Broadcast? {
        NobodySleeps(s, t, s', v);
      } else if v == t && !NeedsBroadcast(s.place[t]) {
        SleepIsJustified(s, t, s');
        CoverStays(s, t, s');
      } else {
        assert NeedsBroadcast(s.place[v]);
        CoverStays(s, t, s');
      }
    }
  }

  /** Whoever owes a broadcast still does, or has just become the one who does. */
  lemma CoverStays(s: State, t: Thread, s': State)
    requires PlacesMove(s, t, s') && SomeoneWillBroadcast(s) && !s.place[t].Broadcast?
    ensures SomeoneWillBroadcast(s')
  {
    hide HoldsEvents, NeedsBroadcast, InBody, IsLate, Wake, WillBroadcast, Distance;
    var u :| u in s.place && WillBroadcast(s.place[u]);
    assert WillBroadcast(s'.place[u]);
  }

  /** Nobody can be about to sleep while somebody broadcasts, since both take event_waiters_lock. */
  lemma NobodySleeps(s: State, t: Thread, s': State, v: Thread)
    requires LocksAgree(s) && t in s.place && s.place[t].Broadcast? && Moves(s, t, s') && v in s'.place
    ensures !NeedsBroadcast(s'.place[v])
  {
    hide IsActive, Announced, LocksMove, FlagsMove, Distance, InBody;
    OthersKeep(s, t, s');
    assert HoldsWaiters(s.place[t]);
    if v != t { assert s.waitersLock == By(t); }
  }

  lemma SleepIsJustified(s: State, t: Thread, s': State)
    requires LocksAgree(s) && ActiveAgrees(s) && CloseCounts(s)
    requires PlacesMove(s, t, s') && NeedsBroadcast(s'.place[t]) && !NeedsBroadcast(s.place[t])
    ensures SomeoneWillBroadcast(s)
  {
    hide Distance, InBody, IsLate;
    if s'.place[t].InCallback? {
      assert WillBroadcast(s.place[t]);
    } else if s.deviceClose != 0 {
      var u :| u in Closers(s.place);
      assert WillBroadcast(s.place[u]);
    } else {
      assert WillBroadcast(s.place[s.eventsLock.thread]);
    }
  }

  lemma StepKeepsFlags(s: State, t: Thread, s': State)
    requires LocksAgree(s) && FlagsFresh(s) && t in s.place && Moves(s, t, s')
    ensures FlagsFresh(s')
  {
    hide HoldsWaiters, IsActive, Announced, PlacesMove, LocksMove;
    OthersKeep(s, t, s');
    forall u <- s'.place | s'.place[u] == StartHandling && u in s'.watching
      ensures u !in s'.completed
    {
      if u != t {
        assert HoldsEvents(s.place[u]);
        assert u in s.watching - {t} by { assert u in s'.watching - {t}; }
      }
    }
  }

  lemma StepKeepsInv(s: State, t: Thread, s': State)
    requires Inv(s) && t in s.place && Step(s, t, s')
    ensures Inv(s')
  {
    hide Step, Moves, LocksAgree, ActiveAgrees, CloseCounts, WaitersCovered, FlagsFresh;
    StepMoves(s, t, s');
    StepKeepsLocks(s, t, s');
    StepKeepsActive(s, t, s');
    StepKeepsCount(s, t, s');
    StepKeepsCover(s, t, s');
    StepKeepsFlags(s, t, s');
  }

  lemma {:induction false} RunKeepsInv(run: seq<State>, who: seq<Thread>, i: nat)
    requires Run(run, who) && i < |run|
    ensures Inv(run[i])
  {
    if i == 0 {
      InitialInv(run[0]);
    } else {
      RunKeepsInv(run, who, i - 1);
      StepKeepsInv(run[i - 1], who[i - 1], run[i]);
    }
  }

  // ---------------------------------------------------------------- what a run guarantees

  /** A thread on its way to a broadcast that is not queued behind t for events_lock. */
  predicate Covers(s: State, u: Thread, t: Thread) {
    u in s.place && u != t && WillBroadcast(s.place[u]) && !(s.place[u].LockEventsToClose? && s.eventsLock == By(t))
  }

  /** A thread that has dropped events_lock and still has to broadcast. */
  predicate LateBroadcaster(s: State, u: Thread) {
    u in s.place && IsLate(s.place[u])
  }

  /** No wake-up is lost: while a thread sleeps in libusb_wait_for_event (or is about to, having
      made its last check), another thread is on its way to a broadcast - exactly if the sleeper
      does not own events_lock itself, or somebody's broadcast is still under way.  A sleeper
      that owns the lock is one that called libusb_handle_events from a callback. */
  lemma NoLostWakeUp(run: seq<State>, who: seq<Thread>, i: nat, t: Thread)
    requires Run(run, who) && i < |run|
    requires t in run[i].place && NeedsBroadcast(run[i].place[t])
    ensures (exists u :: Covers(run[i], u, t)) <==>
      run[i].eventsLock != By(t) || exists u :: LateBroadcaster(run[i], u)
    ensures run[i].eventsLock == By(t) <==> run[i].place[t].InCallback?
  {
    RunKeepsInv(run, who, i);
    var s := run[i];
    if s.eventsLock != By(t) {
      var u :| u in s.place && WillBroadcast(s.place[u]);
      assert Covers(s, u, t);
    } else {
      forall u | Covers(s, u, t)
        ensures LateBroadcaster(s, u)
      {
        assert HoldsEvents(s.place[u]) ==> s.eventsLock == By(u);
      }
      forall u | LateBroadcaster(s, u)
        ensures Covers(s, u, t)
      {
      }
    }
  }

  /** Such a thread sleeps until its own time-out: as long as it makes no step itself, nobody
      broadcasts. */
  lemma {:induction false} OwnSleepEndsByTimeout(run: seq<State>, who: seq<Thread>, i: nat, j: nat, t: Thread)
    requires Run(run, who) && i <= j < |run| && t in run[i].place
    requires run[i].place[t].InCallback? && run[i].place[t].inner.AsleepInside?
    requires !exists u :: LateBroadcaster(run[i], u)
    requires forall k | i <= k < j :: who[k] != t
    ensures t in run[j].place && run[j].place[t] == run[i].place[t]
    ensures !exists u :: LateBroadcaster(run[j], u)
  {
    hide Step, Inv, Initial, LateBroadcaster;
    if i < j {
      OwnSleepEndsByTimeout(run, who, i, j - 1, t);
      RunKeepsInv(run, who, j - 1);
      assert HoldsEvents(run[j - 1].place[t]);
      NobodyElseBroadcasts(run[j - 1], who[j - 1], run[j], t);
    }
  }

  lemma NobodyElseBroadcasts(s: State, u: Thread, s': State, t: Thread)
    requires Inv(s) && u in s.place && Step(s, u, s') && t in s.place && u != t
    requires HoldsEvents(s.place[t]) && !exists v :: LateBroadcaster(s, v)
    ensures t in s'.place && s'.place[t] == s.place[t] && !exists v :: LateBroadcaster(s', v)
  {
    hide Step, Distance, InBody, NeedsBroadcast, IsActive, Announced, LocksMove, FlagsMove, HoldsWaiters, Wake;
    StepMoves(s, u, s');
    OthersKeep(s, u, s');
    assert !LateBroadcaster(s, u) && !HoldsEvents(s.place[u]);
    forall v
      ensures !LateBroadcaster(s', v)
    {
      if v in s.place && v != u { assert !LateBroadcaster(s, v); }
    }
  }

  /** The state of a program with a single thread that is not closing anything. */
  function Solo(p: Place): State {
    State(map[0 := p], if HoldsEvents(p) then By(0) else Free, if HoldsWaiters(p) then By(0) else Free,
          IsActive(p), 0, {}, {}, {})
  }

  /** How that thread gets to sleep in a call from one of its callbacks. */
  const INTO_THE_CALLBACK := [
    Outside, ReadClose, TryEventsLock, MarkActive, TestCompleted, StartHandling, Handling,
    InCallback(ReadCloseInside, false), InCallback(TryInside, false), InCallback(TakeWaitersInside, false),
    InCallback(TestCompletedInside, false), InCallback(ReadCloseAsWaiterInside, false),
    InCallback(ReadActiveInside, false), InCallback(BeginWaitInside, false), InCallback(AsleepInside, false)]

  /** The exception does occur: a single thread can sleep with nobody left to wake it. */
  lemma CallbackCanSleepAlone() returns (run: seq<State>, who: seq<Thread>)
    ensures Run(run, who) && |run| > 0
    ensures var s := run[|run| - 1];
      0 in s.place && s.place[0] == InCallback(AsleepInside, false) && !exists u :: Covers(s, u, 0)
  {
    var n := |INTO_THE_CALLBACK|;
    run := seq(n, i requires 0 <= i < n => Solo(INTO_THE_CALLBACK[i]));
    who := seq(n - 1, _ => 0);
    forall i | 0 <= i < |who|
      ensures who[i] in run[i].place && Step(run[i], who[i], run[i + 1])
    {
      SoloStep(i);
    }
  }

  lemma SoloStep(i: nat)
    requires i + 1 < |INTO_THE_CALLBACK|
    ensures Step(Solo(INTO_THE_CALLBACK[i]), 0, Solo(INTO_THE_CALLBACK[i + 1]))
  {
    if i < 6 { SoloHandles(i); } else { SoloCalls(i); }
  }

  lemma SoloHandles(i: nat)
    requires i < 6
    ensures Step(Solo(INTO_THE_CALLBACK[i]), 0, Solo(INTO_THE_CALLBACK[i + 1]))
  {
    hide AdvanceInside, StepInside, AdvanceToUnlock, AdvanceToWait, AdvanceApplication, AdvanceToClose, StepInBody,
      HoldsWaitersInside;
    var s, s' := Solo(INTO_THE_CALLBACK[i]), Solo(INTO_THE_CALLBACK[i + 1]);
    assert s'.place == s.place[0 := INTO_THE_CALLBACK[i + 1]];
    if i == 0 {
      var none: set<Thread> := {};
      assert s' == GoTo(s, 0, ReadClose).(watching := s.watching - {0}) by { assert none - {0} == none; }
    } else {
      assert s' == AdvanceToHandle(s, 0);
    }
  }

  lemma SoloCalls(i: nat)
    requires 6 <= i && i + 1 < |INTO_THE_CALLBACK|
    ensures Step(Solo(INTO_THE_CALLBACK[i]), 0, Solo(INTO_THE_CALLBACK[i + 1]))
  {
    hide Advance, StepOutside;
    var s, s' := Solo(INTO_THE_CALLBACK[i]), Solo(INTO_THE_CALLBACK[i + 1]);
    assert s'.place == s.place[0 := INTO_THE_CALLBACK[i + 1]];
  }

  /** At most one thread polls or takes transfers and handles apart: in particular do_close of
      one thread and handle_events of another never overlap. */
  lemma BodiesExclude(run: seq<State>, who: seq<Thread>, i: nat, t: Thread, u: Thread)
    requires Run(run, who) && i < |run| && t in run[i].place && u in run[i].place
    requires InBody(run[i].place[t]) && InBody(run[i].place[u])
    ensures t == u
  {
    RunKeepsInv(run, who, i);
    assert run[i].eventsLock == By(t) && run[i].eventsLock == By(u);
  }

  /** A thread that passes the address of its completion flag never enters handle_events once
      the flag is set, although callbacks of other threads may set it at any time. */
  lemma NeverHandlesAfterCompletion(run: seq<State>, who: seq<Thread>, i: nat)
    requires Run(run, who) && i < |who|
    requires who[i] in run[i].watching && run[i].place[who[i]] == StartHandling
    ensures who[i] !in run[i].completed
  {
    RunKeepsInv(run, who, i);
  }

  lemma UnblockedCanStep(s: State, t: Thread)
    requires t in s.place && !Blocked(s, t)
    ensures exists s' :: Step(s, t, s')
  {
    var next := Advance(s, t);
    assert s.place[t] == Closing ==> StepInBody(next, next) by {
      var none: set<Thread> := {};
      assert next == next.(completed := next.completed + none, handleGone := next.handleGone + none);
    }
    assert Step(s, t, next);
  }

  /** Whoever a broadcaster waits for can step. */
  lemma LockOwnersAreFree(s: State, u: Thread)
    requires LocksAgree(s) && u in s.place && WillBroadcast(s.place[u])
    ensures exists v <- s.place :: !s.place[v].Outside? && !s.place[v].Asleep? && !Blocked(s, v)
  {
    if Blocked(s, u) {
      var v := if s.place[u].LockEventsToClose? then s.eventsLock.thread else s.waitersLock.thread;
      assert HoldsEvents(s.place[v]) || HoldsWaiters(s.place[v]);
      if Blocked(s, v) {
        var w := s.waitersLock.thread;
        assert HoldsWaiters(s.place[w]) && !Blocked(s, w);
      }
    }
  }

  /** No deadlock behind a sleeper: some other thread inside the library can step.  If that one is
      asleep too, it is in a callback, and its step is the time-out of its wait. */
  lemma SleepersAreNotStranded(run: seq<State>, who: seq<Thread>, i: nat, t: Thread)
    requires Run(run, who) && i < |run|
    requires t in run[i].place && run[i].place[t] == Asleep
    ensures exists u, s' :: u in run[i].place && u != t && !run[i].place[u].Outside? && !run[i].place[u].Asleep?
                            && Step(run[i], u, s')
  {
    RunKeepsInv(run, who, i);
    var s := run[i];
    var u :| u in s.place && WillBroadcast(s.place[u]);
    LockOwnersAreFree(s, u);
    var v :| v in s.place && !s.place[v].Outside? && !s.place[v].Asleep? && !Blocked(s, v);
    UnblockedCanStep(s, v);
  }

  /** How many accesses of its own a thread is away from its broadcast. */
  function Distance(p: Place): nat {
    match p
    case LockEventsToClose => 9
    case MarkActiveToClose => 8
    case Closing => 7
    case WithdrawClose => 6
    case MarkActive => 8
    case TestCompleted => 7
    case StartHandling => 6
    case Handling => 5
    case MarkActiveForApplication => 6
    case ApplicationPolls => 5
    case ClearActive => 4
    case DropEventsLock => 3
    case TakeWaitersToBroadcast => 2
    case Broadcast => 1
    case _ => 0
  }

  ghost predicate NobodyWaits(s: State) {
    forall u <- s.place :: !NeedsBroadcast(s.place[u])
  }

  /** A thread that owes a broadcast gets nearer to it with each of its steps, unless it is
      running application code inside its polling loop; its last such step wakes every sleeper. */
  lemma OwedBroadcastComesNearer(run: seq<State>, who: seq<Thread>, i: nat)
    requires Run(run, who) && i < |who|
    requires who[i] in run[i].place && WillBroadcast(run[i].place[who[i]])
    ensures who[i] in run[i + 1].place
    ensures
      var before, after := run[i].place[who[i]], run[i + 1].place[who[i]];
      || (InBody(before) && InBody(after))
      || (WillBroadcast(after) && Distance(after) < Distance(before))
      || NobodyWaits(run[i + 1])
  {
    hide Step, Distance, InBody, LocksMove, FlagsMove, WillBroadcast, NeedsBroadcast, Inv;
    StepMoves(run[i], who[i], run[i + 1]);
    if run[i].place[who[i]] == Broadcast {
      RunKeepsInv(run, who, i);
      var after := run[i + 1];
      forall v | v in after.place
        ensures !NeedsBroadcast(after.place[v])
      {
        InvLocks(run[i]);
        NobodySleeps(run[i], who[i], after, v);
      }
    }
  }

  lemma InvLocks(s: State)
    requires Inv(s)
    ensures LocksAgree(s)
  {
  }
}
