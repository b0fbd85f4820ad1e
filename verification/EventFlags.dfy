/** The event word of a libusb context: the flags that say what an event handler must look at,
    the wake-up event, the counter of closing threads, and the two queues behind the flags.

    Everything here is protected by event_data_lock, so every method of `EventData` is one
    critical section (or, for the middle part of handle_event_trigger, one step of the event
    handler that runs with the lock released).  `Apply` is the specification of each section. */
module EventFlags {

  datatype Flag =
    | SourcesModified
    | UserInterrupt
    | HotplugCbDeregistered
    | HotplugMsgPending
    | TransferCompleted
    | DeviceClose

  type Transfer = nat
  datatype Message = Message(device: nat, left: bool)

  /** Where the event handler is inside handle_event_trigger. */
  datatype Phase = Idle | Completing(failed: bool) | Finishing

  /** `signals` counts the calls of usbi_signal_event.  `taken` and `takenMsgs` are the local lists of
      handle_event_trigger.  The last four fields are the history: what was ever queued, and what
      was ever handed on, in order. */
  datatype State = State(
    flags: set<Flag>,
    signalled: bool,
    signals: nat,
    deviceClose: int,
    completed: seq<Transfer>,
    hotplugMsgs: seq<Message>,
    phase: Phase,
    taken: seq<Transfer>,
    takenMsgs: seq<Message>,
    signalledEver: seq<Transfer>,
    delivered: seq<Transfer>,
    postedEver: seq<Message>,
    matched: seq<Message>)

  const INITIAL := State({}, false, 0, 0, [], [], Idle, [], [], [], [], [], [])

  datatype Section =
    | SignalCompletion(transfer: Transfer)      // usbi_signal_transfer_completion
    | Interrupt                                 // libusb_interrupt_event_handler
    | ModifySources                             // usbi_event_source_notification
    | PostMessage(message: Message)             // usbi_hotplug_notification
    | DeregisterCallback                        // libusb_hotplug_deregister_callback
    | BeginClose | EndClose                     // libusb_close, around do_close
    | RefreshSources(memoryOk: bool)           // the prologue of handle_events
    | BeginTrigger                              // handle_event_trigger, up to the first unlock
    | CompleteOne(error: bool)                  // one round of its completion loop
    | EndTrigger                                // from the second lock to the last unlock
    | MatchMessage                              // one round of the hotplug loop after it

  function SignalIfQuiet(s: State): State {
    if s.flags == {} then s.(signalled := true, signals := s.signals + 1) else s
  }

  /** Add a flag, and signal the event only if no flag was set before. */
  function Raise(s: State, f: Flag): State {
    SignalIfQuiet(s).(flags := s.flags + {f})
  }

  function ClearIfQuiet(s: State): State {
    if s.flags == {} then s.(signalled := false) else s
  }

  function Lower(s: State, f: Flag): State {
    s.(flags := s.flags - {f})
  }

  /** A section may run when its thread can be there: at most one thread is inside handle_events
      at a time, the completion loop ends when its list is empty or after an error of the
      backend, and a close ends only after it began. */
  predicate Enabled(s: State, c: Section) {
    match c
    case EndClose => s.deviceClose > 0
    case RefreshSources(_) => s.phase == Idle
    case BeginTrigger => s.phase == Idle
    case CompleteOne(_) => s.phase == Completing(false) && s.taken != []
    case EndTrigger => s.phase == Completing(true) || (s.phase == Completing(false) && s.taken == [])
    case MatchMessage => s.phase == Finishing
    case _ => true
  }

  function Begin(s: State): State {
    var s := Lower(s, UserInterrupt);
    var s := if HotplugMsgPending in s.flags
             then Lower(s, HotplugMsgPending).(takenMsgs := s.hotplugMsgs, hotplugMsgs := [])
             else s;
    if TransferCompleted in s.flags
    then s.(taken := s.completed, completed := [], phase := Completing(false))
    else ClearIfQuiet(s).(phase := Finishing)
  }

  function End(s: State): State {
    var s := if s.taken != [] then s.(completed := s.taken + s.completed, taken := [])
             else if s.completed == [] then Lower(s, TransferCompleted)
             else s;
    ClearIfQuiet(s).(phase := Finishing)
  }

  function Apply(s: State, c: Section): State
    requires Enabled(s, c)
  {
    match c
    case SignalCompletion(x) =>
      Raise(s, TransferCompleted).(completed := s.completed + [x], signalledEver := s.signalledEver + [x])
    case Interrupt => Raise(s, UserInterrupt)
    case ModifySources => Raise(s, SourcesModified)
    case PostMessage(m) =>
      Raise(s, HotplugMsgPending).(hotplugMsgs := s.hotplugMsgs + [m], postedEver := s.postedEver + [m])
    case DeregisterCallback => Raise(s, HotplugCbDeregistered)
    case BeginClose =>
      var r := if s.deviceClose == 0 then Raise(s, DeviceClose)
               else SignalIfQuiet(s);
      r.(deviceClose := s.deviceClose + 1)
    case EndClose =>
      var r := if s.deviceClose == 1 then Lower(s, DeviceClose) else s;
      ClearIfQuiet(r).(deviceClose := s.deviceClose - 1)
    case RefreshSources(memoryOk) =>
      if SourcesModified in s.flags && memoryOk then ClearIfQuiet(Lower(s, SourcesModified)) else s
    case BeginTrigger => Begin(s)
    case CompleteOne(error) =>
      s.(taken := s.taken[1..], delivered := s.delivered + [s.taken[0]], phase := Completing(error))
    case EndTrigger => End(s)
    case MatchMessage =>
      if s.takenMsgs == [] then s.(phase := Idle)
      else s.(takenMsgs := s.takenMsgs[1..], matched := s.matched + [s.takenMsgs[0]])
  }

  /** The flags agree with the event and with what they stand for. */
  predicate FlagsAgree(s: State) {
    && (s.signalled <==> s.flags != {})
    && s.deviceClose >= 0
    && (DeviceClose in s.flags <==> s.deviceClose > 0)
    && (HotplugMsgPending in s.flags <==> s.hotplugMsgs != [])
    && (s.completed != [] ==> TransferCompleted in s.flags)
    && (TransferCompleted in s.flags && s.completed == [] ==> s.phase.Completing?)
    && (s.phase.Completing? ==> TransferCompleted in s.flags)
  }

  /** Nothing is lost, duplicated or reordered on the way through the queues. */
  predicate HistoryAgrees(s: State) {
    && s.signalledEver == s.delivered + s.taken + s.completed
    && s.postedEver == s.matched + s.takenMsgs + s.hotplugMsgs
    && (!s.phase.Completing? ==> s.taken == [])
    && (s.phase == Idle ==> s.takenMsgs == [])
  }

  predicate Inv(s: State) {
    FlagsAgree(s) && HistoryAgrees(s)
  }

  lemma BeginKeepsFlags(s: State)
    requires FlagsAgree(s) && s.phase == Idle
    ensures FlagsAgree(Begin(s))
  {
  }

  lemma EndKeepsFlags(s: State)
    requires FlagsAgree(s) && s.phase.Completing?
    ensures FlagsAgree(End(s))
  {
  }

  lemma ApplyKeepsFlags(s: State, c: Section)
    requires FlagsAgree(s) && Enabled(s, c)
    ensures FlagsAgree(Apply(s, c))
  {
    hide Begin, End;
    match c
    case BeginTrigger => BeginKeepsFlags(s);
    case EndTrigger => EndKeepsFlags(s);
    case _ =>
  }

  lemma QueueingKeepsHistory(s: State, c: Section)
    requires HistoryAgrees(s) && (c.SignalCompletion? || c.PostMessage?)
    ensures HistoryAgrees(Apply(s, c))
  {
    match c
    case SignalCompletion(x) =>
      assert s.delivered + s.taken + (s.completed + [x]) == s.delivered + s.taken + s.completed + [x];
    case PostMessage(m) =>
      assert s.matched + s.takenMsgs + (s.hotplugMsgs + [m]) == s.matched + s.takenMsgs + s.hotplugMsgs + [m];
  }

  lemma HandlingKeepsHistory(s: State, c: Section)
    requires HistoryAgrees(s) && Enabled(s, c) && (c.CompleteOne? || c.MatchMessage?)
    ensures HistoryAgrees(Apply(s, c))
  {
    match c
    case CompleteOne(_) =>
      assert s.taken == [s.taken[0]] + s.taken[1..];
      assert s.delivered + s.taken == s.delivered + [s.taken[0]] + s.taken[1..];
    case MatchMessage =>
      if s.takenMsgs != [] {
        assert s.takenMsgs == [s.takenMsgs[0]] + s.takenMsgs[1..];
        assert s.matched + s.takenMsgs == s.matched + [s.takenMsgs[0]] + s.takenMsgs[1..];
      }
  }

  lemma BeginKeepsHistory(s: State)
    requires Inv(s) && s.phase == Idle
    ensures HistoryAgrees(Begin(s))
  {
    assert s.delivered + [] + s.completed == s.delivered + s.completed + [];
    assert s.matched + [] + s.hotplugMsgs == s.matched + s.hotplugMsgs + [];
  }

  lemma EndKeepsHistory(s: State)
    requires HistoryAgrees(s) && s.phase.Completing?
    ensures HistoryAgrees(End(s))
  {
    assert s.delivered + [] + (s.taken + s.completed) == s.delivered + s.taken + s.completed;
  }

  lemma ApplyKeepsHistory(s: State, c: Section)
    requires Inv(s) && Enabled(s, c)
    ensures HistoryAgrees(Apply(s, c))
  {
    hide Begin, End;
    match c
    case SignalCompletion(_) => QueueingKeepsHistory(s, c);
    case PostMessage(_) => QueueingKeepsHistory(s, c);
    case CompleteOne(_) => HandlingKeepsHistory(s, c);
    case MatchMessage => HandlingKeepsHistory(s, c);
    case BeginTrigger => BeginKeepsHistory(s);
    case EndTrigger => EndKeepsHistory(s);
    case _ =>
  }

  /** Any sequence of sections, of any number of threads. */
  predicate EnabledAll(s: State, cs: seq<Section>)
    decreases |cs|
  {
    cs == [] || (Enabled(s, cs[0]) && EnabledAll(Apply(s, cs[0]), cs[1..]))
  }

  function ApplyAll(s: State, cs: seq<Section>): State
    requires EnabledAll(s, cs)
    decreases |cs|
  {
    if cs == [] then s else ApplyAll(Apply(s, cs[0]), cs[1..])
  }

  lemma {:induction false} SectionsKeepInv(s: State, cs: seq<Section>)
    requires Inv(s) && EnabledAll(s, cs)
    ensures Inv(ApplyAll(s, cs))
    decreases |cs|
  {
    if cs != [] {
      ApplyKeepsFlags(s, cs[0]);
      ApplyKeepsHistory(s, cs[0]);
      SectionsKeepInv(Apply(s, cs[0]), cs[1..]);
    }
  }

  /** In every reachable state the flag word agrees with the event, with the closing threads and
      with the queues. */
  lemma FlagsAlwaysAgree(cs: seq<Section>)
    requires EnabledAll(INITIAL, cs)
    ensures FlagsAgree(ApplyAll(INITIAL, cs))
  {
    SectionsKeepInv(INITIAL, cs);
  }

  /** The two assertions in handle_event_trigger never fail: when it starts, a set flag means a
      non-empty queue. */
  lemma AssertionsHold(cs: seq<Section>)
    requires EnabledAll(INITIAL, cs)
    ensures
      var s := ApplyAll(INITIAL, cs);
      Enabled(s, BeginTrigger) ==>
        (HotplugMsgPending in s.flags ==> s.hotplugMsgs != []) &&
        (TransferCompleted in s.flags ==> s.completed != [])
  {
    SectionsKeepInv(INITIAL, cs);
  }

  /** Completed transfers reach the backend in the order in which they were signalled, none
      twice and none skipped, even if the backend fails half-way through a batch: what was
      delivered is at all times a prefix of what was signalled, and the rest is still queued.
      The same holds for hotplug messages. */
  lemma DeliveryIsFifo(cs: seq<Section>)
    requires EnabledAll(INITIAL, cs)
    ensures
      var s := ApplyAll(INITIAL, cs);
      && s.delivered <= s.signalledEver
      && s.signalledEver[|s.delivered|..] == s.taken + s.completed
      && s.matched <= s.postedEver
      && s.postedEver[|s.matched|..] == s.takenMsgs + s.hotplugMsgs
  {
    SectionsKeepInv(INITIAL, cs);
    var s := ApplyAll(INITIAL, cs);
    assert s.delivered + s.taken + s.completed == s.delivered + (s.taken + s.completed);
    assert s.matched + s.takenMsgs + s.hotplugMsgs == s.matched + (s.takenMsgs + s.hotplugMsgs);
  }

  /** Nobody ever clears the flag of a deregistered hotplug callback, so from the first
      deregistration on the event stays signalled. */
  lemma {:induction false} DeregistrationKeepsSignalling(s: State, cs: seq<Section>)
    requires Inv(s) && EnabledAll(s, cs) && HotplugCbDeregistered in s.flags
    ensures HotplugCbDeregistered in ApplyAll(s, cs).flags && ApplyAll(s, cs).signalled
    decreases |cs|
  {
    if cs != [] {
      ApplyKeepsFlags(s, cs[0]);
      ApplyKeepsHistory(s, cs[0]);
      DeregistrationKeepsSignalling(Apply(s, cs[0]), cs[1..]);
    }
  }

  lemma DeregistrationRaises(s: State, c: Section)
    requires Enabled(s, c)
    ensures HotplugCbDeregistered in Apply(s, c).flags <==>
      HotplugCbDeregistered in s.flags || c == DeregisterCallback
  {
    hide Begin, End;
    match c
    case BeginTrigger => BeginFlags(s);
    case EndTrigger => EndFlags(s);
    case _ =>
  }

  lemma BeginFlags(s: State)
    ensures Begin(s).flags == s.flags - {UserInterrupt} - {HotplugMsgPending}
  {
    var flags := s.flags - {UserInterrupt};
    assert HotplugMsgPending !in s.flags ==> flags - {HotplugMsgPending} == flags;
  }

  lemma EndFlags(s: State)
    ensures End(s).flags == s.flags || End(s).flags == s.flags - {TransferCompleted}
  {
  }

  /** That flag is set after exactly those runs in which a callback was deregistered. */
  lemma {:induction false} DeregistrationIsRemembered(s: State, cs: seq<Section>)
    requires EnabledAll(s, cs)
    ensures HotplugCbDeregistered in ApplyAll(s, cs).flags <==>
      HotplugCbDeregistered in s.flags || DeregisterCallback in cs
    decreases |cs|
  {
    if cs != [] {
      DeregistrationRaises(s, cs[0]);
      assert DeregisterCallback in cs <==> cs[0] == DeregisterCallback || DeregisterCallback in cs[1..];
      hide Apply, Enabled;
      DeregistrationIsRemembered(Apply(s, cs[0]), cs[1..]);
    }
  }

  /** Of the sections that raise and lower a flag, the last one in `cs` raises it. */
  predicate Raised(cs: seq<Section>, raises: Section, lowers: Section, before: bool) {
    if cs == [] then before
    else
      var c := cs[|cs| - 1];
      c == raises || (c != lowers && Raised(cs[..|cs| - 1], raises, lowers, before))
  }

  lemma {:induction false} ApplyAllLast(s: State, cs: seq<Section>)
    requires cs != [] && EnabledAll(s, cs)
    ensures var before := cs[..|cs| - 1];
      && EnabledAll(s, before) && Enabled(ApplyAll(s, before), cs[|cs| - 1])
      && ApplyAll(s, cs) == Apply(ApplyAll(s, before), cs[|cs| - 1])
    decreases |cs|
  {
    hide Apply, Enabled;
    var before := cs[..|cs| - 1];
    if |cs| > 1 {
      ApplyAllLast(Apply(s, cs[0]), cs[1..]);
      assert cs[1..][..|cs| - 2] == before[1..] && before[0] == cs[0];
    }
  }

  /** An interrupt is remembered until the next event handler begins its trigger: the flag is set if
      and only if there was an interrupt after the last one. */
  lemma {:induction false} InterruptIsRemembered(s: State, cs: seq<Section>)
    requires EnabledAll(s, cs)
    ensures UserInterrupt in ApplyAll(s, cs).flags <==> Raised(cs, Interrupt, BeginTrigger, UserInterrupt in s.flags)
    decreases |cs|
  {
    if cs != [] {
      ApplyAllLast(s, cs);
      var before, c := cs[..|cs| - 1], cs[|cs| - 1];
      InterruptIsRemembered(s, before);
      InterruptFlag(ApplyAll(s, before), c);
      hide Apply, Enabled;
    }
  }

  lemma InterruptFlag(s: State, c: Section)
    requires Enabled(s, c)
    ensures UserInterrupt in Apply(s, c).flags <==> c == Interrupt || (c != BeginTrigger && UserInterrupt in s.flags)
  {
    hide Begin, End;
    match c
    case BeginTrigger => BeginFlags(s);
    case EndTrigger => EndFlags(s);
    case _ =>
  }

  /** So is a change of the event sources, until they have been refreshed with success. */
  lemma {:induction false} ModificationIsRemembered(s: State, cs: seq<Section>)
    requires EnabledAll(s, cs)
    ensures SourcesModified in ApplyAll(s, cs).flags <==>
      Raised(cs, ModifySources, RefreshSources(true), SourcesModified in s.flags)
    decreases |cs|
  {
    if cs != [] {
      ApplyAllLast(s, cs);
      var before, c := cs[..|cs| - 1], cs[|cs| - 1];
      ModificationIsRemembered(s, before);
      ModificationFlag(ApplyAll(s, before), c);
      hide Apply, Enabled;
    }
  }

  lemma ModificationFlag(s: State, c: Section)
    requires Enabled(s, c)
    ensures SourcesModified in Apply(s, c).flags <==>
      c == ModifySources || (c != RefreshSources(true) && SourcesModified in s.flags)
  {
    hide Begin, End;
    match c
    case BeginTrigger => BeginFlags(s);
    case EndTrigger => EndFlags(s);
    case _ =>
  }

  /** The event is only ever signalled while it is quiet. */
  lemma SignalsAreNeeded(s: State, c: Section)
    requires FlagsAgree(s) && Enabled(s, c)
    ensures Apply(s, c).signals == s.signals + if !s.signalled && Apply(s, c).signalled then 1 else 0
  {
  }

  function Count(cs: seq<Section>, c: Section): nat {
    if cs == [] then 0 else Count(cs[..|cs| - 1], c) + if cs[|cs| - 1] == c then 1 else 0
  }

  /** The counter of closing threads is the number of closes that have begun and not ended. */
  lemma {:induction false} ClosersAreCounted(s: State, cs: seq<Section>)
    requires EnabledAll(s, cs)
    ensures ApplyAll(s, cs).deviceClose == s.deviceClose + Count(cs, BeginClose) - Count(cs, EndClose)
    decreases |cs|
  {
    if cs != [] {
      ApplyAllLast(s, cs);
      var before, c := cs[..|cs| - 1], cs[|cs| - 1];
      ClosersAreCounted(s, before);
      CloserCount(ApplyAll(s, before), c);
      hide Apply, Enabled;
    }
  }

  lemma CloserCount(s: State, c: Section)
    requires Enabled(s, c)
    ensures Apply(s, c).deviceClose ==
      s.deviceClose + (if c == BeginClose then 1 else 0) - (if c == EndClose then 1 else 0)
  {
  }

  // ---------------------------------------------------------------- one call of the handler

  /** The sections `cs` lead from `s` to `s'`. */
  predicate Runs(s: State, cs: seq<Section>, s': State) {
    EnabledAll(s, cs) && ApplyAll(s, cs) == s'
  }

  lemma {:induction false} RunsOn(s: State, a: seq<Section>, m: State, b: seq<Section>, s': State)
    requires Runs(s, a, m) && Runs(m, b, s')
    ensures Runs(s, a + b, s')
    decreases |a|
  {
    if a == [] {
      assert a + b == b;
    } else {
      assert (a + b)[0] == a[0] && (a + b)[1..] == a[1..] + b;
      RunsOn(Apply(s, a[0]), a[1..], m, b, s');
    }
  }

  lemma RunsOne(s: State, c: Section)
    requires Enabled(s, c)
    ensures Runs(s, [c], Apply(s, c))
  {
    assert [c][1..] == [];
  }

  /** `n` rounds of the completion loop, the last of which may be the one that fails. */
  function Completions(n: nat, failed: bool): seq<Section> {
    seq(n, i => CompleteOne(failed && i == n - 1))
  }

  /** `n` rounds of the hotplug loop and the exit from it. */
  function Matches(n: nat): seq<Section> {
    seq(n + 1, _ => MatchMessage)
  }

  /** What one call of handle_event_trigger itself does: `n` of the completed transfers, if
      there are `some`, reach the backend, and `messages` messages are matched. */
  function Trigger(some: bool, n: nat, failed: bool, messages: nat): seq<Section> {
    [BeginTrigger] + (if some then Completions(n, failed) + [EndTrigger] else []) + Matches(messages)
  }

  lemma {:induction false} CompletionsRun(s: State, n: nat, failed: bool)
    requires s.phase == Completing(false) && n <= |s.taken| && (failed ==> n > 0)
    ensures Runs(s, Completions(n, failed),
                 s.(taken := s.taken[n..], delivered := s.delivered + s.taken[..n], phase := Completing(failed)))
    decreases n
  {
    var after := s.(taken := s.taken[n..], delivered := s.delivered + s.taken[..n], phase := Completing(failed));
    if n == 0 {
      assert after == s;
    } else {
      var before := s.(taken := s.taken[n - 1..], delivered := s.delivered + s.taken[..n - 1]);
      CompletionsRun(s, n - 1, false);
      RunsOne(before, CompleteOne(failed));
      assert s.taken[..n] == s.taken[..n - 1] + [s.taken[n - 1]];
      assert Apply(before, CompleteOne(failed)) == after;
      RunsOn(s, Completions(n - 1, false), before, [CompleteOne(failed)], after);
      assert Completions(n - 1, false) + [CompleteOne(failed)] == Completions(n, failed);
    }
  }

  lemma {:induction false} MatchesRun(s: State)
    requires s.phase == Finishing
    ensures Runs(s, Matches(|s.takenMsgs|), s.(takenMsgs := [], matched := s.matched + s.takenMsgs, phase := Idle))
    decreases |s.takenMsgs|
  {
    var after := s.(takenMsgs := [], matched := s.matched + s.takenMsgs, phase := Idle);
    RunsOne(s, MatchMessage);
    if s.takenMsgs == [] {
      assert Matches(0) == [MatchMessage];
      assert Apply(s, MatchMessage) == after;
    } else {
      var next := Apply(s, MatchMessage);
      MatchesRun(next);
      assert next.matched + next.takenMsgs == s.matched + s.takenMsgs;
      RunsOn(s, [MatchMessage], next, Matches(|next.takenMsgs|), after);
      assert [MatchMessage] + Matches(|next.takenMsgs|) == Matches(|s.takenMsgs|);
    }
  }

  /** Both critical sections and the completion loop between them. */
  lemma LockedPartRuns(s: State, n: nat, failed: bool) returns (done: State)
    requires Inv(s) && s.phase == Idle && s.completed != [] && n <= |s.completed|
    requires if failed then n > 0 else n == |s.completed|
    ensures Runs(s, [BeginTrigger] + Completions(n, failed) + [EndTrigger], done)
    ensures FlagsAgree(done) && done.phase == Finishing && done.takenMsgs == s.hotplugMsgs
    ensures done.flags == s.flags - {UserInterrupt, HotplugMsgPending}
                          - (if n < |s.completed| then {} else {TransferCompleted})
  {
    hide Runs, FlagsAgree, HistoryAgrees;
    var begun := Begin(s);
    BeginKeepsFlags(s);
    RunsOne(s, BeginTrigger);
    assert begun.phase == Completing(false) && begun.taken == s.completed by { BeginTakesAll(s); }
    CompletionsRun(begun, n, failed);
    var tried := begun.(taken := begun.taken[n..], delivered := begun.delivered + begun.taken[..n],
                        phase := Completing(failed));
    RunsOn(s, [BeginTrigger], begun, Completions(n, failed), tried);
    assert FlagsAgree(tried) by { CompletionsKeepFlags(begun, tried); }
    RunsOne(tried, EndTrigger);
    EndKeepsFlags(tried);
    done := End(tried);
    RunsOn(s, [BeginTrigger] + Completions(n, failed), tried, [EndTrigger], done);
    BeginTakesAll(s);
  }

  lemma BeginTakesAll(s: State)
    requires Inv(s) && s.phase == Idle
    ensures Begin(s).taken == s.completed && Begin(s).completed == [] && Begin(s).takenMsgs == s.hotplugMsgs
    ensures Begin(s).phase == if s.completed != [] then Completing(false) else Finishing
    ensures Begin(s).flags == s.flags - {UserInterrupt, HotplugMsgPending}
  {
  }

  lemma CompletionsKeepFlags(s: State, s': State)
    requires FlagsAgree(s) && s.phase.Completing? && s'.phase.Completing?
    requires s' == s.(taken := s'.taken, delivered := s'.delivered, phase := s'.phase)
    ensures FlagsAgree(s')
  {
  }

  /** One undisturbed call of handle_event_trigger and the flags that it leaves. */
  lemma TriggerRuns(s: State, n: nat, failed: bool) returns (done: State)
    requires Inv(s) && s.phase == Idle && n <= |s.completed|
    requires if failed then n > 0 else n == |s.completed|
    ensures Runs(s, Trigger(s.completed != [], n, failed, |s.hotplugMsgs|), done)
    ensures done.phase == Idle && (done.signalled <==> done.flags != {})
    ensures done.flags == s.flags - {UserInterrupt, HotplugMsgPending}
                          - (if n < |s.completed| then {} else {TransferCompleted})
  {
    hide Runs, Begin, HistoryAgrees, Matches, Completions;
    var cs, ended := [BeginTrigger], Begin(s);
    BeginTakesAll(s);
    if s.completed != [] {
      ended := LockedPartRuns(s, n, failed);
      cs := [BeginTrigger] + Completions(n, failed) + [EndTrigger];
    } else {
      BeginKeepsFlags(s);
      RunsOne(s, BeginTrigger);
    }
    MatchesRun(ended);
    done := ended.(takenMsgs := [], matched := ended.matched + ended.takenMsgs, phase := Idle);
    RunsOn(s, cs, ended, Matches(|ended.takenMsgs|), done);
    assert cs + Matches(|s.hotplugMsgs|) == Trigger(s.completed != [], n, failed, |s.hotplugMsgs|);
  }

  /** One undisturbed call of handle_events: it ends early if the event sources cannot be
      refreshed, and looks into the queues only if the event is signalled. */
  function HandleEvents(s: State, memoryOk: bool, n: nat, failed: bool): seq<Section>
    requires s.phase == Idle
  {
    var ready := Apply(s, RefreshSources(memoryOk));
    if (SourcesModified in s.flags && !memoryOk) || !ready.signalled then [RefreshSources(memoryOk)]
    else [RefreshSources(memoryOk)] + Trigger(s.completed != [], n, failed, |s.hotplugMsgs|)
  }

  /** When the event goes quiet: an undisturbed call of handle_events leaves it signalled if and
      only if a callback was ever deregistered, a thread is closing a device, the event sources
      could not be refreshed, or the backend failed before the last transfer.  Only the first
      of these can never end, since the flag is never lowered. */
  lemma QuietUnless(s: State, memoryOk: bool, n: nat, failed: bool)
    requires Inv(s) && s.phase == Idle && n <= |s.completed|
    requires if failed then n > 0 else n == |s.completed|
    ensures
      var cs := HandleEvents(s, memoryOk, n, failed);
      && EnabledAll(s, cs)
      && ApplyAll(s, cs).phase == Idle
      && (ApplyAll(s, cs).signalled <==>
            || HotplugCbDeregistered in s.flags
            || s.deviceClose > 0
            || (SourcesModified in s.flags && !memoryOk)
            || n < |s.completed|)
  {
    var ready := Apply(s, RefreshSources(memoryOk));
    ApplyKeepsInv(s, RefreshSources(memoryOk));
    RunsOne(s, RefreshSources(memoryOk));
    QuietFlags(s, memoryOk, n);
    if !(SourcesModified in s.flags && !memoryOk) && ready.signalled {
      var done := TriggerRuns(ready, n, failed);
      RunsOn(s, [RefreshSources(memoryOk)], ready,
             Trigger(s.completed != [], n, failed, |s.hotplugMsgs|), done);
    }
  }

  lemma QuietFlags(s: State, memoryOk: bool, n: nat)
    requires FlagsAgree(s) && s.phase == Idle && n <= |s.completed|
    ensures
      var flags := Apply(s, RefreshSources(memoryOk)).flags - {UserInterrupt, HotplugMsgPending}
                   - (if n < |s.completed| then {} else {TransferCompleted});
      flags != {} <==>
        || HotplugCbDeregistered in s.flags
        || s.deviceClose > 0
        || (SourcesModified in s.flags && !memoryOk)
        || n < |s.completed|
  {
    var flags := Apply(s, RefreshSources(memoryOk)).flags - {UserInterrupt, HotplugMsgPending}
                 - (if n < |s.completed| then {} else {TransferCompleted});
    assert HotplugCbDeregistered in flags <==> HotplugCbDeregistered in s.flags;
    assert DeviceClose in flags <==> s.deviceClose > 0;
    assert SourcesModified in flags <==> SourcesModified in s.flags && !memoryOk;
    assert TransferCompleted in flags <==> n < |s.completed|;
    if flags != {} {
      var f :| f in flags;
      assert f == HotplugCbDeregistered || f == DeviceClose || f == SourcesModified || f == TransferCompleted;
    }
  }

  /** The sections among `cs` that the event handler runs. */
  function Own(cs: seq<Section>): seq<Section> {
    if cs == [] then [] else (if IsOther(cs[0]) then [] else [cs[0]]) + Own(cs[1..])
  }

  lemma {:induction false} OwnOfBoth(a: seq<Section>, b: seq<Section>)
    ensures Own(a + b) == Own(a) + Own(b)
    decreases |a|
  {
    if a == [] {
      assert a + b == b;
    } else {
      assert (a + b)[0] == a[0] && (a + b)[1..] == a[1..] + b;
      hide IsOther;
      OwnOfBoth(a[1..], b);
      var first := if IsOther(a[0]) then [] else [a[0]];
      assert first + (Own(a[1..]) + Own(b)) == (first + Own(a[1..])) + Own(b);
    }
  }

  /** The sections `trace` lead from `s` to `s'`, and those of the event handler are `own`. */
  predicate Traced(s: State, trace: seq<Section>, own: seq<Section>, s': State) {
    Runs(s, trace, s') && Own(trace) == own
  }

  lemma TracedOn(s: State, a: seq<Section>, own: seq<Section>, m: State, b: seq<Section>, own': seq<Section>, s': State)
    requires Traced(s, a, own, m) && Traced(m, b, own', s')
    ensures Traced(s, a + b, own + own', s')
  {
    RunsOn(s, a, m, b, s');
    OwnOfBoth(a, b);
  }

  lemma TracedOne(s: State, c: Section)
    requires Enabled(s, c)
    ensures Traced(s, [c], if IsOther(c) then [] else [c], Apply(s, c))
  {
    RunsOne(s, c);
  }

  // ---------------------------------------------------------------- the context fields

  /** The fields of a libusb context that event_data_lock protects. */
  class EventData {
    var eventFlags: set<Flag>
    var signalled: bool
    ghost var signals: nat
    var deviceClose: int
    var completedTransfers: seq<Transfer>
    var hotplugMsgs: seq<Message>
    // the position and the local lists of the thread inside handle_event_trigger, and the history
    ghost var phase: Phase
    ghost var taken: seq<Transfer>
    ghost var takenMsgs: seq<Message>
    ghost var signalledEver: seq<Transfer>
    ghost var delivered: seq<Transfer>
    ghost var postedEver: seq<Message>
    ghost var matched: seq<Message>

    ghost function View(): State
      reads this
    {
      State(eventFlags, signalled, signals, deviceClose, completedTransfers, hotplugMsgs,
            phase, taken, takenMsgs, signalledEver, delivered, postedEver, matched)
    }

    ghost predicate Valid()
      reads this
    {
      Inv(View())
    }

    constructor ()
      ensures Valid() && View() == INITIAL
    {
      eventFlags, signalled, signals, deviceClose := {}, false, 0, 0;
      completedTransfers, hotplugMsgs := [], [];
      phase, taken, takenMsgs := Idle, [], [];
      signalledEver, delivered, postedEver, matched := [], [], [], [];
    }

    method SignalTransferCompletion(x: Transfer)
      requires Valid()
      modifies this
      ensures Valid() && View() == Apply(old(View()), SignalCompletion(x))
    {
      ApplyKeepsInv(View(), SignalCompletion(x));
      var flags := eventFlags;
      eventFlags := eventFlags + {TransferCompleted};
      completedTransfers := completedTransfers + [x];
      signalledEver := signalledEver + [x];
      if flags == {} { signalled, signals := true, signals + 1; }
    }

    method InterruptEventHandler()
      requires Valid()
      modifies this
      ensures Valid() && View() == Apply(old(View()), Interrupt)
    {
      ApplyKeepsInv(View(), Interrupt);
      var flags := eventFlags;
      eventFlags := eventFlags + {UserInterrupt};
      if flags == {} { signalled, signals := true, signals + 1; }
    }

    method EventSourceNotification()
      requires Valid()
      modifies this
      ensures Valid() && View() == Apply(old(View()), ModifySources)
    {
      ApplyKeepsInv(View(), ModifySources);
      var flags := eventFlags;
      eventFlags := eventFlags + {SourcesModified};
      if flags == {} { signalled, signals := true, signals + 1; }
    }

    method HotplugNotification(m: Message)
      requires Valid()
      modifies this
      ensures Valid() && View() == Apply(old(View()), PostMessage(m))
    {
      ApplyKeepsInv(View(), PostMessage(m));
      var flags := eventFlags;
      eventFlags := eventFlags + {HotplugMsgPending};
      hotplugMsgs := hotplugMsgs + [m];
      postedEver := postedEver + [m];
      if flags == {} { signalled, signals := true, signals + 1; }
    }

    method NoteDeregistration()
      requires Valid()
      modifies this
      ensures Valid() && View() == Apply(old(View()), DeregisterCallback)
    {
      ApplyKeepsInv(View(), DeregisterCallback);
      var flags := eventFlags;
      eventFlags := eventFlags + {HotplugCbDeregistered};
      if flags == {} { signalled, signals := true, signals + 1; }
    }

    method AnnounceClose()
      requires Valid()
      modifies this
      ensures Valid() && View() == Apply(old(View()), BeginClose)
    {
      ApplyKeepsInv(View(), BeginClose);
      var flags := eventFlags;
      if deviceClose == 0 { eventFlags := eventFlags + {DeviceClose}; }
      deviceClose := deviceClose + 1;
      if flags == {} { signalled, signals := true, signals + 1; }
    }

    method WithdrawClose()
      requires Valid() && deviceClose > 0
      modifies this
      ensures Valid() && View() == Apply(old(View()), EndClose)
    {
      ApplyKeepsInv(View(), EndClose);
      deviceClose := deviceClose - 1;
      if deviceClose == 0 { eventFlags := eventFlags - {DeviceClose}; }
      if eventFlags == {} { signalled := false; }
    }

    method RefreshEventSources(memoryOk: bool)
      requires Valid() && phase == Idle
      modifies this
      ensures Valid() && View() == Apply(old(View()), RefreshSources(memoryOk))
    {
      ApplyKeepsInv(View(), RefreshSources(memoryOk));
      if SourcesModified in eventFlags && memoryOk {
        eventFlags := eventFlags - {SourcesModified};
        if eventFlags == {} { signalled := false; }
      }
    }

    /** One section of a thread other than the event handler, if it can run. */
    method OtherThread(c: Section) returns (ghost trace: seq<Section>)
      requires Valid()
      modifies this
      ensures Valid() && Traced(old(View()), trace, [], View())
      ensures phase == old(phase) && taken == old(taken) && takenMsgs == old(takenMsgs)
      ensures delivered == old(delivered) && matched == old(matched)
      ensures old(completedTransfers) <= completedTransfers
    {
      trace := if IsOther(c) && Enabled(View(), c) then [c] else [];
      assert Traced(View(), [], [], View());
      if trace != [] {
        TracedOne(View(), c);
        OthersLeaveTheHandler(View(), c);
      }
      hide Inv, Apply, Traced;
      match c
      case SignalCompletion(x) => SignalTransferCompletion(x);
      case Interrupt => InterruptEventHandler();
      case ModifySources => EventSourceNotification();
      case PostMessage(m) => HotplugNotification(m);
      case DeregisterCallback => NoteDeregistration();
      case BeginClose => AnnounceClose();
      case EndClose => if deviceClose > 0 { WithdrawClose(); }
      case _ =>
    }

    method OtherThreads(cs: seq<Section>) returns (ghost trace: seq<Section>)
      requires Valid()
      modifies this
      ensures Valid() && Traced(old(View()), trace, [], View())
      ensures phase == old(phase) && taken == old(taken) && takenMsgs == old(takenMsgs)
      ensures delivered == old(delivered) && matched == old(matched)
      ensures old(completedTransfers) <= completedTransfers
    {
      trace := [];
      ghost var start := View();
      assert Traced(start, trace, [], View());
      hide Inv, Apply, Traced;
      for i := 0 to |cs|
        invariant Valid() && Traced(start, trace, [], View())
        invariant phase == old(phase) && taken == old(taken) && takenMsgs == old(takenMsgs)
        invariant delivered == old(delivered) && matched == old(matched)
        invariant old(completedTransfers) <= completedTransfers
      {
        ghost var before := View();
        ghost var more := OtherThread(cs[i]);
        TracedOn(start, trace, [], before, more, [], View());
        trace := trace + more;
      }
    }

    /** One round of the hotplug loop, or the exit from it. */
    ghost method NoteMatch()
      requires Valid() && phase == Finishing
      modifies `takenMsgs, `matched, `phase
      ensures Valid() && Traced(old(View()), [MatchMessage], [MatchMessage], View())
      ensures old(takenMsgs) == [] ==> phase == Idle && takenMsgs == [] && matched == old(matched)
      ensures old(takenMsgs) != [] ==>
        phase == Finishing && takenMsgs == old(takenMsgs)[1..] && matched == old(matched) + [old(takenMsgs)[0]]
    {
      ApplyKeepsInv(View(), MatchMessage);
      TracedOne(View(), MatchMessage);
      if takenMsgs == [] {
        phase := Idle;
      } else {
        matched, takenMsgs := matched + [takenMsgs[0]], takenMsgs[1..];
      }
    }

    /** The loop at the end of handle_event_trigger, outside the lock. */
    method ProcessMessages(messages: seq<Message>, meanwhile: nat -> seq<Section>)
      returns (ghost trace: seq<Section>)
      requires Valid() && phase == Finishing && takenMsgs == messages
      modifies this
      ensures Valid() && phase == Idle
      ensures Traced(old(View()), trace, Matches(|messages|), View())
      ensures matched == old(matched) + messages
      ensures delivered == old(delivered) && old(completedTransfers) <= completedTransfers
    {
      trace := [];
      ghost var start, none := View(), seq(0, _ => MatchMessage);
      assert Traced(start, trace, none, View());
      hide Inv, Apply, Traced;
      var rest, k := messages, 0;
      while rest != []
        invariant Valid() && phase == Finishing && takenMsgs == rest
        invariant k + |rest| == |messages| && Traced(start, trace, seq(k, _ => MatchMessage), View())
        invariant matched + rest == old(matched) + messages
        invariant delivered == old(delivered) && old(completedTransfers) <= completedTransfers
        decreases |rest|
      {
        trace := MatchAfterOthers(start, trace, k, meanwhile(k));
        assert matched + rest[1..] == old(matched) + messages;
        rest, k := rest[1..], k + 1;
      }
      trace := MatchAfterOthers(start, trace, k, meanwhile(k));
      assert seq(k + 1, _ => MatchMessage) == Matches(|messages|);
    }

    /** What happens from the end of one round of the hotplug loop to the end of the next. */
    method MatchAfterOthers(ghost start: State, ghost trace: seq<Section>, ghost k: nat, others: seq<Section>)
      returns (ghost trace': seq<Section>)
      requires Valid() && phase == Finishing && Traced(start, trace, seq(k, _ => MatchMessage), View())
      modifies this
      ensures Valid() && Traced(start, trace', seq(k + 1, _ => MatchMessage), View())
      ensures old(takenMsgs) == [] ==> phase == Idle && takenMsgs == [] && matched == old(matched)
      ensures old(takenMsgs) != [] ==>
        phase == Finishing && takenMsgs == old(takenMsgs)[1..] && matched == old(matched) + [old(takenMsgs)[0]]
      ensures delivered == old(delivered) && old(completedTransfers) <= completedTransfers
    {
      hide Inv, Apply, Traced;
      ghost var own, before := seq(k, _ => MatchMessage), View();
      ghost var more := OtherThreads(others);
      TracedOn(start, trace, own, before, more, [], View());
      ghost var ready := View();
      NoteMatch();
      TracedOn(start, trace + more, own + [], ready, [MatchMessage], [MatchMessage], View());
      assert own + [] + [MatchMessage] == seq(k + 1, _ => MatchMessage);
      trace' := trace + more + [MatchMessage];
    }

    /** The first critical section of handle_event_trigger: both lists are cut off the context. */
    method CutLists() returns (messages: seq<Message>, list: seq<Transfer>, some: bool)
      requires Valid() && phase == Idle
      modifies this
      ensures Valid() && View() == Apply(old(View()), BeginTrigger)
      ensures messages == old(hotplugMsgs) == takenMsgs && list == old(completedTransfers) == taken
      ensures phase == if some then Completing(false) else Finishing
      ensures some <==> list != []
      ensures delivered == old(delivered) && matched == old(matched)
    {
      hide Inv, Apply, Begin;
      ApplyKeepsInv(View(), BeginTrigger);
      QueuesMatchFlags(View());
      BeginIs(View());
      eventFlags := eventFlags - {UserInterrupt};
      messages := CutMessages();
      list, some := CutTransfers();
    }

    method CutMessages() returns (messages: seq<Message>)
      requires (HotplugMsgPending in eventFlags <==> hotplugMsgs != []) && takenMsgs == []
      modifies `eventFlags, `hotplugMsgs, `takenMsgs
      ensures eventFlags == old(eventFlags) - {HotplugMsgPending} && hotplugMsgs == []
      ensures messages == old(hotplugMsgs) == takenMsgs
    {
      messages := [];
      if HotplugMsgPending in eventFlags {
        eventFlags := eventFlags - {HotplugMsgPending};
        assert hotplugMsgs != [];
        messages, hotplugMsgs, takenMsgs := hotplugMsgs, [], hotplugMsgs;
      } else {
        assert eventFlags - {HotplugMsgPending} == eventFlags;
      }
    }

    method CutTransfers() returns (list: seq<Transfer>, some: bool)
      requires (TransferCompleted in eventFlags <==> completedTransfers != []) && taken == []
      modifies `completedTransfers, `taken, `phase, `signalled
      ensures list == old(completedTransfers) == taken && completedTransfers == []
      ensures some <==> list != []
      ensures phase == if some then Completing(false) else Finishing
      ensures signalled <==> old(signalled) && eventFlags != {}
    {
      list := [];
      some := TransferCompleted in eventFlags;
      if some {
        assert completedTransfers != [];
        list, taken, completedTransfers, phase := completedTransfers, completedTransfers, [], Completing(false);
      } else {
        if eventFlags == {} { signalled := false; }
        phase := Finishing;
      }
    }

    /** What happens from the end of one round of the completion loop to the end of the next. */
    method CompleteAfterOthers(ghost start: State, ghost trace: seq<Section>, ghost n: nat, r: int,
                               others: seq<Section>)
      returns (ghost trace': seq<Section>)
      requires Valid() && phase == Completing(false) && taken != []
      requires Traced(start, trace, Completions(n, false), View())
      modifies this
      ensures Valid() && Traced(start, trace', Completions(n + 1, r != 0), View())
      ensures phase == Completing(r != 0) && taken == old(taken)[1..]
      ensures delivered == old(delivered) + [old(taken)[0]]
      ensures matched == old(matched) && takenMsgs == old(takenMsgs)
      ensures old(completedTransfers) <= completedTransfers
    {
      hide Inv, Apply, Traced, Completions;
      ghost var own, before := Completions(n, false), View();
      ghost var more := OtherThreads(others);
      TracedOn(start, trace, own, before, more, [], View());
      ghost var ready := View();
      NoteDelivery(r != 0);
      TracedOn(start, trace + more, own + [], ready, [CompleteOne(r != 0)], [CompleteOne(r != 0)], View());
      OneMoreCompletion(n, r != 0);
      trace' := trace + more + [CompleteOne(r != 0)];
    }

    /** The backend has been handed the first transfer of the batch. */
    ghost method NoteDelivery(error: bool)
      requires Valid() && phase == Completing(false) && taken != []
      modifies `taken, `delivered, `phase
      ensures Valid() && Traced(old(View()), [CompleteOne(error)], [CompleteOne(error)], View())
      ensures phase == Completing(error) && taken == old(taken)[1..] && delivered == old(delivered) + [old(taken)[0]]
    {
      ApplyKeepsInv(View(), CompleteOne(error));
      TracedOne(View(), CompleteOne(error));
      delivered, taken, phase := delivered + [taken[0]], taken[1..], Completing(error);
    }

    /** The completion loop, which runs with the lock released. */
    method CompleteBatch(batch: seq<Transfer>, result: nat -> int, meanwhile: nat -> seq<Section>)
      returns (r: int, n: nat, ghost trace: seq<Section>)
      requires Valid() && phase == Completing(false) && taken == batch
      modifies this
      ensures Valid() && phase == Completing(r != 0) && n <= |batch| && taken == batch[n..]
      ensures Traced(old(View()), trace, Completions(n, r != 0), View())
      ensures r == 0 ==> n == |batch|
      ensures r != 0 ==> n > 0 && result(n - 1) == r
      ensures forall j: nat :: j + 1 < n ==> result(j) == 0
      ensures delivered == old(delivered) + batch[..n] && matched == old(matched) && takenMsgs == old(takenMsgs)
      ensures old(completedTransfers) <= completedTransfers
    {
      r, n, trace := 0, 0, [];
      var list := batch;
      ghost var start := View();
      assert delivered == old(delivered) + batch[..0];
      assert Traced(start, trace, Completions(0, false), View());
      hide Inv, Apply, Traced, Completions;
      while list != [] && r == 0
        invariant Valid() && n <= |batch| && list == batch[n..] == taken && phase == Completing(r != 0)
        invariant Traced(start, trace, Completions(n, r != 0), View())
        invariant delivered == old(delivered) + batch[..n]
        invariant r != 0 ==> n > 0 && result(n - 1) == r
        invariant forall j: nat :: j < n && (r == 0 || j + 1 < n) ==> result(j) == 0
        invariant matched == old(matched) && takenMsgs == old(takenMsgs)
        invariant old(completedTransfers) <= completedTransfers
        decreases |list|, r == 0
      {
        r := result(n);
        trace := CompleteAfterOthers(start, trace, n, r, meanwhile(n));
        BatchRound(old(delivered), batch, n);
        list := list[1..];
        n := n + 1;
      }
    }

    /** The second critical section: what an error left over goes back to the front. */
    method PutBack(list: seq<Transfer>)
      requires Valid() && Enabled(View(), EndTrigger) && taken == list
      modifies this
      ensures Valid() && View() == Apply(old(View()), EndTrigger)
      ensures phase == Finishing && list <= completedTransfers
      ensures delivered == old(delivered) && matched == old(matched) && takenMsgs == old(takenMsgs)
    {
      ApplyKeepsInv(View(), EndTrigger);
      if list != [] {
        completedTransfers, taken := list + completedTransfers, [];
      } else if completedTransfers == [] {
        eventFlags := eventFlags - {TransferCompleted};
      }
      phase := Finishing;
      if eventFlags == {} { signalled := false; }
    }

    /** The completion loop and the second critical section. */
    method HandleCompleted(batch: seq<Transfer>, result: nat -> int, meanwhile: nat -> seq<Section>)
      returns (r: int, n: nat, ghost trace: seq<Section>)
      requires Valid() && phase == Completing(false) && taken == batch
      modifies this
      ensures Valid() && phase == Finishing && n <= |batch| && batch[n..] <= completedTransfers
      ensures Traced(old(View()), trace, Completions(n, r != 0) + [EndTrigger], View())
      ensures r == 0 ==> n == |batch|
      ensures r != 0 ==> n > 0 && result(n - 1) == r
      ensures forall j: nat :: j + 1 < n ==> result(j) == 0
      ensures delivered == old(delivered) + batch[..n] && matched == old(matched) && takenMsgs == old(takenMsgs)
    {
      hide Inv, Apply, Traced, Completions;
      ghost var start := View();
      r, n, trace := CompleteBatch(batch, result, meanwhile);
      ghost var tried := View();
      TracedOne(tried, EndTrigger);
      PutBack(batch[n..]);
      TracedOn(start, trace, Completions(n, r != 0), tried, [EndTrigger], [EndTrigger], View());
      trace := trace + [EndTrigger];
    }

    /** handle_event_trigger.  `result(k)` is what the backend returns for the k-th transfer of
        the batch; `meanwhile(k)` is what other threads do while the lock is released just
        before that, and `later(k)` what they do before the k-th message is matched: they may
        queue further transfers and messages and raise or clear flags.  The call is a run of
        sections, those of the handler being the ones of `Trigger`.  A batch is delivered in
        order up to and including the first transfer that fails, the rest goes back in front of
        what arrived meanwhile, and every message is matched. */
    method HandleEventTrigger(result: nat -> int, meanwhile: nat -> seq<Section>, later: nat -> seq<Section>)
      returns (r: int, n: nat, ghost trace: seq<Section>)
      requires Valid() && phase == Idle
      modifies this
      ensures Valid() && phase == Idle
      ensures EnabledAll(old(View()), trace) && View() == ApplyAll(old(View()), trace)
      ensures Own(trace) == Trigger(old(completedTransfers) != [], n, r != 0, |old(hotplugMsgs)|)
      ensures n <= |old(completedTransfers)| && delivered == old(delivered) + old(completedTransfers)[..n]
      ensures r == 0 ==> n == |old(completedTransfers)|
      ensures r != 0 ==> n > 0 && result(n - 1) == r
      ensures forall j: nat :: j + 1 < n ==> result(j) == 0
      ensures old(completedTransfers)[n..] <= completedTransfers
      ensures matched == old(matched) + old(hotplugMsgs)
    {
      hide Inv, Apply, Traced, Completions, Matches, EnabledAll, ApplyAll, Own;
      ghost var start := View();
      TracedOne(start, BeginTrigger);
      var messages, list, some := CutLists();
      r, n, trace := 0, 0, [BeginTrigger];
      ghost var own, middle := [BeginTrigger], View();
      if some {
        ghost var more;
        r, n, more := HandleCompleted(list, result, meanwhile);
        TracedOn(start, trace, own, middle, more, Completions(n, r != 0) + [EndTrigger], View());
        trace, own, middle := trace + more, own + (Completions(n, r != 0) + [EndTrigger]), View();
      } else {
        assert delivered == old(delivered) + list[..0];
        assert own == own + [];
      }
      ghost var more := ProcessMessages(messages, later);
      TracedOn(start, trace, own, middle, more, Matches(|messages|), View());
      trace, own := trace + more, own + Matches(|messages|);
      assert own == Trigger(some, n, r != 0, |messages|);
      TracedIsRun(start, trace, own, View());
    }
  }

  lemma OthersLeaveTheHandler(s: State, c: Section)
    requires IsOther(c) && Enabled(s, c)
    ensures
      var s' := Apply(s, c);
      && s'.phase == s.phase && s'.taken == s.taken && s'.takenMsgs == s.takenMsgs
      && s'.delivered == s.delivered && s'.matched == s.matched && s.completed <= s'.completed
  {
  }

  /** The first critical section, when the flags match the queues. */
  lemma BeginIs(s: State)
    requires Inv(s) && s.phase == Idle
    ensures var flags := s.flags - {UserInterrupt} - {HotplugMsgPending};
      Apply(s, BeginTrigger) ==
        s.(flags := flags, takenMsgs := s.hotplugMsgs, hotplugMsgs := [], taken := s.completed, completed := [],
           phase := if s.completed != [] then Completing(false) else Finishing,
           signalled := s.signalled && flags != {})
  {
    var flags := s.flags - {UserInterrupt};
    assert HotplugMsgPending !in s.flags ==> flags - {HotplugMsgPending} == flags;
  }

  lemma QueuesMatchFlags(s: State)
    requires Inv(s) && s.phase == Idle
    ensures HotplugMsgPending in s.flags <==> s.hotplugMsgs != []
    ensures TransferCompleted in s.flags <==> s.completed != []
    ensures s.taken == [] && s.takenMsgs == []
  {
  }

  lemma BatchRound(before: seq<Transfer>, batch: seq<Transfer>, n: nat)
    requires n < |batch|
    ensures batch[n..][1..] == batch[n + 1..] && batch[n..][0] == batch[n]
    ensures before + batch[..n] + [batch[n]] == before + batch[..n + 1]
  {
  }

  lemma OneMoreCompletion(n: nat, failed: bool)
    ensures Completions(n, false) + [] + [CompleteOne(failed)] == Completions(n + 1, failed)
  {
  }

  lemma TracedIsRun(s: State, trace: seq<Section>, own: seq<Section>, s': State)
    requires Traced(s, trace, own, s')
    ensures EnabledAll(s, trace) && s' == ApplyAll(s, trace) && Own(trace) == own
  {
  }

  /** Sections of threads that are not handling events. */
  predicate IsOther(c: Section) {
    !(c.RefreshSources? || c.BeginTrigger? || c.CompleteOne? || c.EndTrigger? || c.MatchMessage?)
  }

  lemma ApplyKeepsInv(s: State, c: Section)
    requires Inv(s) && Enabled(s, c)
    ensures Inv(Apply(s, c))
  {
    ApplyKeepsFlags(s, c);
    ApplyKeepsHistory(s, c);
  }
}
