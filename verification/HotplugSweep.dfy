/** Hotplug callbacks: registration, deregistration, and the sweep that offers an event to every
    callback while the callbacks themselves, or other threads, register and deregister. */
module HotplugSweep {

  const MAX_HANDLE := 0x7fff_ffff

  datatype Event = DeviceArrived | DeviceLeft
  datatype Device = Device(vendor: int, product: int, devClass: int)

  /** LIBUSB_HOTPLUG_MATCH_ANY, or a value to match. */
  datatype Match = Any | Only(value: int)
  datatype Filter = Filter(arrived: bool, left: bool, vendor: Match, product: Match, devClass: Match)

  predicate Accepts(m: Match, value: int) {
    m.Any? || m.value == value
  }

  predicate Wants(f: Filter, event: Event, dev: Device) {
    && (if event.DeviceArrived? then f.arrived else f.left)
    && Accepts(f.vendor, dev.vendor) && Accepts(f.product, dev.product) && Accepts(f.devClass, dev.devClass)
  }

  /** `node` tells list nodes apart; handles may repeat once their counter has wrapped. */
  datatype Callback = Callback(node: nat, handle: int, filter: Filter, needsFree: bool)

  /** What happens while a callback runs and the list is unlocked, in order, on whichever thread;
      and whether the callback returned non-zero. */
  datatype Action = Register(filter: Filter) | Deregister(handle: int)
  datatype Reaction = Reaction(ret: bool, actions: seq<Action>)
  type Script = nat -> Reaction

  datatype Registry = Registry(cbs: seq<Callback>, nextHandle: int, nextNode: nat)

  function NextHandle(handle: int): int {
    if handle == MAX_HANDLE then 1 else handle + 1
  }

  function Mark(cbs: seq<Callback>, handle: int): (r: seq<Callback>)
    ensures |r| == |cbs|
    ensures forall i | 0 <= i < |cbs| :: r[i] == cbs[i].(needsFree := cbs[i].needsFree || cbs[i].handle == handle)
  {
    seq(|cbs|, i requires 0 <= i < |cbs| => cbs[i].(needsFree := cbs[i].needsFree || cbs[i].handle == handle))
  }

  function Perform(r: Registry, a: Action): Registry {
    match a
    case Register(f) =>
      Registry([Callback(r.nextNode, r.nextHandle, f, false)] + r.cbs, NextHandle(r.nextHandle), r.nextNode + 1)
    case Deregister(handle) => r.(cbs := Mark(r.cbs, handle))
  }

  function PerformAll(r: Registry, actions: seq<Action>): Registry {
    if actions == [] then r
    else Perform(PerformAll(r, actions[..|actions| - 1]), actions[|actions| - 1])
  }

  // ---------------------------------------------------------------- what a sweep should do

  /** The actions of the first n callbacks that ran. */
  function Actions(script: Script, n: nat): seq<Action> {
    if n == 0 then [] else Actions(script, n - 1) + script(n - 1).actions
  }

  function Deregistered(actions: seq<Action>): set<int> {
    set a | a in actions && a.Deregister? :: a.handle
  }

  /** The callbacks that are due, of those in the list when the sweep began: each one that matches
      the event and was not deregistered before the sweep reached it. */
  function Invoked(script: Script, event: Event, dev: Device, cbs: seq<Callback>): (r: seq<Callback>)
    ensures |r| <= |cbs|
  {
    if cbs == [] then []
    else
      var n := |cbs| - 1;
      var before := Invoked(script, event, dev, cbs[..n]);
      if Due(cbs[n], event, dev, Actions(script, |before|)) then before + [cbs[n]] else before
  }

  predicate Due(c: Callback, event: Event, dev: Device, actions: seq<Action>) {
    !c.needsFree && c.handle !in Deregistered(actions) && Wants(c.filter, event, dev)
  }

  /** The callbacks that stay: all but those that ran and returned non-zero. */
  function Kept(script: Script, event: Event, dev: Device, cbs: seq<Callback>): seq<Callback> {
    if cbs == [] then []
    else
      var n := |cbs| - 1;
      var ran := |Invoked(script, event, dev, cbs[..n])|;
      if Due(cbs[n], event, dev, Actions(script, ran)) && script(ran).ret
      then Kept(script, event, dev, cbs[..n])
      else Kept(script, event, dev, cbs[..n]) + [cbs[n]]
  }

  function MarkAll(cbs: seq<Callback>, actions: seq<Action>): (r: seq<Callback>)
    ensures |r| == |cbs|
    ensures forall i | 0 <= i < |cbs| ::
      r[i] == cbs[i].(needsFree := cbs[i].needsFree || cbs[i].handle in Deregistered(actions))
  {
    seq(|cbs|, i requires 0 <= i < |cbs| =>
      cbs[i].(needsFree := cbs[i].needsFree || cbs[i].handle in Deregistered(actions)))
  }

  /** The k-th handle given out from now on: the counter runs from 1 to 2^31 - 1 and starts again. */
  function HandleAfter(next: int, k: nat): int {
    1 + (next - 1 + k) % 0x7fff_ffff
  }

  /** Handles are given out in turn, whatever happens in between; so no two of the first 2^31 - 1
      callbacks share one, and none is 0 or negative. */
  lemma {:induction false} HandlesInTurn(r: Registry, actions: seq<Action>)
    requires 1 <= r.nextHandle <= 0x7fff_ffff && r.cbs == []
    ensures var t := PerformAll(r, actions);
      && t.nextHandle == HandleAfter(r.nextHandle, |t.cbs|)
      && (forall k | 0 <= k < |t.cbs| :: t.cbs[|t.cbs| - 1 - k].handle == HandleAfter(r.nextHandle, k))
  {
    if actions != [] {
      var n := |actions| - 1;
      var before := PerformAll(r, actions[..n]);
      HandlesInTurn(r, actions[..n]);
      if actions[n].Register? {
        NextInTurn(r.nextHandle, |before.cbs|);
        var t := PerformAll(r, actions);
        forall k | 0 <= k < |t.cbs|
          ensures t.cbs[|t.cbs| - 1 - k].handle == HandleAfter(r.nextHandle, k)
        {
          if k < |before.cbs| { assert t.cbs[|t.cbs| - 1 - k] == before.cbs[|before.cbs| - 1 - k]; }
        }
      }
    }
  }

  lemma NextInTurn(next: int, k: nat)
    requires 1 <= next
    ensures NextHandle(HandleAfter(next, k)) == HandleAfter(next, k + 1)
    ensures 1 <= HandleAfter(next, k) <= 0x7fff_ffff
  {
    var x := next - 1 + k;
    var q, m := x / 0x7fff_ffff, x % 0x7fff_ffff;
    if m + 1 == 0x7fff_ffff {
      Modulo(x + 1, q + 1, 0);
    } else {
      Modulo(x + 1, q, m + 1);
    }
  }

  lemma Modulo(x: int, q: int, m: int)
    requires x == q * 0x7fff_ffff + m && 0 <= m < 0x7fff_ffff
    ensures x % 0x7fff_ffff == m
  {
  }

  lemma HandlesDiffer(next: int, j: nat, k: nat)
    requires 1 <= next && j < k < j + 0x7fff_ffff
    ensures HandleAfter(next, j) != HandleAfter(next, k)
  {
    var x, y := next - 1 + j, next - 1 + k;
    assert y - x == (y / 0x7fff_ffff - x / 0x7fff_ffff) * 0x7fff_ffff + (y % 0x7fff_ffff - x % 0x7fff_ffff);
  }

  /** The registry after a sweep: the newcomers in front, as if they had been registered in an
      empty list, then the callbacks that stay, in their old order. */
  function Swept(script: Script, event: Event, dev: Device, r: Registry): Registry {
    var actions := Actions(script, |Invoked(script, event, dev, r.cbs)|);
    var newcomers := PerformAll(r.(cbs := []), actions);
    newcomers.(cbs := newcomers.cbs + MarkAll(Kept(script, event, dev, r.cbs), actions))
  }

  // ---------------------------------------------------------------- properties of that

  /** List nodes are different objects. */
  ghost predicate Distinct(cbs: seq<Callback>) {
    forall i, j | 0 <= i < j < |cbs| :: cbs[i].node != cbs[j].node
  }

  /** a is what is left of b when some elements are left out. */
  predicate Subsequence(a: seq<Callback>, b: seq<Callback>)
    decreases |b|
  {
    if b == [] then a == []
    else
      || (a != [] && a[|a| - 1] == b[|b| - 1] && Subsequence(a[..|a| - 1], b[..|b| - 1]))
      || Subsequence(a, b[..|b| - 1])
  }

  lemma {:induction false} SubsequenceDistinct(a: seq<Callback>, b: seq<Callback>)
    requires Subsequence(a, b) && Distinct(b)
    ensures Distinct(a) && forall c | c in a :: c in b
    decreases |b|
  {
    if b != [] {
      if Subsequence(a, b[..|b| - 1]) {
        SubsequenceDistinct(a, b[..|b| - 1]);
      } else {
        SubsequenceDistinct(a[..|a| - 1], b[..|b| - 1]);
        var n := |a| - 1;
        assert forall i | 0 <= i < n :: a[..n][i] in b[..|b| - 1];
        assert a == a[..n] + [a[n]];
      }
    }
  }

  /** The callbacks run in list order, and none runs twice. */
  lemma {:induction false} InvokedInOrderOnce(script: Script, event: Event, dev: Device, cbs: seq<Callback>)
    requires Distinct(cbs)
    ensures Subsequence(Invoked(script, event, dev, cbs), cbs) && Subsequence(Kept(script, event, dev, cbs), cbs)
    ensures Distinct(Invoked(script, event, dev, cbs)) && Distinct(Kept(script, event, dev, cbs))
  {
    hide Due;
    if cbs != [] {
      InvokedInOrderOnce(script, event, dev, cbs[..|cbs| - 1]);
    }
    SubsequenceDistinct(Invoked(script, event, dev, cbs), cbs);
    SubsequenceDistinct(Kept(script, event, dev, cbs), cbs);
  }

  /** A callback of the list runs if and only if it matches the event and was marked neither at the
      start nor by anything that happened during the callbacks in front of it; and it is
      removed if and only if it runs and returns non-zero. */
  lemma {:induction false} InvokedExactly(script: Script, event: Event, dev: Device, cbs: seq<Callback>, i: nat)
    requires i < |cbs| && Distinct(cbs)
    ensures var ran := |Invoked(script, event, dev, cbs[..i])|;
      && (cbs[i] in Invoked(script, event, dev, cbs) <==> Due(cbs[i], event, dev, Actions(script, ran)))
      && (cbs[i] !in Kept(script, event, dev, cbs) <==>
            Due(cbs[i], event, dev, Actions(script, ran)) && script(ran).ret)
  {
    hide Due, Subsequence, Invoked, Kept, Actions;
    var n := |cbs| - 1;
    assert Distinct(cbs[..n]);
    InvokedInOrderOnce(script, event, dev, cbs[..n]);
    SubsequenceDistinct(Invoked(script, event, dev, cbs[..n]), cbs[..n]);
    SubsequenceDistinct(Kept(script, event, dev, cbs[..n]), cbs[..n]);
    assert cbs[..|cbs|] == cbs;
    OneMore(script, event, dev, cbs, n);
    if i < n {
      InvokedExactly(script, event, dev, cbs[..n], i);
      assert cbs[..n][..i] == cbs[..i] && cbs[..n][i] == cbs[i] != cbs[n];
    }
  }

  /** A filter asks for this event, and for no other vendor, product or class than the device has. */
  predicate Fits(f: Filter, event: Event, dev: Device) {
    && (event == DeviceArrived ==> f.arrived) && (event == DeviceLeft ==> f.left)
    && (f.vendor.Only? ==> f.vendor.value == dev.vendor)
    && (f.product.Only? ==> f.product.value == dev.product)
    && (f.devClass.Only? ==> f.devClass.value == dev.devClass)
  }

  /** Who is invoked, in the terms of the registration: exactly the callbacks whose filter fits, that
      were not marked when the sweep began, and that nobody deregistered while those in front
      of them ran. */
  lemma InvokedIffFits(script: Script, event: Event, dev: Device, cbs: seq<Callback>, i: nat)
    requires i < |cbs| && Distinct(cbs)
    ensures cbs[i] in Invoked(script, event, dev, cbs) <==>
      && Fits(cbs[i].filter, event, dev) && !cbs[i].needsFree
      && Deregister(cbs[i].handle) !in Actions(script, |Invoked(script, event, dev, cbs[..i])|)
  {
    hide Invoked, Kept, Actions;
    InvokedExactly(script, event, dev, cbs, i);
    var actions := Actions(script, |Invoked(script, event, dev, cbs[..i])|);
    assert cbs[i].handle in Deregistered(actions) <==> Deregister(cbs[i].handle) in actions;
  }

  // ---------------------------------------------------------------- performing actions

  lemma {:induction false} PerformAllAppend(r: Registry, a: seq<Action>, b: seq<Action>)
    ensures PerformAll(r, a + b) == PerformAll(PerformAll(r, a), b)
  {
    if b == [] {
      assert a + b == a;
    } else {
      var n := |b| - 1;
      PerformAllAppend(r, a, b[..n]);
      assert (a + b)[..|a + b| - 1] == a + b[..n];
    }
  }

  lemma MarkAllSnoc(cbs: seq<Callback>, actions: seq<Action>, a: Action)
    ensures MarkAll(cbs, actions + [a]) ==
      if a.Register? then MarkAll(cbs, actions) else Mark(MarkAll(cbs, actions), a.handle)
  {
    assert Deregistered(actions + [a]) == Deregistered(actions) + if a.Register? then {} else {a.handle};
  }

  /** Whatever happens to a list: newcomers go to the front, and the old entries stay, marked. */
  lemma {:induction false} PerformAllSplits(r: Registry, entries: seq<Callback>, actions: seq<Action>)
    ensures var t := PerformAll(r, actions);
      PerformAll(r.(cbs := r.cbs + entries), actions) == t.(cbs := t.cbs + MarkAll(entries, actions))
  {
    hide MarkAll;
    if actions == [] {
      assert MarkAll(entries, []) == entries;
    } else {
      var n := |actions| - 1;
      PerformAllSplits(r, entries, actions[..n]);
      MarkAllSnoc(entries, actions[..n], actions[n]);
      assert actions == actions[..n] + [actions[n]];
      var t := PerformAll(r, actions[..n]);
      var marked := MarkAll(entries, actions[..n]);
      match actions[n]
      case Register(f) => Associates([Callback(t.nextNode, t.nextHandle, f, false)], t.cbs, marked);
      case Deregister(handle) => MarkConcat(t.cbs, marked, handle);
    }
  }

  lemma MarkConcat(a: seq<Callback>, b: seq<Callback>, handle: int)
    ensures Mark(a + b, handle) == Mark(a, handle) + Mark(b, handle)
  {
  }

  // ---------------------------------------------------------------- the sweep, callback by callback

  /** The registry when the sweep has reached the i-th of the callbacks that were there. */
  function Midway(script: Script, event: Event, dev: Device, r: Registry, i: nat): Registry
    requires i <= |r.cbs|
  {
    var actions := Actions(script, |Invoked(script, event, dev, r.cbs[..i])|);
    var newcomers := PerformAll(r.(cbs := []), actions);
    newcomers.(cbs := newcomers.cbs
      + (MarkAll(Kept(script, event, dev, r.cbs[..i]), actions) + MarkAll(r.cbs[i..], actions)))
  }

  lemma MidwayBegins(script: Script, event: Event, dev: Device, r: Registry)
    ensures Midway(script, event, dev, r, 0) == r
  {
    assert MarkAll(r.cbs, []) == r.cbs;
    assert PerformAll(r.(cbs := []), []).cbs == [];
  }

  lemma MidwayEnds(script: Script, event: Event, dev: Device, r: Registry)
    ensures Midway(script, event, dev, r, |r.cbs|) == Swept(script, event, dev, r)
  {
    hide PerformAll, Kept, Invoked;
    assert r.cbs[..|r.cbs|] == r.cbs;
    var actions := Actions(script, |Invoked(script, event, dev, r.cbs)|);
    assert MarkAll(r.cbs[|r.cbs|..], actions) == [];
    hide MarkAll;
    var kept := MarkAll(Kept(script, event, dev, r.cbs), actions);
    assert kept + [] == kept;
  }

  /** Where the i-th callback is then. */
  function Place(script: Script, event: Event, dev: Device, r: Registry, i: nat): nat
    requires i <= |r.cbs|
  {
    var actions := Actions(script, |Invoked(script, event, dev, r.cbs[..i])|);
    |PerformAll(r.(cbs := []), actions).cbs| + |Kept(script, event, dev, r.cbs[..i])|
  }

  lemma PlaceIs(script: Script, event: Event, dev: Device, r: Registry, i: nat)
    requires i <= |r.cbs|
    ensures var j, cbs := Place(script, event, dev, r, i), Midway(script, event, dev, r, i).cbs;
      && |cbs| == j + (|r.cbs| - i)
      && forall k | i <= k < |r.cbs| :: cbs[j + (k - i)] ==
           r.cbs[k].(needsFree := r.cbs[k].needsFree
             || r.cbs[k].handle in Deregistered(Actions(script, |Invoked(script, event, dev, r.cbs[..i])|)))
  {
    hide Deregistered, Invoked, Kept, PerformAll;
  }

  lemma MarkAllConcat(a: seq<Callback>, b: seq<Callback>, actions: seq<Action>)
    ensures MarkAll(a + b, actions) == MarkAll(a, actions) + MarkAll(b, actions)
  {
  }

  lemma MarkAllTwice(cbs: seq<Callback>, a: seq<Action>, b: seq<Action>)
    ensures MarkAll(MarkAll(cbs, a), b) == MarkAll(cbs, a + b)
  {
    assert Deregistered(a + b) == Deregistered(a) + Deregistered(b);
  }

  lemma OneMore(script: Script, event: Event, dev: Device, cbs: seq<Callback>, i: nat)
    requires i < |cbs|
    ensures var before, ran := Invoked(script, event, dev, cbs[..i]), |Invoked(script, event, dev, cbs[..i])|;
      var due, kept := Due(cbs[i], event, dev, Actions(script, ran)), Kept(script, event, dev, cbs[..i]);
      && Invoked(script, event, dev, cbs[..i + 1]) == (if due then before + [cbs[i]] else before)
      && Kept(script, event, dev, cbs[..i + 1]) == (if due && script(ran).ret then kept else kept + [cbs[i]])
  {
    hide Due;
    assert cbs[..i + 1][..i] == cbs[..i];
  }

  /** The sweep passes over a callback that is not due. */
  lemma MidwaySkips(script: Script, event: Event, dev: Device, r: Registry, i: nat)
    requires i < |r.cbs|
    requires !Due(r.cbs[i], event, dev, Actions(script, |Invoked(script, event, dev, r.cbs[..i])|))
    ensures Midway(script, event, dev, r, i + 1) == Midway(script, event, dev, r, i)
  {
    hide Due, Invoked, Kept, PerformAll, MarkAll, Actions, Midway;
    OneMore(script, event, dev, r.cbs, i);
    var actions := Actions(script, |Invoked(script, event, dev, r.cbs[..i])|);
    var c, rest, kept := [r.cbs[i]], r.cbs[i + 1..], Kept(script, event, dev, r.cbs[..i]);
    FirstAndRest(r.cbs, i);
    MarkAllConcat(kept, c, actions);
    MarkAllConcat(c, rest, actions);
    Associates(MarkAll(kept, actions), MarkAll(c, actions), MarkAll(rest, actions));
    MidwayIs(script, event, dev, r, i, kept, actions);
    MidwayIs(script, event, dev, r, i + 1, kept + c, actions);
  }

  lemma FirstAndRest<T>(s: seq<T>, i: nat)
    requires i < |s|
    ensures s[i..] == [s[i]] + s[i + 1..]
  {
  }

  lemma Associates<T>(a: seq<T>, b: seq<T>, c: seq<T>)
    ensures (a + b) + c == a + (b + c)
  {
  }

  /** The list while a callback is running, or has just returned. */
  lemma MidwayActs(script: Script, event: Event, dev: Device, r: Registry, i: nat, r': Registry)
    requires i <= |r.cbs|
    requires var ran := |Invoked(script, event, dev, r.cbs[..i])|;
      r' == PerformAll(Midway(script, event, dev, r, i), script(ran).actions)
    ensures var actions := Actions(script, |Invoked(script, event, dev, r.cbs[..i])| + 1);
      var newcomers := PerformAll(r.(cbs := []), actions);
      r' == newcomers.(cbs := newcomers.cbs
        + (MarkAll(Kept(script, event, dev, r.cbs[..i]), actions) + MarkAll(r.cbs[i..], actions)))
  {
    hide Invoked, Kept, PerformAll, MarkAll;
    var ran := |Invoked(script, event, dev, r.cbs[..i])|;
    var a, b := Actions(script, ran), script(ran).actions;
    var kept, todo := Kept(script, event, dev, r.cbs[..i]), r.cbs[i..];
    PerformAllSplits(PerformAll(r.(cbs := []), a), MarkAll(kept, a) + MarkAll(todo, a), b);
    PerformAllAppend(r.(cbs := []), a, b);
    MarkAllConcat(MarkAll(kept, a), MarkAll(todo, a), b);
    MarkAllTwice(kept, a, b);
    MarkAllTwice(todo, a, b);
  }

  /** After a callback that ran, and that is taken off the list if it returned non-zero. */
  lemma MidwayRuns(script: Script, event: Event, dev: Device, r: Registry, i: nat, r': Registry, j: nat)
    requires i < |r.cbs|
    requires Due(r.cbs[i], event, dev, Actions(script, |Invoked(script, event, dev, r.cbs[..i])|))
    requires var actions := Actions(script, |Invoked(script, event, dev, r.cbs[..i])| + 1);
      var newcomers := PerformAll(r.(cbs := []), actions);
      && r' == newcomers.(cbs := newcomers.cbs
           + (MarkAll(Kept(script, event, dev, r.cbs[..i]), actions) + MarkAll(r.cbs[i..], actions)))
      && j == |newcomers.cbs| + |Kept(script, event, dev, r.cbs[..i])|
    ensures j < |r'.cbs| && r'.cbs[j].node == r.cbs[i].node
    ensures Midway(script, event, dev, r, i + 1) ==
      if script(|Invoked(script, event, dev, r.cbs[..i])|).ret then r'.(cbs := r'.cbs[..j] + r'.cbs[j + 1..]) else r'
  {
    hide Due, Invoked, Kept, PerformAll, Actions, MarkAll, Midway;
    OneMore(script, event, dev, r.cbs, i);
    var ran := |Invoked(script, event, dev, r.cbs[..i])|;
    var actions := Actions(script, ran + 1);
    var newcomers := PerformAll(r.(cbs := []), actions);
    var c, rest, kept := [r.cbs[i]], r.cbs[i + 1..], Kept(script, event, dev, r.cbs[..i]);
    FirstAndRest(r.cbs, i);
    MarkAllConcat(c, rest, actions);
    Cut(newcomers.cbs, MarkAll(kept, actions), MarkAll(c, actions), MarkAll(rest, actions));
    if script(ran).ret {
      MidwayIs(script, event, dev, r, i + 1, kept, actions);
    } else {
      MarkAllConcat(kept, c, actions);
      MidwayIs(script, event, dev, r, i + 1, kept + c, actions);
    }
  }

  lemma MidwayIs(script: Script, event: Event, dev: Device, r: Registry, i: nat,
                 kept: seq<Callback>, actions: seq<Action>)
    requires i <= |r.cbs| && kept == Kept(script, event, dev, r.cbs[..i])
    requires actions == Actions(script, |Invoked(script, event, dev, r.cbs[..i])|)
    ensures var newcomers := PerformAll(r.(cbs := []), actions);
      Midway(script, event, dev, r, i) ==
        newcomers.(cbs := newcomers.cbs + (MarkAll(kept, actions) + MarkAll(r.cbs[i..], actions)))
  {
  }

  lemma Cut<T>(front: seq<T>, kept: seq<T>, c: seq<T>, todo: seq<T>)
    requires |c| == 1
    ensures var s, j := front + (kept + (c + todo)), |front| + |kept|;
      && s[j] == c[0] && s[..j] + s[j + 1..] == front + (kept + todo) && s == front + ((kept + c) + todo)
  {
    var s, j := front + (kept + (c + todo)), |front| + |kept|;
    assert s[..j] == front + kept && s[j + 1..] == todo;
  }

  // ---------------------------------------------------------------- the code

  /** A position in the list: the list head, or a node. */
  datatype Cursor = Head | Node(node: nat)

  predicate Has(cbs: seq<Callback>, node: nat) {
    exists i | 0 <= i < |cbs| :: cbs[i].node == node
  }

  /** The first entry with the given address. */
  function Index(cbs: seq<Callback>, node: nat): (i: nat)
    requires Has(cbs, node)
    ensures i < |cbs| && cbs[i].node == node
  {
    if cbs[0].node == node then 0 else Index(cbs[1..], node) + 1
  }

  /** `entry->next`. */
  function Next(cbs: seq<Callback>, at: Cursor): Cursor
    requires at.Node? ==> Has(cbs, at.node)
  {
    var i := if at.Head? then 0 else Index(cbs, at.node) + 1;
    if i < |cbs| then Node(cbs[i].node) else Head
  }

  lemma IndexIs(cbs: seq<Callback>, i: nat)
    requires i < |cbs| && Distinct(cbs)
    ensures Has(cbs, cbs[i].node) && Index(cbs, cbs[i].node) == i
    ensures Next(cbs, Node(cbs[i].node)) == if i + 1 < |cbs| then Node(cbs[i + 1].node) else Head
  {
  }

  ghost predicate Sound(r: Registry) {
    Distinct(r.cbs) && forall i | 0 <= i < |r.cbs| :: r.cbs[i].node < r.nextNode
  }

  lemma {:induction false} PerformAllSound(r: Registry, actions: seq<Action>)
    requires Sound(r)
    ensures Sound(PerformAll(r, actions))
  {
    if actions != [] {
      PerformAllSound(r, actions[..|actions| - 1]);
    }
  }

  lemma RemoveSound(r: Registry, j: nat)
    requires Sound(r) && j < |r.cbs|
    ensures Sound(r.(cbs := r.cbs[..j] + r.cbs[j + 1..]))
  {
  }

  /** The cursor at the i-th callback. */
  function At(cbs: seq<Callback>, i: nat): Cursor
    requires i <= |cbs|
  {
    if i < |cbs| then Node(cbs[i].node) else Head
  }

  /** The cursor finds the i-th callback, as it is by now, and the next one after it. */
  lemma Reached(script: Script, event: Event, dev: Device, r: Registry, i: nat)
    requires i < |r.cbs| && Sound(Midway(script, event, dev, r, i))
    ensures var cbs, node := Midway(script, event, dev, r, i).cbs, r.cbs[i].node;
      && Has(cbs, node) && Index(cbs, node) == Place(script, event, dev, r, i)
      && cbs[Index(cbs, node)] == r.cbs[i].(needsFree := r.cbs[i].needsFree
           || r.cbs[i].handle in Deregistered(Actions(script, |Invoked(script, event, dev, r.cbs[..i])|)))
      && Next(cbs, Node(node)) == At(r.cbs, i + 1)
  {
    hide Midway, Place, Deregistered, Index;
    PlaceIs(script, event, dev, r, i);
    var cbs, j := Midway(script, event, dev, r, i).cbs, Place(script, event, dev, r, i);
    assert cbs[j + (i - i)].node == r.cbs[i].node;
    IndexIs(cbs, j);
    if i + 1 < |r.cbs| {
      assert cbs[j + (i + 1 - i)].node == r.cbs[i + 1].node;
    }
  }

  lemma RanCallback(script: Script, event: Event, dev: Device, r: Registry, i: nat, r': Registry)
    requires i < |r.cbs| && Sound(Midway(script, event, dev, r, i))
    requires Due(r.cbs[i], event, dev, Actions(script, |Invoked(script, event, dev, r.cbs[..i])|))
    requires var ran := |Invoked(script, event, dev, r.cbs[..i])|;
      r' == PerformAll(Midway(script, event, dev, r, i), script(ran).actions)
    ensures Sound(r') && Has(r'.cbs, r.cbs[i].node)
    ensures var j := Index(r'.cbs, r.cbs[i].node);
      Midway(script, event, dev, r, i + 1) ==
        if script(|Invoked(script, event, dev, r.cbs[..i])|).ret then r'.(cbs := r'.cbs[..j] + r'.cbs[j + 1..]) else r'
    ensures Sound(Midway(script, event, dev, r, i + 1))
  {
    hide Due, Invoked, Kept, PerformAll, MarkAll, Midway, Index, Has, Sound;
    var ran := |Invoked(script, event, dev, r.cbs[..i])|;
    PerformAllSound(Midway(script, event, dev, r, i), script(ran).actions);
    MidwayActs(script, event, dev, r, i, r');
    var j := |PerformAll(r.(cbs := []), Actions(script, ran + 1)).cbs| + |Kept(script, event, dev, r.cbs[..i])|;
    MidwayRuns(script, event, dev, r, i, r', j);
    SoundIsDistinct(r');
    IndexIs(r'.cbs, j);
    RemoveSound(r', j);
  }

  lemma SoundIsDistinct(r: Registry)
    requires Sound(r)
    ensures Distinct(r.cbs)
  {
  }

  function Unmarked(cbs: seq<Callback>, forced: bool): seq<Callback> {
    if cbs == [] then []
    else
      var n := |cbs| - 1;
      Unmarked(cbs[..n], forced) + if forced || cbs[n].needsFree then [] else [cbs[n]]
  }

  /** What stays: none if forced, and otherwise those without the mark, in their order. */
  lemma {:induction false} UnmarkedExactly(cbs: seq<Callback>, forced: bool)
    requires Distinct(cbs)
    ensures Subsequence(Unmarked(cbs, forced), cbs)
    ensures forall c | c in cbs :: c in Unmarked(cbs, forced) <==> !forced && !c.needsFree
    ensures forced ==> Unmarked(cbs, forced) == []
  {
    if cbs != [] {
      var n := |cbs| - 1;
      UnmarkedExactly(cbs[..n], forced);
      SubsequenceDistinct(Unmarked(cbs[..n], forced), cbs[..n]);
      var before := Unmarked(cbs[..n], forced);
      assert (before + [cbs[n]])[..|before|] == before && before + [] == before;
      assert cbs == cbs[..n] + [cbs[n]];
    }
  }

  /** The registry when the first i callbacks have been looked at. */
  function Halfway(r: Registry, i: nat, forced: bool): (t: Registry)
    requires i <= |r.cbs|
    ensures t == r.(cbs := t.cbs)
  {
    r.(cbs := Unmarked(r.cbs[..i], forced) + r.cbs[i..])
  }

  lemma FirstEntries(r: Registry)
    requires Sound(r)
    ensures Next(r.cbs, Head) == At(r.cbs, 0)
    ensures r.cbs != [] ==> Has(r.cbs, r.cbs[0].node) && Next(r.cbs, At(r.cbs, 0)) == At(r.cbs, 1)
  {
    if r.cbs != [] { IndexIs(r.cbs, 0); }
  }

  lemma HalfwayEnds(r: Registry, forced: bool)
    ensures Halfway(r, 0, forced) == r
    ensures Halfway(r, |r.cbs|, forced).cbs == Unmarked(r.cbs, forced)
  {
    assert r.cbs[..|r.cbs|] == r.cbs;
  }

  lemma CutOne<T>(front: seq<T>, c: T, rest: seq<T>)
    ensures var s, j := front + ([c] + rest), |front|;
      s[j] == c && s[..j] + s[j + 1..] == front + rest && s == (front + [c]) + rest
  {
  }

  lemma PartlyFreed(r: Registry, i: nat, forced: bool)
    requires i < |r.cbs| && Sound(Halfway(r, i, forced))
    ensures var t, node := Halfway(r, i, forced), r.cbs[i].node;
      && Has(t.cbs, node) && Next(t.cbs, Node(node)) == At(r.cbs, i + 1)
      && var j := Index(t.cbs, node);
        && t.cbs[j] == r.cbs[i] && Sound(Halfway(r, i + 1, forced))
        && Halfway(r, i + 1, forced).cbs
             == if forced || t.cbs[j].needsFree then t.cbs[..j] + t.cbs[j + 1..] else t.cbs
  {
    hide Sound, Index, Has, Next;
    var t, front, rest := Halfway(r, i, forced), Unmarked(r.cbs[..i], forced), r.cbs[i + 1..];
    assert r.cbs[i..] == [r.cbs[i]] + rest && r.cbs[..i + 1][..i] == r.cbs[..i];
    CutOne(front, r.cbs[i], rest);
    assert front + [] == front;
    SoundIsDistinct(t);
    IndexIs(t.cbs, |front|);
    RemoveSound(t, |front|);
  }

  lemma Beginning(script: Script, event: Event, dev: Device, r: Registry)
    requires Sound(r)
    ensures Midway(script, event, dev, r, 0) == r && Invoked(script, event, dev, r.cbs[..0]) == []
    ensures Next(r.cbs, Head) == At(r.cbs, 0)
    ensures r.cbs != [] ==> Has(r.cbs, r.cbs[0].node) && Next(r.cbs, At(r.cbs, 0)) == At(r.cbs, 1)
  {
    MidwayBegins(script, event, dev, r);
    FirstEntries(r);
  }

  class HotplugContext {
    var cbs: seq<Callback>
    var nextHandle: int
    var nextNode: nat
    /** how many callbacks have run, and which */
    var calls: nat
    ghost var log: seq<Callback>

    ghost function View(): Registry
      reads this
    {
      Registry(cbs, nextHandle, nextNode)
    }

    ghost predicate Valid()
      reads this
    {
      Sound(View())
    }

    /** The locked part of libusb_hotplug_register_callback. */
    method RegisterCallback(filter: Filter) returns (handle: int)
      modifies `cbs, `nextHandle, `nextNode
      ensures View() == Perform(old(View()), Register(filter)) && handle == old(nextHandle)
    {
      handle := nextHandle;
      nextHandle := if nextHandle == MAX_HANDLE then 1 else nextHandle + 1;
      cbs := [Callback(nextNode, handle, filter, false)] + cbs;
      nextNode := nextNode + 1;
    }

    /** The locked part of libusb_hotplug_deregister_callback. */
    method DeregisterCallback(handle: int) returns (deregistered: bool)
      modifies `cbs
      ensures View() == Perform(old(View()), Deregister(handle))
      ensures deregistered <==> exists i :: 0 <= i < |cbs| && cbs[i].handle == handle
    {
      var i := 0;
      deregistered := false;
      while i < |cbs|
        invariant 0 <= i <= |cbs| == old(|cbs|)
        invariant forall j | 0 <= j < i :: cbs[j] == Mark(old(cbs), handle)[j]
        invariant forall j | i <= j < |cbs| :: cbs[j] == old(cbs)[j]
        invariant deregistered <==> exists j :: 0 <= j < i && cbs[j].handle == handle
      {
        if cbs[i].handle == handle {
          cbs := cbs[i := cbs[i].(needsFree := true)];
          deregistered := true;
        }
        i := i + 1;
      }
    }

    /** What happens while the list is unlocked. */
    method Act(actions: seq<Action>)
      modifies `cbs, `nextHandle, `nextNode
      ensures View() == PerformAll(old(View()), actions)
    {
      var i := 0;
      while i < |actions|
        invariant 0 <= i <= |actions|
        invariant View() == PerformAll(old(View()), actions[..i])
      {
        assert actions[..i + 1][..i] == actions[..i];
        match actions[i] {
          case Register(filter) => var _ := RegisterCallback(filter);
          case Deregister(handle) => var _ := DeregisterCallback(handle);
        }
        i := i + 1;
      }
      assert actions[..i] == actions;
    }

    /** usbi_hotplug_match_cb: the callback runs if its filter matches. */
    method MatchCallback(c: Callback, event: Event, dev: Device, script: Script) returns (ret: bool)
      modifies this
      ensures if Fits(c.filter, event, dev)
        then View() == PerformAll(old(View()), script(old(calls)).actions) && ret == script(old(calls)).ret
             && calls == old(calls) + 1 && log == old(log) + [c]
        else View() == old(View()) && !ret && calls == old(calls) && log == old(log)
    {
      if if event.DeviceArrived? then !c.filter.arrived else !c.filter.left { return false; }
      if !Accepts(c.filter.vendor, dev.vendor) { return false; }
      if !Accepts(c.filter.product, dev.product) { return false; }
      if !Accepts(c.filter.devClass, dev.devClass) { return false; }
      log := log + [c];
      var reaction := script(calls);
      calls := calls + 1;
      Act(reaction.actions);
      ret := reaction.ret;
    }

    /** list_del. */
    method Unlink(node: nat)
      requires Has(cbs, node)
      modifies `cbs
      ensures cbs == var j := Index(old(cbs), node); old(cbs)[..j] + old(cbs)[j + 1..]
    {
      var j := Index(cbs, node);
      cbs := cbs[..j] + cbs[j + 1..];
    }

    /** One round of usbi_hotplug_match. */
    method Offer(node: nat, dev: Device, event: Event, script: Script, ghost r: Registry, ghost i: nat)
      requires Valid() && i < |r.cbs| && View() == Midway(script, event, dev, r, i)
      requires Has(cbs, node) && node == r.cbs[i].node
      requires log == Invoked(script, event, dev, r.cbs[..i]) && calls == |log|
      modifies this
      ensures Valid() && View() == Midway(script, event, dev, r, i + 1)
      ensures log == Invoked(script, event, dev, r.cbs[..i + 1]) && calls == |log|
    {
      hide Sound, Midway, Invoked, PerformAll, Actions, Index, Has, Deregistered, Next;
      Reached(script, event, dev, r, i);
      OneMore(script, event, dev, r.cbs, i);
      var hotplugCb := cbs[Index(cbs, node)];
      if hotplugCb.needsFree || !Wants(hotplugCb.filter, event, dev) {
        MidwaySkips(script, event, dev, r, i);
      } else {
        RanCallback(script, event, dev, r, i, PerformAll(View(), script(calls).actions));
      }
      // a marked callback is left to FreeDeregistered
      if !hotplugCb.needsFree {
        var ret := MatchCallback(hotplugCb, event, dev, script);
        if ret { Unlink(node); }
      }
    }

    /** usbi_hotplug_match: every callback that was there and is due when the sweep reaches it runs
        exactly once, in list order; exactly those that return non-zero are removed; and those
        that were registered meanwhile are in the list, but have not run. */
    method HotplugMatch(dev: Device, event: Event, script: Script)
      requires Valid()
      modifies this
      ensures Valid() && log == Invoked(script, event, dev, old(cbs)) && calls == |log|
      ensures View() == Swept(script, event, dev, old(View()))
    {
      hide Sound, Midway, Swept, Invoked, Index, Has, Deregistered, Next;
      calls, log := 0, [];
      ghost var r, i := View(), 0;
      Beginning(script, event, dev, r);
      var pos := Next(cbs, Head);
      var next := Next(cbs, pos);
      while pos != Head
        invariant 0 <= i <= |r.cbs| && Valid() && View() == Midway(script, event, dev, r, i)
        invariant log == Invoked(script, event, dev, r.cbs[..i]) && calls == |log|
        invariant pos == At(r.cbs, i) && (i < |r.cbs| ==> next == At(r.cbs, i + 1))
        decreases |r.cbs| - i
      {
        Reached(script, event, dev, r, i);
        Offer(pos.node, dev, event, script, r, i);
        i := i + 1;
        pos := next;
        if i < |r.cbs| { Reached(script, event, dev, r, i); }
        next := Next(cbs, next);
      }
      MidwayEnds(script, event, dev, r);
      assert r.cbs[..i] == r.cbs;
    }

    /** usbi_hotplug_deregister: frees exactly the marked callbacks, or all of them. */
    method FreeDeregistered(forced: bool)
      requires Valid()
      modifies `cbs
      ensures Valid() && cbs == Unmarked(old(cbs), forced)
    {
      hide Index, Has, Next, Sound, Unmarked, Halfway;
      ghost var r, i := View(), 0;
      FirstEntries(r);
      HalfwayEnds(r, forced);
      var pos := Next(cbs, Head);
      var next := Next(cbs, pos);
      while pos != Head
        invariant 0 <= i <= |r.cbs| && Valid() && cbs == Halfway(r, i, forced).cbs && View() == r.(cbs := cbs)
        invariant Sound(Halfway(r, i, forced))
        invariant pos == At(r.cbs, i) && (i < |r.cbs| ==> next == At(r.cbs, i + 1))
        decreases |r.cbs| - i
      {
        PartlyFreed(r, i, forced);
        if forced || cbs[Index(cbs, pos.node)].needsFree {
          Unlink(pos.node);
        }
        i := i + 1;
        pos := next;
        if i < |r.cbs| { PartlyFreed(r, i, forced); }
        next := Next(cbs, next);
      }
    }
  }
}
