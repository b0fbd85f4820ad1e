/** The reference counts of libusb devices: who holds a reference, when it is given up, and when
    a device is destroyed.

    Every reference has a holder: a slot of some table of device pointers (a caller's variable, a
    device list, the discovery table), the enumeration that created the device, a child device,
    an open handle, a transfer in flight, or a completion that is still in progress. */
module DeviceReferences {

  type Dev = nat
  type HandleId = nat
  type TransferId = nat

  datatype Holder =
    | Slot(table: nat, i: nat)
    | Enumeration(dev: Dev)
    | Child(dev: Dev)
    | Handle(h: HandleId)
    | Flying(x: TransferId)
    | Completing(c: nat)

  datatype Parent = NoParent | Parent(dev: Dev)

  /** `depth` is the distance from the root hub, which bounds the chain of parents. */
  datatype Device = Device(refcnt: nat, parent: Parent, depth: nat)

  type Devices = map<Dev, Device>

  /** `destroyed` lists the devices in the order of their destruction.  `flyingOn` and
      `completingOn` give the handle of each submission and of each running completion. */
  datatype State = State(
    devs: Devices, destroyed: seq<Dev>, held: map<Holder, Dev>,
    handles: set<HandleId>, flyingOn: map<TransferId, HandleId>, completingOn: map<nat, HandleId>)

  function Holders(held: map<Holder, Dev>, d: Dev): set<Holder> {
    set k | k in held && held[k] == d
  }

  /** Each count is the number of holders, and no device is kept without one.  A device with a
      parent holds a reference to it. */
  ghost predicate Counted(s: State) {
    && (forall k | k in s.held :: s.held[k] in s.devs)
    && (forall d | d in s.devs :: s.devs[d].refcnt == |Holders(s.held, d)| && s.devs[d].refcnt >= 1)
    && (forall d | d in s.devs && s.devs[d].parent.Parent? ::
          && Child(d) in s.held && s.held[Child(d)] == s.devs[d].parent.dev
          && s.devs[d].parent.dev in s.devs && s.devs[s.devs[d].parent.dev].depth < s.devs[d].depth)
  }

  // ---------------------------------------------------------------- taking and giving up references

  lemma HoldersAdd(held: map<Holder, Dev>, k: Holder, d: Dev)
    requires k !in held
    ensures |Holders(held[k := d], d)| == |Holders(held, d)| + 1
    ensures forall e | e != d :: Holders(held[k := d], e) == Holders(held, e)
  {
    assert Holders(held[k := d], d) == Holders(held, d) + {k};
  }

  lemma HoldersRemove(held: map<Holder, Dev>, k: Holder)
    requires k in held
    ensures |Holders(held - {k}, held[k])| == |Holders(held, held[k])| - 1
    ensures forall e | e != held[k] :: Holders(held - {k}, e) == Holders(held, e)
  {
    assert Holders(held - {k}, held[k]) == Holders(held, held[k]) - {k};
  }

  /** libusb_ref_device, on behalf of the holder k. */
  function Acquire(s: State, k: Holder, d: Dev): (r: State)
    requires d in s.devs
  {
    s.(devs := s.devs[d := s.devs[d].(refcnt := s.devs[d].refcnt + 1)], held := s.held[k := d])
  }

  lemma AcquireCounted(s: State, k: Holder, d: Dev)
    requires Counted(s) && d in s.devs && k !in s.held
    ensures Counted(Acquire(s, k, d))
  {
    HoldersAdd(s.held, k, d);
  }

  /** The reference of k is gone and the count is down by one, possibly to zero. */
  function Decremented(s: State, k: Holder): State
    requires k in s.held && s.held[k] in s.devs && s.devs[s.held[k]].refcnt >= 1
  {
    var d := s.held[k];
    s.(devs := s.devs[d := s.devs[d].(refcnt := s.devs[d].refcnt - 1)], held := s.held - {k})
  }

  /** The device that k held is no longer reachable. */
  function Unlinked(s: State, k: Holder): State
    requires k in s.held && s.held[k] in s.devs
  {
    s.(devs := s.devs - {s.held[k]}, held := s.held - {k})
  }

  lemma DecrementedCounted(s: State, k: Holder)
    requires Counted(s) && k in s.held && s.devs[s.held[k]].refcnt > 1
    requires k.Child? ==> k.dev !in s.devs
    ensures Counted(Decremented(s, k))
  {
    HoldersRemove(s.held, k);
  }

  lemma UnlinkedCounted(s: State, k: Holder)
    requires Counted(s) && k in s.held && s.devs[s.held[k]].refcnt == 1
    requires k.Child? ==> k.dev !in s.devs
    ensures Counted(Unlinked(s, k))
    ensures forall j | j in s.held && j != k :: s.held[j] != s.held[k]
  {
    HoldersRemove(s.held, k);
    assert |Holders(s.held - {k}, s.held[k])| == 0;
    forall j | j in s.held && j != k
      ensures s.held[j] != s.held[k]
    {
      assert j in s.held - {k};
      assert j !in Holders(s.held - {k}, s.held[k]);
    }
  }

  /** libusb_unref_device, giving up the reference of k.  A device whose count drops to zero
      gives up its own reference to its parent before it is destroyed. */
  function Release(s: State, k: Holder): (r: State)
    requires Counted(s) && k in s.held && (k.Child? ==> k.dev !in s.devs)
    ensures Counted(r)
    decreases s.devs[s.held[k]].depth
  {
    var d := s.held[k];
    if s.devs[d].refcnt > 1 then
      DecrementedCounted(s, k);
      Decremented(s, k)
    else
      UnlinkedCounted(s, k);
      var s' := Unlinked(s, k);
      var s'' := if s.devs[d].parent.NoParent? then s' else Release(s', Child(d));
      s''.(destroyed := s''.destroyed + [d])
  }

  /** What Release leaves alone. */
  ghost predicate Released(s: State, k: Holder, r: State) {
    && (forall j | j in s.held && j != k && !j.Child? :: j in r.held)
    && (forall j | j in r.held :: j in s.held && j != k && r.held[j] == s.held[j])
    && (forall d | d in r.devs :: d in s.devs && r.devs[d] == s.devs[d].(refcnt := r.devs[d].refcnt))
    && (forall d | d in s.devs && d !in r.devs :: Child(d) !in r.held)
    && (forall d | d in r.devs && Child(d) in s.held && Child(d) != k :: Child(d) in r.held)
    && (forall d | d !in s.devs && Child(d) in s.held && Child(d) != k :: Child(d) in r.held)
    && r.handles == s.handles && r.flyingOn == s.flyingOn && r.completingOn == s.completingOn
  }

  /** The same, one device further up the chain. */
  lemma ReleasedThrough(s: State, k: Holder, r: State, ds: seq<Dev>)
    requires k in s.held && s.held[k] in s.devs && Child(s.held[k]) != k
    requires s.devs[s.held[k]].parent.NoParent? ==> Child(s.held[k]) !in s.held
    requires if s.devs[s.held[k]].parent.Parent? then Released(Unlinked(s, k), Child(s.held[k]), r)
             else r == Unlinked(s, k)
    ensures Released(s, k, r.(destroyed := ds))
  {
  }

  lemma {:induction false} ReleaseKeeps(s: State, k: Holder)
    requires Counted(s) && k in s.held && (k.Child? ==> k.dev !in s.devs)
    requires forall d | d in s.devs && s.devs[d].parent.NoParent? :: Child(d) !in s.held
    ensures Released(s, k, Release(s, k))
    decreases s.devs[s.held[k]].depth
  {
    hide Counted, Released;
    var d := s.held[k];
    Here(s, k);
    if s.devs[d].refcnt == 1 {
      UnlinkedCounted(s, k);
      if s.devs[d].parent.Parent? {
        ReleaseKeeps(Unlinked(s, k), Child(d));
        ReleasedThrough(s, k, Release(Unlinked(s, k), Child(d)), Release(s, k).destroyed);
      } else {
        ReleasedThrough(s, k, Unlinked(s, k), Release(s, k).destroyed);
      }
    } else {
      DecrementedReleased(s, k);
    }
  }

  lemma DecrementedReleased(s: State, k: Holder)
    requires k in s.held && s.held[k] in s.devs && s.devs[s.held[k]].refcnt > 1
    ensures Released(s, k, Decremented(s, k))
  {
  }

  lemma Here(s: State, k: Holder)
    requires Counted(s) && k in s.held
    ensures s.held[k] in s.devs && s.devs[s.held[k]].refcnt >= 1
    ensures var d := s.held[k]; s.devs[d].parent.Parent? ==>
      && Child(d) in s.held && s.held[Child(d)] == s.devs[d].parent.dev && s.devs[d].parent.dev in s.devs
      && s.devs[s.devs[d].parent.dev].depth < s.devs[d].depth
  {
  }

  lemma Alive(s: State, k: Holder)
    requires Counted(s) && k in s.held
    ensures s.held[k] in s.devs
  {
  }

  // ---------------------------------------------------------------- which devices are destroyed

  /** The devices that hang on a single reference, from d up the chain of parents: independent of
      Release, a reading of the counts as they stand. */
  function Doomed(devs: Devices, d: Dev): seq<Dev>
    requires d in devs && Linked(devs)
    decreases devs[d].depth
  {
    if devs[d].refcnt != 1 then []
    else if devs[d].parent.NoParent? then [d]
    else [d] + Doomed(devs, devs[d].parent.dev)
  }

  /** The first device up the chain of parents that has other references, if there is one. */
  function Survivor(devs: Devices, d: Dev): (r: Parent)
    requires d in devs && Linked(devs)
    ensures r.Parent? ==> r.dev in devs && devs[r.dev].depth <= devs[d].depth
    decreases devs[d].depth
  {
    if devs[d].refcnt != 1 then Parent(d)
    else if devs[d].parent.NoParent? then NoParent
    else Survivor(devs, devs[d].parent.dev)
  }

  ghost predicate Linked(devs: Devices) {
    forall d | d in devs && devs[d].parent.Parent? ::
      devs[d].parent.dev in devs && devs[devs[d].parent.dev].depth < devs[d].depth
  }

  function Reverse(ds: seq<Dev>): (r: seq<Dev>)
    ensures |r| == |ds|
  {
    if ds == [] then [] else Reverse(ds[1..]) + [ds[0]]
  }

  /** Devices below the chain do not matter to it. */
  lemma {:induction false} DoomedWithout(devs: Devices, d: Dev, gone: Dev)
    requires Linked(devs) && Linked(devs - {gone}) && d in devs && gone in devs && devs[d].depth < devs[gone].depth
    ensures Doomed(devs - {gone}, d) == Doomed(devs, d) && Survivor(devs - {gone}, d) == Survivor(devs, d)
    ensures gone !in Doomed(devs, d) && Survivor(devs, d) != Parent(gone)
    decreases devs[d].depth
  {
    if devs[d].refcnt == 1 && devs[d].parent.Parent? {
      DoomedWithout(devs, devs[d].parent.dev, gone);
    }
  }

  function MinusOne(devs: Devices, p: Parent): Devices
    requires p.Parent? ==> p.dev in devs && devs[p.dev].refcnt >= 1
  {
    match p
    case NoParent => devs
    case Parent(d) => devs[d := devs[d].(refcnt := devs[d].refcnt - 1)]
  }

  function Elements(ds: seq<Dev>): set<Dev> {
    set d | d in ds
  }

  lemma CountedIsLinked(s: State)
    requires Counted(s)
    ensures Linked(s.devs)
    ensures forall d | d in s.devs :: s.devs[d].refcnt >= 1
  {
  }

  /** From s to r, giving up one reference to d destroys exactly the devices that hang on it alone,
      the ancestors first, and lowers the count of the first one that does not by one; every
      other device is left as it is. */
  ghost predicate DestroysTheChain(s: State, d: Dev, r: State) {
    && d in s.devs && Linked(s.devs)
    && (Survivor(s.devs, d).Parent? ==> s.devs[Survivor(s.devs, d).dev].refcnt >= 1)
    && r.destroyed == s.destroyed + Reverse(Doomed(s.devs, d))
    && r.devs == MinusOne(s.devs, Survivor(s.devs, d)) - Elements(Doomed(s.devs, d))
  }

  lemma ChainEndsHere(s: State, k: Holder)
    requires k in s.held && s.held[k] in s.devs && Linked(s.devs) && s.devs[s.held[k]].refcnt >= 1
    ensures var d := s.held[k];
      && (s.devs[d].refcnt > 1 ==> DestroysTheChain(s, d, Decremented(s, k)))
      && (s.devs[d].refcnt == 1 && s.devs[d].parent.NoParent? ==>
            DestroysTheChain(s, d, Unlinked(s, k).(destroyed := s.destroyed + [d])))
  {
    var d := s.held[k];
    assert Elements([]) == {} && Elements([d]) == {d};
    assert Reverse([d]) == [d];
  }

  lemma ChainGoesOn(s: State, k: Holder, p: Dev, r: State)
    requires k in s.held && s.held[k] in s.devs && Linked(s.devs)
    requires s.devs[s.held[k]] == Device(1, Parent(p), s.devs[s.held[k]].depth)
    requires (forall d | d in s.devs :: s.devs[d].refcnt >= 1) && DestroysTheChain(Unlinked(s, k), p, r)
    ensures DestroysTheChain(s, s.held[k], r.(destroyed := r.destroyed + [s.held[k]]))
  {
    var d := s.held[k];
    var up, doomed := Doomed(s.devs, p), Doomed(s.devs, d);
    DoomedWithout(s.devs, p, d);
    assert doomed == [d] + up && doomed[1..] == up;
    assert Elements(doomed) == {d} + Elements(up);
    WithoutBoth(s.devs, Survivor(s.devs, p), d, Elements(up));
  }

  lemma {:induction false} ReleaseDestroysTheChain(s: State, k: Holder)
    requires Counted(s) && k in s.held && (k.Child? ==> k.dev !in s.devs)
    ensures DestroysTheChain(s, s.held[k], Release(s, k))
    decreases s.devs[s.held[k]].depth
  {
    hide Counted, DestroysTheChain, Doomed, Survivor;
    CountedIsLinked(s);
    Here(s, k);
    ChainEndsHere(s, k);
    var d := s.held[k];
    if s.devs[d].refcnt == 1 && s.devs[d].parent.Parent? {
      UnlinkedCounted(s, k);
      ReleaseDestroysTheChain(Unlinked(s, k), Child(d));
      ChainGoesOn(s, k, s.devs[d].parent.dev, Release(Unlinked(s, k), Child(d)));
    }
  }

  lemma WithoutBoth(devs: Devices, p: Parent, d: Dev, gone: set<Dev>)
    requires p.Parent? ==> p.dev in devs && devs[p.dev].refcnt >= 1 && p.dev != d
    ensures MinusOne(devs - {d}, p) - gone == MinusOne(devs, p) - ({d} + gone)
  {
  }

  // ---------------------------------------------------------------- the protocol

  ghost predicate Distinct(ds: seq<Dev>) {
    forall i, j | 0 <= i < j < |ds| :: ds[i] != ds[j]
  }

  /** No device is destroyed twice, and none is used afterwards. */
  ghost predicate Buried(s: State) {
    Distinct(s.destroyed) && forall d | d in s.destroyed :: d !in s.devs
  }

  /** References agree with what their holders are: a child device is there as long as it holds its
      parent, and a transfer refers to the device of its handle, at least while that is open. */
  ghost predicate Held(s: State) {
    && (forall d | Child(d) in s.held :: d in s.devs && s.devs[d].parent.Parent?)
    && (forall d | Enumeration(d) in s.held :: s.held[Enumeration(d)] == d)
    && (forall h | Handle(h) in s.held :: h in s.handles)
    && (forall x | Flying(x) in s.held ::
          && x in s.flyingOn && s.flyingOn[x] in s.handles
          && (Handle(s.flyingOn[x]) in s.held ==> s.held[Handle(s.flyingOn[x])] == s.held[Flying(x)]))
    && (forall c | Completing(c) in s.held ::
          && c in s.completingOn && Handle(s.completingOn[c]) in s.held
          && s.held[Handle(s.completingOn[c])] == s.held[Completing(c)])
  }

  ghost predicate Inv(s: State) {
    Counted(s) && Buried(s) && Held(s)
  }

  /** What a program and libusb itself may do to references, one locked region at a time. */
  datatype Step =
    | Alloc(d: Dev, depth: nat)             // usbi_alloc_device
    | Adopt(d: Dev, parent: Dev)            // the backend records the parent of a new device
    | Leave(d: Dev)                         // the enumeration lets go of a device
    | Ref(table: nat, i: nat, d: Dev)       // libusb_ref_device
    | Unref(table: nat, i: nat)             // libusb_unref_device
    | Open(h: HandleId, d: Dev)             // libusb_open
    | Submit(x: TransferId, h: HandleId)    // libusb_submit_transfer
    | Begin(x: TransferId, c: nat)          // usbi_handle_transfer_completion, up to the callback
    | End(c: nat)                           // the same, from the callback on
    | Close(h: HandleId)                    // do_close

  ghost predicate Enabled(s: State, step: Step) {
    match step
    case Alloc(d, _) => d !in s.devs && d !in s.destroyed
    case Adopt(d, p) =>
      && d in s.devs && p in s.devs && s.devs[d].parent.NoParent? && s.devs[p].depth < s.devs[d].depth
    case Leave(d) => Enumeration(d) in s.held
    case Ref(t, i, d) => Slot(t, i) !in s.held && d in s.devs
    case Unref(t, i) => Slot(t, i) in s.held
    case Open(h, d) => h !in s.handles && d in s.devs
    // a transfer in flight cannot be submitted again
    case Submit(x, h) => Handle(h) in s.held && Flying(x) !in s.held
    case Begin(x, c) =>
      Flying(x) in s.held && x in s.flyingOn && Handle(s.flyingOn[x]) in s.held && Completing(c) !in s.held
    case End(c) => Completing(c) in s.held
    // not from the callback of one of its own transfers, which still uses the handle
    case Close(h) =>
      Handle(h) in s.held && forall c | Completing(c) in s.held && c in s.completingOn :: s.completingOn[c] != h
  }

  ghost function Apply(s: State, step: Step): State
    requires Inv(s) && Enabled(s, step)
  {
    match step
    case Alloc(d, depth) => s.(devs := s.devs[d := Device(1, NoParent, depth)], held := s.held[Enumeration(d) := d])
    case Adopt(d, p) =>
      var s' := Acquire(s, Child(d), p);
      s'.(devs := s'.devs[d := s'.devs[d].(parent := Parent(p))])
    case Leave(d) => Release(s, Enumeration(d))
    case Ref(t, i, d) => Acquire(s, Slot(t, i), d)
    case Unref(t, i) => Release(s, Slot(t, i))
    case Open(h, d) => Acquire(s, Handle(h), d).(handles := s.handles + {h})
    case Submit(x, h) => Acquire(s, Flying(x), s.held[Handle(h)]).(flyingOn := s.flyingOn[x := h])
    case Begin(x, c) =>
      s.(held := s.held[Completing(c) := s.held[Flying(x)]] - {Flying(x)},
         completingOn := s.completingOn[c := s.flyingOn[x]])
    case End(c) => Release(s, Completing(c))
    case Close(h) => Release(s, Handle(h))
  }

  lemma SameCounts(s: State, t: State)
    requires Counted(s) && t.devs == s.devs && t.held == s.held
    ensures Counted(t)
  {
  }

  lemma AllocCounted(s: State, d: Dev, depth: nat)
    requires Counted(s) && d !in s.devs && Enumeration(d) !in s.held && Child(d) !in s.held
    ensures Counted(s.(devs := s.devs[d := Device(1, NoParent, depth)], held := s.held[Enumeration(d) := d]))
  {
    HoldersAdd(s.held, Enumeration(d), d);
    assert Holders(s.held, d) == {};
  }

  lemma AllocHeld(s: State, d: Dev, depth: nat)
    requires Held(s) && d !in s.devs
    ensures Held(s.(devs := s.devs[d := Device(1, NoParent, depth)], held := s.held[Enumeration(d) := d]))
  {
  }

  lemma AllocKeepsInv(s: State, d: Dev, depth: nat)
    requires Inv(s) && Enabled(s, Alloc(d, depth))
    ensures Inv(Apply(s, Alloc(d, depth)))
  {
    hide Distinct, Release;
    assert Child(d) !in s.held && Enumeration(d) !in s.held by { hide Holders; }
    AllocCounted(s, d, depth);
    AllocHeld(s, d, depth);
    hide Counted, Held;
  }

  lemma AdoptCounted(s: State, d: Dev, p: Dev)
    requires Counted(s) && d in s.devs && p in s.devs && s.devs[d].parent.NoParent? && s.devs[p].depth < s.devs[d].depth
    requires Child(d) in s.held && s.held[Child(d)] == p
    ensures Counted(s.(devs := s.devs[d := s.devs[d].(parent := Parent(p))]))
  {
    hide Holders;
  }

  lemma AdoptKeepsInv(s: State, d: Dev, p: Dev)
    requires Inv(s) && Enabled(s, Adopt(d, p))
    ensures Inv(Apply(s, Adopt(d, p)))
  {
    hide Distinct, Release, Counted;
    assert Child(d) !in s.held;
    AcquireCounted(s, Child(d), p);
    AdoptCounted(Acquire(s, Child(d), p), d, p);
  }

  /** Taking a reference for a holder that is not a child changes nothing else. */
  lemma AcquireKeepsInv(s: State, k: Holder, d: Dev)
    requires Inv(s) && d in s.devs && k !in s.held && k.Slot?
    ensures Inv(Acquire(s, k, d))
  {
    hide Counted, Distinct;
    AcquireCounted(s, k, d);
  }

  lemma OpenHeld(s: State, h: HandleId, d: Dev)
    requires Held(s) && h !in s.handles && d in s.devs
    ensures Held(Acquire(s, Handle(h), d).(handles := s.handles + {h}))
  {
  }

  lemma OpenKeepsInv(s: State, h: HandleId, d: Dev)
    requires Inv(s) && Enabled(s, Open(h, d))
    ensures Inv(Apply(s, Open(h, d)))
  {
    hide Distinct, Release, Counted;
    assert Handle(h) !in s.held;
    OpenHeld(s, h, d);
    AcquireCounted(s, Handle(h), d);
    SameCounts(Acquire(s, Handle(h), d), Apply(s, Open(h, d)));
    hide Held;
  }

  lemma SubmitKeepsInv(s: State, x: TransferId, h: HandleId)
    requires Inv(s) && Enabled(s, Submit(x, h))
    ensures Inv(Apply(s, Submit(x, h)))
  {
    hide Distinct, Release, Counted;
    Alive(s, Handle(h));
    var d := s.held[Handle(h)];
    AcquireCounted(s, Flying(x), d);
    SameCounts(Acquire(s, Flying(x), d), Apply(s, Submit(x, h)));
  }

  lemma BeginKeepsInv(s: State, x: TransferId, c: nat)
    requires Inv(s) && Enabled(s, Begin(x, c))
    ensures Inv(Apply(s, Begin(x, c)))
  {
    hide Distinct, Release;
    var d := s.held[Flying(x)];
    HoldersAdd(s.held, Completing(c), d);
    HoldersRemove(s.held[Completing(c) := d], Flying(x));
  }

  lemma {:induction false} ReleaseBuries(s: State, k: Holder)
    requires Counted(s) && k in s.held && (k.Child? ==> k.dev !in s.devs) && Buried(s)
    ensures var r := Release(s, k);
      && Buried(r)
      && (forall d | d in r.destroyed :: d in s.destroyed || d in s.devs)
      && (forall d | d in s.devs || d in s.destroyed :: d in r.devs || d in r.destroyed)
      && (forall d | d in r.devs :: d in s.devs)
    decreases s.devs[s.held[k]].depth
  {
    hide Counted;
    Here(s, k);
    var d := s.held[k];
    if s.devs[d].refcnt == 1 {
      UnlinkedCounted(s, k);
      if s.devs[d].parent.Parent? {
        ReleaseBuries(Unlinked(s, k), Child(d));
      }
    }
  }

  /** Giving up a reference that is not the handle of a running completion. */
  lemma ReleaseKeepsInv(s: State, k: Holder)
    requires Inv(s) && k in s.held && !k.Child?
    requires k.Handle? ==> forall c | Completing(c) in s.held && c in s.completingOn :: s.completingOn[c] != k.h
    ensures Inv(Release(s, k))
  {
    hide Counted, Buried, Release;
    ReleaseBuries(s, k);
    ReleaseKeeps(s, k);
  }

  lemma StepKeepsInv(s: State, step: Step)
    requires Inv(s) && Enabled(s, step)
    ensures Inv(Apply(s, step))
  {
    hide Inv, Counted, Release, Acquire;
    match step
    case Alloc(d, depth) => AllocKeepsInv(s, d, depth);
    case Adopt(d, p) => AdoptKeepsInv(s, d, p);
    case Leave(d) => ReleaseKeepsInv(s, Enumeration(d));
    case Ref(t, i, d) => AcquireKeepsInv(s, Slot(t, i), d);
    case Unref(t, i) => ReleaseKeepsInv(s, Slot(t, i));
    case Open(h, d) => OpenKeepsInv(s, h, d);
    case Submit(x, h) => SubmitKeepsInv(s, x, h);
    case Begin(x, c) => BeginKeepsInv(s, x, c);
    case End(c) => ReleaseKeepsInv(s, Completing(c));
    case Close(h) => ReleaseKeepsInv(s, Handle(h));
  }

  /** The reference that a step takes or hands on, if it does. */
  datatype Grant = Nobody | Grant(k: Holder, d: Dev)

  ghost function Granted(s: State, step: Step): Grant
    requires Enabled(s, step)
  {
    match step
    case Alloc(d, _) => Grant(Enumeration(d), d)
    case Adopt(d, p) => Grant(Child(d), p)
    case Ref(t, i, d) => Grant(Slot(t, i), d)
    case Open(h, d) => Grant(Handle(h), d)
    case Submit(x, h) => Grant(Flying(x), s.held[Handle(h)])
    case Begin(x, c) => Grant(Completing(c), s.held[Flying(x)])
    case _ => Nobody
  }

  /** The holder that gives a reference up. */
  predicate GivesUp(step: Step, k: Holder) {
    match step
    case Leave(d) => k == Enumeration(d)
    case Unref(t, i) => k == Slot(t, i)
    case Begin(x, _) => k == Flying(x)
    case End(c) => k == Completing(c)
    case Close(h) => k == Handle(h)
    case _ => false
  }

  /** Who holds what after a step: exactly the holder that the step is about comes or goes, apart from
      the children of destroyed devices, and nobody else's reference changes. */
  lemma HoldersMove(s: State, step: Step, k: Holder)
    requires Inv(s) && Enabled(s, step)
    ensures var r, g := Apply(s, step).held, Granted(s, step);
      && (!k.Child? || g.Grant? ==> (k in r <==> (g.Grant? && k == g.k) || (k in s.held && !GivesUp(step, k))))
      && (k in r ==> if g.Grant? && k == g.k then r[k] == g.d else k in s.held && r[k] == s.held[k])
  {
    hide Counted, Buried, Release;
    match step
    case Leave(d) => ReleaseKeeps(s, Enumeration(d));
    case Unref(t, i) => ReleaseKeeps(s, Slot(t, i));
    case End(c) => ReleaseKeeps(s, Completing(c));
    case Close(h) => ReleaseKeeps(s, Handle(h));
    case _ =>
  }

  // ---------------------------------------------------------------- whole runs

  const INITIAL := State(map[], [], map[], {}, map[], map[])

  ghost predicate Run(s: State, steps: seq<Step>, t: State)
    decreases |steps|
  {
    if steps == [] then s == t
    else Inv(s) && Enabled(s, steps[0]) && Run(Apply(s, steps[0]), steps[1..], t)
  }

  lemma {:induction false} RunKeepsInv(s: State, steps: seq<Step>, t: State)
    requires Inv(s) && Run(s, steps, t)
    ensures Inv(t)
    decreases |steps|
  {
    hide Inv, Apply, Enabled;
    if steps != [] {
      StepKeepsInv(s, steps[0]);
      RunKeepsInv(Apply(s, steps[0]), steps[1..], t);
    }
  }

  // the holders of d, by kind
  function Slots(held: map<Holder, Dev>, d: Dev): set<Holder> {
    set k | k in held && held[k] == d && k.Slot?
  }

  function Enumerations(held: map<Holder, Dev>, d: Dev): set<Holder> {
    set k | k in held && held[k] == d && k.Enumeration?
  }

  function Children(held: map<Holder, Dev>, d: Dev): set<Holder> {
    set k | k in held && held[k] == d && k.Child?
  }

  function OpenHandles(held: map<Holder, Dev>, d: Dev): set<Holder> {
    set k | k in held && held[k] == d && k.Handle?
  }

  function InFlight(held: map<Holder, Dev>, d: Dev): set<Holder> {
    set k | k in held && held[k] == d && k.Flying?
  }

  function InCompletion(held: map<Holder, Dev>, d: Dev): set<Holder> {
    set k | k in held && held[k] == d && k.Completing?
  }

  function Sum(held: map<Holder, Dev>, d: Dev): nat {
    |Slots(held, d)| + |Enumerations(held, d)| + |Children(held, d)|
    + |OpenHandles(held, d)| + |InFlight(held, d)| + |InCompletion(held, d)|
  }

  lemma InitialInv()
    ensures Inv(INITIAL)
  {
  }

  lemma AliveOrDestroyed(s: State, d: Dev)
    requires Inv(s)
    ensures d in s.devs ==> s.devs[d].refcnt == |Holders(s.held, d)| >= 1
    ensures d in s.destroyed ==> |Holders(s.held, d)| == 0 && d !in s.devs
    ensures Distinct(s.destroyed)
  {
    hide Held, Distinct;
    if d in s.destroyed { assert Holders(s.held, d) == {}; }
  }

  /** Conservation.  In every state that a run reaches, the count of each device is the number of
      references held by callers, its enumeration, children, open handles, transfers in flight
      and completions in progress; and a device that was allocated is destroyed, once, exactly
      when that sum is zero. */
  lemma Conservation(steps: seq<Step>, t: State, d: Dev)
    requires Run(INITIAL, steps, t)
    requires d in t.devs || d in t.destroyed
    ensures d in t.devs ==> t.devs[d].refcnt == Sum(t.held, d)
    ensures d in t.destroyed <==> Sum(t.held, d) == 0
    ensures Distinct(t.destroyed)
  {
    hide Inv, Run, Distinct, Sum;
    InitialInv();
    RunKeepsInv(INITIAL, steps, t);
    KindsAddUp(t.held, d);
    AliveOrDestroyed(t, d);
  }

  function Kind(k: Holder): (n: nat)
    ensures n < 6
  {
    match k
    case Slot(_, _) => 0
    case Enumeration(_) => 1
    case Child(_) => 2
    case Handle(_) => 3
    case Flying(_) => 4
    case Completing(_) => 5
  }

  function OfKind(ks: set<Holder>, n: nat): set<Holder> {
    set k | k in ks && Kind(k) == n
  }

  function FromKind(ks: set<Holder>, n: nat): set<Holder> {
    set k | k in ks && Kind(k) >= n
  }

  lemma OneKindLess(ks: set<Holder>, n: nat)
    ensures |FromKind(ks, n)| == |OfKind(ks, n)| + |FromKind(ks, n + 1)|
  {
    assert FromKind(ks, n) == OfKind(ks, n) + FromKind(ks, n + 1);
  }

  lemma KindsAddUp(held: map<Holder, Dev>, d: Dev)
    ensures |Holders(held, d)| == Sum(held, d)
  {
    var ks := Holders(held, d);
    assert FromKind(ks, 0) == ks && FromKind(ks, 6) == {};
    KindsByName(held, d);
    hide FromKind, OfKind, Holders, Slots, Enumerations, Children, OpenHandles, InFlight, InCompletion;
    OneKindLess(ks, 0);
    OneKindLess(ks, 1);
    OneKindLess(ks, 2);
    OneKindLess(ks, 3);
    OneKindLess(ks, 4);
    OneKindLess(ks, 5);
  }

  lemma KindsByName(held: map<Holder, Dev>, d: Dev)
    ensures var ks := Holders(held, d);
      && Slots(held, d) == OfKind(ks, 0) && Enumerations(held, d) == OfKind(ks, 1)
      && Children(held, d) == OfKind(ks, 2) && OpenHandles(held, d) == OfKind(ks, 3)
      && InFlight(held, d) == OfKind(ks, 4) && InCompletion(held, d) == OfKind(ks, 5)
  {
  }

  // ---------------------------------------------------------------- leaks

  /** A transfer was still in flight when its handle was closed. */
  ghost predicate Stranded(s: State, x: TransferId, d: Dev) {
    && Flying(x) in s.held && s.held[Flying(x)] == d && x in s.flyingOn
    && s.flyingOn[x] in s.handles && Handle(s.flyingOn[x]) !in s.held
  }

  /** The step closes the handle that a transfer in flight uses. */
  ghost predicate ClosesUnder(s: State, step: Step, x: TransferId, d: Dev) {
    && step.Close? && Flying(x) in s.held && s.held[Flying(x)] == d
    && x in s.flyingOn && s.flyingOn[x] == step.h
  }

  lemma ReleaseStrands(s: State, k: Holder, x: TransferId, d: Dev)
    requires Inv(s) && k in s.held && !k.Child? && !k.Flying?
    ensures Stranded(Release(s, k), x, d) <==>
      Stranded(s, x, d) || (Flying(x) in s.held && s.held[Flying(x)] == d && k == Handle(s.flyingOn[x]))
  {
    hide Counted, Buried, Release;
    ReleaseKeeps(s, k);
  }

  /** A transfer is stranded by closing its handle while it is in flight, by no other step, and
      for good. */
  lemma OnlyCloseStrands(s: State, step: Step, x: TransferId, d: Dev)
    requires Inv(s) && Enabled(s, step)
    ensures Stranded(Apply(s, step), x, d) <==> Stranded(s, x, d) || ClosesUnder(s, step, x, d)
  {
    hide Counted, Buried, Release;
    match step
    case Leave(e) => ReleaseStrands(s, Enumeration(e), x, d);
    case Unref(t, i) => ReleaseStrands(s, Slot(t, i), x, d);
    case End(c) => ReleaseStrands(s, Completing(c), x, d);
    case Close(h) => ReleaseStrands(s, Handle(h), x, d);
    case _ =>
  }

  /** Somewhere along the run a handle is closed under the transfer. */
  ghost predicate ClosedUnder(s: State, steps: seq<Step>, x: TransferId, d: Dev)
    decreases |steps|
  {
    && steps != [] && Inv(s) && Enabled(s, steps[0])
    && (ClosesUnder(s, steps[0], x, d) || ClosedUnder(Apply(s, steps[0]), steps[1..], x, d))
  }

  lemma {:induction false} StrandedIffClosedUnder(s: State, steps: seq<Step>, t: State, x: TransferId, d: Dev)
    requires Inv(s) && Run(s, steps, t)
    ensures Stranded(t, x, d) <==> Stranded(s, x, d) || ClosedUnder(s, steps, x, d)
    decreases |steps|
  {
    hide Apply, Enabled, Inv, Stranded, ClosesUnder;
    if steps != [] {
      StepKeepsInv(s, steps[0]);
      OnlyCloseStrands(s, steps[0], x, d);
      StrandedIffClosedUnder(Apply(s, steps[0]), steps[1..], t, x, d);
    }
  }

  /** Closing a handle while one of its transfers is in flight leaks the device: do_close forgets
      the transfer, whose reference nobody can give up any more, and the device is never
      destroyed, whatever happens later. */
  lemma StrandedDevicesStay(s: State, steps: seq<Step>, t: State, x: TransferId, d: Dev)
    requires Inv(s) && Run(s, steps, t) && (Stranded(s, x, d) || ClosedUnder(s, steps, x, d))
    ensures d in t.devs && d !in t.destroyed
  {
    hide Run, ClosedUnder;
    StrandedIffClosedUnder(s, steps, t, x, d);
    RunKeepsInv(s, steps, t);
  }

  lemma {:induction false} Deepest(devs: Devices, among: set<Dev>) returns (d: Dev)
    requires among != {} && among <= devs.Keys
    ensures d in among && forall e | e in among :: devs[e].depth <= devs[d].depth
  {
    d :| d in among;
    if among != {d} {
      var e := Deepest(devs, among - {d});
      if devs[e].depth > devs[d].depth { d := e; }
    }
  }

  lemma HolderIsDeeper(s: State, d: Dev) returns (e: Dev)
    requires Inv(s) && d in s.devs && forall k | k in s.held :: k.Child?
    ensures e in s.devs && s.devs[e].depth > s.devs[d].depth
  {
    hide Buried;
    var k :| k in Holders(s.held, d);
    e := k.dev;
  }

  /** Nothing else leaks: once callers, enumerations, handles and transfers have given up their
      references, no device is left, however the devices were connected. */
  lemma NothingLeaks(s: State)
    requires Inv(s) && forall k | k in s.held :: k.Child?
    ensures s.devs == map[]
  {
    if s.devs.Keys != {} {
      var d := Deepest(s.devs, s.devs.Keys);
      var e := HolderIsDeeper(s, d);
    }
  }

  // ---------------------------------------------------------------- device lists

  /** No slot of the table is in use. */
  ghost predicate Unused(s: State, table: nat) {
    forall k | k in s.held :: !(k.Slot? && k.table == table)
  }

  /** References for the entries i, i + 1, ... of a table. */
  function AcquireFrom(s: State, table: nat, i: nat, ds: seq<Dev>): (r: State)
    requires forall d | d in ds :: d in s.devs
    ensures r.devs.Keys == s.devs.Keys
    ensures forall k :: k in r.held <==> k in s.held || (k.Slot? && k.table == table && i <= k.i < |ds|)
  {
    if i >= |ds| then s
    else
      var n := |ds| - 1;
      Acquire(AcquireFrom(s, table, i, ds[..n]), Slot(table, n), ds[n])
  }

  lemma {:induction false} AcquireFromKeepsInv(s: State, table: nat, i: nat, ds: seq<Dev>)
    requires Inv(s) && Unused(s, table) && forall d | d in ds :: d in s.devs
    ensures Inv(AcquireFrom(s, table, i, ds))
  {
    hide Inv, Acquire;
    if i < |ds| {
      var n := |ds| - 1;
      AcquireFromKeepsInv(s, table, i, ds[..n]);
      AcquireKeepsInv(AcquireFrom(s, table, i, ds[..n]), Slot(table, n), ds[n]);
    }
  }

  /** Every entry holds its device. */
  lemma {:induction false} AcquireFromHolds(s: State, table: nat, i: nat, ds: seq<Dev>)
    requires Unused(s, table) && forall d | d in ds :: d in s.devs
    ensures var r := AcquireFrom(s, table, i, ds);
      && (forall j | i <= j < |ds| :: r.held[Slot(table, j)] == ds[j])
      && (forall k | k in s.held :: r.held[k] == s.held[k])
  {
    if i < |ds| {
      AcquireFromHolds(s, table, i, ds[..|ds| - 1]);
    }
  }

  lemma AcquireCommutes(s: State, j: Holder, d: Dev, k: Holder, e: Dev)
    requires d in s.devs && e in s.devs && j != k
    ensures Acquire(Acquire(s, j, d), k, e) == Acquire(Acquire(s, k, e), j, d)
  {
    assert Acquire(Acquire(s, j, d), k, e).devs == Acquire(Acquire(s, k, e), j, d).devs;
    assert Acquire(Acquire(s, j, d), k, e).held == Acquire(Acquire(s, k, e), j, d).held;
  }

  /** The same references, the first of them taken last. */
  lemma {:induction false} AcquireFirstLast(s: State, table: nat, i: nat, ds: seq<Dev>)
    requires i < |ds| && forall d | d in ds :: d in s.devs
    ensures AcquireFrom(s, table, i, ds) == Acquire(AcquireFrom(s, table, i + 1, ds), Slot(table, i), ds[i])
  {
    hide Acquire;
    var n := |ds| - 1;
    if i < n {
      var s' := AcquireFrom(s, table, i + 1, ds[..n]);
      AcquireFirstLast(s, table, i, ds[..n]);
      AcquireCommutes(s', Slot(table, i), ds[i], Slot(table, n), ds[n]);
    } else {
      assert AcquireFrom(s, table, i, ds[..n]) == s == AcquireFrom(s, table, i + 1, ds);
    }
  }

  lemma {:induction false} AcquireInside(s: State, table: nat, ds: seq<Dev>, k: Holder, e: Dev)
    requires e in s.devs && !(k.Slot? && k.table == table) && forall d | d in ds :: d in s.devs
    ensures Acquire(AcquireFrom(s, table, 0, ds), k, e) == AcquireFrom(Acquire(s, k, e), table, 0, ds)
  {
    hide Acquire;
    assert forall d | d in ds :: d in Acquire(s, k, e).devs by { SameDevices(s, k, e); }
    if ds != [] {
      var n := |ds| - 1;
      AcquireInside(s, table, ds[..n], k, e);
      AcquireCommutes(AcquireFrom(s, table, 0, ds[..n]), Slot(table, n), ds[n], k, e);
    }
  }

  lemma SameDevices(s: State, k: Holder, d: Dev)
    requires d in s.devs
    ensures Acquire(s, k, d).devs.Keys == s.devs.Keys
  {
  }

  /** Two tables may be filled in either order. */
  lemma {:induction false} TablesCommute(s: State, a: nat, ds: seq<Dev>, b: nat, es: seq<Dev>)
    requires a != b && (forall d | d in ds :: d in s.devs) && (forall e | e in es :: e in s.devs)
    ensures AcquireFrom(AcquireFrom(s, a, 0, ds), b, 0, es) == AcquireFrom(AcquireFrom(s, b, 0, es), a, 0, ds)
  {
    hide Acquire;
    if es != [] {
      var n := |es| - 1;
      TablesCommute(s, a, ds, b, es[..n]);
      AcquireInside(AcquireFrom(s, b, 0, es[..n]), a, ds, Slot(b, n), es[n]);
    }
  }

  lemma DecrementUndoesAcquire(s: State, k: Holder, d: Dev)
    requires d in s.devs && s.devs[d].refcnt >= 1 && k !in s.held
    ensures Decremented(Acquire(s, k, d), k) == s
  {
    var s' := Decremented(Acquire(s, k, d), k);
    assert s'.devs == s.devs && s'.held == s.held;
  }

  /** Giving up a reference that was just taken undoes taking it. */
  lemma ReleaseUndoesAcquire(s: State, k: Holder, d: Dev)
    requires Counted(s) && d in s.devs && k !in s.held && !k.Child?
    ensures Counted(Acquire(s, k, d)) && Release(Acquire(s, k, d), k) == s
  {
    AcquireCounted(s, k, d);
    assert s.devs[d].refcnt >= 1;
    hide Counted;
    DecrementUndoesAcquire(s, k, d);
  }

  ghost predicate Occupied(s: State, table: nat, i: nat, n: nat) {
    forall j | i <= j < n :: Slot(table, j) in s.held
  }

  lemma ReleaseSlot(s: State, table: nat, i: nat)
    requires Inv(s) && Slot(table, i) in s.held
    ensures var r := Release(s, Slot(table, i));
      Inv(r) && forall j | j in s.held && j != Slot(table, i) && j.Slot? :: j in r.held && r.held[j] == s.held[j]
  {
    hide Counted, Buried, Release;
    ReleaseKeepsInv(s, Slot(table, i));
    ReleaseKeeps(s, Slot(table, i));
  }

  /** Giving up the entries i, i + 1, ... of a table, in this order. */
  ghost function ReleaseFrom(s: State, table: nat, i: nat, n: nat): (r: State)
    requires Inv(s) && Occupied(s, table, i, n)
    ensures Inv(r)
    decreases n - i
  {
    if i >= n then s
    else
      ReleaseSlot(s, table, i);
      ReleaseFrom(Release(s, Slot(table, i)), table, i + 1, n)
  }

  /** Taking references for a whole table and giving them up again, front to back, changes
      nothing; in particular no device is destroyed on the way. */
  lemma {:induction false} ListIsNeutral(s: State, table: nat, i: nat, ds: seq<Dev>, t: State)
    requires Inv(s) && Unused(s, table) && forall d | d in ds :: d in s.devs
    requires t == AcquireFrom(s, table, i, ds) && Inv(t) && Occupied(t, table, i, |ds|)
    ensures ReleaseFrom(t, table, i, |ds|) == s
    decreases |ds| - i
  {
    hide Inv, Acquire, Release, Unused;
    if i < |ds| {
      AcquireFirstLast(s, table, i, ds);
      AcquireFromKeepsInv(s, table, i + 1, ds);
      var s' := AcquireFrom(s, table, i + 1, ds);
      InvIsCounted(s');
      FirstIsFree(s, table, i, ds);
      ReleaseUndoesAcquire(s', Slot(table, i), ds[i]);
      ListIsNeutral(s, table, i + 1, ds, s');
    }
  }

  lemma FirstIsFree(s: State, table: nat, i: nat, ds: seq<Dev>)
    requires Unused(s, table) && forall d | d in ds :: d in s.devs
    ensures Slot(table, i) !in AcquireFrom(s, table, i + 1, ds).held
    ensures Occupied(AcquireFrom(s, table, i + 1, ds), table, i + 1, |ds|)
  {
  }

  lemma InvIsCounted(s: State)
    requires Inv(s)
    ensures Counted(s)
  {
  }
}
