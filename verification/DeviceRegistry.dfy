/** The functions of core.c and io.c that take and give up device references, against
    DeviceReferences.  What the C code leaves implicit, namely on whose behalf it takes or gives up
    a reference, is a ghost argument here. */
module DeviceRegistry {
  import opened DeviceReferences

  const SUCCESS := 0
  const ERROR_NO_DEVICE := -4
  const ERROR_NO_MEM := -11
  const SIZE_STEP := 8

  /** A table of discovered devices: the first `len` entries of an array that grows in steps. */
  class DiscoveredDevs {
    var devices: array<Dev>
    var len: nat

    ghost predicate Valid()
      reads this
    {
      len <= devices.Length
    }

    ghost function Contents(): seq<Dev>
      reads this, devices
      requires Valid()
    {
      devices[..len]
    }

    constructor ()
      ensures Valid() && fresh(devices) && Contents() == [] && devices.Length == 8
    {
      devices := new Dev[SIZE_STEP];
      len := 0;
    }

    method Push(dev: Dev)
      requires Valid() && len < devices.Length
      modifies `len, devices
      ensures Valid() && Contents() == old(Contents()) + [dev]
    {
      devices[len] := dev;
      len := len + 1;
    }

    /** The reallocation, which keeps the entries. */
    method Grow()
      requires Valid()
      modifies `devices
      ensures Valid() && fresh(devices) && devices.Length == old(devices.Length) + 8
      ensures Contents() == old(Contents())
    {
      var larger := new Dev[devices.Length + SIZE_STEP];
      forall i | 0 <= i < len { larger[i] := devices[i]; }
      devices := larger;
    }
  }

  /** Which allocations succeed: of a discovery table with so many entries, of a list with so many. */
  datatype Memory = Memory(table: nat -> bool, list: nat -> bool)

  /** The size of the table that holds n devices. */
  function Capacity(n: nat): nat {
    if n <= 8 then 8 else (n + 7) / 8 * 8
  }

  /** There is memory for each of the tables on the way to n devices. */
  ghost predicate TablesSuffice(memory: Memory, n: nat) {
    forall m: nat | m <= n :: memory.table(Capacity(m))
  }

  /** One device more needs a new table if and only if the old one is full. */
  lemma MoreTables(memory: Memory, n: nat)
    requires TablesSuffice(memory, n)
    ensures Capacity(n + 1) == if n == Capacity(n) then Capacity(n) + 8 else Capacity(n)
    ensures n <= Capacity(n) && (TablesSuffice(memory, n + 1) <==> memory.table(Capacity(n + 1)))
  {
  }

  lemma FewerTables(memory: Memory, m: nat, n: nat)
    requires m <= n
    ensures TablesSuffice(memory, n) ==> TablesSuffice(memory, m)
    ensures TablesSuffice(memory, 0) <==> memory.table(SIZE_STEP)
  {
    assert TablesSuffice(memory, 0) <==> memory.table(Capacity(0));
  }

  /** Release, one device of the chain at a time. */
  lemma ReleaseRound(s: State, k: Holder)
    requires Counted(s) && k in s.held && (k.Child? ==> k.dev !in s.devs)
    ensures var d := s.held[k];
      && d in s.devs && s.devs[d].refcnt >= 1
      && (s.devs[d].refcnt > 1 ==> Release(s, k) == Decremented(s, k))
      && (s.devs[d].refcnt == 1 && s.devs[d].parent.NoParent? ==>
            Release(s, k) == Unlinked(s, k).(destroyed := s.destroyed + [d]))
      && (s.devs[d].refcnt == 1 && s.devs[d].parent.Parent? ==>
            var s', p := Unlinked(s, k), s.devs[d].parent.dev;
            && Counted(s') && Child(d) in s'.held && s'.held[Child(d)] == p
            && p in s'.devs && s'.devs[p].depth < s.devs[d].depth
            && Release(s, k) == Release(s', Child(d)).(destroyed := Release(s', Child(d)).destroyed + [d]))
  {
    if s.devs[s.held[k]].refcnt == 1 { UnlinkedCounted(s, k); }
  }

  /** The entries ds of an otherwise unused table refer to devices of s. */
  ghost predicate Filled(s: State, table: nat, ds: seq<Dev>) {
    Inv(s) && Unused(s, table) && forall d | d in ds :: d in s.devs
  }

  lemma FilledIsNeutral(s: State, table: nat, ds: seq<Dev>, t: State)
    requires Filled(s, table, ds) && t == AcquireFrom(s, table, 0, ds)
    ensures Inv(t) && Entries(t, table, 0, ds) && Occupied(t, table, 0, |ds|)
    ensures ReleaseFrom(t, table, 0, |ds|) == s
  {
    hide Inv;
    AcquireFromKeepsInv(s, table, 0, ds);
    AcquireFromHolds(s, table, 0, ds);
    hide AcquireFrom, ReleaseFrom;
    ListIsNeutral(s, table, 0, ds, t);
  }

  /** The entries i, i + 1, ... of a table hold the devices of the list. */
  ghost predicate Entries(s: State, table: nat, i: nat, list: seq<Dev>) {
    forall j | i <= j < |list| :: Slot(table, j) in s.held && s.held[Slot(table, j)] == list[j]
  }

  lemma EntriesRound(s: State, table: nat, i: nat, list: seq<Dev>)
    requires Inv(s) && Entries(s, table, i, list) && Occupied(s, table, i, |list|)
    ensures i >= |list| ==> ReleaseFrom(s, table, i, |list|) == s
    ensures i < |list| ==>
      && Counted(s) && Slot(table, i) in s.held && s.held[Slot(table, i)] == list[i]
      && var r := Release(s, Slot(table, i));
        && Inv(r) && Entries(r, table, i + 1, list) && Occupied(r, table, i + 1, |list|)
        && ReleaseFrom(s, table, i, |list|) == ReleaseFrom(r, table, i + 1, |list|)
  {
    hide Release, Counted, Buried;
    if i < |list| { ReleaseSlot(s, table, i); }
  }

  lemma AcquireNothing(s: State, table: nat)
    ensures AcquireFrom(s, table, 0, []) == s
  {
  }

  lemma AcquireOneMore(s: State, table: nat, ds: seq<Dev>, n: nat)
    requires n < |ds| && forall d | d in ds :: d in s.devs
    ensures Slot(table, n) !in s.held ==> Slot(table, n) !in AcquireFrom(s, table, 0, ds[..n]).held
    ensures ds[n] in AcquireFrom(s, table, 0, ds[..n]).devs
    ensures AcquireFrom(s, table, 0, ds[..n + 1]) == Acquire(AcquireFrom(s, table, 0, ds[..n]), Slot(table, n), ds[n])
    ensures ds[..n + 1] == ds[..n] + [ds[n]]
  {
    assert ds[..n + 1][..n] == ds[..n];
  }

  lemma FilledTwice(s: State, a: nat, b: nat, ds: seq<Dev>)
    requires Filled(s, a, ds) && Filled(s, b, ds) && a != b
    ensures Filled(AcquireFrom(s, a, 0, ds), b, ds)
  {
    hide Inv;
    AcquireFromKeepsInv(s, a, 0, ds);
  }

  /** Attached devices are kept by their enumeration; devOf has the device of each open handle. */
  ghost predicate Agrees(s: State, usbDevs: seq<Dev>, devOf: map<HandleId, Dev>) {
    && Inv(s)
    && (forall d | d in usbDevs :: Enumeration(d) in s.held)
    && (forall h | h in devOf :: Handle(h) in s.held && devOf[h] == s.held[Handle(h)])
    && (forall h | Handle(h) in s.held :: h in devOf)
  }

  lemma AttachedAreThere(s: State, usbDevs: seq<Dev>, devOf: map<HandleId, Dev>)
    requires Agrees(s, usbDevs, devOf)
    ensures Inv(s) && forall d | d in usbDevs :: d in s.devs
  {
  }

  lemma OpenAgrees(s: State, usbDevs: seq<Dev>, devOf: map<HandleId, Dev>, h: HandleId, d: Dev)
    requires Agrees(s, usbDevs, devOf) && Enabled(s, Step.Open(h, d))
    ensures Counted(s) && Handle(h) !in s.held
    ensures Agrees(Apply(s, Step.Open(h, d)), usbDevs, devOf[h := d])
  {
    StepKeepsInv(s, Step.Open(h, d));
    hide Counted, Buried, Release;
  }

  lemma SubmitAgrees(s: State, usbDevs: seq<Dev>, devOf: map<HandleId, Dev>, x: TransferId, h: HandleId)
    requires Agrees(s, usbDevs, devOf) && h in devOf && Flying(x) !in s.held
    ensures Enabled(s, Submit(x, h)) && devOf[h] == s.held[Handle(h)] && devOf[h] in s.devs
    ensures Agrees(Apply(s, Submit(x, h)), usbDevs, devOf)
  {
    StepKeepsInv(s, Submit(x, h));
    hide Inv, Release;
    InvIsCounted(s);
    Alive(s, Handle(h));
  }

  lemma BeginAgrees(s: State, usbDevs: seq<Dev>, devOf: map<HandleId, Dev>, x: TransferId, c: nat)
    requires Agrees(s, usbDevs, devOf) && Flying(x) in s.held && Completing(c) !in s.held
    requires x in s.flyingOn && s.flyingOn[x] in devOf
    ensures Enabled(s, Begin(x, c)) && Agrees(Apply(s, Begin(x, c)), usbDevs, devOf)
  {
    StepKeepsInv(s, Begin(x, c));
    hide Inv, Release;
  }

  lemma ReleasedAgrees(s: State, usbDevs: seq<Dev>, devOf: map<HandleId, Dev>, k: Holder, r: State)
    requires Agrees(s, usbDevs, devOf) && Inv(r) && Released(s, k, r)
    requires k.Completing? || k.Handle?
    ensures Agrees(r, usbDevs, if k.Handle? then devOf - {k.h} else devOf)
  {
    hide Inv;
  }

  lemma EndAgrees(s: State, usbDevs: seq<Dev>, devOf: map<HandleId, Dev>, c: nat)
    requires Agrees(s, usbDevs, devOf) && Completing(c) in s.held
    ensures Counted(s) && Enabled(s, End(c)) && Agrees(Apply(s, End(c)), usbDevs, devOf)
    ensures c in s.completingOn && s.completingOn[c] in devOf && devOf[s.completingOn[c]] == s.held[Completing(c)]
  {
    hide Counted, Buried, Release, Released;
    StepKeepsInv(s, End(c));
    CompletionHandle(s, c);
    ReleaseKeeps(s, Completing(c));
    ReleasedAgrees(s, usbDevs, devOf, Completing(c), Release(s, Completing(c)));
  }

  lemma CloseAgrees(s: State, usbDevs: seq<Dev>, devOf: map<HandleId, Dev>, h: HandleId)
    requires Agrees(s, usbDevs, devOf) && Enabled(s, Close(h))
    ensures Counted(s) && h in devOf && devOf[h] == s.held[Handle(h)]
    ensures Agrees(Apply(s, Close(h)), usbDevs, devOf - {h})
  {
    hide Counted, Buried, Release, Released;
    StepKeepsInv(s, Close(h));
    ReleaseKeeps(s, Handle(h));
    ReleasedAgrees(s, usbDevs, devOf, Handle(h), Release(s, Handle(h)));
  }

  ghost predicate IsFirst(list: seq<Dev>, matches: Dev -> bool, dev: Dev) {
    exists i | 0 <= i < |list| :: list[i] == dev && matches(dev) && forall j | 0 <= j < i :: !matches(list[j])
  }

  lemma FilledTable(s: State, table: nat, usbDevs: seq<Dev>, devOf: map<HandleId, Dev>)
    requires Agrees(s, usbDevs, devOf) && Unused(s, table) && forall d | d in usbDevs :: d in s.devs
    ensures Filled(s, table, usbDevs) && Agrees(AcquireFrom(s, table, 0, usbDevs), usbDevs, devOf)
  {
    hide Inv;
    AcquireFromKeepsInv(s, table, 0, usbDevs);
    AcquireFromHolds(s, table, 0, usbDevs);
  }

  lemma {:induction false} HandlesInside(s: State, table: nat, ds: seq<Dev>, handles: set<HandleId>)
    requires forall d | d in ds :: d in s.devs
    ensures AcquireFrom(s, table, 0, ds).(handles := handles) == AcquireFrom(s.(handles := handles), table, 0, ds)
  {
    hide Acquire;
    if ds != [] {
      var n := |ds| - 1;
      HandlesInside(s, table, ds[..n], handles);
      AcquireHandles(AcquireFrom(s, table, 0, ds[..n]), Slot(table, n), ds[n], handles);
    }
  }

  lemma AcquireHandles(s: State, k: Holder, d: Dev, handles: set<HandleId>)
    requires d in s.devs
    ensures Acquire(s, k, d).(handles := handles) == Acquire(s.(handles := handles), k, d)
  {
  }

  /** The reference and the mark of a new handle may as well be set before a table is filled. */
  lemma HandleInside(s: State, table: nat, ds: seq<Dev>, h: HandleId, d: Dev)
    requires d in s.devs && forall e | e in ds :: e in s.devs
    ensures var t, s' := AcquireFrom(s, table, 0, ds), Acquire(s, Handle(h), d).(handles := s.handles + {h});
      && t.handles == s.handles && (forall e | e in ds :: e in s'.devs)
      && Acquire(t, Handle(h), d).(handles := t.handles + {h}) == AcquireFrom(s', table, 0, ds)
  {
    hide AcquireFrom;
    HandlesInside(s, table, ds, s.handles);
    AcquireInside(s, table, ds, Handle(h), d);
    HandlesInside(Acquire(s, Handle(h), d), table, ds, s.handles + {h});
  }

  /** A device may as well be opened before a list of devices is made. */
  lemma OpenUnderList(s: State, table: nat, ds: seq<Dev>, h: HandleId, d: Dev)
    requires Filled(s, table, ds) && d in ds && h !in s.handles
    ensures Enabled(s, Step.Open(h, d)) && Filled(Apply(s, Step.Open(h, d)), table, ds)
    ensures var t := AcquireFrom(s, table, 0, ds);
      && Inv(t) && Enabled(t, Step.Open(h, d))
      && Apply(t, Step.Open(h, d)) == AcquireFrom(Apply(s, Step.Open(h, d)), table, 0, ds)
  {
    hide Inv, Release, AcquireFrom;
    AcquireFromKeepsInv(s, table, 0, ds);
    HandleInside(s, table, ds, h, d);
    StepKeepsInv(s, Step.Open(h, d));
  }

  lemma CompletionHandle(s: State, c: nat)
    requires Inv(s) && Completing(c) in s.held
    ensures c in s.completingOn && Handle(s.completingOn[c]) in s.held
    ensures s.held[Handle(s.completingOn[c])] == s.held[Completing(c)]
    ensures Counted(s)
  {
  }

  method Search(list: seq<Dev>, matches: Dev -> bool) returns (i: nat)
    ensures i <= |list| && (i < |list| <==> exists d | d in list :: matches(d))
    ensures i < |list| ==> IsFirst(list, matches, list[i])
  {
    i := 0;
    while i < |list| && !matches(list[i])
      invariant i <= |list| && forall j | 0 <= j < i :: !matches(list[j])
    {
      i := i + 1;
    }
  }

  class Registry {
    var devs: Devices
    var destroyed: seq<Dev>
    /** the attached devices, the device of each open handle, the handle of each submission */
    var usbDevs: seq<Dev>
    var devOf: map<HandleId, Dev>
    var flyingOn: map<TransferId, HandleId>
    ghost var held: map<Holder, Dev>
    ghost var handles: set<HandleId>
    ghost var completingOn: map<nat, HandleId>

    ghost function View(): State
      reads this
    {
      State(devs, destroyed, held, handles, flyingOn, completingOn)
    }

    ghost predicate Valid()
      reads this
    {
      Agrees(View(), usbDevs, devOf)
    }

    method RefDevice(dev: Dev, ghost k: Holder)
      requires dev in devs && k !in held
      modifies `devs, `held
      ensures View() == Acquire(old(View()), k, dev)
    {
      devs := devs[dev := devs[dev].(refcnt := devs[dev].refcnt + 1)];
      held := held[k := dev];
    }

    /** The locked part of libusb_unref_device.  Nobody can reach a device whose count is zero. */
    method DropCount(dev: Dev, ghost k: Holder) returns (refcnt: nat, parent: Parent)
      requires dev in devs && devs[dev].refcnt >= 1 && k in held && held[k] == dev
      modifies `devs, `held
      ensures refcnt == old(devs[dev].refcnt) - 1 && parent == old(devs[dev].parent)
      ensures View() == if refcnt == 0 then Unlinked(old(View()), k) else Decremented(old(View()), k)
    {
      refcnt, parent := devs[dev].refcnt - 1, devs[dev].parent;
      devs := if refcnt == 0 then devs - {dev} else devs[dev := devs[dev].(refcnt := refcnt)];
      held := held - {k};
    }

    method UnrefDevice(dev: Dev, ghost k: Holder)
      requires Counted(View()) && k in held && held[k] == dev && (k.Child? ==> k.dev !in devs)
      modifies `devs, `held, `destroyed
      ensures View() == Release(old(View()), k)
      decreases devs[dev].depth
    {
      ReleaseRound(View(), k);
      hide Counted, Release, Unlinked, Decremented;
      var refcnt, parent := DropCount(dev, k);
      if refcnt == 0 {
        if parent.Parent? {
          UnrefDevice(parent.dev, Child(dev));
        }
        destroyed := destroyed + [dev];
      }
    }

    // -------------------------------------------------------------- device lists

    /** The loop of libusb_free_device_list and of discovered_devs_free. */
    method UnrefEntries(list: seq<Dev>, ghost table: nat)
      requires Inv(View()) && Entries(View(), table, 0, list) && Occupied(View(), table, 0, |list|)
      modifies `devs, `held, `destroyed
      ensures View() == ReleaseFrom(old(View()), table, 0, |list|)
    {
      hide Inv, Counted, Release, ReleaseFrom, Entries, Occupied;
      var i := 0;
      while i < |list|
        invariant 0 <= i <= |list| && Inv(View())
        invariant Entries(View(), table, i, list) && Occupied(View(), table, i, |list|)
        invariant ReleaseFrom(View(), table, i, |list|) == ReleaseFrom(old(View()), table, 0, |list|)
      {
        EntriesRound(View(), table, i, list);
        UnrefDevice(list[i], Slot(table, i));
        i := i + 1;
      }
      EntriesRound(View(), table, i, list);
    }

    method FreeDeviceList(list: seq<Dev>, unrefDevices: bool, ghost table: nat)
      requires Inv(View()) && Entries(View(), table, 0, list) && Occupied(View(), table, 0, |list|)
      modifies `devs, `held, `destroyed
      ensures View() == if unrefDevices then ReleaseFrom(old(View()), table, 0, |list|) else old(View())
    {
      if unrefDevices {
        UnrefEntries(list, table);
      }
    }

    /** discovered_devs_free, for a table whose references were taken on top of `base`. */
    method FreeDiscovered(discdevs: DiscoveredDevs, ghost table: nat, ghost base: State)
      requires discdevs.Valid() && Filled(base, table, discdevs.Contents())
      requires View() == AcquireFrom(base, table, 0, discdevs.Contents())
      modifies `devs, `held, `destroyed
      ensures View() == base
    {
      hide Inv, AcquireFrom;
      ghost var ds := discdevs.Contents();
      FilledIsNeutral(base, table, ds, View());
      UnrefEntries(discdevs.devices[..discdevs.len], table);
    }

    /** discovered_devs_append.  When the table cannot grow, the whole of it is given up. */
    method Append(discdevs: DiscoveredDevs, dev: Dev, memory: Memory, ghost table: nat, ghost base: State)
      returns (ok: bool)
      requires discdevs.Valid() && Filled(base, table, discdevs.Contents()) && dev in base.devs
      requires View() == AcquireFrom(base, table, 0, discdevs.Contents())
      modifies `devs, `held, `destroyed, discdevs, discdevs.devices
      ensures discdevs.Valid() && (discdevs.devices == old(discdevs.devices) || fresh(discdevs.devices))
      ensures ok <==>
        old(discdevs.len < discdevs.devices.Length) || memory.table(old(discdevs.devices.Length) + 8)
      ensures ok ==>
        && discdevs.Contents() == old(discdevs.Contents()) + [dev]
        && discdevs.devices.Length == old(discdevs.devices.Length)
             + (if old(discdevs.len < discdevs.devices.Length) then 0 else 8)
        && View() == AcquireFrom(base, table, 0, discdevs.Contents())
      ensures !ok ==> View() == base
    {
      hide Inv, AcquireFrom, Acquire;
      ghost var ds := discdevs.Contents();
      if discdevs.len == discdevs.devices.Length {
        if !memory.table(discdevs.devices.Length + SIZE_STEP) {
          FreeDiscovered(discdevs, table, base);
          return false;
        }
        discdevs.Grow();
      }
      AcquireOneMore(base, table, ds + [dev], |ds|);
      assert (ds + [dev])[..|ds|] == ds && (ds + [dev])[..|ds| + 1] == ds + [dev];
      RefDevice(dev, Slot(table, |ds|));
      discdevs.Push(dev);
      ok := true;
    }

    /** The second half of libusb_get_device_list: the list takes its own references, then the
        discovery table, which was filled on top of `base`, gives up the ones it holds. */
    method CopyList(discdevs: DiscoveredDevs, ghost table: nat, ghost base: State, ghost scratch: nat)
      returns (list: seq<Dev>)
      requires discdevs.Valid() && table != scratch
      requires Filled(base, scratch, discdevs.Contents()) && Filled(base, table, discdevs.Contents())
      requires View() == AcquireFrom(base, scratch, 0, discdevs.Contents())
      modifies `devs, `held, `destroyed
      ensures list == discdevs.Contents() && View() == AcquireFrom(base, table, 0, list)
    {
      hide Inv, AcquireFrom, Acquire;
      ghost var ds, full := discdevs.Contents(), View();
      list := [];
      AcquireNothing(full, table);
      var i := 0;
      while i < discdevs.len
        invariant 0 <= i <= discdevs.len && list == ds[..i]
        invariant View() == AcquireFrom(full, table, 0, ds[..i])
      {
        AcquireOneMore(full, table, ds, i);
        RefDevice(discdevs.devices[i], Slot(table, i));
        list := list + [discdevs.devices[i]];
        i := i + 1;
      }
      assert ds[..i] == ds;
      TablesCommute(base, scratch, ds, table, ds);
      FilledTwice(base, table, scratch, ds);
      FreeDiscovered(discdevs, scratch, AcquireFrom(base, table, 0, ds));
    }

    /** The loop of libusb_get_device_list over the attached devices. */
    method Discover(discdevs: DiscoveredDevs, memory: Memory, ghost table: nat) returns (ok: bool)
      requires Valid() && Unused(View(), table) && memory.table(SIZE_STEP)
      requires discdevs.Valid() && discdevs.Contents() == [] && discdevs.devices.Length == SIZE_STEP
      modifies `devs, `held, `destroyed, discdevs, discdevs.devices
      ensures discdevs.Valid() && (ok <==> TablesSuffice(memory, |usbDevs|))
      ensures if ok then discdevs.Contents() == usbDevs && View() == AcquireFrom(old(View()), table, 0, usbDevs)
        else View() == old(View())
    {
      hide Agrees, Inv, AcquireFrom, Acquire;
      AttachedAreThere(View(), usbDevs, devOf);
      ghost var base := View();
      var i := 0;
      AcquireNothing(base, table);
      while i < |usbDevs|
        invariant 0 <= i <= |usbDevs| && discdevs.Valid()
        invariant discdevs.devices == old(discdevs.devices) || fresh(discdevs.devices)
        invariant discdevs.Contents() == usbDevs[..i] && discdevs.devices.Length == Capacity(i)
        invariant View() == AcquireFrom(base, table, 0, usbDevs[..i])
        invariant TablesSuffice(memory, i)
      {
        MoreTables(memory, i);
        ok := Append(discdevs, usbDevs[i], memory, table, base);
        if !ok {
          FewerTables(memory, i + 1, |usbDevs|);
          return false;
        }
        i := i + 1;
      }
      assert usbDevs[..i] == usbDevs;
      ok := true;
    }

    /** libusb_get_device_list on a platform with hotplug support.  Either all attached devices are
        listed, each with one new reference for the caller, or there was too little memory and
        nothing has changed. */
    method GetDeviceList(memory: Memory, ghost table: nat, ghost scratch: nat) returns (r: int, list: seq<Dev>)
      requires Valid() && Unused(View(), table) && Unused(View(), scratch) && table != scratch
      modifies `devs, `held, `destroyed
      ensures if TablesSuffice(memory, |usbDevs|) && memory.list(|usbDevs| + 1)
        then r == |usbDevs| && list == usbDevs && View() == AcquireFrom(old(View()), table, 0, usbDevs)
        else r == ERROR_NO_MEM && list == [] && View() == old(View())
    {
      hide Agrees, Inv, AcquireFrom, Acquire;
      AttachedAreThere(View(), usbDevs, devOf);
      list := [];
      FewerTables(memory, 0, |usbDevs|);
      if !memory.table(SIZE_STEP) { return ERROR_NO_MEM, list; }
      var discdevs := new DiscoveredDevs();
      ghost var base := View();
      var ok := Discover(discdevs, memory, scratch);
      if !ok { return ERROR_NO_MEM, list; }
      if memory.list(discdevs.len + 1) {
        list := CopyList(discdevs, table, base, scratch);
        r := |list|;
      } else {
        FreeDiscovered(discdevs, scratch, base);
        r := ERROR_NO_MEM;
      }
    }

    // -------------------------------------------------------------- handles and transfers

    /** libusb_open, with what the backend answers. */
    method Open(dev: Dev, h: HandleId, attached: bool, backend: int) returns (r: int)
      requires Valid() && Enabled(View(), Step.Open(h, dev))
      modifies this
      ensures Valid() && usbDevs == old(usbDevs)
      ensures r == if !attached then ERROR_NO_DEVICE else if backend < 0 then backend else SUCCESS
      ensures View() == if r == SUCCESS then Apply(old(View()), Step.Open(h, dev)) else old(View())
      ensures devOf == if r == SUCCESS then old(devOf)[h := dev] else old(devOf)
    {
      hide Agrees, Inv, Counted, Release;
      if !attached { return ERROR_NO_DEVICE; }
      OpenAgrees(View(), usbDevs, devOf, h, dev);
      ReleaseUndoesAcquire(View(), Handle(h), dev);
      RefDevice(dev, Handle(h));
      if backend < 0 {
        UnrefDevice(dev, Handle(h));
        return backend;
      }
      handles := handles + {h};
      devOf := devOf[h := dev];
      r := SUCCESS;
    }

    /** libusb_submit_transfer, once the backend has accepted the transfer. */
    method KeepDevice(x: TransferId, h: HandleId)
      requires Valid() && h in devOf && Flying(x) !in held
      modifies this
      ensures old(Enabled(View(), Submit(x, h))) && View() == Apply(old(View()), Submit(x, h))
      ensures Valid() && usbDevs == old(usbDevs)
    {
      hide Agrees, Inv, Release, Acquire;
      SubmitAgrees(View(), usbDevs, devOf, x, h);
      RefDevice(devOf[h], Flying(x));
      flyingOn := flyingOn[x := h];
    }

    /** usbi_handle_transfer_completion: the handle is read before the callback runs ... */
    method BeginCompletion(x: TransferId, ghost c: nat) returns (handle: HandleId)
      requires Valid() && Flying(x) in held && x in flyingOn && flyingOn[x] in devOf && Completing(c) !in held
      modifies `held, `completingOn
      ensures old(Enabled(View(), Begin(x, c))) && View() == Apply(old(View()), Begin(x, c))
      ensures Valid() && handle == flyingOn[x]
    {
      hide Agrees, Inv, Release, Acquire;
      BeginAgrees(View(), usbDevs, devOf, x, c);
      handle := flyingOn[x];
      held, completingOn := held[Completing(c) := held[Flying(x)]] - {Flying(x)}, completingOn[c := handle];
    }

    /** ... and its device is the one that the submission took a reference to, whatever the
        callback did in between, short of closing the handle. */
    method EndCompletion(handle: HandleId, ghost c: nat)
      requires Valid() && Completing(c) in held && c in completingOn && completingOn[c] == handle
      modifies `devs, `held, `destroyed
      ensures Valid() && View() == Apply(old(View()), End(c))
    {
      hide Agrees, Inv, Counted, Release, Acquire;
      EndAgrees(View(), usbDevs, devOf, c);
      UnrefDevice(devOf[handle], Completing(c));
    }

    /** The end of do_close. */
    method CloseHandle(h: HandleId)
      requires Valid() && Enabled(View(), Close(h))
      modifies this
      ensures Valid() && usbDevs == old(usbDevs) && devOf == old(devOf) - {h}
      ensures View() == Apply(old(View()), Close(h))
    {
      hide Agrees, Inv, Counted, Release, Acquire;
      CloseAgrees(View(), usbDevs, devOf, h);
      UnrefDevice(devOf[h], Handle(h));
      devOf := devOf - {h};
    }

    /** libusb_open_device_with_vid_pid: of all the references taken on the way, exactly the one of
        the new handle is left, on the first attached device that matches; or none at all. */
    method OpenFirst(matches: Dev -> bool, h: HandleId, attached: bool, backend: int, memory: Memory,
                     ghost table: nat, ghost scratch: nat) returns (found: bool, dev: Dev)
      requires Valid() && Unused(View(), table) && Unused(View(), scratch) && table != scratch && h !in handles
      modifies this
      ensures Valid() && usbDevs == old(usbDevs)
      ensures found ==>
        && IsFirst(usbDevs, matches, dev)
        && old(Enabled(View(), Step.Open(h, dev))) && View() == Apply(old(View()), Step.Open(h, dev))
      ensures !found ==> View() == old(View())
      ensures found <==>
        && attached && backend >= 0 && (exists d | d in usbDevs :: matches(d))
        && TablesSuffice(memory, |usbDevs|) && memory.list(|usbDevs| + 1)
    {
      hide Agrees, Inv, AcquireFrom, Acquire, Release, ReleaseFrom, Filled, Entries, Occupied, Unused, Enabled,
        TablesSuffice, IsFirst;
      ghost var base := View();
      found, dev := false, 0;
      AttachedAreThere(base, usbDevs, devOf);
      var r, devs := GetDeviceList(memory, table, scratch);
      if r < 0 { return; }
      var i := Search(devs, matches);
      FilledTable(base, table, usbDevs, devOf);
      if i < |devs| {
        dev := devs[i];
        OpenUnderList(base, table, devs, h, dev);
        OpenAgrees(base, usbDevs, devOf, h, dev);
        var result := Open(dev, h, attached, backend);
        found := result == SUCCESS;
        if found { base := Apply(base, Step.Open(h, dev)); }
      }
      FilledIsNeutral(base, table, devs, View());
      FreeDeviceList(devs, true, table);
    }
  }
}
