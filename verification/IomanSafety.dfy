/** What every run of the path manager keeps, whatever the backends do inside their callouts. */
module IomanSafety {
  import opened IomanModel
  import opened Options

  datatype Kind = KOpen | KOperate | KClose

  predicate IsCall(c: Callout, kind: Kind, i: nat) {
    match kind
    case KOpen => c.OpenCall? && c.slot == i
    case KOperate => c.OperateCall? && c.slot == i
    case KClose => c.CloseCall? && c.slot == i
  }

  /** Number of pending callouts of one kind on one slot. */
  function Count(pending: seq<Callout>, kind: Kind, i: nat): nat {
    if pending == [] then 0
    else Count(pending[1..], kind, i) + (if IsCall(pending[0], kind, i) then 1 else 0)
  }

  lemma {:induction false} CountAppend(p: seq<Callout>, q: seq<Callout>, kind: Kind, i: nat)
    ensures Count(p + q, kind, i) == Count(p, kind, i) + Count(q, kind, i)
  {
    if p == [] {
      assert p + q == q;
    } else {
      assert (p + q)[1..] == p[1..] + q;
      CountAppend(p[1..], q, kind, i);
    }
  }

  lemma CountPush(p: seq<Callout>, c: Callout, kind: Kind, i: nat)
    ensures Count(p + [c], kind, i) == Count(p, kind, i) + (if IsCall(c, kind, i) then 1 else 0)
  {
    CountAppend(p, [c], kind, i);
    assert [c][1..] == [];
  }

  lemma CountRemove(p: seq<Callout>, k: nat, kind: Kind, i: nat)
    requires k < |p|
    ensures Count(p, kind, i) == Count(Remove(p, k), kind, i) + (if IsCall(p[k], kind, i) then 1 else 0)
  {
    assert p == p[..k] + ([p[k]] + p[k + 1..]);
    CountAppend(p[..k], [p[k]] + p[k + 1..], kind, i);
    CountAppend([p[k]], p[k + 1..], kind, i);
    CountAppend(p[..k], p[k + 1..], kind, i);
    assert [p[k]][1..] == [];
  }

  // ----- the invariant -----

  /** Prefixes in the registry are non-empty and pairwise different. */
  predicate RoutesOk(routes: seq<Route>) {
    && (forall j :: 0 <= j < |routes| && routes[j].Route? ==>
          routes[j].prefix != "" && routes[j].backend.open && routes[j].backend.close)
    && (forall i, j :: 0 <= i < j < |routes| && routes[i].Route? && routes[j].Route? ==>
          routes[i].prefix != routes[j].prefix)
  }

  /** The phase and the counter of a slot are exactly its pending callouts. */
  predicate Accounted(slot: Slot, pending: seq<Callout>, i: nat) {
    && Count(pending, KOpen, i) == (if slot.Slot? && slot.phase == Opening then 1 else 0)
    && Count(pending, KClose, i) == (if slot.Slot? && slot.phase == Closing then 1 else 0)
    && Count(pending, KOperate, i) == (if slot.Slot? then slot.active else 0)
    && (slot.Slot? && slot.phase != Open ==> slot.active == 0)
  }

  /** A callout in progress still finds the slot bound as it was when it was entered. */
  predicate Pinned(c: Callout, slots: seq<Slot>) {
    c.NameCall? ||
    (&& c.slot < |slots|
     && slots[c.slot].Slot?
     && slots[c.slot].backend == c.backend
     && slots[c.slot].context == c.context
     && (c.OpenCall? ==> slots[c.slot].phase == Opening && slots[c.slot].prefix == c.prefix
                         && slots[c.slot].access == c.access)
     && (c.OperateCall? ==> slots[c.slot].phase == Open && slots[c.slot].handle == c.handle
                            && Permits(slots[c.slot].access, c.op))
     && (c.CloseCall? ==> slots[c.slot].phase == Closing && slots[c.slot].handle == c.handle))
  }

  /** A slot opened through the registry still has its route, with the same backend and context. */
  predicate Routed(slot: Slot, routes: seq<Route>) {
    slot.Slot? && slot.prefix.Some? ==>
      exists j :: 0 <= j < |routes| && routes[j] == Route(slot.prefix.value, slot.backend, slot.context)
  }

  /** The local path numbers in force, and what they stand for. */
  predicate InForce(slots: seq<Slot>, n: nat) {
    1 <= n <= |slots| && slots[n - 1].Slot? && slots[n - 1].phase != Opening
  }

  function View(slots: seq<Slot>): map<nat, Binding> {
    map n: nat | 1 <= n <= |slots| && InForce(slots, n) :: BindingOf(slots[n - 1])
  }

  /** Changing only the counter or the phase of a slot in force changes no binding. */
  lemma ViewSame(slots: seq<Slot>, i: nat, slot: Slot)
    requires i < |slots|
    requires InForce(slots, i + 1) == (slot.Slot? && slot.phase != Opening)
    requires InForce(slots, i + 1) ==> BindingOf(slots[i]) == BindingOf(slot)
    ensures View(slots[i := slot]) == View(slots)
  {
    var v, v' := View(slots), View(slots[i := slot]);
    forall n: nat
      ensures n in v <==> n in v'
      ensures n in v ==> v[n] == v'[n]
    {
      if n != i + 1 { assert InForce(slots, n) == InForce(slots[i := slot], n); }
    }
  }

  /** The meaning of a log of successful opens and closes. */
  function Replay(log: seq<Event>): map<nat, Binding> {
    if log == [] then map[]
    else
      var m := Replay(log[..|log| - 1]);
      match log[|log| - 1]
      case Opened(path, binding) => m[path as nat := binding]
      case Closed(path) => m - {path as nat}
  }

  predicate Inv(s: State) {
    && 1 <= |s.slots| < 0x1_0000
    && RoutesOk(s.routes)
    && (forall i :: 0 <= i < |s.slots| ==> Accounted(s.slots[i], s.pending, i))
    && (forall i :: 0 <= i < |s.slots| ==> s.slots[i].Slot? ==> s.slots[i].backend.close)
    && (forall c :: c in s.pending ==> Pinned(c, s.slots))
    && (forall i :: 0 <= i < |s.slots| ==> Routed(s.slots[i], s.routes))
    && View(s.slots) == Replay(s.log)
  }

  lemma InitInv(capacity: u16)
    requires capacity > 0
    ensures Inv(Init(capacity))
  {
    var s := Init(capacity);
    assert View(s.slots) == map[];
  }

  // ----- each operation keeps the invariant -----

  lemma RegisterInv(s: State, prefix: Option<Prefix>, backend: Option<Backend>, context: int)
    requires Inv(s)
    ensures Inv(RegisterRoute(s, prefix, backend, context).0)
  {
    var s' := RegisterRoute(s, prefix, backend, context).0;
    if s' != s {
      forall i | 0 <= i < |s.slots|
        ensures Routed(s'.slots[i], s'.routes)
      {
        assert Routed(s.slots[i], s.routes);
        if s.slots[i].Slot? && s.slots[i].prefix.Some? {
          var want := Route(s.slots[i].prefix.value, s.slots[i].backend, s.slots[i].context);
          var j :| 0 <= j < |s.routes| && s.routes[j] == want;
          assert s'.routes[j] == want;
        }
      }
    }
  }

  lemma UnregisterInv(s: State, prefix: Option<Prefix>)
    requires Inv(s)
    ensures Inv(UnregisterRoute(s, prefix).0)
  {
    var s' := UnregisterRoute(s, prefix).0;
    if s' != s {
      forall i | 0 <= i < |s.slots|
        ensures Routed(s'.slots[i], s'.routes)
      {
        assert Routed(s.slots[i], s.routes);
        if s.slots[i].Slot? && s.slots[i].prefix.Some? {
          var want := Route(s.slots[i].prefix.value, s.slots[i].backend, s.slots[i].context);
          var j :| 0 <= j < |s.routes| && s.routes[j] == want;
          assert s'.routes[j] == want;
        }
      }
    }
  }

  /** Replacing slot i and pushing one callout on it, with the callouts of every other slot untouched. */
  lemma PushInv(s: State, i: nat, slot: Slot, c: Callout)
    requires Inv(s) && i < |s.slots|
    requires slot.Slot? && slot.backend.close && !c.NameCall? && c.slot == i
    requires Routed(slot, s.routes)
    requires Accounted(slot, s.pending + [c], i)
    requires View(s.slots[i := slot]) == View(s.slots)
    requires Pinned(c, s.slots[i := slot])
    requires forall d :: d in s.pending && !d.NameCall? && d.slot == i ==> Pinned(d, s.slots[i := slot])
    ensures Inv(s.(slots := s.slots[i := slot], pending := s.pending + [c]))
  {
    var slots' := s.slots[i := slot];
    forall j | 0 <= j < |slots'|
      ensures Accounted(slots'[j], s.pending + [c], j)
    {
      if j != i {
        assert Accounted(s.slots[j], s.pending, j);
        CountPush(s.pending, c, KOpen, j);
        CountPush(s.pending, c, KOperate, j);
        CountPush(s.pending, c, KClose, j);
      }
    }
    forall d | d in s.pending + [c]
      ensures Pinned(d, slots')
    {
      if d in s.pending && !d.NameCall? && d.slot != i {
        assert Pinned(d, s.slots);
      }
    }
  }

  /** No callout is pending on a slot whose counts are all zero. */
  lemma {:induction false} NoCalls(p: seq<Callout>, i: nat)
    ensures Count(p, KOpen, i) == 0 && Count(p, KClose, i) == 0 && Count(p, KOperate, i) == 0
            <==> forall d :: d in p && !d.NameCall? ==> d.slot != i
  {
    if p != [] {
      NoCalls(p[1..], i);
      assert p == [p[0]] + p[1..];
      if !p[0].NameCall? && p[0].slot == i {
        assert IsCall(p[0], KOpen, i) || IsCall(p[0], KOperate, i) || IsCall(p[0], KClose, i);
      }
    }
  }

  lemma BeginOpenInv(s: State, backend: Option<Backend>, context: int, path: Option<CString>,
                     prefix: Option<Prefix>, mode: u16, create: bool)
    requires Inv(s)
    requires prefix.Some? && backend.Some? ==>
               exists j :: 0 <= j < |s.routes| && s.routes[j] == Route(prefix.value, backend.value, context)
    ensures Inv(BeginOpen(s, backend, context, path, prefix, mode, create).0)
  {
    var s' := BeginOpen(s, backend, context, path, prefix, mode, create).0;
    if s' != s {
      var i := FirstFree(s.slots);
      var c := OpenCall(i, backend.value, context, prefix, AccessMode(mode));
      var slot := Slot(Opening, 0, AccessMode(mode), 0, backend.value, context, prefix);
      assert Accounted(s.slots[i], s.pending, i);
      NoCalls(s.pending, i);
      CountPush(s.pending, c, KOpen, i);
      CountPush(s.pending, c, KOperate, i);
      CountPush(s.pending, c, KClose, i);
      ViewSame(s.slots, i, slot);
      PushInv(s, i, slot, c);
    }
  }

  lemma BeginOperateInv(s: State, local: u16, op: Operation)
    requires Inv(s)
    ensures Inv(BeginOperate(s, local, op).0)
  {
    var (s', r) := BeginOperate(s, local, op);
    if r.CalledOut? {
      var i := local - 1;
      var was := s.slots[i];
      var slot := was.(active := was.active + 1);
      var c := OperateCall(i, was.backend, was.context, was.handle, op);
      assert Accounted(was, s.pending, i) && Routed(was, s.routes);
      CountPush(s.pending, c, KOpen, i);
      CountPush(s.pending, c, KOperate, i);
      CountPush(s.pending, c, KClose, i);
      ViewSame(s.slots, i, slot);
      forall d | d in s.pending && !d.NameCall? && d.slot == i
        ensures Pinned(d, s.slots[i := slot])
      {
        assert Pinned(d, s.slots);
      }
      PushInv(s, i, slot, c);
    }
  }

  lemma BeginCloseInv(s: State, local: u16)
    requires Inv(s)
    ensures Inv(BeginClose(s, local).0)
  {
    var (s', r) := BeginClose(s, local);
    if r.CalledOut? {
      var i := local - 1;
      var was := s.slots[i];
      var slot := was.(phase := Closing);
      var c := CloseCall(i, was.backend, was.context, was.handle);
      assert Accounted(was, s.pending, i) && Routed(was, s.routes);
      CountPush(s.pending, c, KOpen, i);
      CountPush(s.pending, c, KOperate, i);
      CountPush(s.pending, c, KClose, i);
      NoCalls(s.pending, i);
      ViewSame(s.slots, i, slot);
      PushInv(s, i, slot, c);
    }
  }

  lemma BeginNameInv(s: State, path: Option<CString>, op: Operation)
    requires Inv(s)
    ensures Inv(BeginNameOperation(s, path, op).0)
  {
    var s' := BeginNameOperation(s, path, op).0;
    if s' != s {
      var c := s'.pending[|s.pending|];
      assert s'.pending == s.pending + [c];
      forall i | 0 <= i < |s.slots|
        ensures Accounted(s'.slots[i], s'.pending, i)
      {
        assert Accounted(s.slots[i], s.pending, i);
        CountPush(s.pending, c, KOpen, i);
        CountPush(s.pending, c, KOperate, i);
        CountPush(s.pending, c, KClose, i);
      }
    }
  }

  /** In a state that satisfies the invariant every pending callout can return. */
  lemma PendingEnabled(s: State, k: nat)
    requires Inv(s) && k < |s.pending|
    ensures Enabled(s, k)
  {
    var c := s.pending[k];
    assert c in s.pending;
    assert Pinned(c, s.slots);
    if !c.NameCall? && c.slot == 0xFFFF { assert false; }
  }

  /** How many callouts a returning one leaves on its own slot. */
  lemma FinishAccounted(s: State, k: nat, status: Status, handle: u16)
    requires Inv(s) && Enabled(s, k) && !s.pending[k].NameCall?
    ensures var c := s.pending[k];
            Accounted(FinishSlot(c, s.slots[c.slot], status, handle), Remove(s.pending, k), c.slot)
  {
    var c := s.pending[k];
    var slot := s.slots[c.slot];
    assert c in s.pending && Pinned(c, s.slots) && Accounted(slot, s.pending, c.slot);
    CountRemove(s.pending, k, KOpen, c.slot);
    CountRemove(s.pending, k, KOperate, c.slot);
    CountRemove(s.pending, k, KClose, c.slot);
  }

  /** The callouts that stay pending are still pinned when another one on the slot returns. */
  lemma FinishPinned(s: State, k: nat, status: Status, handle: u16, d: Callout)
    requires Inv(s) && Enabled(s, k) && !s.pending[k].NameCall?
    requires d in Remove(s.pending, k)
    ensures Pinned(d, Finish(s, k, status, handle).0.slots)
  {
    var c := s.pending[k];
    assert c in s.pending && d in s.pending;
    assert Pinned(c, s.slots) && Pinned(d, s.slots);
    if !d.NameCall? && d.slot == c.slot {
      FinishAccounted(s, k, status, handle);
      NoCalls(Remove(s.pending, k), c.slot);
      assert c.OperateCall?;
    }
  }

  /** A slot that comes into force adds one binding ... */
  lemma ViewAdd(slots: seq<Slot>, i: nat, slot: Slot)
    requires i < |slots| && !InForce(slots, i + 1) && slot.Slot? && slot.phase != Opening
    ensures i + 1 !in View(slots) && View(slots[i := slot]) == View(slots)[i + 1 := BindingOf(slot)]
  {
    var v, v' := View(slots), View(slots[i := slot]);
    forall n: nat
      ensures n in v' <==> n == i + 1 || n in v
      ensures n in v' && n != i + 1 ==> v'[n] == v[n]
    {
      if n != i + 1 { assert InForce(slots, n) == InForce(slots[i := slot], n); }
    }
  }

  /** ... and one that is freed takes exactly its own away. */
  lemma ViewDrop(slots: seq<Slot>, i: nat)
    requires i < |slots| && InForce(slots, i + 1)
    ensures i + 1 in View(slots) && View(slots[i := Free]) == View(slots) - {i + 1}
  {
    var v, v' := View(slots), View(slots[i := Free]);
    forall n: nat
      ensures n in v' <==> n != i + 1 && n in v
      ensures n in v' ==> v'[n] == v[n]
    {
      if n != i + 1 { assert InForce(slots, n) == InForce(slots[i := Free], n); }
    }
  }

  /** What a return does to the path numbers: nothing, one new binding, or one binding less. */
  lemma FinishView(s: State, k: nat, status: Status, handle: u16)
    requires Inv(s) && Enabled(s, k)
    ensures var (s', _) := Finish(s, k, status, handle);
            var c := s.pending[k];
            && (status == Ok && c.OpenCall? ==>
                  && c.slot + 1 !in View(s.slots)
                  && View(s'.slots) == View(s.slots)[c.slot + 1 :=
                       Binding(c.backend, c.context, handle, c.access, c.prefix)])
            && (status == Ok && c.CloseCall? ==>
                  && c.slot + 1 in View(s.slots)
                  && View(s.slots)[c.slot + 1].handle == c.handle
                  && View(s'.slots) == View(s.slots) - {c.slot + 1})
            && (status != Ok || c.OperateCall? || c.NameCall? ==> View(s'.slots) == View(s.slots))
  {
    var c := s.pending[k];
    assert c in s.pending && Pinned(c, s.slots);
    if !c.NameCall? {
      var slot := FinishSlot(c, s.slots[c.slot], status, handle);
      if status != Ok || c.OperateCall? { ViewSame(s.slots, c.slot, slot); }
      else if c.OpenCall? { ViewAdd(s.slots, c.slot, slot); }
      else { ViewDrop(s.slots, c.slot); }
    }
  }

  lemma FinishInv(s: State, k: nat, status: Status, handle: u16)
    requires Inv(s) && Enabled(s, k)
    ensures Inv(Finish(s, k, status, handle).0)
  {
    var (s', _) := Finish(s, k, status, handle);
    var c := s.pending[k];
    FinishView(s, k, status, handle);
    forall j | 0 <= j < |s.slots|
      ensures Accounted(s'.slots[j], s'.pending, j) && Routed(s'.slots[j], s'.routes)
    {
      assert Accounted(s.slots[j], s.pending, j) && Routed(s.slots[j], s.routes);
      if !c.NameCall? && c.slot == j {
        FinishAccounted(s, k, status, handle);
      } else {
        CountRemove(s.pending, k, KOpen, j);
        CountRemove(s.pending, k, KOperate, j);
        CountRemove(s.pending, k, KClose, j);
      }
    }
    forall d | d in s'.pending
      ensures Pinned(d, s'.slots)
    {
      if c.NameCall? { assert d in s.pending; } else { FinishPinned(s, k, status, handle, d); }
    }
    FinishReplay(s, k, status, handle);
  }

  lemma FinishReplay(s: State, k: nat, status: Status, handle: u16)
    requires Inv(s) && Enabled(s, k)
    ensures var (s', _) := Finish(s, k, status, handle); View(s'.slots) == Replay(s'.log)
  {
    var (s', _) := Finish(s, k, status, handle);
    var c := s.pending[k];
    assert c in s.pending && Pinned(c, s.slots);
    FinishView(s, k, status, handle);
    if status == Ok && !c.NameCall? && !c.OperateCall? {
      assert s'.log[..|s'.log| - 1] == s.log;
    } else {
      assert s'.log == s.log;
    }
  }

  lemma StepInv(s: State, a: Action)
    requires Inv(s)
    ensures Inv(Step(s, a).0) && |Step(s, a).0.slots| == |s.slots|
  {
    match a
    case Register(p, b, c) => RegisterInv(s, p, b, c);
    case Unregister(p) => UnregisterInv(s, p);
    case OpenDirect(b, c, path, mode) => BeginOpenInv(s, b, c, path, None, mode, false);
    case OpenResolved(path, mode, create) =>
      if path.Some? && FindRoute(s.routes, path.value).Some? {
        var route := s.routes[FindRoute(s.routes, path.value).value];
        BeginOpenInv(s, Some(route.backend), route.context, path, Some(route.prefix), mode, create);
      }
    case Operate(local, op) => BeginOperateInv(s, local, op);
    case Close(local) => BeginCloseInv(s, local);
    case NameOperation(path, op) => BeginNameInv(s, path, op);
    case Return(k, status, handle) => if Enabled(s, k) { FinishInv(s, k, status, handle); }
  }

  lemma {:induction false} RunInv(capacity: u16, actions: seq<Action>)
    requires capacity > 0
    ensures Inv(Run(capacity, actions))
    ensures |Run(capacity, actions).slots| == capacity
  {
    if actions == [] {
      InitInv(capacity);
    } else {
      RunInv(capacity, actions[..|actions| - 1]);
      StepInv(Run(capacity, actions[..|actions| - 1]), actions[|actions| - 1]);
    }
  }

  // ----- what this means, run by run -----

  /** In every run, a slot is opening (closing) exactly when one open (close) callout on it
      is pending, its counter is the number of operations in progress on it, and a slot
      with any callout in progress is neither freed nor rebound. */
  lemma CalloutsAccounted(capacity: u16, actions: seq<Action>)
    requires capacity > 0
    ensures var s := Run(capacity, actions);
            && |s.slots| == capacity
            && (forall i :: 0 <= i < capacity ==> Accounted(s.slots[i], s.pending, i))
            && (forall k :: 0 <= k < |s.pending| ==> Pinned(s.pending[k], s.slots) && Enabled(s, k))
  {
    RunInv(capacity, actions);
    var s := Run(capacity, actions);
    forall k | 0 <= k < |s.pending|
      ensures Pinned(s.pending[k], s.slots) && Enabled(s, k)
    {
      assert s.pending[k] in s.pending;
      PendingEnabled(s, k);
    }
  }

  /** The counter never underflows: a returning operation always finds it positive. */
  lemma CounterPositive(capacity: u16, actions: seq<Action>, k: nat)
    requires capacity > 0
    requires k < |Run(capacity, actions).pending| && Run(capacity, actions).pending[k].OperateCall?
    ensures var s := Run(capacity, actions);
            var i := s.pending[k].slot;
            i < |s.slots| && s.slots[i].Slot? && s.slots[i].active > 0
  {
    RunInv(capacity, actions);
    var s := Run(capacity, actions);
    var c := s.pending[k];
    assert c in s.pending && Pinned(c, s.slots);
    assert Accounted(s.slots[c.slot], s.pending, c.slot);
    CountRemove(s.pending, k, KOperate, c.slot);
  }

  /** In every run, each path opened through a route still has that route registered with the
      backend and context it was opened with. */
  lemma RoutesPinned(capacity: u16, actions: seq<Action>, i: nat)
    requires capacity > 0 && i < |Run(capacity, actions).slots|
    ensures Routed(Run(capacity, actions).slots[i], Run(capacity, actions).routes)
  {
    RunInv(capacity, actions);
  }

  /** Unregistering is refused exactly while some path, in whatever phase, uses the route. */
  lemma UnregisterBusyIffUsed(capacity: u16, actions: seq<Action>, j: nat)
    requires capacity > 0
    requires j < |Run(capacity, actions).routes| && Run(capacity, actions).routes[j].Route?
    ensures var s := Run(capacity, actions);
            var p := s.routes[j].prefix;
            var (s', r) := Step(s, Unregister(Some(p)));
            && (r == Done(Busy, 0) <==> RouteInUse(s.slots, p))
            && (r == Done(Ok, 0) <==> !RouteInUse(s.slots, p))
            && s'.routes == (if RouteInUse(s.slots, p) then s.routes else s.routes[j := Unused])
  {
    RunInv(capacity, actions);
    var s := Run(capacity, actions);
    assert FindPrefix(s.routes, s.routes[j].prefix) == j;
  }

  /** In every run the path table is exactly what the log of successful opens and closes says,
      so failed opens and closes, and everything still in progress, are invisible in it. */
  lemma TableIsReplayOfLog(capacity: u16, actions: seq<Action>)
    requires capacity > 0
    ensures View(Run(capacity, actions).slots) == Replay(Run(capacity, actions).log)
  {
    RunInv(capacity, actions);
  }

  /** The binding is what this operation or close was called with, and permits it. */
  predicate Serves(b: Binding, c: Callout)
    requires c.OperateCall? || c.CloseCall?
  {
    && b.backend == c.backend && b.context == c.context && b.handle == c.handle
    && (c.OperateCall? && (c.op == Read || c.op == ReadLine) ==> b.access % 2 == 1)
    && (c.OperateCall? && (c.op == Write || c.op == WriteLine) ==> b.access / 2 % 2 == 1)
  }

  lemma PinnedServes(slots: seq<Slot>, c: Callout)
    requires Pinned(c, slots) && (c.OperateCall? || c.CloseCall?)
    ensures c.slot + 1 in View(slots) && Serves(View(slots)[c.slot + 1], c)
  {
    assert InForce(slots, c.slot + 1);
  }

  /** In every run, an operation or close in progress was called with the backend, context and handle
      that the last successful open of its path number brought, and a read (write) only on a path
      opened for reading (writing). */
  lemma CalloutsMatchLog(capacity: u16, actions: seq<Action>, k: nat)
    requires capacity > 0 && k < |Run(capacity, actions).pending|
    requires var c := Run(capacity, actions).pending[k]; c.OperateCall? || c.CloseCall?
    ensures var s := Run(capacity, actions);
            var c, now := s.pending[k], Replay(s.log);
            c.slot + 1 in now && Serves(now[c.slot + 1], c)
  {
    RunInv(capacity, actions);
    var s := Run(capacity, actions);
    var c := s.pending[k];
    assert c in s.pending && Pinned(c, s.slots);
    PinnedServes(s.slots, c);
  }

  /** What an open mode grants: mode 0 everything, and otherwise what its two low bits say. */
  lemma ModeGrants(mode: u16)
    ensures AccessMode(mode) % 2 == 1 <==> mode == 0 || mode % 2 == 1
    ensures AccessMode(mode) / 2 % 2 == 1 <==> mode == 0 || mode / 2 % 2 == 1
  {
  }

  function Opens(log: seq<Event>): nat {
    if log == [] then 0 else Opens(log[..|log| - 1]) + (if log[|log| - 1].Opened? then 1 else 0)
  }

  function Closes(log: seq<Event>): nat {
    if log == [] then 0 else Closes(log[..|log| - 1]) + (if log[|log| - 1].Closed? then 1 else 0)
  }

  /** The path numbers in force, and the log, are untouched; ... */
  predicate Unmoved(s: State, s': State) { s'.log == s.log && View(s'.slots) == View(s.slots) }

  /** ... one fresh number came into force; ... */
  predicate OneOpened(s: State, s': State, r: Reply, path: u16, b: Binding) {
    && s'.log == s.log + [Opened(path, b)] && r == Done(Ok, path)
    && path as nat !in View(s.slots) && View(s'.slots) == View(s.slots)[path as nat := b]
  }

  /** ... or exactly this number went. */
  predicate OneClosed(s: State, s': State, r: Reply, path: u16) {
    && s'.log == s.log + [Closed(path)] && r == Done(Ok, 0)
    && path as nat in View(s.slots) && View(s'.slots) == View(s.slots) - {path as nat}
  }

  ghost predicate Moved(s: State, s': State, r: Reply) {
    || Unmoved(s, s')
    || (exists path: u16, b :: OneOpened(s, s', r, path, b))
    || (exists path: u16 :: OneClosed(s, s', r, path))
  }

  lemma ReturnView(s: State, k: nat, status: Status, handle: u16)
    requires Inv(s) && Enabled(s, k)
    ensures var (s', r) := Finish(s, k, status, handle);
            Moved(s, s', r) && (status != Ok ==> Unmoved(s, s'))
  {
    var (s', r) := Finish(s, k, status, handle);
    FinishView(s, k, status, handle);
    var c := s.pending[k];
    assert c in s.pending && Pinned(c, s.slots);
    if status == Ok && c.OpenCall? {
      assert OneOpened(s, s', r, c.slot + 1, Binding(c.backend, c.context, handle, c.access, c.prefix));
    } else if status == Ok && c.CloseCall? {
      assert OneClosed(s, s', r, c.slot + 1);
    } else {
      assert Unmoved(s, s');
    }
  }

  /** A call that only starts something moves nothing. */
  lemma CallView(s: State, a: Action)
    requires Inv(s) && !(a.Return? && Enabled(s, a.k))
    ensures Unmoved(s, Step(s, a).0)
  {
    StepInv(s, a);
    assert Step(s, a).0.log == s.log;
  }

  /** One step changes the path numbers in force only by a successful open (one fresh number)
      or a successful close (exactly that number); any failing call or return changes none. */
  lemma StepView(s: State, a: Action)
    requires Inv(s)
    ensures var (s', r) := Step(s, a);
            Moved(s, s', r) && (r != CalledOut && r.status != Ok ==> Unmoved(s, s'))
  {
    if a.Return? && Enabled(s, a.k) { ReturnView(s, a.k, a.status, a.handle); } else { CallView(s, a); }
  }

  lemma {:induction false} OpensMinusCloses(capacity: u16, actions: seq<Action>)
    requires capacity > 0
    ensures var s := Run(capacity, actions);
            Opens(s.log) - Closes(s.log) == |View(s.slots)|
  {
    if actions == [] {
      assert View(Init(capacity).slots) == map[];
    } else {
      var before := Run(capacity, actions[..|actions| - 1]);
      OpensMinusCloses(capacity, actions[..|actions| - 1]);
      RunInv(capacity, actions[..|actions| - 1]);
      StepView(before, actions[|actions| - 1]);
      StepBalance(before, actions[|actions| - 1]);
    }
  }

  lemma StepBalance(s: State, a: Action)
    requires Inv(s) && Opens(s.log) - Closes(s.log) == |View(s.slots)|
    ensures var s' := Step(s, a).0; Opens(s'.log) - Closes(s'.log) == |View(s'.slots)|
  {
    StepView(s, a);
    var (s', r) := Step(s, a);
    if !Unmoved(s, s') { EventBalance(s, s', r); }
  }

  lemma CountEvent(log: seq<Event>, e: Event)
    ensures Opens(log + [e]) == Opens(log) + (if e.Opened? then 1 else 0)
    ensures Closes(log + [e]) == Closes(log) + (if e.Closed? then 1 else 0)
  {
    assert (log + [e])[..|log|] == log;
  }

  lemma KeysMore(v: map<nat, Binding>, n: nat, b: Binding)
    requires n !in v
    ensures |v[n := b]| == |v| + 1
  {
    assert v[n := b].Keys == v.Keys + {n};
  }

  lemma KeysLess(v: map<nat, Binding>, n: nat)
    requires n in v
    ensures |v - {n}| == |v| - 1
  {
    assert v.Keys == (v - {n}).Keys + {n};
  }

  lemma EventBalance(s: State, s': State, r: Reply)
    requires Moved(s, s', r) && !Unmoved(s, s') && Opens(s.log) - Closes(s.log) == |View(s.slots)|
    ensures Opens(s'.log) - Closes(s'.log) == |View(s'.slots)|
  {
    if path: u16, b :| OneOpened(s, s', r, path, b) {
      CountEvent(s.log, Opened(path, b));
      KeysMore(View(s.slots), path, b);
    } else {
      var path: u16 :| OneClosed(s, s', r, path);
      CountEvent(s.log, Closed(path));
      KeysLess(View(s.slots), path);
    }
  }

  /** A name operation pins nothing: its route can be unregistered while the backend is still
      inside the call.  (Open, operate and close callouts do pin theirs, see RoutesPinned.) */
  lemma NameOperationDoesNotPin()
    ensures var b := Backend(1, true, true, true, true, true);
            var s := Run(1, [Register(Some("/a"), Some(b), 7), NameOperation(Some("/a"), Delete),
                             Unregister(Some("/a"))]);
            s.pending == [NameCall(b, 7)] && forall j :: 0 <= j < |s.routes| ==> s.routes[j].Unused?
  {
    var b := Backend(1, true, true, true, true, true);
    var a0, a1, a2 := Register(Some("/a"), Some(b), 7), NameOperation(Some("/a"), Delete), Unregister(Some("/a"));
    RunThree(1, a0, a1, a2);
    RegisterFirst("/a", b, 7);
    NameEnters("/a", b, 7);
    RouteLeaves("/a", b, 7);
  }

  lemma RunThree(capacity: u16, a0: Action, a1: Action, a2: Action)
    ensures Run(capacity, [a0, a1, a2]) == Step(Step(Step(Init(capacity), a0).0, a1).0, a2).0
  {
    assert [a0, a1, a2][..2] == [a0, a1] && [a0, a1][..1] == [a0] && [a0][..0] == [];
    assert Run(capacity, [a0]) == Step(Init(capacity), a0).0;
    assert Run(capacity, [a0, a1]) == Step(Step(Init(capacity), a0).0, a1).0;
  }

  /** One path slot and one route. */
  function OneRoute(p: Prefix, b: Backend, context: int): State {
    Init(1).(routes := Init(1).routes[0 := Route(p, b, context)])
  }

  lemma RegisterFirst(p: Prefix, b: Backend, context: int)
    requires p != "" && b.open && b.close
    ensures Step(Init(1), Register(Some(p), Some(b), context)).0 == OneRoute(p, b, context)
  {
    FindPrefixNone(Init(1).routes, p);
    assert FirstUnused(Init(1).routes) == 0;
  }

  lemma NameEnters(p: Prefix, b: Backend, context: int)
    requires p != "" && b.nameOperation
    ensures Step(OneRoute(p, b, context), NameOperation(Some(p), Delete)).0
            == OneRoute(p, b, context).(pending := [NameCall(b, context)])
  {
    var s := OneRoute(p, b, context);
    SelectOnly(s.routes, p, |s.routes|);
    assert [] + [NameCall(b, context)] == [NameCall(b, context)];
  }

  lemma RouteLeaves(p: Prefix, b: Backend, context: int)
    requires p != ""
    ensures var s' := Step(OneRoute(p, b, context).(pending := [NameCall(b, context)]), Unregister(Some(p))).0;
            s'.pending == [NameCall(b, context)] && forall j :: 0 <= j < |s'.routes| ==> s'.routes[j].Unused?
  {
    assert FindPrefix(OneRoute(p, b, context).routes, p) == 0;
  }

  lemma FindPrefixNone(routes: seq<Route>, p: Prefix)
    requires forall j :: 0 <= j < |routes| ==> routes[j].Unused?
    ensures FindPrefix(routes, p) == |routes|
  {
  }

  lemma {:induction false} SelectOnly(routes: seq<Route>, path: CString, n: nat)
    requires 1 <= n <= |routes| && Matches(routes[0], path)
    requires forall j :: 1 <= j < |routes| ==> routes[j].Unused?
    ensures Select(routes, path, n) == Some(0)
  {
    if n > 1 { SelectOnly(routes, path, n - 1); } else { assert Select(routes, path, 0) == None; }
  }

  // ----- routes -----

  /** The scan finds a route exactly when one covers the path, and then a longest one. */
  lemma {:induction false} SelectLongest(routes: seq<Route>, path: CString, n: nat)
    requires n <= |routes|
    ensures var r := Select(routes, path, n);
            && (r.None? <==> forall j :: 0 <= j < n ==> !Matches(routes[j], path))
            && (r.Some? ==> forall j :: 0 <= j < n && Matches(routes[j], path) ==>
                              |routes[j].prefix| <= |routes[r.value].prefix|)
  {
    if n > 0 { SelectLongest(routes, path, n - 1); }
  }

  predicate Registered(routes: seq<Route>, r: Route) {
    r.Route? && r in routes
  }

  /** Two registries holding the same routes, in whatever order and slots, resolve every path
      to the same route. */
  lemma RouteIndependentOfOrder(routes: seq<Route>, routes': seq<Route>, path: CString)
    requires RoutesOk(routes) && RoutesOk(routes')
    requires forall r :: Registered(routes, r) <==> Registered(routes', r)
    ensures var f, f' := FindRoute(routes, path), FindRoute(routes', path);
            && (f.Some? <==> f'.Some?)
            && (f.Some? ==> routes[f.value] == routes'[f'.value])
  {
    SelectLongest(routes, path, |routes|);
    SelectLongest(routes', path, |routes'|);
    var f, f' := FindRoute(routes, path), FindRoute(routes', path);
    if f.Some? {
      assert Registered(routes, routes[f.value]) && Registered(routes', routes[f.value]);
      var j :| 0 <= j < |routes'| && routes'[j] == routes[f.value];
    }
    if f'.Some? {
      assert Registered(routes', routes'[f'.value]) && Registered(routes, routes'[f'.value]);
      var j :| 0 <= j < |routes| && routes[j] == routes'[f'.value];
      assert Matches(routes[j], path);
    }
    if f.Some? && f'.Some? {
      var p, p' := routes[f.value].prefix, routes'[f'.value].prefix;
      assert |p| == |p'| && p == path[..|p|] && p' == path[..|p'|];
      var j :| 0 <= j < |routes| && routes[j] == routes'[f'.value];
      assert routes[j].prefix == routes[f.value].prefix;
    }
  }
}
