/** The Q9-IOMAN path manager as a state machine.

    A backend may call back into the manager in the middle of an open, an
    operation or a close.  Every callout is therefore two atomic steps: the call
    (which reserves or counts in the path table and pushes a pending callout) and
    the return of any one pending callout.  Between the two, arbitrary further
    calls and returns may happen. */
module IomanModel {
  import opened Options

  type u16 = x: int | 0 <= x < 0x1_0000

  /** A C string: the terminating NUL is not part of the value. */
  type CString = s: string | '\0' !in s

  /** Route prefixes are shorter than the 65535 characters a 16-bit length can tell apart. */
  type Prefix = s: CString | |s| < 0xFFFF

  const ROUTE_CAPACITY := 8

  datatype Status =
    | Ok | InvalidArgument | InvalidPath | NoPathSlots | UnsupportedOperation
    | NotFound | RegistryFull | Busy | WrongMode

  datatype Operation =
    | Read | Write | ReadLine | WriteLine | Seek | GetStatus | SetStatus
    | MakeDir | Delete

  /** A backend table; `id` is its address, the flags say which entries are non-null. */
  datatype Backend = Backend(id: int, open: bool, operate: bool, close: bool,
                             create: bool, nameOperation: bool)

  datatype Phase = Opening | Open | Closing

  /** One path slot.  A slot in use is bound to a backend, a context and (if it was
      opened through the registry) a route prefix. */
  datatype Slot =
    | Free
    | Slot(phase: Phase, handle: u16, access: u16, active: u16,
           backend: Backend, context: int, prefix: Option<Prefix>)

  datatype Route = Unused | Route(prefix: Prefix, backend: Backend, context: int)

  /** A backend function that was entered and has not returned, with what it was given. */
  datatype Callout =
    | OpenCall(slot: nat, backend: Backend, context: int, prefix: Option<Prefix>, access: u16)
    | OperateCall(slot: nat, backend: Backend, context: int, handle: u16, op: Operation)
    | CloseCall(slot: nat, backend: Backend, context: int, handle: u16)
    | NameCall(backend: Backend, context: int)

  /** What a local path number stands for. */
  datatype Binding = Binding(backend: Backend, context: int, handle: u16, access: u16,
                             prefix: Option<Prefix>)

  /** Successful backend opens/creates and closes, in the order in which they returned. */
  datatype Event = Opened(path: u16, binding: Binding) | Closed(path: u16)

  datatype State = State(slots: seq<Slot>, routes: seq<Route>, pending: seq<Callout>,
                         log: seq<Event>)

  /** An immediate answer (with the local path number handed out, 0 if none), or a callout. */
  datatype Reply = Done(status: Status, path: u16) | CalledOut

  datatype Action =
    | Register(prefix: Option<Prefix>, backend: Option<Backend>, context: int)
    | Unregister(prefix: Option<Prefix>)
    | OpenDirect(backend: Option<Backend>, context: int, path: Option<CString>, mode: u16)
    | OpenResolved(path: Option<CString>, mode: u16, create: bool)
    | Operate(local: u16, op: Operation)
    | Close(local: u16)
    | NameOperation(path: Option<CString>, op: Operation)
    | Return(k: nat, status: Status, handle: u16)

  function Fail(status: Status): Reply { Done(status, 0) }

  // ----- route lookup -----

  /** The route covers the path: it is a prefix that ends at a component boundary. */
  predicate Covers(prefix: CString, path: CString) {
    prefix <= path && (|prefix| == |path| || path[|prefix|] == '/')
  }

  predicate Matches(route: Route, path: CString) {
    route.Route? && Covers(route.prefix, path) && |route.prefix| > 0
  }

  /** The scan over the first n table entries: a later entry wins only if strictly longer. */
  function Select(routes: seq<Route>, path: CString, n: nat): (r: Option<nat>)
    requires n <= |routes|
    ensures r.Some? ==> r.value < n && Matches(routes[r.value], path)
  {
    if n == 0 then None
    else
      var best := Select(routes, path, n - 1);
      if Matches(routes[n - 1], path)
         && (best.None? || |routes[n - 1].prefix| > |routes[best.value].prefix|)
      then Some(n - 1) else best
  }

  function FindRoute(routes: seq<Route>, path: CString): (r: Option<nat>)
    ensures r.Some? ==> r.value < |routes| && Matches(routes[r.value], path)
  {
    Select(routes, path, |routes|)
  }

  // ----- table searches -----

  /** Index of the first free slot, or the table length. */
  function FirstFree(slots: seq<Slot>): (i: nat)
    ensures i <= |slots| && (i < |slots| ==> slots[i].Free?)
    ensures forall j :: 0 <= j < i ==> slots[j].Slot?
  {
    if slots == [] then 0
    else if slots[0].Free? then 0
    else 1 + FirstFree(slots[1..])
  }

  function FirstUnused(routes: seq<Route>): (i: nat)
    ensures i <= |routes| && (i < |routes| ==> routes[i].Unused?)
    ensures forall j :: 0 <= j < i ==> routes[j].Route?
  {
    if routes == [] then 0
    else if routes[0].Unused? then 0
    else 1 + FirstUnused(routes[1..])
  }

  /** Index of the first route with exactly this prefix, or the table length. */
  function FindPrefix(routes: seq<Route>, prefix: Prefix): (i: nat)
    ensures i <= |routes|
    ensures i < |routes| ==> routes[i].Route? && routes[i].prefix == prefix
    ensures forall j :: 0 <= j < i ==> !(routes[j].Route? && routes[j].prefix == prefix)
  {
    if routes == [] then 0
    else if routes[0].Route? && routes[0].prefix == prefix then 0
    else 1 + FindPrefix(routes[1..], prefix)
  }

  predicate RouteInUse(slots: seq<Slot>, prefix: Prefix) {
    exists i :: 0 <= i < |slots| && slots[i].Slot? && slots[i].prefix == Some(prefix)
  }

  // ----- access modes -----

  function AccessMode(mode: u16): (a: u16)
    ensures a < 4
  {
    if mode == 0 then 3 else mode % 4
  }

  predicate Permits(access: u16, op: Operation) {
    && ((op.Read? || op.ReadLine?) ==> access % 2 == 1)
    && ((op.Write? || op.WriteLine?) ==> access / 2 % 2 == 1)
  }

  // ----- the operations, up to the callout -----

  function RegisterRoute(s: State, prefix: Option<Prefix>, backend: Option<Backend>, context: int): (State, Reply) {
    if prefix.None? || prefix.value == "" || backend.None? || !backend.value.open || !backend.value.close
    then (s, Fail(InvalidArgument))
    else if FindPrefix(s.routes, prefix.value) < |s.routes| then (s, Fail(InvalidArgument))
    else
      var i := FirstUnused(s.routes);
      if i == |s.routes| then (s, Fail(RegistryFull))
      else (s.(routes := s.routes[i := Route(prefix.value, backend.value, context)]), Done(Ok, 0))
  }

  function UnregisterRoute(s: State, prefix: Option<Prefix>): (State, Reply) {
    if prefix.None? || prefix.value == "" then (s, Fail(InvalidArgument))
    else
      var i := FindPrefix(s.routes, prefix.value);
      if i == |s.routes| then (s, Fail(NotFound))
      else if RouteInUse(s.slots, prefix.value) then (s, Fail(Busy))
      else (s.(routes := s.routes[i := Unused]), Done(Ok, 0))
  }

  function BeginOpen(s: State, backend: Option<Backend>, context: int, path: Option<CString>,
                     prefix: Option<Prefix>, mode: u16, create: bool): (State, Reply)
  {
    if backend.None? || (if create then !backend.value.create else !backend.value.open)
       || !backend.value.close || path.None? || |s.slots| == 0
    then (s, Fail(InvalidArgument))
    else
      var i := FirstFree(s.slots);
      if i == |s.slots| then (s, Fail(NoPathSlots))
      else
        var b := backend.value;
        (s.(slots := s.slots[i := Slot(Opening, 0, AccessMode(mode), 0, b, context, prefix)],
            pending := s.pending + [OpenCall(i, b, context, prefix, AccessMode(mode))]),
         CalledOut)
  }

  function BeginOpenResolved(s: State, path: Option<CString>, mode: u16, create: bool): (State, Reply) {
    if path.None? then (s, Fail(InvalidArgument))
    else
      var r := FindRoute(s.routes, path.value);
      if r.None? then (s, Fail(NotFound))
      else
        var route := s.routes[r.value];
        if create && !route.backend.create then (s, Fail(UnsupportedOperation))
        else BeginOpen(s, Some(route.backend), route.context, path, Some(route.prefix), mode, create)
  }

  /** The slot behind a local path number, if that path is open. */
  predicate IsOpen(s: State, local: u16) {
    1 <= local <= |s.slots| && s.slots[local - 1].Slot? && s.slots[local - 1].phase == Open
  }

  function BeginOperate(s: State, local: u16, op: Operation): (State, Reply) {
    if op.MakeDir? || op.Delete? then (s, Fail(UnsupportedOperation))
    else if !IsOpen(s, local) then (s, Fail(InvalidPath))
    else
      var i := local - 1;
      var slot := s.slots[i];
      if !slot.backend.operate then (s, Fail(UnsupportedOperation))
      else if !Permits(slot.access, op) then (s, Fail(WrongMode))
      else if slot.active == 0xFFFF then (s, Fail(Busy))
      else
        (s.(slots := s.slots[i := slot.(active := slot.active + 1)],
            pending := s.pending + [OperateCall(i, slot.backend, slot.context, slot.handle, op)]),
         CalledOut)
  }

  function BeginClose(s: State, local: u16): (State, Reply) {
    if !IsOpen(s, local) then (s, Fail(InvalidPath))
    else
      var i := local - 1;
      var slot := s.slots[i];
      if !slot.backend.close then (s, Fail(UnsupportedOperation))
      else if slot.active != 0 then (s, Fail(Busy))
      else
        (s.(slots := s.slots[i := slot.(phase := Closing)],
            pending := s.pending + [CloseCall(i, slot.backend, slot.context, slot.handle)]),
         CalledOut)
  }

  function BeginNameOperation(s: State, path: Option<CString>, op: Operation): (State, Reply) {
    if path.None? then (s, Fail(InvalidArgument))
    else if !op.MakeDir? && !op.Delete? then (s, Fail(UnsupportedOperation))
    else
      var r := FindRoute(s.routes, path.value);
      if r.None? then (s, Fail(NotFound))
      else
        var route := s.routes[r.value];
        if !route.backend.nameOperation then (s, Fail(UnsupportedOperation))
        else (s.(pending := s.pending + [NameCall(route.backend, route.context)]), CalledOut)
  }

  // ----- the return of a callout -----

  function Remove<T>(s: seq<T>, k: nat): (r: seq<T>)
    requires k < |s|
    ensures |r| == |s| - 1
  {
    s[..k] + s[k + 1..]
  }

  /** 16-bit decrement, with the wrap the hardware would give. */
  function Dec16(x: u16): u16 { (x - 1) % 0x1_0000 }

  function BindingOf(slot: Slot): Binding
    requires slot.Slot?
  {
    Binding(slot.backend, slot.context, slot.handle, slot.access, slot.prefix)
  }

  /** What each callout does to its slot when it returns. */
  function FinishSlot(c: Callout, slot: Slot, status: Status, handle: u16): Slot
    requires slot.Slot? && !c.NameCall?
  {
    match c
    case OpenCall(_, _, _, _, _) =>
      if status != Ok then Free else slot.(handle := handle, phase := Open)
    case OperateCall(_, _, _, _, _) => slot.(active := Dec16(slot.active))
    case CloseCall(_, _, _, _) => if status != Ok then slot.(phase := Open) else Free
  }

  function FinishLog(c: Callout, slot: Slot, status: Status, handle: u16): seq<Event>
    requires slot.Slot? && !c.NameCall?
    requires c.slot < 0xFFFF
  {
    if status != Ok || c.OperateCall? then []
    else if c.OpenCall? then [Opened(c.slot + 1, BindingOf(slot.(handle := handle)))]
    else [Closed(c.slot + 1)]
  }

  /** A return the environment can make: the callout is pending and its slot is in use. */
  predicate Enabled(s: State, k: nat) {
    k < |s.pending|
    && (s.pending[k].NameCall?
        || (s.pending[k].slot < |s.slots| && s.pending[k].slot < 0xFFFF
            && s.slots[s.pending[k].slot].Slot?))
  }

  function Finish(s: State, k: nat, status: Status, handle: u16): (State, Reply)
    requires Enabled(s, k)
  {
    var c := s.pending[k];
    var s1 := s.(pending := Remove(s.pending, k));
    if c.NameCall? then (s1, Done(status, 0))
    else
      var slot := s.slots[c.slot];
      (s1.(slots := s.slots[c.slot := FinishSlot(c, slot, status, handle)],
           log := s.log + FinishLog(c, slot, status, handle)),
       Done(status, if c.OpenCall? && status == Ok then c.slot + 1 else 0))
  }

  // ----- runs -----

  /** One atomic step.  A return of something that is not pending is no step at all. */
  function Step(s: State, a: Action): (State, Reply) {
    match a
    case Register(p, b, c) => RegisterRoute(s, p, b, c)
    case Unregister(p) => UnregisterRoute(s, p)
    case OpenDirect(b, c, path, mode) => BeginOpen(s, b, c, path, None, mode, false)
    case OpenResolved(path, mode, create) => BeginOpenResolved(s, path, mode, create)
    case Operate(local, op) => BeginOperate(s, local, op)
    case Close(local) => BeginClose(s, local)
    case NameOperation(path, op) => BeginNameOperation(s, path, op)
    case Return(k, status, handle) =>
      if Enabled(s, k) then Finish(s, k, status, handle) else (s, Fail(InvalidArgument))
  }

  function Init(capacity: u16): State
  {
    State(seq(capacity, _ => Free), seq(ROUTE_CAPACITY, _ => Unused), [], [])
  }

  function Run(capacity: u16, actions: seq<Action>): State
  {
    if actions == [] then Init(capacity)
    else Step(Run(capacity, actions[..|actions| - 1]), actions[|actions| - 1]).0
  }
}
