/** The dispatcher on top of the path manager: what a trap does to the manager's state, whatever the
    backends and other callers do in the middle of it. */
module TrapRun {
  import opened Bytes
  import opened Options
  import opened IomanModel
  import opened IomanSafety
  import opened KernelFrame

  function ActionOf(c: ManagerCall): Action {
    match c
    case CallOpen(name, mode, create) => OpenResolved(Some(name), mode, create)
    case CallName(name, op) => NameOperation(Some(name), op)
    case CallOperate(path, op, _, _, _) => Operate(path, op)
    case CallClose(path) => Close(path)
  }

  function RunFrom(s: State, actions: seq<Action>): State
    decreases |actions|
  {
    if actions == [] then s else RunFrom(Step(s, actions[0]).0, actions[1..])
  }

  /** What the rest of the system does: everything until the backend returns, which of the callouts
      then in progress it is, and its answer. */
  datatype World = World(during: seq<Action>, k: nat, status: Status, handle: u16, transferred: u32)

  /** The callout that a call just started. */
  function Started(s: State, c: ManagerCall): Callout
    requires Step(s, ActionOf(c)).1.CalledOut? && |Step(s, ActionOf(c)).0.pending| > |s.pending|
  {
    Step(s, ActionOf(c)).0.pending[|s.pending|]
  }

  predicate CallsOut(s: State, c: ManagerCall) {
    Step(s, ActionOf(c)).1.CalledOut? && |Step(s, ActionOf(c)).0.pending| > |s.pending|
  }

  /** One manager call from state s: an immediate answer, or the callout, whatever happens during it,
      and its return.  A callout that does not return leaves the caller without success. */
  function Perform(s: State, c: ManagerCall, w: World): (State, Outcome) {
    var (s1, r) := Step(s, ActionOf(c));
    if r.Done? then (s1, Outcome(r.status, r.path, 0))
    else
      var s2 := RunFrom(s1, w.during);
      if CallsOut(s, c) && Enabled(s2, w.k) && s2.pending[w.k] == Started(s, c) then
        var (s3, r3) := Finish(s2, w.k, w.status, w.handle);
        if r3.Done? then (s3, Outcome(r3.status, r3.path, w.transferred)) else (s3, Outcome(Busy, 0, 0))
      else (s2, Outcome(Busy, 0, 0))
  }

  /** The path manager in state s as the dispatcher meets it. */
  function Manager(s: State, w: World): ManagerCall -> Outcome {
    (c: ManagerCall) => Perform(s, c, w).1
  }

  /** The call reached its backend, and that callout is the one that returns. */
  predicate Answered(s: State, c: ManagerCall, w: World) {
    var s2 := RunFrom(Step(s, ActionOf(c)).0, w.during);
    CallsOut(s, c) && Enabled(s2, w.k) && s2.pending[w.k] == Started(s, c)
  }

  lemma {:induction false} RunFromInv(s: State, actions: seq<Action>)
    requires Inv(s)
    ensures Inv(RunFrom(s, actions))
    decreases |actions|
  {
    if actions != [] {
      StepInv(s, actions[0]);
      RunFromInv(Step(s, actions[0]).0, actions[1..]);
    }
  }

  lemma PerformInv(s: State, c: ManagerCall, w: World)
    requires Inv(s)
    ensures Inv(Perform(s, c, w).0)
  {
    StepInv(s, ActionOf(c));
    var s1 := Step(s, ActionOf(c)).0;
    RunFromInv(s1, w.during);
    var s2 := RunFrom(s1, w.during);
    if Enabled(s2, w.k) { FinishInv(s2, w.k, w.status, w.handle); }
  }

  // ----- open -----

  /** What an open of this name is bound to, once the backend answers with a handle. */
  function BindingFor(s: State, name: CString, mode: u16, handle: u16): Binding
    requires FindRoute(s.routes, name).Some?
  {
    var route := s.routes[FindRoute(s.routes, name).value];
    Binding(route.backend, route.context, handle, AccessMode(mode), Some(route.prefix))
  }

  /** The number was not in force, and now stands for this binding. */
  predicate NowBound(s: State, s': State, path: nat, b: Binding) {
    path !in View(s.slots) && path in View(s'.slots) && View(s'.slots)[path] == b
  }

  lemma OpenStarts(s: State, name: CString, mode: u16, create: bool)
    requires Inv(s) && BeginOpenResolved(s, Some(name), mode, create).1.CalledOut?
    ensures FindRoute(s.routes, name).Some?
    ensures var (s1, r) := BeginOpenResolved(s, Some(name), mode, create);
            var i := FirstFree(s.slots);
            var b := BindingFor(s, name, mode, 0);
            && i < |s.slots| && s1.pending == s.pending + [OpenCall(i, b.backend, b.context, b.prefix, b.access)]
            && (i + 1) !in View(s.slots)
  {
  }

  lemma OpenBinds(s: State, name: CString, mode: u16, create: bool, w: World)
    requires Inv(s) && Perform(s, CallOpen(name, mode, create), w).1.status == Ok
    ensures FindRoute(s.routes, name).Some?
    ensures var (s', o) := Perform(s, CallOpen(name, mode, create), w);
            NowBound(s, s', o.path, BindingFor(s, name, mode, w.handle))
  {
    var c := CallOpen(name, mode, create);
    var s1 := Step(s, ActionOf(c)).0;
    OpenNeverDone(s, name, mode, create);
    OpenStarts(s, name, mode, create);
    StepInv(s, ActionOf(c));
    RunFromInv(s1, w.during);
    FinishView(RunFrom(s1, w.during), w.k, w.status, w.handle);
  }

  /** An open that answers at once has failed. */
  lemma OpenNeverDone(s: State, name: CString, mode: u16, create: bool)
    ensures var r := BeginOpenResolved(s, Some(name), mode, create).1; r.Done? ==> r.status != Ok
  {
  }

  /** An open or an operation succeeds exactly when its callout returns, with success. */
  lemma SucceedsIff(s: State, c: ManagerCall, w: World)
    requires c.CallOpen? || c.CallOperate?
    ensures Perform(s, c, w).1.status == Ok <==> Answered(s, c, w) && w.status == Ok
  {
  }

  // ----- between two traps -----

  predicate ClosedIn(log: seq<Event>, from: nat, path: nat) {
    exists j :: from <= j < |log| && log[j].Closed? && log[j].path == path
  }

  lemma {:induction false} LogGrows(s: State, actions: seq<Action>)
    requires Inv(s)
    ensures s.log <= RunFrom(s, actions).log
    decreases |actions|
  {
    if actions != [] {
      StepInv(s, actions[0]);
      StepView(s, actions[0]);
      LogGrows(Step(s, actions[0]).0, actions[1..]);
    }
  }

  /** As long as nobody closes the number, it stays bound as it was. */
  lemma {:induction false} StaysBound(s: State, actions: seq<Action>, path: nat)
    requires Inv(s) && path in View(s.slots)
    requires !ClosedIn(RunFrom(s, actions).log, |s.log|, path)
    ensures var s' := RunFrom(s, actions); path in View(s'.slots) && View(s'.slots)[path] == View(s.slots)[path]
    decreases |actions|
  {
    if actions != [] {
      var (s1, r) := Step(s, actions[0]);
      StepInv(s, actions[0]);
      StepView(s, actions[0]);
      LogGrows(s1, actions[1..]);
      var log := RunFrom(s1, actions[1..]).log;
      if q: u16 :| OneClosed(s, s1, r, q) {
        assert log[|s.log|] == s1.log[|s.log|] == Closed(q);
        assert q as nat != path;
      }
      StaysBound(s1, actions[1..], path);
    }
  }

  // ----- read -----

  /** An operation that goes through reached the backend, context and handle its number stands for. */
  lemma OperateReaches(s: State, path: u16, op: Operation)
    requires Inv(s) && BeginOperate(s, path, op).1.CalledOut?
    ensures path as nat in View(s.slots)
    ensures var b := View(s.slots)[path as nat];
            BeginOperate(s, path, op).0.pending
            == s.pending + [OperateCall(path - 1, b.backend, b.context, b.handle, op)]
  {
    assert InForce(s.slots, path as nat);
  }

  lemma OperateNeverDone(s: State, path: u16, op: Operation)
    ensures var r := BeginOperate(s, path, op).1; r.Done? ==> r.status != Ok
  {
  }

  // ----- the traps -----

  /** The state a trap leaves: that of the manager call it made, or the same if it made none. */
  function StateAfter(s: State, plan: Plan, w: World): State {
    match plan
    case Reject(_) => s
    case Invoke(c) => Perform(s, c, w).0
  }

  /** A successful open or create trap hands out, in D0, a number that was not in force and now stands
      for the backend and context of the route that covers the name, with the handle the backend gave. */
  method OpenTrap(callcode: u16, s: State, frame: array<byte>, resolve: Option<u32 -> Resolved>, w: World)
    returns (status: Status, s': State, ghost name: CString)
    requires Inv(s) && frame.Length == FRAME_SIZE && (callcode == 0x83 || callcode == 0x84)
    modifies frame
    ensures s' == StateAfter(s, PlanFor(callcode, old(frame[..]), resolve), w) && Inv(s')
    ensures status == Verdict(PlanFor(callcode, old(frame[..]), resolve), Manager(s, w))
    ensures status == Ok ==>
              && resolve.Some? && resolve.value(old(Read32(frame[..], A0))).name == Some(name)
              && FindRoute(s.routes, name).Some?
              && NowBound(s, s', Read32(frame[..], D0), BindingFor(s, name, old(Read32(frame[..], D0)) % 256, w.handle))
  {
    ghost var f := frame[..];
    var plan := PlanFor(callcode, frame[..], resolve);
    s' := StateAfter(s, plan, w);
    if plan.Invoke? { PerformInv(s, plan.call, w); }
    status := Dispatch(callcode, Some(Manager(s, w)), frame, resolve);
    name := "";
    if status == Ok {
      RejectsAreErrors(callcode, f, resolve);
      name := resolve.value(Read32(f, A0)).name.value;
      assert plan.call == CallOpen(name, Read32(f, D0) % 256, callcode == 0x83);
      OpenBinds(s, name, Read32(f, D0) % 256, callcode == 0x83, w);
    }
  }

  /** A successful read trap reached the backend, context and handle that the number in D0 stands for,
      and reports at most the length asked for. */
  method ReadTrap(s: State, frame: array<byte>, w: World) returns (status: Status, s': State)
    requires Inv(s) && frame.Length == FRAME_SIZE
    modifies frame
    ensures s' == StateAfter(s, PlanFor(0x89, old(frame[..]), None), w) && Inv(s')
    ensures status == Verdict(PlanFor(0x89, old(frame[..]), None), Manager(s, w))
    ensures status == Ok ==> Reached(s, old(Read16(frame[..], D0 + 2)), Read)
    ensures status == Ok ==> Read32(frame[..], D1) <= old(Read32(frame[..], D1))
  {
    ghost var f := frame[..];
    var plan := PlanFor(0x89, frame[..], None);
    s' := StateAfter(s, plan, w);
    if plan.Invoke? { PerformInv(s, plan.call, w); }
    status := Dispatch(0x89, Some(Manager(s, w)), frame, None);
    if status == Ok {
      RejectsAreErrors(0x89, f, None);
      OperateNeverDone(s, Read16(f, D0 + 2), Read);
      OperateReaches(s, Read16(f, D0 + 2), Read);
    }
  }

  /** The operation was handed to what the number stands for. */
  predicate Reached(s: State, path: u16, op: Operation) {
    && path as nat in View(s.slots)
    && var b := View(s.slots)[path as nat];
       Step(s, Operate(path, op)).0.pending == s.pending + [OperateCall(path - 1, b.backend, b.context, b.handle, op)]
  }

  /** Open, anything, read: as long as nobody closed the number in between, a successful read with the
      number that a successful open handed out reaches the backend and context of the route the name
      had then, with the handle that open got. */
  method OpenThenRead(callcode: u16, s: State, frame: array<byte>, resolve: Option<u32 -> Resolved>, w: World,
                      between: seq<Action>, frame2: array<byte>, w2: World)
    returns (first: Status, second: Status, s1: State, s2: State)
    requires Inv(s) && frame.Length == frame2.Length == FRAME_SIZE && frame != frame2
    requires callcode == 0x83 || callcode == 0x84
    modifies frame, frame2
    ensures s1 == StateAfter(s, PlanFor(callcode, old(frame[..]), resolve), w) && s2 == RunFrom(s1, between)
    ensures first == Verdict(PlanFor(callcode, old(frame[..]), resolve), Manager(s, w))
    ensures second == Verdict(PlanFor(0x89, old(frame2[..]), None), Manager(s2, w2))
    ensures first == Ok && second == Ok && old(Read16(frame2[..], D0 + 2)) == Read32(frame[..], D0)
            && !ClosedIn(s2.log, |s1.log|, Read32(frame[..], D0)) ==>
              && resolve.Some? && resolve.value(old(Read32(frame[..], A0))).name.Some?
              && var name := resolve.value(old(Read32(frame[..], A0))).name.value;
                 && FindRoute(s.routes, name).Some?
                 && Hands(s2, Read32(frame[..], D0), BindingFor(s, name, old(Read32(frame[..], D0)) % 256, w.handle))
  {
    ghost var f2 := frame2[..];
    ghost var name;
    first, s1, name := OpenTrap(callcode, s, frame, resolve, w);
    ghost var path := Read32(frame[..], D0);
    assert frame2[..] == f2;
    s2 := RunFrom(s1, between);
    RunFromInv(s1, between);
    ghost var f1 := frame[..];
    var s3;
    second, s3 := ReadTrap(s2, frame2, w2);
    assert frame[..] == f1;
    if first == Ok && second == Ok && Read16(f2, D0 + 2) == path && !ClosedIn(s2.log, |s1.log|, path) {
      StaysBound(s1, between, path);
    }
  }

  /** A read of this number is handed to the backend, context and handle of the binding. */
  predicate Hands(s: State, path: nat, b: Binding) {
    && 0 < path < 0x1_0000
    && Step(s, Operate(path, Read)).0.pending
       == s.pending + [OperateCall(path - 1, b.backend, b.context, b.handle, Read)]
  }

  // ----- a run in which both traps succeed -----

  const DISK := Backend(1, true, true, true, true, true)
  const NAME: CString := "/a"

  /** The only route is registered, and the only slot is in use through it. */
  function OneSlot(phase: Phase, handle: u16, active: u16): State {
    OneRoute(NAME, DISK, 7).(slots := [Slot(phase, handle, 1, active, DISK, 7, Some(NAME))])
  }

  lemma RouteInv()
    ensures Inv(OneRoute(NAME, DISK, 7))
  {
    RegisterFirst(NAME, DISK, 7);
    InitInv(1);
    StepInv(Init(1), Register(Some(NAME), Some(DISK), 7));
  }

  lemma OpenEnters()
    ensures Step(OneRoute(NAME, DISK, 7), OpenResolved(Some(NAME), 1, false))
            == (OneSlot(Opening, 0, 0).(pending := [OpenCall(0, DISK, 7, Some(NAME), 1)]), CalledOut)
  {
    var s := OneRoute(NAME, DISK, 7);
    SelectOnly(s.routes, NAME, |s.routes|);
    assert FirstFree(s.slots) == 0;
    assert s.slots[0 := Slot(Opening, 0, 1, 0, DISK, 7, Some(NAME))]
           == [Slot(Opening, 0, 1, 0, DISK, 7, Some(NAME))];
    assert [] + [OpenCall(0, DISK, 7, Some(NAME), 1)] == [OpenCall(0, DISK, 7, Some(NAME), 1)];
  }

  /** A call whose callout returns at once. */
  lemma PromptReturn(s: State, c: ManagerCall, s1: State, callout: Callout, w: World)
    requires Step(s, ActionOf(c)) == (s1, CalledOut) && s.pending == [] && s1.pending == [callout]
    requires w.during == [] && w.k == 0 && Enabled(s1, 0)
    ensures var (s', r) := Finish(s1, 0, w.status, w.handle);
            Perform(s, c, w) == (s', Outcome(r.status, r.path, w.transferred))
  {
    assert RunFrom(s1, w.during) == s1;
  }

  lemma OpenSucceeds(w: World)
    requires w.during == [] && w.k == 0 && w.status == Ok
    ensures var (s', o) := Perform(OneRoute(NAME, DISK, 7), CallOpen(NAME, 1, false), w);
            && o == Outcome(Ok, 1, w.transferred)
            && s'.slots == OneSlot(Open, w.handle, 0).slots && s'.pending == []
  {
    var callout := OpenCall(0, DISK, 7, Some(NAME), 1);
    var s1 := OneSlot(Opening, 0, 0).(pending := [callout]);
    OpenEnters();
    PromptReturn(OneRoute(NAME, DISK, 7), CallOpen(NAME, 1, false), s1, callout, w);
  }

  lemma ReadSucceeds(s: State, handle: u16, c: ManagerCall, w: World)
    requires s.slots == OneSlot(Open, handle, 0).slots && s.pending == []
    requires c.CallOperate? && c.path == 1 && c.op == Read
    requires w.during == [] && w.k == 0 && w.status == Ok
    ensures Perform(s, c, w).1 == Outcome(Ok, 0, w.transferred)
  {
    var callout := OperateCall(0, DISK, 7, handle, Read);
    var s1 := Step(s, ActionOf(c)).0;
    assert s1.pending == [callout];
    PromptReturn(s, c, s1, callout, w);
  }

  /** Mode 1 in D0 and the address of the name in A0. */
  function OpenFrame(i: nat): byte { if i == 3 then 1 else if i == A0 + 2 then 0x10 else 0 }

  /** Path 1 in D0, four bytes in D1, the buffer in A0. */
  function ReadFrame(i: nat): byte {
    if i == 3 then 1 else if i == D1 + 3 then 4 else if i == A0 + 2 then 0x20 else 0
  }

  lemma FramePlans(f: seq<byte>, g: seq<byte>, resolve: u32 -> Resolved)
    requires |f| == |g| == FRAME_SIZE
    requires forall i :: 0 <= i < FRAME_SIZE ==> f[i] == OpenFrame(i) && g[i] == ReadFrame(i)
    requires resolve(0x1000) == Resolved(Ok, Some(NAME), 3)
    ensures PlanFor(0x84, f, Some(resolve)) == Invoke(CallOpen(NAME, 1, false))
    ensures PlanFor(0x89, g, None) == Invoke(CallOperate(1, Read, 0x2000, 0, 4))
  {
    CallsByName(0x84, f, resolve);
    CallsByPath(0x89, g, None);
    TransfersInRange(0x89, g, None);
    RegisterBytes(g, 4);
    RegisterBytes(g, 0x20);
  }

  /** Open and read of one file on a fresh manager with one route: both succeed. */
  method BothSucceed(handle: u16, count: u32) returns (first: Status, second: Status)
    requires count <= 4
    ensures first == second == Ok
  {
    RouteInv();
    var frame, frame2 := new byte[FRAME_SIZE](OpenFrame), new byte[FRAME_SIZE](ReadFrame);
    var resolve := (a: u32) => Resolved(Ok, Some(NAME), 3);
    FramePlans(frame[..], frame2[..], resolve);
    var w, w2 := World([], 0, Ok, handle, 0), World([], 0, Ok, 0, count);
    OpenSucceeds(w);
    var s1, s2;
    first, second, s1, s2 := OpenThenRead(0x84, OneRoute(NAME, DISK, 7), frame, Some(resolve), w, [], frame2, w2);
    ReadSucceeds(s2, handle, CallOperate(1, Read, 0x2000, 0, 4), w2);
  }
}
