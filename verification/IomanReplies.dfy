/** What the path manager answers to each call, told from its history alone: the log of successful
    opens and closes, the callouts in progress and the routes registered. */
module IomanReplies {
  import opened IomanModel
  import opened IomanSafety
  import opened Options

  // ----- what is in progress on a path number -----

  predicate OpenRunning(s: State, n: nat) {
    exists k :: 0 <= k < |s.pending| && s.pending[k].OpenCall? && s.pending[k].slot + 1 == n
  }

  predicate CloseRunning(s: State, n: nat) {
    exists k :: 0 <= k < |s.pending| && s.pending[k].CloseCall? && s.pending[k].slot + 1 == n
  }

  /** The operations in progress on a number, as positions among the callouts. */
  function Running(pending: seq<Callout>, n: nat): set<nat> {
    set k: nat | k < |pending| && pending[k].OperateCall? && pending[k].slot + 1 == n
  }

  /** The number was opened and not closed since, and nobody is closing it. */
  predicate Usable(s: State, n: nat) { n in Replay(s.log) && !CloseRunning(s, n) }

  /** The number is neither open nor being opened. */
  predicate Vacant(s: State, n: nat) { 1 <= n <= |s.slots| && n !in Replay(s.log) && !OpenRunning(s, n) }

  lemma {:induction false} CountRunning(p: seq<Callout>, i: nat)
    ensures Count(p, KOperate, i) == |Running(p, i + 1)|
  {
    if p == [] {
      assert Running(p, i + 1) == {};
    } else {
      var init, last := p[..|p| - 1], p[|p| - 1];
      assert p == init + [last];
      CountPush(init, last, KOperate, i);
      CountRunning(init, i);
      RunningPush(init, last, i + 1);
    }
  }

  lemma RunningPush(p: seq<Callout>, c: Callout, n: nat)
    ensures |Running(p + [c], n)| == |Running(p, n)| + (if c.OperateCall? && c.slot + 1 == n then 1 else 0)
  {
    var more := if c.OperateCall? && c.slot + 1 == n then {|p|} else {};
    assert Running(p + [c], n) == Running(p, n) + more;
  }

  lemma {:induction false} CountSome(p: seq<Callout>, kind: Kind, i: nat)
    ensures Count(p, kind, i) > 0 <==> exists k :: 0 <= k < |p| && IsCall(p[k], kind, i)
  {
    if p != [] {
      CountSome(p[1..], kind, i);
      if Count(p, kind, i) > 0 && !IsCall(p[0], kind, i) {
        var k :| 0 <= k < |p[1..]| && IsCall(p[1..][k], kind, i);
        assert IsCall(p[k + 1], kind, i);
      }
      if k :| 0 <= k < |p| && IsCall(p[k], kind, i) {
        if k > 0 { assert IsCall(p[1..][k - 1], kind, i); }
      }
    }
  }

  /** The table entry of a number, told from the history. */
  lemma SlotTold(s: State, n: nat)
    requires Inv(s) && 1 <= n <= |s.slots|
    ensures var slot := s.slots[n - 1];
            && (slot.Free? <==> Vacant(s, n))
            && (slot.Slot? && slot.phase == Open <==> Usable(s, n))
            && (slot.Slot? && slot.phase != Opening ==> Replay(s.log)[n] == BindingOf(slot))
            && (slot.Slot? ==> slot.active == |Running(s.pending, n)| && slot.backend.close)
  {
    var slot := s.slots[n - 1];
    assert Accounted(slot, s.pending, n - 1);
    assert n in View(s.slots) <==> InForce(s.slots, n);
    CountSome(s.pending, KOpen, n - 1);
    CountSome(s.pending, KClose, n - 1);
    CountRunning(s.pending, n - 1);
    if OpenRunning(s, n) {
      var k :| 0 <= k < |s.pending| && s.pending[k].OpenCall? && s.pending[k].slot + 1 == n;
      assert IsCall(s.pending[k], KOpen, n - 1);
    }
    if CloseRunning(s, n) {
      var k :| 0 <= k < |s.pending| && s.pending[k].CloseCall? && s.pending[k].slot + 1 == n;
      assert IsCall(s.pending[k], KClose, n - 1);
    }
  }

  /** Numbers outside the table are not usable. */
  lemma NoSuchNumber(s: State, n: nat)
    requires Inv(s) && !(1 <= n <= |s.slots|)
    ensures !Usable(s, n)
  {
    assert n !in View(s.slots);
  }

  // ----- operations -----

  /** When an operation reaches its backend, with what, and what is answered otherwise. */
  lemma OperateReplies(s: State, n: u16, op: Operation)
    requires Inv(s)
    ensures var (s', r) := Step(s, Operate(n, op));
            && (op == MakeDir || op == Delete ==> r == Done(UnsupportedOperation, 0))
            && (op != MakeDir && op != Delete && !Usable(s, n) ==> r == Done(InvalidPath, 0))
            && (op != MakeDir && op != Delete && Usable(s, n) ==>
                  var b := Replay(s.log)[n as nat];
                  r == if !b.backend.operate then Done(UnsupportedOperation, 0)
                       else if (op == Read || op == ReadLine) && b.access % 2 == 0 then Done(WrongMode, 0)
                       else if (op == Write || op == WriteLine) && b.access / 2 % 2 == 0 then Done(WrongMode, 0)
                       else if |Running(s.pending, n)| == 0xFFFF then Done(Busy, 0)
                       else CalledOut)
            && (r.Done? ==> s' == s)
            && (r.CalledOut? ==>
                  && Usable(s, n)
                  && var b := Replay(s.log)[n as nat];
                     s'.pending == s.pending + [OperateCall(n - 1, b.backend, b.context, b.handle, op)])
  {
    if 1 <= n <= |s.slots| { SlotTold(s, n); } else { NoSuchNumber(s, n); }
  }

  /** When a close reaches its backend, with what, and what is answered otherwise. */
  lemma CloseReplies(s: State, n: u16)
    requires Inv(s)
    ensures var (s', r) := Step(s, Close(n));
            && r == (if !Usable(s, n) then Done(InvalidPath, 0)
                     else if Running(s.pending, n) != {} then Done(Busy, 0)
                     else CalledOut)
            && (r.Done? ==> s' == s)
            && (r.CalledOut? ==>
                  var b := Replay(s.log)[n as nat];
                  s'.pending == s.pending + [CloseCall(n - 1, b.backend, b.context, b.handle)])
  {
    if 1 <= n <= |s.slots| { SlotTold(s, n); } else { NoSuchNumber(s, n); }
  }

  const DISK := Backend(1, true, true, true, true, true)
  const NAME: Prefix := "/a"

  /** One route, and its only slot as given. */
  function WriteOnly(phase: Phase, handle: u16): State {
    OneRoute(NAME, DISK, 7).(slots := [Slot(phase, handle, 2, 0, DISK, 7, Some(NAME))])
  }

  lemma OpenForWriting()
    ensures Step(OneRoute(NAME, DISK, 7), OpenResolved(Some(NAME), 2, false)).0
            == WriteOnly(Opening, 0).(pending := [OpenCall(0, DISK, 7, Some(NAME), 2)])
  {
    var s := OneRoute(NAME, DISK, 7);
    SelectOnly(s.routes, NAME, |s.routes|);
    assert FirstFree(s.slots) == 0;
    assert s.slots[0 := Slot(Opening, 0, 2, 0, DISK, 7, Some(NAME))] == WriteOnly(Opening, 0).slots;
    assert s.pending + [OpenCall(0, DISK, 7, Some(NAME), 2)] == [OpenCall(0, DISK, 7, Some(NAME), 2)];
  }

  lemma OpenedForWriting(s: State, handle: u16)
    requires s == WriteOnly(Opening, 0).(pending := [OpenCall(0, DISK, 7, Some(NAME), 2)])
    ensures var s' := Step(s, Return(0, Ok, handle)).0;
            s'.slots == WriteOnly(Open, handle).slots && s'.pending == []
  {
  }

  lemma WriteOnlyAnswers(s: State, handle: u16)
    requires s.slots == WriteOnly(Open, handle).slots && s.pending == []
    ensures Step(s, Operate(1, Read)).1 == Done(WrongMode, 0) && Step(s, Operate(1, Write)).1 == CalledOut
    ensures Step(s, Operate(1, Write)).0.pending == [OperateCall(0, DISK, 7, handle, Write)]
  {
  }

  /** A path opened for writing only, as in tests/test_qioman.c: a read is refused, a write goes out. */
  lemma WriteOnlyPath(handle: u16)
    ensures var s := Run(1, [Register(Some(NAME), Some(DISK), 7), OpenResolved(Some(NAME), 2, false),
                             Return(0, Ok, handle)]);
            && Step(s, Operate(1, Read)).1 == Done(WrongMode, 0)
            && Step(s, Operate(1, Write)).1 == CalledOut
            && Step(s, Operate(1, Write)).0.pending == [OperateCall(0, DISK, 7, handle, Write)]
  {
    var a0, a1, a2 := Register(Some(NAME), Some(DISK), 7), OpenResolved(Some(NAME), 2, false), Return(0, Ok, handle);
    RunThree(1, a0, a1, a2);
    RegisterFirst(NAME, DISK, 7);
    OpenForWriting();
    var s := Step(OneRoute(NAME, DISK, 7), a1).0;
    OpenedForWriting(s, handle);
    WriteOnlyAnswers(Step(s, a2).0, handle);
  }

  // ----- opens -----

  /** The route covers the path and is the longest registered one that does. */
  ghost predicate Longest(routes: seq<Route>, path: CString, route: Route) {
    && route in routes && Over(route, path)
    && forall other :: other in routes && Over(other, path) ==> |other.prefix| <= |route.prefix|
  }

  /** The path is the prefix itself or goes on with a slash behind it. */
  predicate Over(route: Route, path: CString) {
    route.Route? && (route.prefix == path || route.prefix + "/" <= path)
  }

  lemma OverIff(route: Route, path: CString)
    ensures Over(route, path) <==> route.Route? && Covers(route.prefix, path)
  {
    if route.Route? {
      var p := route.prefix;
      if Covers(p, path) && |p| < |path| { assert path[..|p| + 1] == p + "/"; }
      if p + "/" <= path { assert path[..|p|] == (p + "/")[..|p|] && path[|p|] == (p + "/")[|p|]; }
    }
  }

  /** The lookup, told from which routes are registered. */
  lemma RouteTold(s: State, path: CString)
    requires Inv(s)
    ensures var f := FindRoute(s.routes, path);
            && (f.None? ==> forall route :: route in s.routes ==> !Over(route, path))
            && (f.Some? ==> Longest(s.routes, path, s.routes[f.value]))
  {
    SelectLongest(s.routes, path, |s.routes|);
    forall route | route in s.routes
      ensures Over(route, path) <==> Matches(route, path)
    {
      OverIff(route, path);
    }
  }

  /** Two longest routes over the same path are one. */
  lemma LongestUnique(s: State, path: CString, a: Route, b: Route)
    requires Inv(s) && Longest(s.routes, path, a) && Longest(s.routes, path, b)
    ensures a == b
  {
    OverIff(a, path);
    OverIff(b, path);
    assert a.prefix == path[..|a.prefix|] && b.prefix == path[..|b.prefix|];
  }

  /** The lowest vacant number. */
  ghost predicate LowestVacant(s: State, n: nat) {
    Vacant(s, n) && forall m :: Vacant(s, m) ==> n <= m
  }

  lemma FirstFreeTold(s: State)
    requires Inv(s)
    ensures var i := FirstFree(s.slots);
            && (i < |s.slots| ==> LowestVacant(s, i + 1))
            && (i == |s.slots| ==> forall n :: !Vacant(s, n))
  {
    var i := FirstFree(s.slots);
    if i < |s.slots| { SlotTold(s, i + 1); }
    forall n: nat | Vacant(s, n)
      ensures i < n
    {
      SlotTold(s, n);
    }
  }

  /** The access an open mode asks for: both ways for mode 0, else the two low bits. */
  predicate Asks(access: u16, mode: u16) {
    && access < 4
    && (access % 2 == 1 <==> mode == 0 || mode % 2 == 1)
    && (access / 2 % 2 == 1 <==> mode == 0 || mode / 2 % 2 == 1)
  }

  /** An open started: the lowest vacant number is taken, and the backend called with what was given. */
  ghost predicate Started(s: State, s': State, backend: Backend, context: int, prefix: Option<Prefix>, mode: u16) {
    exists n: nat, access: u16 :: LowestVacant(s, n) && Asks(access, mode)
      && s'.pending == s.pending + [OpenCall(n - 1, backend, context, prefix, access)]
  }

  lemma BeginTold(s: State, backend: Backend, context: int, path: CString, prefix: Option<Prefix>, mode: u16,
                  create: bool)
    requires Inv(s) && backend.close && (if create then backend.create else backend.open)
    ensures var (s', r) := BeginOpen(s, Some(backend), context, Some(path), prefix, mode, create);
            && r == (if exists n :: Vacant(s, n) then CalledOut else Done(NoPathSlots, 0))
            && (r.Done? ==> s' == s) && (r.CalledOut? ==> Started(s, s', backend, context, prefix, mode))
  {
    FirstFreeTold(s);
    ModeGrants(mode);
    var i := FirstFree(s.slots);
    if i < |s.slots| {
      assert LowestVacant(s, i + 1) && Asks(AccessMode(mode), mode);
      assert BeginOpen(s, Some(backend), context, Some(path), prefix, mode, create).0.pending
             == s.pending + [OpenCall(i + 1 - 1, backend, context, prefix, AccessMode(mode))];
    }
  }

  /** When an open or create by name reaches a backend, which one, and what is answered otherwise. */
  lemma OpenReplies(s: State, path: CString, mode: u16, create: bool)
    requires Inv(s)
    ensures Step(s, OpenResolved(None, mode, create)) == (s, Done(InvalidArgument, 0))
    ensures var (s', r) := Step(s, OpenResolved(Some(path), mode, create));
            && ((forall route :: route in s.routes ==> !Over(route, path)) ==> r == Done(NotFound, 0))
            && (forall route :: Longest(s.routes, path, route) ==>
                  && r == (if create && !route.backend.create then Done(UnsupportedOperation, 0)
                           else if exists n :: Vacant(s, n) then CalledOut else Done(NoPathSlots, 0))
                  && (r.CalledOut? ==> Started(s, s', route.backend, route.context, Some(route.prefix), mode)))
            && (r.Done? ==> s' == s)
  {
    RouteTold(s, path);
    var f := FindRoute(s.routes, path);
    if f.Some? {
      var found := s.routes[f.value];
      if !create || found.backend.create {
        BeginTold(s, found.backend, found.context, path, Some(found.prefix), mode, create);
      }
      forall route | Longest(s.routes, path, route)
        ensures route == found
      {
        LongestUnique(s, path, route, found);
      }
    }
  }

  /** The same for an open with an explicit backend, which needs no route. */
  lemma DirectReplies(s: State, backend: Option<Backend>, context: int, path: Option<CString>, mode: u16)
    requires Inv(s)
    ensures var (s', r) := Step(s, OpenDirect(backend, context, path, mode));
            && r == (if backend.None? || !backend.value.open || !backend.value.close || path.None?
                     then Done(InvalidArgument, 0)
                     else if exists n :: Vacant(s, n) then CalledOut else Done(NoPathSlots, 0))
            && (r.Done? ==> s' == s)
            && (r.CalledOut? ==> Started(s, s', backend.value, context, None, mode))
  {
    if backend.Some? && backend.value.open && backend.value.close && path.Some? {
      BeginTold(s, backend.value, context, path.value, None, mode, false);
    }
  }

  // ----- operations by name and the registry -----

  /** When an operation by name reaches a backend, which one, and what is answered otherwise. */
  lemma NameReplies(s: State, path: CString, op: Operation)
    requires Inv(s)
    ensures Step(s, NameOperation(None, op)) == (s, Done(InvalidArgument, 0))
    ensures var (s', r) := Step(s, NameOperation(Some(path), op));
            && (op != MakeDir && op != Delete ==> r == Done(UnsupportedOperation, 0))
            && (op == MakeDir || op == Delete ==>
                  && ((forall route :: route in s.routes ==> !Over(route, path)) ==> r == Done(NotFound, 0))
                  && (forall route :: Longest(s.routes, path, route) ==>
                        && r == (if route.backend.nameOperation then CalledOut else Done(UnsupportedOperation, 0))
                        && (r.CalledOut? ==>
                              s' == s.(pending := s.pending + [NameCall(route.backend, route.context)]))))
            && (r.Done? ==> s' == s)
  {
    RouteTold(s, path);
    var f := FindRoute(s.routes, path);
    if f.Some? {
      forall route | Longest(s.routes, path, route)
        ensures route == s.routes[f.value]
      {
        LongestUnique(s, path, route, s.routes[f.value]);
      }
    }
  }

  predicate HasPrefix(routes: seq<Route>, prefix: Prefix) {
    exists j :: 0 <= j < |routes| && routes[j].Route? && routes[j].prefix == prefix
  }

  /** What registering answers; a route registered joins those there were. */
  lemma RegisterReplies(s: State, prefix: Option<Prefix>, backend: Option<Backend>, context: int)
    requires Inv(s)
    ensures var (s', r) := Step(s, Register(prefix, backend, context));
            && r == (if prefix.None? || prefix.value == "" || backend.None? || !backend.value.open
                        || !backend.value.close || HasPrefix(s.routes, prefix.value)
                     then Done(InvalidArgument, 0)
                     else if Unused in s.routes then Done(Ok, 0) else Done(RegistryFull, 0))
            && (r != Done(Ok, 0) ==> s' == s)
            && (r == Done(Ok, 0) ==>
                  && s' == s.(routes := s'.routes)
                  && forall x :: Registered(s'.routes, x) <==>
                       Registered(s.routes, x) || x == Route(prefix.value, backend.value, context))
  {
    var s' := Step(s, Register(prefix, backend, context)).0;
    if s' != s {
      var i := FirstUnused(s.routes);
      assert s'.routes == s.routes[i := Route(prefix.value, backend.value, context)];
      ReplacedRoutes(s.routes, i, Route(prefix.value, backend.value, context));
    }
  }

  lemma ReplacedRoutes(routes: seq<Route>, i: nat, new_: Route)
    requires i < |routes| && routes[i].Unused? && new_.Route?
    ensures forall x :: Registered(routes[i := new_], x) <==> Registered(routes, x) || x == new_
  {
    var routes' := routes[i := new_];
    forall x
      ensures Registered(routes', x) <==> Registered(routes, x) || x == new_
    {
      assert routes'[i] == new_;
      if Registered(routes, x) {
        var j :| 0 <= j < |routes| && routes[j] == x;
        assert routes'[j] == x;
      }
    }
  }

  /** Some path with the prefix is open or being opened. */
  ghost predicate HeldBy(s: State, prefix: Prefix) {
    || (exists n :: n in Replay(s.log) && Replay(s.log)[n].prefix == Some(prefix))
    || (exists c :: c in s.pending && c.OpenCall? && c.prefix == Some(prefix))
  }

  lemma HeldTold(s: State, prefix: Prefix)
    requires Inv(s)
    ensures RouteInUse(s.slots, prefix) <==> HeldBy(s, prefix)
  {
    if i :| 0 <= i < |s.slots| && s.slots[i].Slot? && s.slots[i].prefix == Some(prefix) {
      SlotTold(s, i + 1);
      if s.slots[i].phase == Opening {
        CountSome(s.pending, KOpen, i);
        assert Accounted(s.slots[i], s.pending, i);
        var k :| 0 <= k < |s.pending| && IsCall(s.pending[k], KOpen, i);
        assert s.pending[k] in s.pending && Pinned(s.pending[k], s.slots);
      } else {
        assert InForce(s.slots, i + 1);
        assert i + 1 in Replay(s.log);
      }
    }
    if n :| n in Replay(s.log) && Replay(s.log)[n].prefix == Some(prefix) {
      assert n in View(s.slots) && s.slots[n - 1].prefix == Some(prefix);
    }
    if c :| c in s.pending && c.OpenCall? && c.prefix == Some(prefix) {
      assert Pinned(c, s.slots);
    }
  }

  /** What unregistering answers: busy exactly while a path with the prefix is open or being opened. */
  lemma UnregisterReplies(s: State, prefix: Option<Prefix>)
    requires Inv(s)
    ensures var (s', r) := Step(s, Unregister(prefix));
            && r == (if prefix.None? || prefix.value == "" then Done(InvalidArgument, 0)
                     else if !HasPrefix(s.routes, prefix.value) then Done(NotFound, 0)
                     else if HeldBy(s, prefix.value) then Done(Busy, 0)
                     else Done(Ok, 0))
            && (r != Done(Ok, 0) ==> s' == s)
            && (r == Done(Ok, 0) ==>
                  && s' == s.(routes := s'.routes)
                  && forall x :: Registered(s'.routes, x) <==> Registered(s.routes, x) && x.prefix != prefix.value)
  {
    var s' := Step(s, Unregister(prefix)).0;
    if prefix.Some? { HeldTold(s, prefix.value); }
    if s' != s {
      var i := FindPrefix(s.routes, prefix.value);
      DroppedRoutes(s.routes, i);
    }
  }

  lemma DroppedRoutes(routes: seq<Route>, i: nat)
    requires RoutesOk(routes) && i < |routes| && routes[i].Route?
    ensures forall x :: Registered(routes[i := Unused], x) <==>
                          Registered(routes, x) && x.prefix != routes[i].prefix
  {
    var routes' := routes[i := Unused];
    forall x
      ensures Registered(routes', x) <==> Registered(routes, x) && x.prefix != routes[i].prefix
    {
      if Registered(routes', x) {
        var j :| 0 <= j < |routes'| && routes'[j] == x;
        assert routes[j] == x && j != i;
      }
      if Registered(routes, x) && x.prefix != routes[i].prefix {
        var j :| 0 <= j < |routes| && routes[j] == x;
        assert routes'[j] == x;
      }
    }
  }

  // ----- returns -----

  /** The callouts in progress without the k-th. */
  predicate OneLess(pending: seq<Callout>, pending': seq<Callout>, k: nat) {
    && k < |pending| && |pending'| == |pending| - 1
    && forall j :: 0 <= j < |pending'| ==> pending'[j] == pending[if j < k then j else j + 1]
  }

  /** What the return of a callout answers and logs: the backend's status always, a number for a
      successful open only. */
  lemma ReturnReplies(s: State, k: nat, status: Status, handle: u16)
    requires Inv(s) && k < |s.pending|
    ensures var (s', r) := Step(s, Return(k, status, handle));
            var c := s.pending[k];
            && OneLess(s.pending, s'.pending, k) && s'.routes == s.routes
            && (status == Ok && c.OpenCall? ==>
                  && c.slot + 1 < 0x1_0000 && r == Done(Ok, c.slot + 1)
                  && s'.log == s.log + [Opened(c.slot + 1, Binding(c.backend, c.context, handle, c.access, c.prefix))])
            && (status == Ok && c.CloseCall? ==>
                  c.slot + 1 < 0x1_0000 && r == Done(Ok, 0) && s'.log == s.log + [Closed(c.slot + 1)])
            && (status != Ok || c.OperateCall? || c.NameCall? ==> r == Done(status, 0) && s'.log == s.log)
  {
    var c := s.pending[k];
    PendingEnabled(s, k);
    assert c in s.pending && Pinned(c, s.slots);
  }
}
