/** The path manager as the program keeps it: a fixed path table and a fixed registry, both
    updated in place.  Each method is one atomic step of IomanModel. */
module IomanManager {
  import opened IomanModel
  import opened Options

  class Manager {
    const paths: array<Slot>
    const backends: array<Route>
    ghost var pending: seq<Callout>
    ghost var log: seq<Event>

    ghost predicate Valid()
      reads this
    {
      0 < paths.Length < 0x1_0000 && backends.Length == ROUTE_CAPACITY
    }

    ghost function Abs(): State
      reads this, paths, backends
    {
      State(paths[..], backends[..], pending, log)
    }

    constructor (capacity: u16)
      requires capacity > 0
      ensures Valid() && fresh(paths) && fresh(backends)
      ensures Abs() == Init(capacity)
    {
      paths := new Slot[capacity](_ => Free);
      backends := new Route[ROUTE_CAPACITY](_ => Unused);
      pending, log := [], [];
    }

    /** q9ioman_init: no manager without path slots. */
    static method Create(capacity: u16) returns (status: Status, manager: Manager?)
      ensures status == if capacity == 0 then InvalidArgument else Ok
      ensures manager != null <==> capacity > 0
      ensures manager != null ==>
                && fresh(manager) && fresh(manager.paths) && fresh(manager.backends)
                && manager.Valid() && manager.Abs() == Init(capacity)
    {
      if capacity == 0 {
        return InvalidArgument, null;
      }
      manager := new Manager(capacity);
      return Ok, manager;
    }

    /** Character by character, up to the shorter of the two strings. */
    static method CommonPrefix(a: CString, b: CString) returns (pos: nat)
      ensures pos <= |a| && pos <= |b| && a[..pos] == b[..pos]
      ensures pos < |a| && pos < |b| ==> a[pos] != b[pos]
    {
      pos := 0;
      while pos < |a| && pos < |b| && a[pos] == b[pos]
        invariant pos <= |a| && pos <= |b| && a[..pos] == b[..pos]
      {
        pos := pos + 1;
      }
    }

    method FindBackend(path: CString) returns (selected: Option<nat>)
      requires Valid()
      ensures selected == FindRoute(backends[..], path)
    {
      selected := None;
      var selectedLength := 0;
      var index := 0;
      while index < ROUTE_CAPACITY
        invariant 0 <= index <= ROUTE_CAPACITY
        invariant selected == Select(backends[..], path, index)
        invariant selectedLength == if selected.None? then 0 else |backends[selected.value].prefix|
      {
        var entry := backends[index];
        if entry.Route? {
          var length := |entry.prefix|;
          var pos := CommonPrefix(entry.prefix, path);
          assert entry.prefix <= path <==> pos == length;
          if pos == length && (length == |path| || path[length] == '/') && length > selectedLength {
            selected := Some(index);
            selectedLength := length;
          }
        }
        index := index + 1;
      }
    }

    method RegisterBackend(prefix: Option<Prefix>, backend: Option<Backend>, context: int)
      returns (reply: Reply)
      requires Valid()
      modifies backends
      ensures Valid() && (Abs(), reply) == RegisterRoute(old(Abs()), prefix, backend, context)
    {
      if prefix.None? || prefix.value == "" || backend.None? || !backend.value.open || !backend.value.close {
        return Fail(InvalidArgument);
      }
      var freeEntry := ROUTE_CAPACITY;
      var index := 0;
      while index < ROUTE_CAPACITY
        invariant 0 <= index <= ROUTE_CAPACITY && Abs() == old(Abs())
        invariant forall j :: 0 <= j < index ==> !(backends[j].Route? && backends[j].prefix == prefix.value)
        invariant if freeEntry == ROUTE_CAPACITY then forall j :: 0 <= j < index ==> backends[j].Route?
                  else 0 <= freeEntry < index && backends[freeEntry].Unused?
                       && forall j :: 0 <= j < freeEntry ==> backends[j].Route?
      {
        var entry := backends[index];
        if entry.Route? {
          if |entry.prefix| == |prefix.value| {
            var pos := CommonPrefix(entry.prefix, prefix.value);
            if pos == |prefix.value| {
              assert entry.prefix == prefix.value;
              assert FindPrefix(backends[..], prefix.value) == index;
              return Fail(InvalidArgument);
            }
          }
        } else if freeEntry == ROUTE_CAPACITY {
          freeEntry := index;
        }
        index := index + 1;
      }
      assert FirstUnused(backends[..]) == freeEntry;
      if freeEntry == ROUTE_CAPACITY {
        return Fail(RegistryFull);
      }
      backends[freeEntry] := Route(prefix.value, backend.value, context);
      return Done(Ok, 0);
    }

    method UnregisterBackend(prefix: Option<Prefix>) returns (reply: Reply)
      requires Valid()
      modifies backends
      ensures Valid() && (Abs(), reply) == UnregisterRoute(old(Abs()), prefix)
    {
      if prefix.None? || prefix.value == "" {
        return Fail(InvalidArgument);
      }
      var entryIndex := 0;
      while entryIndex < ROUTE_CAPACITY
        invariant 0 <= entryIndex <= ROUTE_CAPACITY && Abs() == old(Abs())
        invariant forall j :: 0 <= j < entryIndex ==> !(backends[j].Route? && backends[j].prefix == prefix.value)
      {
        var entry := backends[entryIndex];
        if entry.Route? && |entry.prefix| == |prefix.value| {
          var pos := CommonPrefix(entry.prefix, prefix.value);
          if pos == |prefix.value| { break; }
        }
        entryIndex := entryIndex + 1;
      }
      assert FindPrefix(backends[..], prefix.value) == entryIndex;
      if entryIndex == ROUTE_CAPACITY {
        return Fail(NotFound);
      }
      var pathIndex := 0;
      while pathIndex < paths.Length
        invariant 0 <= pathIndex <= paths.Length
        invariant forall i :: 0 <= i < pathIndex ==> !(paths[i].Slot? && paths[i].prefix == Some(prefix.value))
      {
        if paths[pathIndex].Slot? && paths[pathIndex].prefix == Some(backends[entryIndex].prefix) {
          assert paths[..][pathIndex].prefix == Some(prefix.value);
          assert RouteInUse(paths[..], prefix.value);
          return Fail(Busy);
        }
        pathIndex := pathIndex + 1;
      }
      backends[entryIndex] := Unused;
      return Done(Ok, 0);
    }

    /** Reserve a slot before calling out.  The reserved slot index is what the C local keeps. */
    method OpenBackendCall(backend: Option<Backend>, context: int, path: Option<CString>,
                           prefix: Option<Prefix>, mode: u16, create: bool) returns (reply: Reply)
      requires Valid()
      modifies this, paths
      ensures Valid() && (Abs(), reply) == BeginOpen(old(Abs()), backend, context, path, prefix, mode, create)
    {
      if backend.None? || (if create then !backend.value.create else !backend.value.open)
         || !backend.value.close || path.None? {
        return Fail(InvalidArgument);
      }
      var index := 0;
      while index < paths.Length && !paths[index].Free?
        invariant 0 <= index <= paths.Length
        invariant forall j :: 0 <= j < index ==> paths[j].Slot?
      {
        index := index + 1;
      }
      assert FirstFree(paths[..]) == index;
      if index == paths.Length {
        return Fail(NoPathSlots);
      }
      var access := mode % 4;
      if mode == 0 {
        access := 3;
      }
      paths[index] := Slot(Opening, 0, access, 0, backend.value, context, prefix);
      pending := pending + [OpenCall(index, backend.value, context, prefix, access)];
      return CalledOut;
    }

    method OpenResolvedCall(path: Option<CString>, mode: u16, create: bool) returns (reply: Reply)
      requires Valid()
      modifies this, paths
      ensures Valid() && (Abs(), reply) == BeginOpenResolved(old(Abs()), path, mode, create)
    {
      if path.None? { return Fail(InvalidArgument); }
      var selected := FindBackend(path.value);
      if selected.None? { return Fail(NotFound); }
      var route := backends[selected.value];
      if create && !route.backend.create { return Fail(UnsupportedOperation); }
      reply := OpenBackendCall(Some(route.backend), route.context, path, Some(route.prefix), mode, create);
    }

    method OperateCall(local: u16, op: Operation) returns (reply: Reply)
      requires Valid()
      modifies this, paths
      ensures Valid() && (Abs(), reply) == BeginOperate(old(Abs()), local, op)
    {
      if op.MakeDir? || op.Delete? { return Fail(UnsupportedOperation); }
      if local == 0 || local > paths.Length { return Fail(InvalidPath); }
      var path := paths[local - 1];
      if path.Free? || path.phase != Open { return Fail(InvalidPath); }
      if !path.backend.operate { return Fail(UnsupportedOperation); }
      if (op.Read? || op.ReadLine?) && path.access % 2 == 0 { return Fail(WrongMode); }
      if (op.Write? || op.WriteLine?) && path.access / 2 % 2 == 0 { return Fail(WrongMode); }
      if path.active == 0xFFFF { return Fail(Busy); }
      paths[local - 1] := path.(active := path.active + 1);
      pending := pending + [Callout.OperateCall(local - 1, path.backend, path.context, path.handle, op)];
      return CalledOut;
    }

    method CloseCall(local: u16) returns (reply: Reply)
      requires Valid()
      modifies this, paths
      ensures Valid() && (Abs(), reply) == BeginClose(old(Abs()), local)
    {
      if local == 0 || local > paths.Length { return Fail(InvalidPath); }
      var path := paths[local - 1];
      if path.Free? || path.phase != Open { return Fail(InvalidPath); }
      if !path.backend.close { return Fail(UnsupportedOperation); }
      if path.active != 0 { return Fail(Busy); }
      paths[local - 1] := path.(phase := Closing);
      pending := pending + [Callout.CloseCall(local - 1, path.backend, path.context, path.handle)];
      return CalledOut;
    }

    /** The rest of an open or create once its backend function returned. */
    method OpenReturn(slot: nat, status: Status, handle: u16, ghost k: nat) returns (reply: Reply)
      requires Valid() && Enabled(Abs(), k)
      requires pending[k].OpenCall? && pending[k].slot == slot
      modifies this, paths
      ensures Valid() && (Abs(), reply) == Finish(old(Abs()), k, status, handle)
    {
      log := log + FinishLog(pending[k], paths[slot], status, handle);
      pending := Remove(pending, k);
      if status != Ok {
        paths[slot] := Free;
        return Fail(status);
      }
      paths[slot] := paths[slot].(handle := handle, phase := Open);
      return Done(Ok, slot + 1);
    }

    method OperateReturn(slot: nat, status: Status, ghost k: nat) returns (reply: Reply)
      requires Valid() && Enabled(Abs(), k)
      requires pending[k].OperateCall? && pending[k].slot == slot
      modifies this, paths
      ensures Valid() && (Abs(), reply) == Finish(old(Abs()), k, status, 0)
    {
      assert log + [] == log;
      pending := Remove(pending, k);
      paths[slot] := paths[slot].(active := Dec16(paths[slot].active));
      return Done(status, 0);
    }

    method CloseReturn(slot: nat, status: Status, ghost k: nat) returns (reply: Reply)
      requires Valid() && Enabled(Abs(), k)
      requires pending[k].CloseCall? && pending[k].slot == slot
      modifies this, paths
      ensures Valid() && (Abs(), reply) == Finish(old(Abs()), k, status, 0)
    {
      log := log + FinishLog(pending[k], paths[slot], status, 0);
      pending := Remove(pending, k);
      if status != Ok {
        paths[slot] := paths[slot].(phase := Open);
      } else {
        paths[slot] := Free;
      }
      return Done(status, 0);
    }

    /** Make or delete a directory entry by name: the registry is read, no slot is touched. */
    method NameOperationCall(path: Option<CString>, op: Operation) returns (reply: Reply)
      requires Valid()
      modifies this
      ensures Valid() && (Abs(), reply) == BeginNameOperation(old(Abs()), path, op)
    {
      if path.None? { return Fail(InvalidArgument); }
      if !op.MakeDir? && !op.Delete? { return Fail(UnsupportedOperation); }
      var selected := FindBackend(path.value);
      if selected.None? { return Fail(NotFound); }
      var route := backends[selected.value];
      if !route.backend.nameOperation { return Fail(UnsupportedOperation); }
      pending := pending + [NameCall(route.backend, route.context)];
      return CalledOut;
    }

    method NameReturn(status: Status, ghost k: nat) returns (reply: Reply)
      requires Valid() && Enabled(Abs(), k) && pending[k].NameCall?
      modifies this
      ensures Valid() && (Abs(), reply) == Finish(old(Abs()), k, status, 0)
    {
      pending := Remove(pending, k);
      return Done(status, 0);
    }
  }
}
