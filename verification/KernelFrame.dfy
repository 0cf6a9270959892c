/** The register-frame dispatcher: it decodes a 72-byte big-endian trap frame, makes at most one
    call to the path manager, and writes results, or an error number and carry, back. */
module KernelFrame {
  import opened Bytes
  import opened IomanModel
  import opened Options

  type u32 = x: int | 0 <= x < 0x1_0000_0000

  const D0 := 0x00
  const D1 := 0x04
  const A0 := 0x20
  const SR := 0x40
  const FRAME_SIZE := 0x48

  function Read32(f: seq<byte>, off: nat): (v: u32)
    requires off + 4 <= |f|
  {
    BeBound(f[off..off + 4]); Widths();
    Be(f[off..off + 4])
  }

  function Read16(f: seq<byte>, off: nat): (v: u16)
    requires off + 2 <= |f|
  {
    BeBound(f[off..off + 2]); Widths();
    Be(f[off..off + 2])
  }

  predicate Carry(f: seq<byte>)
    requires |f| == FRAME_SIZE
  {
    Read16(f, SR) % 2 == 1
  }

  /** Same status register apart from the carry bit. */
  predicate SameFlags(f: seq<byte>, g: seq<byte>)
    requires |f| == |g| == FRAME_SIZE
  {
    Read16(f, SR) / 2 == Read16(g, SR) / 2
  }

  /** Equal outside the given half-open byte range and the status register. */
  predicate SameOutside(f: seq<byte>, g: seq<byte>, lo: nat, hi: nat)
    requires |f| == |g| == FRAME_SIZE
  {
    forall i :: 0 <= i < FRAME_SIZE && !(lo <= i < hi) && !(SR <= i < SR + 2) ==> f[i] == g[i]
  }

  function Os9Error(status: Status): u16 {
    match status
    case Ok => 0
    case InvalidArgument => 0xE1
    case InvalidPath => 0xC9
    case WrongMode => 0xCB
    case NoPathSlots => 0xC8
    case RegistryFull => 0xC8
    case NotFound => 0xDD
    case _ => 0xD0
  }

  /** Which statuses an error number stands for. */
  lemma ErrorNumbers(status: Status)
    ensures Os9Error(status) == 0 <==> status == Ok
    ensures Os9Error(status) == 0xE1 <==> status == InvalidArgument
    ensures Os9Error(status) == 0xC9 <==> status == InvalidPath
    ensures Os9Error(status) == 0xCB <==> status == WrongMode
    ensures Os9Error(status) == 0xC8 <==> status == NoPathSlots || status == RegistryFull
    ensures Os9Error(status) == 0xDD <==> status == NotFound
    ensures Os9Error(status) == 0xD0 <==> status == UnsupportedOperation || status == Busy
  {
  }

  // ----- in-place frame access -----

  method Write32(frame: array<byte>, off: nat, value: u32)
    requires off + 4 <= frame.Length
    modifies frame
    ensures frame[..] == Patch(old(frame[..]), off, ToBe(value, 4))
    ensures Read32(frame[..], off) == value
  {
    ghost var f := frame[..];
    ghost var v := ToBe(value, 4);
    FourBytes(value);
    frame[off] := value / 0x100_0000 % 256;
    frame[off + 1] := value / 0x1_0000 % 256;
    frame[off + 2] := value / 0x100 % 256;
    frame[off + 3] := value % 256;
    assert frame[..] == Patch(f, off, v);
    Widths();
    BeToBe(value, 4);
  }

  lemma FourBytes(value: u32)
    ensures ToBe(value, 4) == [value / 0x100_0000 % 256, value / 0x1_0000 % 256,
                               value / 0x100 % 256, value % 256]
  {
    assert value / 256 / 256 == value / 0x1_0000 && value / 256 / 256 / 256 == value / 0x100_0000;
    assert ToBe(value / 256 / 256 / 256 / 256, 0) == [];
    assert ToBe(value / 256 / 256 / 256, 1) == [value / 0x100_0000 % 256];
    assert ToBe(value / 256 / 256, 2) == ToBe(value / 256 / 256 / 256, 1) + [value / 0x1_0000 % 256];
    assert ToBe(value / 256, 3) == ToBe(value / 256 / 256, 2) + [value / 0x100 % 256];
  }

  method Write16(frame: array<byte>, off: nat, value: u16)
    requires off + 2 <= frame.Length
    modifies frame
    ensures frame[..] == Patch(old(frame[..]), off, ToBe(value, 2))
    ensures Read16(frame[..], off) == value
  {
    ghost var f := frame[..];
    ghost var v := ToBe(value, 2);
    assert ToBe(value / 256, 1) == [value / 256 % 256];
    frame[off] := value / 256 % 256;
    frame[off + 1] := value % 256;
    assert frame[..] == Patch(f, off, v);
    Widths();
    BeToBe(value, 2);
  }

  method SetCarry(frame: array<byte>, set_: bool)
    requires frame.Length == FRAME_SIZE
    modifies frame
    ensures Carry(frame[..]) == set_
    ensures SameFlags(frame[..], old(frame[..]))
    ensures SameOutside(frame[..], old(frame[..]), 0, 0)
  {
    ghost var f := frame[..];
    var status := Read16(frame[..], SR);
    status := if set_ then status / 2 * 2 + 1 else status / 2 * 2;
    Write16(frame, SR, status);
    assert forall i :: 0 <= i < FRAME_SIZE && !(SR <= i < SR + 2) ==> frame[..][i] == f[i];
  }

  // ----- decoding -----

  datatype Request =
    | CreateRequest(mode: u16, buffer: u32)
    | OpenRequest(mode: u16, buffer: u32)
    | MakDirRequest(buffer: u32)
    | ChgDirRequest(selector: u16, buffer: u32)
    | DeleteRequest(buffer: u32)
    | SeekRequest(path: u16, position: u32)
    | TransferRequest(op: Operation, path: u16, length: u32, buffer: u32)
    | StatusRequest(op: Operation, path: u16, code: u16, buffer: u32)
    | CloseRequest(path: u16)

  function Decode(callcode: u16, f: seq<byte>): (r: Option<Request>)
    requires |f| == FRAME_SIZE
    ensures r.Some? <==> 0x83 <= callcode <= 0x8F
  {
    if callcode == 0x83 then Some(CreateRequest(Read32(f, D0) % 256, Read32(f, A0)))
    else if callcode == 0x84 then Some(OpenRequest(Read32(f, D0) % 256, Read32(f, A0)))
    else if callcode == 0x85 then Some(MakDirRequest(Read32(f, A0)))
    else if callcode == 0x86 then Some(ChgDirRequest(Read16(f, D0 + 2), Read32(f, A0)))
    else if callcode == 0x87 then Some(DeleteRequest(Read32(f, A0)))
    else if callcode == 0x88 then Some(SeekRequest(Read16(f, D0 + 2), Read32(f, D1)))
    else if callcode == 0x89 then
      Some(TransferRequest(Read, Read16(f, D0 + 2), Read32(f, D1), Read32(f, A0)))
    else if callcode == 0x8A || callcode == 0x8B || callcode == 0x8C then
      var op := if callcode == 0x8A then Write else if callcode == 0x8B then ReadLine else WriteLine;
      Some(TransferRequest(op, Read16(f, D0 + 2), Read32(f, D1), Read32(f, A0)))
    else if callcode == 0x8D || callcode == 0x8E then
      var op := if callcode == 0x8D then GetStatus else SetStatus;
      Some(StatusRequest(op, Read16(f, D0 + 2), Read16(f, D1 + 2), Read32(f, A0)))
    else if callcode == 0x8F then Some(CloseRequest(Read16(f, D0 + 2)))
    else None
  }

  // ----- dispatch -----

  /** What the platform's path resolver answers for an address. */
  datatype Resolved = Resolved(status: Status, name: Option<CString>, bytes: u32)

  /** A call into the path manager. */
  datatype ManagerCall =
    | CallOpen(name: CString, mode: u16, create: bool)
    | CallName(name: CString, op: Operation)
    | CallOperate(path: u16, op: Operation, arg0: u32, arg1: u32, arg2: u32)
    | CallClose(path: u16)

  /** What the manager (in whatever state it is, after whatever its backends did) answers. */
  datatype Outcome = Outcome(status: Status, path: u16, transferred: u32)

  datatype Plan = Reject(status: Status) | Invoke(call: ManagerCall)

  /** The checks before the manager is called. */
  function PlanFor(callcode: u16, f: seq<byte>, resolve: Option<u32 -> Resolved>): Plan
    requires |f| == FRAME_SIZE
  {
    match Decode(callcode, f)
    case None => Reject(UnsupportedOperation)
    case Some(r) =>
      if r.ChgDirRequest? then Reject(UnsupportedOperation)
      else if r.TransferRequest? then
        if r.length != 0 && (r.buffer == 0 || r.buffer > 0xFFFF_FFFF - (r.length - 1))
        then Reject(InvalidArgument)
        else Invoke(CallOperate(r.path, r.op, r.buffer, 0, r.length))
      else if r.SeekRequest? then Invoke(CallOperate(r.path, Seek, r.position, 0, 0))
      else if r.StatusRequest? then Invoke(CallOperate(r.path, r.op, r.code, r.buffer, 0))
      else if r.CloseRequest? then Invoke(CallClose(r.path))
      else if resolve.None? then Reject(InvalidArgument)
      else
        var name := resolve.value(r.buffer);
        if name.status != Ok then Reject(name.status)
        else if name.name.None? || name.bytes == 0 || r.buffer > 0xFFFF_FFFF - name.bytes
        then Reject(InvalidArgument)
        else match r
          case CreateRequest(mode, _) => Invoke(CallOpen(name.name.value, mode, true))
          case OpenRequest(mode, _) => Invoke(CallOpen(name.name.value, mode, false))
          case MakDirRequest(_) => Invoke(CallName(name.name.value, MakeDir))
          case _ => Invoke(CallName(name.name.value, Delete))
  }

  /** No transfer is handed to the manager whose buffer is null or runs over the end of the
      32-bit address space, and every call made is for the path and length in the frame. */
  lemma TransfersInRange(callcode: u16, f: seq<byte>, resolve: Option<u32 -> Resolved>)
    requires |f| == FRAME_SIZE && 0x89 <= callcode <= 0x8C
    ensures var p := PlanFor(callcode, f, resolve);
            var buffer, length := Read32(f, A0), Read32(f, D1);
            p.Invoke? <==> length == 0 || (buffer != 0 && buffer + length <= 0x1_0000_0000)
    ensures var p := PlanFor(callcode, f, resolve);
            p.Invoke? ==> p.call.CallOperate? && p.call.path == Read16(f, D0 + 2)
                          && p.call.arg0 == Read32(f, A0) && p.call.arg2 == Read32(f, D1)
  {
  }

  // ----- which call is made, in terms of the bytes of the frame -----

  /** Two and four frame bytes as a number. */
  function Half(f: seq<byte>, off: nat): nat
    requires off + 2 <= |f|
  {
    256 * (f[off] as int) + f[off + 1]
  }

  function Long(f: seq<byte>, off: nat): nat
    requires off + 4 <= |f|
  {
    0x1_0000 * Half(f, off) + Half(f, off + 2)
  }

  lemma RegisterBytes(f: seq<byte>, off: nat)
    requires off + 4 <= |f|
    ensures Read16(f, off + 2) == Half(f, off + 2) && Read32(f, off) == Long(f, off)
  {
    var h, w := f[off + 2..off + 2 + 2], f[off..off + 4];
    assert h[..1][..0] == [] && Be(h[..1]) == h[0];
    assert w[..3][..2][..1][..0] == [] && Be(w[..3][..2][..1]) == w[0];
    assert Be(w[..3][..2]) == 256 * Be(w[..3][..2][..1]) + w[1];
    assert Be(w[..3]) == 256 * Be(w[..3][..2]) + w[2];
  }

  lemma HalvesAlike(x: byte, y: byte, u: byte, v: byte)
    ensures (256 * (x as int) + y) / 2 == (256 * (u as int) + v) / 2 <==> x == u && (y as int) / 2 == (v as int) / 2
    ensures (256 * (x as int) + y) % 2 == (y as int) % 2
  {
    assert (256 * (x as int) + y) / 2 == 128 * (x as int) + (y as int) / 2;
    assert (256 * (u as int) + v) / 2 == 128 * (u as int) + (v as int) / 2;
  }

  /** The carry bit and the other flags in bytes of the frame. */
  lemma FlagBytes(f: seq<byte>, g: seq<byte>)
    requires |f| == |g| == FRAME_SIZE
    ensures Carry(f) <==> f[0x41] % 2 == 1
    ensures SameFlags(f, g) <==> f[0x40] == g[0x40] && (f[0x41] as int) / 2 == (g[0x41] as int) / 2
  {
    TwoIn(f, SR);
    TwoIn(g, SR);
    HalvesAlike(f[0x40], f[0x41], g[0x40], g[0x41]);
  }

  /** The calls that take no name, argument by argument; everything without a manager call is
      refused as unsupported. */
  lemma CallsByPath(callcode: u16, f: seq<byte>, resolve: Option<u32 -> Resolved>)
    requires |f| == FRAME_SIZE
    ensures var p := PlanFor(callcode, f, resolve);
            && (callcode == 0x88 ==> p == Invoke(CallOperate(Half(f, 2), Seek, Long(f, 4), 0, 0)))
            && (callcode == 0x8D ==> p == Invoke(CallOperate(Half(f, 2), GetStatus, Half(f, 6), Long(f, 0x20), 0)))
            && (callcode == 0x8E ==> p == Invoke(CallOperate(Half(f, 2), SetStatus, Half(f, 6), Long(f, 0x20), 0)))
            && (callcode == 0x8F ==> p == Invoke(CallClose(Half(f, 2))))
            && (callcode == 0x89 && p.Invoke? ==>
                  p.call == CallOperate(Half(f, 2), Read, Long(f, 0x20), 0, Long(f, 4)))
            && (callcode == 0x8A && p.Invoke? ==>
                  p.call == CallOperate(Half(f, 2), Write, Long(f, 0x20), 0, Long(f, 4)))
            && (callcode == 0x8B && p.Invoke? ==>
                  p.call == CallOperate(Half(f, 2), ReadLine, Long(f, 0x20), 0, Long(f, 4)))
            && (callcode == 0x8C && p.Invoke? ==>
                  p.call == CallOperate(Half(f, 2), WriteLine, Long(f, 0x20), 0, Long(f, 4)))
            && (callcode < 0x83 || callcode == 0x86 || callcode > 0x8F
                <==> p == Reject(UnsupportedOperation) && !ByName(callcode))
  {
    RegisterBytes(f, 0);
    RegisterBytes(f, 4);
    RegisterBytes(f, 0x20);
  }

  predicate ByName(callcode: u16) { callcode == 0x83 || callcode == 0x84 || callcode == 0x85 || callcode == 0x87 }

  /** The calls by name go through exactly when the resolver gives a name that is not empty and ends
      within 32 bits, and then with that name; an open or create takes its mode from one byte. */
  lemma CallsByName(callcode: u16, f: seq<byte>, resolve: u32 -> Resolved)
    requires |f| == FRAME_SIZE && ByName(callcode)
    ensures PlanFor(callcode, f, None) == Reject(InvalidArgument)
    ensures var a := Long(f, 0x20);
            && a < 0x1_0000_0000
            && var p, r := PlanFor(callcode, f, Some(resolve)), resolve(a);
               && (p.Invoke? <==> r.status == Ok && r.name.Some? && 0 < r.bytes && a + r.bytes < 0x1_0000_0000)
               && (p.Invoke? ==>
                     p.call == if callcode == 0x83 then CallOpen(r.name.value, f[3], true)
                               else if callcode == 0x84 then CallOpen(r.name.value, f[3], false)
                               else CallName(r.name.value, if callcode == 0x85 then MakeDir else Delete))
               && (p.Reject? ==> p.status == if r.status != Ok then r.status else InvalidArgument)
  {
    RegisterBytes(f, 0);
    RegisterBytes(f, 0x20);
  }

  predicate IsTransfer(c: ManagerCall) {
    c.CallOperate? && (c.op.Read? || c.op.Write? || c.op.ReadLine? || c.op.WriteLine?)
  }

  /** The status of the whole dispatch. */
  function Verdict(p: Plan, manager: ManagerCall -> Outcome): Status {
    match p
    case Reject(status) => status
    case Invoke(c) =>
      var o := manager(c);
      if o.status == Ok && IsTransfer(c) && o.transferred > c.arg2 then InvalidArgument else o.status
  }

  /** When a dispatch succeeds, and with which status it fails. */
  lemma VerdictTold(p: Plan, manager: ManagerCall -> Outcome)
    ensures p.Reject? ==> Verdict(p, manager) == p.status
    ensures p.Invoke? ==>
              var o := manager(p.call);
              var transfer := p.call.CallOperate? && p.call.op in {Read, Write, ReadLine, WriteLine};
              && (Verdict(p, manager) == Ok <==> o.status == Ok && (transfer ==> o.transferred <= p.call.arg2))
              && (o.status != Ok ==> Verdict(p, manager) == o.status)
              && (o.status == Ok && Verdict(p, manager) != Ok ==> Verdict(p, manager) == InvalidArgument)
  {
  }

  /** A rejected plan is always an error. */
  lemma RejectsAreErrors(callcode: u16, f: seq<byte>, resolve: Option<u32 -> Resolved>)
    requires |f| == FRAME_SIZE
    ensures PlanFor(callcode, f, resolve).Reject? ==> PlanFor(callcode, f, resolve).status != Ok
  {
  }

  /** The error exit: low word of D1 and carry, nothing else. */
  method FailFrame(frame: array<byte>, status: Status)
    requires frame.Length == FRAME_SIZE
    modifies frame
    ensures SameOutside(frame[..], old(frame[..]), D1 + 2, D1 + 4)
    ensures SameFlags(frame[..], old(frame[..])) && Carry(frame[..])
    ensures Read16(frame[..], D1 + 2) == Os9Error(status)
  {
    ghost var f := frame[..];
    Write16(frame, D1 + 2, Os9Error(status));
    ghost var g := frame[..];
    assert g[SR..SR + 2] == f[SR..SR + 2];
    SetCarry(frame, true);
    assert frame[..][D1 + 2..D1 + 4] == g[D1 + 2..D1 + 4];
  }

  /** The exit of a successful open or create: path number to D0, A0 behind the name. */
  method FinishOpen(frame: array<byte>, path: u16, behind: u32)
    requires frame.Length == FRAME_SIZE
    modifies frame
    ensures forall i | 0 <= i < FRAME_SIZE && !(D0 <= i < D0 + 4) && !(A0 <= i < A0 + 4)
                       && !(SR <= i < SR + 2) :: frame[i] == old(frame[i])
    ensures SameFlags(frame[..], old(frame[..])) && !Carry(frame[..])
    ensures Read32(frame[..], D0) == path && Read32(frame[..], A0) == behind
  {
    ghost var f := frame[..];
    Write32(frame, D0, path);
    ghost var g := frame[..];
    Write32(frame, A0, behind);
    ghost var h := frame[..];
    assert h[D0..D0 + 4] == g[D0..D0 + 4] && h[SR..SR + 2] == f[SR..SR + 2];
    SetCarry(frame, false);
    assert frame[..][D0..D0 + 4] == h[D0..D0 + 4] && frame[..][A0..A0 + 4] == h[A0..A0 + 4];
  }

  /** The exit of a successful transfer: the count to D1. */
  method FinishTransfer(frame: array<byte>, count: u32)
    requires frame.Length == FRAME_SIZE
    modifies frame
    ensures SameOutside(frame[..], old(frame[..]), D1, D1 + 4)
    ensures SameFlags(frame[..], old(frame[..])) && !Carry(frame[..])
    ensures Read32(frame[..], D1) == count
  {
    ghost var f := frame[..];
    Write32(frame, D1, count);
    ghost var g := frame[..];
    assert g[SR..SR + 2] == f[SR..SR + 2];
    SetCarry(frame, false);
    assert frame[..][D1..D1 + 4] == g[D1..D1 + 4];
  }

  /** Dispatch of one trap.  `manager` is None for a missing manager. */
  method Dispatch(callcode: u16, manager: Option<ManagerCall -> Outcome>, frame: array<byte>,
                  resolve: Option<u32 -> Resolved>) returns (status: Status)
    requires frame.Length == FRAME_SIZE
    modifies frame
    ensures status == if manager.None? then InvalidArgument
                      else Verdict(PlanFor(callcode, old(frame[..]), resolve), manager.value)
    // a failed dispatch changes only the low word of D1 and the carry bit
    ensures SameFlags(frame[..], old(frame[..]))
    ensures Carry(frame[..]) <==> status != Ok
    ensures status != Ok ==>
              && SameOutside(frame[..], old(frame[..]), D1 + 2, D1 + 4)
              && Read16(frame[..], D1 + 2) == Os9Error(status) != 0
    // a successful open or create hands out the path number and steps over the name
    ensures status == Ok && (callcode == 0x83 || callcode == 0x84) ==>
              && (forall i | 0 <= i < FRAME_SIZE && !(D0 <= i < D0 + 4) && !(A0 <= i < A0 + 4)
                             && !(SR <= i < SR + 2) :: frame[i] == old(frame[i]))
              && resolve.Some? && resolve.value(old(Read32(frame[..], A0))).name.Some?
              && var name := resolve.value(old(Read32(frame[..], A0)));
                 && Read32(frame[..], A0) == old(Read32(frame[..], A0)) + name.bytes
                 && Read32(frame[..], D0) == manager.value(CallOpen(name.name.value,
                      old(Read32(frame[..], D0)) % 256, callcode == 0x83)).path
    // a successful transfer reports a count that is at most the length asked for
    ensures status == Ok && 0x89 <= callcode <= 0x8C ==>
              && SameOutside(frame[..], old(frame[..]), D1, D1 + 4)
              && Read32(frame[..], D1) <= old(Read32(frame[..], D1))
              && Read32(frame[..], D1)
                 == manager.value(PlanFor(callcode, old(frame[..]), resolve).call).transferred
    // everything else that succeeds changes no register
    ensures status == Ok && callcode != 0x83 && callcode != 0x84 && !(0x89 <= callcode <= 0x8C) ==>
              SameOutside(frame[..], old(frame[..]), 0, 0)
  {
    ghost var f := frame[..];
    if manager.None? {
      FailFrame(frame, InvalidArgument);
      return InvalidArgument;
    }
    var request := Decode(callcode, frame[..]);
    var plan := PlanFor(callcode, frame[..], resolve);
    if plan.Reject? {
      FailFrame(frame, plan.status);
      return plan.status;
    }
    var outcome := manager.value(plan.call);
    if outcome.status != Ok {
      FailFrame(frame, outcome.status);
      return outcome.status;
    }
    if IsTransfer(plan.call) {
      if outcome.transferred > plan.call.arg2 {
        FailFrame(frame, InvalidArgument);
        return InvalidArgument;
      }
      FinishTransfer(frame, outcome.transferred);
    } else if plan.call.CallOpen? {
      FinishOpen(frame, outcome.path, request.value.buffer + resolve.value(request.value.buffer).bytes);
    } else {
      SetCarry(frame, false);
    }
    return Ok;
  }
}
