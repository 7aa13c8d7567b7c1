/** include/TinyHook/hwbphook.h: hooking by hardware breakpoints. Up to four addresses
    are watched through the debug address registers DR0-DR3 and the debug control
    register DR7, laid out as in Intel SDM Vol. 3, section 17.2.4: bit 2i is the local
    enable of breakpoint i, and the four bits from 16 + 4i hold its R/W field (low two
    bits) and LEN field (high two bits). A hit raises a single-step exception whose
    DR6 bit i names the breakpoint; the vectored handler runs its callback and sets
    RF (EFLAGS bit 16) so that execution can resume over it.

    A thread context is reduced to the registers the hook touches. Other threads'
    contexts are not modelled: broadcasting to them (ApplyToAllThreads) is a boolean
    the caller supplies, as is whether the calling thread's context could be read. A
    callback is an opaque non-null identifier, and what running it does to a context
    is a function the caller supplies. */
module HwbpHook {
  import opened Machine
  import opened TinyShared

  datatype AccessType = Execute | Write | ReadWrite
  datatype Size = Byte | Word | DWord | QWord

  /** The R/W encodings of AccessType. */
  function AccessCode(t: AccessType): bv64
  {
    match t
    case Execute => 0
    case Write => 1
    case ReadWrite => 3
  }

  /** The LEN encodings of Size (8 bytes is 2, 4 bytes is 3). */
  function SizeCode(s: Size): bv64
  {
    match s
    case Byte => 0
    case Word => 1
    case DWord => 3
    case QWord => 2
  }

  /** The debug registers of a CONTEXT, and EFlags. */
  datatype DebugContext = DebugContext(dr: seq<bv64>, dr6: bv64, dr7: bv64, eflags: bv32)

  /** BreakpointInfo; a callback of 0 is an empty std::function. */
  datatype Breakpoint = Breakpoint(address: Word, callback: Word, access: AccessType, size: Size)

  /** The value-initialised BreakpointInfo a slot is cleared to. */
  const EMPTY: Breakpoint := Breakpoint(0, 0, Execute, Byte)

  // ---------------------------------------------------------------------------
  // DR7
  // ---------------------------------------------------------------------------

  // DR7, one breakpoint at a time: for breakpoint i the enable bit is 1 << 2i and the
  // R/W and LEN field is 0xF << (16 + 4i); each function below has these masks written
  // out per breakpoint, which keeps every bit-level proof about a single literal form.

  /** Whether breakpoint i is locally enabled. */
  predicate Enabled(dr7: bv64, i: nat)
    requires i < 4
  {
    match i
    case 0 => dr7 & 0x1 != 0
    case 1 => dr7 & 0x4 != 0
    case 2 => dr7 & 0x10 != 0
    case 3 => dr7 & 0x40 != 0
  }

  /** The R/W and LEN field of breakpoint i, as a number below 16. */
  function Config(dr7: bv64, i: nat): bv64
    requires i < 4
  {
    match i
    case 0 => (dr7 >> 16) & 0xF
    case 1 => (dr7 >> 20) & 0xF
    case 2 => (dr7 >> 24) & 0xF
    case 3 => (dr7 >> 28) & 0xF
  }

  /** SetDebugRegister's update of DR7 for breakpoint i with R/W code a and LEN code b:
      set the enable bit, clear the field, or in a at the field's start and b two bits
      above it. */
  function SetDr7(dr7: bv64, i: nat, a: bv64, b: bv64): bv64
    requires i < 4
  {
    match i
    case 0 => (((dr7 | 0x1) & !0xF_0000) | (a << 16)) | ((b << 2) << 16)
    case 1 => (((dr7 | 0x4) & !0xF0_0000) | (a << 20)) | ((b << 2) << 20)
    case 2 => (((dr7 | 0x10) & !0xF00_0000) | (a << 24)) | ((b << 2) << 24)
    case 3 => (((dr7 | 0x40) & !0xF000_0000) | (a << 28)) | ((b << 2) << 28)
  }

  /** ClearDebugRegister's update of DR7 for breakpoint i: clear the enable bit, then the
      field. */
  function ClearDr7(dr7: bv64, i: nat): bv64
    requires i < 4
  {
    match i
    case 0 => (dr7 & !0x1) & !0xF_0000
    case 1 => (dr7 & !0x4) & !0xF0_0000
    case 2 => (dr7 & !0x10) & !0xF00_0000
    case 3 => (dr7 & !0x40) & !0xF000_0000
  }

  lemma SetDr7At0(x: bv64, a: bv64, b: bv64)
    requires a < 4 && b < 4
    ensures var y := SetDr7(x, 0, a, b);
      && Enabled(y, 0)
      && Config(y, 0) == a | (b << 2)
      && ClearDr7(y, 0) == ClearDr7(x, 0)
  {
  }

  lemma SetDr7At1(x: bv64, a: bv64, b: bv64)
    requires a < 4 && b < 4
    ensures var y := SetDr7(x, 1, a, b);
      && Enabled(y, 1)
      && Config(y, 1) == a | (b << 2)
      && ClearDr7(y, 1) == ClearDr7(x, 1)
  {
  }

  lemma SetDr7At2(x: bv64, a: bv64, b: bv64)
    requires a < 4 && b < 4
    ensures var y := SetDr7(x, 2, a, b);
      && Enabled(y, 2)
      && Config(y, 2) == a | (b << 2)
      && ClearDr7(y, 2) == ClearDr7(x, 2)
  {
  }

  lemma SetDr7At3(x: bv64, a: bv64, b: bv64)
    requires a < 4 && b < 4
    ensures var y := SetDr7(x, 3, a, b);
      && Enabled(y, 3)
      && Config(y, 3) == a | (b << 2)
      && ClearDr7(y, 3) == ClearDr7(x, 3)
  {
  }

  lemma ClearDr7At0(x: bv64)
    ensures !Enabled(ClearDr7(x, 0), 0) && Config(ClearDr7(x, 0), 0) == 0
  {
  }

  lemma ClearDr7At1(x: bv64)
    ensures !Enabled(ClearDr7(x, 1), 1) && Config(ClearDr7(x, 1), 1) == 0
  {
  }

  lemma ClearDr7At2(x: bv64)
    ensures !Enabled(ClearDr7(x, 2), 2) && Config(ClearDr7(x, 2), 2) == 0
  {
  }

  lemma ClearDr7At3(x: bv64)
    ensures !Enabled(ClearDr7(x, 3), 3) && Config(ClearDr7(x, 3), 3) == 0
  {
  }

  /** SetDr7 for any breakpoint: it is enabled, its field is a | b << 2, and only its
      bits changed. */
  lemma SetDr7Spec(x: bv64, i: nat, a: bv64, b: bv64)
    requires i < 4 && a < 4 && b < 4
    ensures var y := SetDr7(x, i, a, b);
      && Enabled(y, i)
      && Config(y, i) == a | (b << 2)
      && ClearDr7(y, i) == ClearDr7(x, i)
  {
    match i
    case 0 => SetDr7At0(x, a, b);
    case 1 => SetDr7At1(x, a, b);
    case 2 => SetDr7At2(x, a, b);
    case 3 => SetDr7At3(x, a, b);
  }

  /** 1 << i, the DR6 bit reporting breakpoint i. */
  function StatusBit(i: nat): bv64
    requires i < 4
  {
    match i
    case 0 => 0x1
    case 1 => 0x2
    case 2 => 0x4
    case 3 => 0x8
  }

  /** SetDebugRegister: DR i takes the address, and DR7 gets breakpoint i's enable bit and
      its R/W and LEN field. */
  function SetDebugRegister(c: DebugContext, i: nat, address: Word, t: AccessType, s: Size): (r: DebugContext)
    requires i < 4 && |c.dr| == 4
    ensures r.dr == c.dr[i := address as bv64] && r.dr6 == c.dr6 && r.eflags == c.eflags
  {
    c.(dr := c.dr[i := address as bv64], dr7 := SetDr7(c.dr7, i, AccessCode(t), SizeCode(s)))
  }

  /** After SetDebugRegister, breakpoint i is enabled, its R/W and LEN field is
      type | size << 2, and DR7 differs from before in breakpoint i's bits only: clearing
      them leaves the same word either way. */
  lemma SetDebugRegisterSpec(c: DebugContext, i: nat, address: Word, t: AccessType, s: Size)
    requires i < 4 && |c.dr| == 4
    ensures var r := SetDebugRegister(c, i, address, t, s);
      && Enabled(r.dr7, i)
      && Config(r.dr7, i) == AccessCode(t) | (SizeCode(s) << 2)
      && ClearDr7(r.dr7, i) == ClearDr7(c.dr7, i)
  {
    SetDr7Spec(c.dr7, i, AccessCode(t), SizeCode(s));
  }

  /** ClearDebugRegister: DR i is zeroed, and breakpoint i's enable bit and R/W and LEN
      field are cleared in DR7. */
  function ClearDebugRegister(c: DebugContext, i: nat): (r: DebugContext)
    requires i < 4 && |c.dr| == 4
    ensures r.dr == c.dr[i := 0] && r.dr6 == c.dr6 && r.eflags == c.eflags
  {
    c.(dr := c.dr[i := 0], dr7 := ClearDr7(c.dr7, i))
  }

  /** After ClearDebugRegister, breakpoint i is disabled and its R/W and LEN field is
      zero. */
  lemma ClearDebugRegisterSpec(c: DebugContext, i: nat)
    requires i < 4 && |c.dr| == 4
    ensures var r := ClearDebugRegister(c, i);
      !Enabled(r.dr7, i) && Config(r.dr7, i) == 0
  {
    match i
    case 0 => ClearDr7At0(c.dr7);
    case 1 => ClearDr7At1(c.dr7);
    case 2 => ClearDr7At2(c.dr7);
    case 3 => ClearDr7At3(c.dr7);
  }

  /** Clearing a breakpoint just set gives what clearing it alone gives: nothing of the
      setting survives. */
  lemma ClearAfterSet(c: DebugContext, i: nat, address: Word, t: AccessType, s: Size)
    requires i < 4 && |c.dr| == 4
    ensures ClearDebugRegister(SetDebugRegister(c, i, address, t, s), i) == ClearDebugRegister(c, i)
  {
    SetDebugRegisterSpec(c, i, address, t, s);
    assert c.dr[i := address as bv64][i := 0] == c.dr[i := 0];
  }

  // ---------------------------------------------------------------------------
  // The breakpoint table
  // ---------------------------------------------------------------------------

  /** The first free slot at or after i, or -1. */
  function FreeFrom(bps: seq<Breakpoint>, i: nat): (r: int)
    requires i <= |bps|
    ensures r == -1 || i <= r < |bps|
    ensures r >= 0 ==> bps[r].address == 0
    ensures forall j :: i <= j < (if r == -1 then |bps| else r) ==> bps[j].address != 0
    decreases |bps| - i
  {
    if i == |bps| then -1 else if bps[i].address == 0 then i else FreeFrom(bps, i + 1)
  }

  /** The first slot at or after i watching address, or -1. */
  function MatchFrom(bps: seq<Breakpoint>, address: Word, i: nat): (r: int)
    requires i <= |bps|
    ensures r == -1 || i <= r < |bps|
    ensures r >= 0 ==> bps[r].address == address
    ensures forall j :: i <= j < (if r == -1 then |bps| else r) ==> bps[j].address != address
    decreases |bps| - i
  {
    if i == |bps| then -1 else if bps[i].address == address then i else MatchFrom(bps, address, i + 1)
  }

  /** DR6's four breakpoint-condition bits B0-B3. */
  function Reported(dr6: bv64): (r: seq<bool>)
    ensures |r| == 4
  {
    [dr6 & StatusBit(0) != 0, dr6 & StatusBit(1) != 0, dr6 & StatusBit(2) != 0, dr6 & StatusBit(3) != 0]
  }

  /** The first occupied slot at or after i whose DR6 bit is set, or -1. */
  function HitFrom(bps: seq<Breakpoint>, hits: seq<bool>, i: nat): (r: int)
    requires i <= |bps| <= |hits|
    ensures r == -1 || i <= r < |bps|
    ensures r >= 0 ==> hits[r] && bps[r].address != 0
    ensures forall j :: i <= j < (if r == -1 then |bps| else r) ==> !hits[j] || bps[j].address == 0
    decreases |bps| - i
  {
    if i == |bps| then -1
    else if hits[i] && bps[i].address != 0 then i
    else HitFrom(bps, hits, i + 1)
  }

  /** Every empty slot holds the cleared BreakpointInfo. */
  predicate Tidy(bps: seq<Breakpoint>)
  {
    forall i :: 0 <= i < |bps| && bps[i].address == 0 ==> bps[i] == EMPTY
  }

  /** Hook's effect on the table and the calling thread's context. allThreads is what
      ApplyToAllThreads reports; current is whether GetThreadContext succeeded. A null
      address is an InvalidAddress; no free slot is IndexOutOfBounds; a failed broadcast
      clears the slot again and is a ProtectionError. Otherwise the lowest free slot
      holds the breakpoint and, if its context could be read, the calling thread's
      debug registers are set. */
  function HookStep(bps: seq<Breakpoint>, c: DebugContext, address: Word, callback: Word,
                    t: AccessType, s: Size, allThreads: bool, current: bool)
    : (seq<Breakpoint>, DebugContext, Result<bool, Error>)
    requires |bps| == 4 && |c.dr| == 4
  {
    if address == 0 then (bps, c, Err(InvalidAddress))
    else
      var i := FreeFrom(bps, 0);
      if i == -1 then (bps, c, Err(IndexOutOfBounds))
      else if !allThreads then (bps[i := EMPTY], c, Err(ProtectionError))
      else (bps[i := Breakpoint(address, callback, t, s)],
            if current then SetDebugRegister(c, i, address, t, s) else c,
            Ok(true))
  }

  /** Unhook's effect: the lowest slot watching address is cleared, along with the
      calling thread's registers for it if its context could be read; no such slot is
      NotHooked. */
  function UnhookStep(bps: seq<Breakpoint>, c: DebugContext, address: Word, current: bool)
    : (seq<Breakpoint>, DebugContext, Result<bool, Error>)
    requires |bps| == 4 && |c.dr| == 4
  {
    var i := MatchFrom(bps, address, 0);
    if i == -1 then (bps, c, Err(NotHooked))
    else (bps[i := EMPTY], if current then ClearDebugRegister(c, i) else c, Ok(true))
  }

  /** A successful Hook takes the lowest free slot, touches no other slot, and, when the
      calling thread's context was read, arms that slot's debug registers: DR i holds the
      address, breakpoint i is enabled with the requested R/W and LEN field, and the rest
      of DR7 is as it was. */
  lemma HookArms(bps: seq<Breakpoint>, c: DebugContext, address: Word, callback: Word,
                 t: AccessType, s: Size, current: bool)
    requires |bps| == 4 && |c.dr| == 4
    requires HookStep(bps, c, address, callback, t, s, true, current).2.Ok?
    ensures var i := FreeFrom(bps, 0);
      var (bps1, c1, _) := HookStep(bps, c, address, callback, t, s, true, current);
      && 0 <= i < 4 && bps[i].address == 0
      && (forall j :: 0 <= j < i ==> bps[j].address != 0)
      && bps1 == bps[i := Breakpoint(address, callback, t, s)]
      && (current ==>
            && c1.dr[i] == address as bv64
            && Enabled(c1.dr7, i)
            && Config(c1.dr7, i) == AccessCode(t) | (SizeCode(s) << 2)
            && ClearDr7(c1.dr7, i) == ClearDr7(c.dr7, i))
      && (!current ==> c1 == c)
  {
    var i := FreeFrom(bps, 0);
    if current {
      SetDebugRegisterSpec(c, i, address, t, s);
    }
  }

  /** A Hook of an address not yet watched, followed by its Unhook, leaves the table as
      it was, and leaves the calling thread's registers for that slot cleared. */
  lemma HookThenUnhook(bps: seq<Breakpoint>, c: DebugContext, address: Word, callback: Word,
                       t: AccessType, s: Size, current: bool)
    requires |bps| == 4 && |c.dr| == 4 && Tidy(bps)
    requires address != 0 && MatchFrom(bps, address, 0) == -1
    requires HookStep(bps, c, address, callback, t, s, true, current).2.Ok?
    ensures var (bps1, c1, _) := HookStep(bps, c, address, callback, t, s, true, current);
      var (bps2, c2, r) := UnhookStep(bps1, c1, address, current);
      && r == Ok(true)
      && bps2 == bps
      && c2 == if current then ClearDebugRegister(c, FreeFrom(bps, 0)) else c
  {
    var i := FreeFrom(bps, 0);
    var bps1 := bps[i := Breakpoint(address, callback, t, s)];
    assert HookStep(bps, c, address, callback, t, s, true, current).0 == bps1;
    assert forall j :: 0 <= j < i ==> bps1[j].address != address;
    assert bps1[i].address == address;
    if current {
      ClearAfterSet(c, i, address, t, s);
    }
    assert bps1[i := EMPTY] == bps;
  }

  /** Unhook(nullptr) succeeds whenever a slot is free: a free slot's address is null, so
      it matches, and that slot is cleared again. */
  lemma UnhookNullMatchesFreeSlot(bps: seq<Breakpoint>, c: DebugContext, current: bool)
    requires |bps| == 4 && |c.dr| == 4
    requires FreeFrom(bps, 0) != -1
    ensures UnhookStep(bps, c, 0, current).2 == Ok(true)
  {
    var i := FreeFrom(bps, 0);
    assert bps[i].address == 0;
  }

  /** Every Hook and Unhook keeps the table's empty slots cleared. */
  lemma StepsKeepTidy(bps: seq<Breakpoint>, c: DebugContext, address: Word, callback: Word,
                      t: AccessType, s: Size, allThreads: bool, current: bool)
    requires |bps| == 4 && |c.dr| == 4 && Tidy(bps)
    ensures Tidy(HookStep(bps, c, address, callback, t, s, allThreads, current).0)
    ensures Tidy(UnhookStep(bps, c, address, current).0)
  {
  }

  // ---------------------------------------------------------------------------
  // The vectored exception handler
  // ---------------------------------------------------------------------------

  const EXCEPTION_SINGLE_STEP: bv32 := 0x8000_0004
  const EXCEPTION_CONTINUE_EXECUTION: int := -1
  const EXCEPTION_CONTINUE_SEARCH: int := 0
  const RESUME_FLAG: bv32 := 0x1_0000

  /** What the handler does with a hit on breakpoint i: clear its DR6 bit, run its
      callback (if any) on the context, and set RF. */
  function TakeHit(c: DebugContext, i: nat, callback: Word, run: (Word, DebugContext) -> DebugContext): DebugContext
    requires i < 4
  {
    var cleared := c.(dr6 := c.dr6 & !StatusBit(i));
    var after := if callback != 0 then run(callback, cleared) else cleared;
    after.(eflags := after.eflags | RESUME_FLAG)
  }

  /** VectoredHandler: a single-step exception with the DR6 bit of an occupied slot set is
      taken by the lowest such slot (TakeHit); anything else is passed on. */
  function HandlerStep(code: bv32, c: DebugContext, bps: seq<Breakpoint>,
                       run: (Word, DebugContext) -> DebugContext): (int, DebugContext)
    requires |bps| == 4
  {
    if code != EXCEPTION_SINGLE_STEP then (EXCEPTION_CONTINUE_SEARCH, c)
    else
      var i := HitFrom(bps, Reported(c.dr6), 0);
      if i == -1 then (EXCEPTION_CONTINUE_SEARCH, c)
      else (EXCEPTION_CONTINUE_EXECUTION, TakeHit(c, i, bps[i].callback, run))
  }

  /** When the handler takes an exception, execution resumes with RF set, and it was the
      lowest hit slot whose callback ran on the context with only that slot's DR6 bit
      cleared; when it passes the exception on, the context is untouched. */
  lemma HandlerResumes(code: bv32, c: DebugContext, bps: seq<Breakpoint>, run: (Word, DebugContext) -> DebugContext)
    requires |bps| == 4
    ensures var (verdict, after) := HandlerStep(code, c, bps, run);
      && (verdict == EXCEPTION_CONTINUE_EXECUTION || verdict == EXCEPTION_CONTINUE_SEARCH)
      && (verdict == EXCEPTION_CONTINUE_SEARCH ==> after == c)
      && (verdict == EXCEPTION_CONTINUE_EXECUTION <==>
            code == EXCEPTION_SINGLE_STEP && exists i :: 0 <= i < 4 && Reported(c.dr6)[i] && bps[i].address != 0)
      && (verdict == EXCEPTION_CONTINUE_EXECUTION ==> after.eflags & RESUME_FLAG != 0)
      && (verdict == EXCEPTION_CONTINUE_EXECUTION ==>
            exists i :: 0 <= i < 4 && Reported(c.dr6)[i] && bps[i].address != 0
              && (forall j :: 0 <= j < i ==> !Reported(c.dr6)[j] || bps[j].address == 0)
              && after == TakeHit(c, i, bps[i].callback, run))
  {
    var hits := Reported(c.dr6);
    var i := HitFrom(bps, hits, 0);
    assert i == -1 ==> forall j :: 0 <= j < 4 ==> !hits[j] || bps[j].address == 0;
    if code == EXCEPTION_SINGLE_STEP && i != -1 {
      var after := TakeHit(c, i, bps[i].callback, run);
      assert after.eflags & RESUME_FLAG != 0;
    }
  }

  // ---------------------------------------------------------------------------
  // The hooker
  // ---------------------------------------------------------------------------

  /** HWBPHook, the process-wide instance: the breakpoint table, and the calling thread's
      debug registers. */
  class HWBPHook {
    const breakpoints: array<Breakpoint>
    var context: DebugContext

    predicate Valid()
      reads this, breakpoints
    {
      breakpoints.Length == 4 && |context.dr| == 4 && Tidy(breakpoints[..])
    }

    constructor(initial: DebugContext)
      requires |initial.dr| == 4
      ensures Valid() && breakpoints[..] == [EMPTY, EMPTY, EMPTY, EMPTY] && context == initial
    {
      breakpoints := new Breakpoint[4](_ => EMPTY);
      context := initial;
    }

    /** FindFreeDebugRegister. */
    method FindFreeDebugRegister() returns (r: int)
      requires Valid()
      ensures r == FreeFrom(breakpoints[..], 0)
    {
      for i := 0 to 4
        invariant FreeFrom(breakpoints[..], 0) == FreeFrom(breakpoints[..], i)
      {
        if breakpoints[i].address == 0 {
          return i;
        }
      }
      return -1;
    }

    /** HWBPHook::Hook. */
    method Hook(address: Word, callback: Word, t: AccessType, s: Size, allThreads: bool, current: bool)
      returns (r: Result<bool, Error>)
      requires Valid()
      modifies this, breakpoints
      ensures Valid()
      ensures (breakpoints[..], context, r) ==
        HookStep(old(breakpoints[..]), old(context), address, callback, t, s, allThreads, current)
    {
      if address == 0 {
        return Err(InvalidAddress);
      }
      var i := FindFreeDebugRegister();
      if i == -1 {
        return Err(IndexOutOfBounds);
      }
      ghost var before := breakpoints[..];
      breakpoints[i] := Breakpoint(address, callback, t, s);
      if !allThreads {
        breakpoints[i] := EMPTY;
        assert breakpoints[..] == before[i := EMPTY];
        return Err(ProtectionError);
      }
      if current {
        context := SetDebugRegister(context, i, address, t, s);
      }
      return Ok(true);
    }

    /** HWBPHook::Unhook. */
    method Unhook(address: Word, current: bool) returns (r: Result<bool, Error>)
      requires Valid()
      modifies this, breakpoints
      ensures Valid()
      ensures (breakpoints[..], context, r) == UnhookStep(old(breakpoints[..]), old(context), address, current)
    {
      for i := 0 to 4
        invariant MatchFrom(breakpoints[..], address, 0) == MatchFrom(breakpoints[..], address, i)
      {
        if breakpoints[i].address == address {
          breakpoints[i] := EMPTY;
          if current {
            context := ClearDebugRegister(context, i);
          }
          return Ok(true);
        }
      }
      return Err(NotHooked);
    }

    /** VectoredHandler, on the exception code and the faulting thread's context. */
    method VectoredHandler(code: bv32, c: DebugContext, run: (Word, DebugContext) -> DebugContext)
      returns (verdict: int, after: DebugContext)
      requires Valid()
      ensures (verdict, after) == HandlerStep(code, c, breakpoints[..], run)
    {
      if code != EXCEPTION_SINGLE_STEP {
        return EXCEPTION_CONTINUE_SEARCH, c;
      }
      var hits := Reported(c.dr6);
      for i := 0 to 4
        invariant HitFrom(breakpoints[..], hits, 0) == HitFrom(breakpoints[..], hits, i)
      {
        if hits[i] && breakpoints[i].address != 0 {
          after := TakeHit(c, i, breakpoints[i].callback, run);
          return EXCEPTION_CONTINUE_EXECUTION, after;
        }
      }
      return EXCEPTION_CONTINUE_SEARCH, c;
    }
  }
}
