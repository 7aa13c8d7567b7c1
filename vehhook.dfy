/** include/TinyHook/vehhook.h: hooking by guard pages. Hooking an address records its
    callback and its page, and puts PAGE_GUARD on the page's region. Touching the page
    then raises a guard-page exception (the system drops the guard as it does so); the
    vectored handler runs the callback when the faulting instruction is the hooked one,
    and in any case sets the trap flag so that the next instruction raises a
    single-step exception, on which the handler puts the guard back.

    Regions are the page-keyed VirtualQuery answers of TinyShared; the pages on which
    VirtualProtect fails to add the guard are a fixed set. The faulting thread's
    context is reduced to the instruction pointer and EFlags, a callback is an opaque
    identifier (0 for an empty std::function), and what running one does to the
    context is a function the caller supplies. lastAddress is thread-local in the
    source; the model has the one thread that takes the exceptions. */
module VehHook {
  import opened Machine
  import opened TinyShared
  import MemPrimitives

  /** GetPage: the address with its low twelve bits cleared (PAGE_MASK is ~(4096 - 1)). */
  function GetPage(address: Word): (r: Word)
    ensures r % MemPrimitives.PAGE_SIZE == 0 && r <= address < r + MemPrimitives.PAGE_SIZE
  {
    address - address % MemPrimitives.PAGE_SIZE
  }

  /** Two addresses share a GetPage exactly when they are on the same page of the region
      map. */
  lemma GetPageIsPageOf(a: Word, b: Word)
    ensures GetPage(a) == GetPage(b) <==> PageOf(a) == PageOf(b)
  {
    var n := MemPrimitives.PAGE_SIZE;
    assert GetPage(a) == PageOf(a) * n;
    assert GetPage(b) == PageOf(b) * n;
    if GetPage(a) == GetPage(b) {
      assert PageOf(a) * n == PageOf(b) * n;
    }
  }

  /** HookInfo: the callback and the page it watches. */
  datatype HookInfo = HookInfo(callback: Word, pageBase: Word)

  /** GuardPage: false when the region cannot be queried or is already guarded, or when
      VirtualProtect fails; otherwise the region's protection gains PAGE_GUARD. */
  function Guarded(regions: Regions, refused: set<nat>, address: Word): (r: (Regions, bool))
    ensures r.0.Keys == regions.Keys
    ensures !r.1 ==> r.0 == regions
    ensures r.1 <==> PageOf(address) in regions && regions[PageOf(address)].protect & PAGE_GUARD == 0
                     && PageOf(address) !in refused
    ensures r.1 ==> r.0 == regions[PageOf(address) := regions[PageOf(address)].(protect := regions[PageOf(address)].protect | PAGE_GUARD)]
  {
    var page := PageOf(address);
    if page !in regions || regions[page].protect & PAGE_GUARD != 0 then (regions, false)
    else if page in refused then (regions, false)
    else (regions[page := regions[page].(protect := regions[page].protect | PAGE_GUARD)], true)
  }

  /** Guarding is done once: right after a GuardPage that succeeded, a second one on the
      same page reports false and changes nothing, and the page's region is guarded. */
  lemma GuardTwice(regions: Regions, refused: set<nat>, address: Word, other: Word)
    requires Guarded(regions, refused, address).1
    requires PageOf(other) == PageOf(address)
    ensures var once := Guarded(regions, refused, address).0;
      && once[PageOf(address)].protect & PAGE_GUARD != 0
      && Guarded(once, refused, other) == (once, false)
  {
    var once := Guarded(regions, refused, address).0;
    var p := regions[PageOf(address)].protect;
    assert once[PageOf(address)].protect == p | PAGE_GUARD;
    assert (p | PAGE_GUARD) & PAGE_GUARD != 0;
  }

  // ---------------------------------------------------------------------------
  // Hook, Unhook, UnhookAll
  // ---------------------------------------------------------------------------

  /** The hooks map, the regions, and the thread's lastAddress. */
  datatype VehState = VehState(hooks: map<Word, HookInfo>, regions: Regions, lastAddress: Word)

  /** VEHHook::Hook. A null address is InvalidAddress, a null callback InvalidDetour, and
      an address already hooked AlreadyHooked, all with nothing changed. Otherwise the
      entry is stored and the result is GuardPage's answer; the entry stays when that
      answer is false. */
  function HookStep(s: VehState, refused: set<nat>, address: Word, callback: Word): (r: (VehState, Result<bool, Error>))
    ensures r.1.Err? ==> r.0 == s
    ensures r.1.Ok? <==> address != 0 && callback != 0 && address !in s.hooks
    ensures r.1.Ok? ==> r.0.hooks == s.hooks[address := HookInfo(callback, GetPage(address))]
                        && r.0.lastAddress == s.lastAddress
    ensures r.1 == Ok(true) ==> PageOf(address) in r.0.regions && r.0.regions[PageOf(address)].protect & PAGE_GUARD != 0
  {
    if address == 0 then (s, Err(InvalidAddress))
    else if callback == 0 then (s, Err(InvalidDetour))
    else if address in s.hooks then (s, Err(AlreadyHooked))
    else
      var hooks := s.hooks[address := HookInfo(callback, GetPage(address))];
      var (regions, ok) := Guarded(s.regions, refused, address);
      assert ok ==> (s.regions[PageOf(address)].protect | PAGE_GUARD) & PAGE_GUARD != 0;
      (VehState(hooks, regions, s.lastAddress), Ok(ok))
  }

  /** VEHHook::Unhook: null is InvalidAddress, an address not hooked NotHooked; otherwise
      the entry is erased. The page keeps its guard. */
  function UnhookStep(s: VehState, address: Word): (r: (VehState, Result<bool, Error>))
    ensures r.0.regions == s.regions && r.0.lastAddress == s.lastAddress
    ensures r.1.Ok? <==> address != 0 && address in s.hooks
    ensures r.1.Ok? ==> r.1 == Ok(true) && r.0.hooks == s.hooks - {address}
    ensures r.1.Err? ==> r.0 == s
  {
    if address == 0 then (s, Err(InvalidAddress))
    else if address !in s.hooks then (s, Err(NotHooked))
    else (s.(hooks := s.hooks - {address}), Ok(true))
  }

  /** Hooking a fresh address and unhooking it gives back the hooks map; the regions are
      those the Hook left, so the page stays guarded when the guard was placed. */
  lemma HookThenUnhook(s: VehState, refused: set<nat>, address: Word, callback: Word)
    requires address != 0 && callback != 0 && address !in s.hooks
    ensures var (hooked, _) := HookStep(s, refused, address, callback);
      var (unhooked, r) := UnhookStep(hooked, address);
      && r == Ok(true)
      && unhooked.hooks == s.hooks
      && unhooked.regions == Guarded(s.regions, refused, address).0
  {
    var hooked := HookStep(s, refused, address, callback).0;
    assert hooked.hooks - {address} == s.hooks;
  }

  /** A second Hook of the same address is refused whatever the callback, and the first
      callback stays. */
  lemma HookTwice(s: VehState, refused: set<nat>, address: Word, callback: Word, callback2: Word)
    requires address != 0 && callback != 0 && callback2 != 0 && address !in s.hooks
    ensures var (hooked, _) := HookStep(s, refused, address, callback);
      && HookStep(hooked, refused, address, callback2) == (hooked, Err(AlreadyHooked))
      && hooked.hooks[address].callback == callback
  {
  }

  // ---------------------------------------------------------------------------
  // The vectored exception handler
  // ---------------------------------------------------------------------------

  const EXCEPTION_GUARD_PAGE: bv32 := 0x8000_0001
  const EXCEPTION_SINGLE_STEP: bv32 := 0x8000_0004
  const EXCEPTION_CONTINUE_EXECUTION: int := -1
  const EXCEPTION_CONTINUE_SEARCH: int := 0

  /** The registers the handler reads and writes: Rip (Eip on 32-bit builds) and EFlags.
      The handler ors PAGE_GUARD into EFlags; its value, 0x100, is the trap flag. */
  datatype VehContext = VehContext(rip: Word, eflags: bv32)

  /** Whether some hook watches the page of address. */
  predicate PageHooked(hooks: map<Word, HookInfo>, address: Word)
  {
    exists k :: k in hooks && hooks[k].pageBase == GetPage(address)
  }

  /** VectoredHandler on an exception with the given code, the faulting context, and for
      a guard-page exception the data address that faulted. Guard page: when a hook
      watches the faulting page, lastAddress becomes the faulting address, the trap flag
      is set, and if the instruction pointer is a hook on that page its callback (if
      any) runs; execution continues either way. Single step: a pending lastAddress has
      its page guarded again and is reset; execution continues. Anything else is passed
      on. */
  function HandlerStep(s: VehState, refused: set<nat>, code: bv32, c: VehContext, faulting: Word,
                       run: (Word, VehContext) -> VehContext): (VehState, int, VehContext)
  {
    if code == EXCEPTION_GUARD_PAGE then
      if !PageHooked(s.hooks, faulting) then (s, EXCEPTION_CONTINUE_EXECUTION, c)
      else
        var flagged := c.(eflags := c.eflags | PAGE_GUARD);
        var after :=
          if c.rip in s.hooks && s.hooks[c.rip].pageBase == GetPage(faulting) && s.hooks[c.rip].callback != 0
          then run(s.hooks[c.rip].callback, flagged) else flagged;
        (s.(lastAddress := faulting), EXCEPTION_CONTINUE_EXECUTION, after)
    else if code == EXCEPTION_SINGLE_STEP then
      if s.lastAddress == 0 then (s, EXCEPTION_CONTINUE_EXECUTION, c)
      else (s.(regions := Guarded(s.regions, refused, s.lastAddress).0, lastAddress := 0),
            EXCEPTION_CONTINUE_EXECUTION, c)
    else (s, EXCEPTION_CONTINUE_SEARCH, c)
  }

  /** A hit on a hooked instruction: the guard-page exception the system raises (having
      dropped the page's guard) runs the hook's callback with the trap flag set, and the
      single-step exception that follows guards the page again, so the hook stays armed,
      and clears lastAddress. Both exceptions continue execution. */
  lemma HitRearms(s: VehState, refused: set<nat>, c: VehContext, run: (Word, VehContext) -> VehContext)
    requires c.rip != 0 && c.rip in s.hooks && s.hooks[c.rip].pageBase == GetPage(c.rip)
    requires s.hooks[c.rip].callback != 0
    requires PageOf(c.rip) in s.regions && s.regions[PageOf(c.rip)].protect & PAGE_GUARD == 0
    requires PageOf(c.rip) !in refused
    ensures var (s1, v1, c1) := HandlerStep(s, refused, EXCEPTION_GUARD_PAGE, c, c.rip, run);
      var (s2, v2, c2) := HandlerStep(s1, refused, EXCEPTION_SINGLE_STEP, c1, 0, run);
      && v1 == EXCEPTION_CONTINUE_EXECUTION && v2 == EXCEPTION_CONTINUE_EXECUTION
      && c1 == run(s.hooks[c.rip].callback, c.(eflags := c.eflags | PAGE_GUARD))
      && c2 == c1
      && s2.hooks == s.hooks && s2.lastAddress == 0
      && s2.regions[PageOf(c.rip)].protect & PAGE_GUARD != 0
  {
    var s1 := HandlerStep(s, refused, EXCEPTION_GUARD_PAGE, c, c.rip, run).0;
    assert s1.lastAddress == c.rip;
    GuardTwice(s.regions, refused, c.rip, c.rip);
  }

  /** Every exception other than a guard-page or single-step one is passed on with
      nothing changed, and those two are never passed on. */
  lemma HandlerPassesOthers(s: VehState, refused: set<nat>, code: bv32, c: VehContext, faulting: Word,
                            run: (Word, VehContext) -> VehContext)
    ensures var (s1, v, c1) := HandlerStep(s, refused, code, c, faulting, run);
      (v == EXCEPTION_CONTINUE_SEARCH <==> code != EXCEPTION_GUARD_PAGE && code != EXCEPTION_SINGLE_STEP)
      && (v == EXCEPTION_CONTINUE_SEARCH ==> s1 == s && c1 == c)
  {
  }

  /** The guard-page branch's walk over the hooks map, in the map's own order, which
      the model leaves open: every hook on the faulting page marks the page as hooked
      (the source sets lastAddress and the trap flag there, which is the same whichever
      hook does it and however often), and the walk stops at the hook whose address is
      the instruction pointer. Whatever the order, the walk learns whether the page is
      watched and whether the instruction pointer is one of its hooks. */
  method ScanHooks(table: map<Word, HookInfo>, page: Word, rip: Word) returns (onPage: bool, hit: bool)
    ensures onPage <==> exists k :: k in table && table[k].pageBase == page
    ensures hit <==> rip in table && table[rip].pageBase == page
  {
    var pending := table.Keys;
    onPage := false;
    while pending != {}
      invariant pending <= table.Keys
      invariant onPage <==> exists k :: k in table.Keys - pending && table[k].pageBase == page
      invariant rip in table && table[rip].pageBase == page ==> rip in pending
      decreases pending
    {
      var hookAddress :| hookAddress in pending;
      pending := pending - {hookAddress};
      if page != table[hookAddress].pageBase {
        continue;
      }
      onPage := true;
      if rip == hookAddress {
        return true, true;
      }
    }
    return onPage, false;
  }

  // ---------------------------------------------------------------------------
  // The hooker
  // ---------------------------------------------------------------------------

  /** VEHHook, the process-wide instance: its hooks map and the handling thread's
      lastAddress, over an address space whose regions GuardPage changes. */
  class VEHHook {
    var hooks: map<Word, HookInfo>
    var lastAddress: Word
    const space: AddressSpace
    const refused: set<nat>

    function State(): VehState
      reads this, space
    {
      VehState(hooks, space.regions, lastAddress)
    }

    constructor(space0: AddressSpace, refused0: set<nat>)
      ensures hooks == map[] && lastAddress == 0 && space == space0 && refused == refused0
    {
      hooks, lastAddress := map[], 0;
      space, refused := space0, refused0;
    }

    /** GuardPage. */
    method GuardPage(address: Word) returns (ok: bool)
      modifies space
      ensures (space.regions, ok) == Guarded(old(space.regions), refused, address)
      ensures space.words == old(space.words)
    {
      var page := PageOf(address);
      if page !in space.regions || space.regions[page].protect & PAGE_GUARD != 0 {
        return false;
      }
      if page in refused {
        return false;
      }
      space.regions := space.regions[page := space.regions[page].(protect := space.regions[page].protect | PAGE_GUARD)];
      return true;
    }

    /** VEHHook::Hook. */
    method Hook(address: Word, callback: Word) returns (r: Result<bool, Error>)
      modifies this, space
      ensures (State(), r) == HookStep(old(State()), refused, address, callback)
      ensures space.words == old(space.words)
    {
      if address == 0 {
        return Err(InvalidAddress);
      }
      if callback == 0 {
        return Err(InvalidDetour);
      }
      if address in hooks {
        return Err(AlreadyHooked);
      }
      hooks := hooks[address := HookInfo(callback, GetPage(address))];
      var ok := GuardPage(address);
      return Ok(ok);
    }

    /** VEHHook::Unhook. */
    method Unhook(address: Word) returns (r: Result<bool, Error>)
      modifies this
      ensures (State(), r) == UnhookStep(old(State()), address)
    {
      if address == 0 {
        return Err(InvalidAddress);
      }
      if address !in hooks {
        return Err(NotHooked);
      }
      hooks := hooks - {address};
      return Ok(true);
    }

    /** VEHHook::UnhookAll (also run by the destructor): the map is emptied; guarded
        pages stay guarded. */
    method UnhookAll()
      modifies this
      ensures hooks == map[] && lastAddress == old(lastAddress)
    {
      hooks := map[];
    }

    /** VectoredHandler on a guard-page exception. */
    method OnGuardPage(c: VehContext, faulting: Word, run: (Word, VehContext) -> VehContext)
      returns (after: VehContext)
      modifies this
      ensures (State(), EXCEPTION_CONTINUE_EXECUTION, after)
              == HandlerStep(old(State()), refused, EXCEPTION_GUARD_PAGE, c, faulting, run)
      ensures hooks == old(hooks)
    {
      var onPage, hit := ScanHooks(hooks, GetPage(faulting), c.rip);
      if !onPage {
        return c;
      }
      lastAddress := faulting;
      after := c.(eflags := c.eflags | PAGE_GUARD);
      if hit && hooks[c.rip].callback != 0 {
        after := run(hooks[c.rip].callback, after);
      }
    }

    /** VectoredHandler on a single-step exception. */
    method OnSingleStep(c: VehContext, faulting: Word, run: (Word, VehContext) -> VehContext)
      modifies this, space
      ensures (State(), EXCEPTION_CONTINUE_EXECUTION, c)
              == HandlerStep(old(State()), refused, EXCEPTION_SINGLE_STEP, c, faulting, run)
      ensures hooks == old(hooks) && space.words == old(space.words)
    {
      if lastAddress != 0 {
        var _ := GuardPage(lastAddress);
        lastAddress := 0;
      }
    }

    /** VectoredHandler: guard-page and single-step exceptions continue execution, the
        rest are passed on. */
    method VectoredHandler(code: bv32, c: VehContext, faulting: Word, run: (Word, VehContext) -> VehContext)
      returns (verdict: int, after: VehContext)
      modifies this, space
      ensures (State(), verdict, after) == HandlerStep(old(State()), refused, code, c, faulting, run)
      ensures hooks == old(hooks) && space.words == old(space.words)
    {
      if code == EXCEPTION_GUARD_PAGE {
        after := OnGuardPage(c, faulting, run);
        return EXCEPTION_CONTINUE_EXECUTION, after;
      }
      if code == EXCEPTION_SINGLE_STEP {
        OnSingleStep(c, faulting, run);
        return EXCEPTION_CONTINUE_EXECUTION, c;
      }
      return EXCEPTION_CONTINUE_SEARCH, c;
    }
  }
}
