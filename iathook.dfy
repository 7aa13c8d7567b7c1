/** include/TinyHook/iathook.h: hooking an imported function by overwriting its slot
    in the importing module's Import Address Table.

    The module's import directory is given already parsed: each descriptor carries
    its Name RVA, its FirstThunk RVA and its OriginalFirstThunk entries (the
    AddressOfData value and, for an import by name, the name it points to). The
    slots themselves, FirstThunk[j], are words of the address space, since they are
    what the hook reads and writes. */
module IatHook {
  import opened Machine
  import opened TinyShared

  /** IMAGE_ORDINAL_FLAG64: an entry with this bit imports by ordinal. */
  const IMAGE_ORDINAL_FLAG: Word := 0x8000_0000_0000_0000

  /** One OriginalFirstThunk entry: u1.AddressOfData, and IMAGE_IMPORT_BY_NAME::Name. */
  datatype ImportLookup = ImportLookup(data: Word, name: string)

  /** An IMAGE_IMPORT_DESCRIPTOR. */
  datatype ImportDescriptor = ImportDescriptor(name: Word, firstThunk: nat, lookups: seq<ImportLookup>)

  /** The descriptor walk stops at the first descriptor whose Name is 0 (the end of the
      sequence stands for the all-zero descriptor closing the directory). */
  function DescriptorEnd(imports: seq<ImportDescriptor>, from: nat): (n: nat)
    requires from <= |imports|
    ensures from <= n <= |imports|
    ensures forall k :: from <= k < n ==> imports[k].name != 0
    ensures n < |imports| ==> imports[n].name == 0
    decreases |imports| - from
  {
    if from == |imports| || imports[from].name == 0 then from else DescriptorEnd(imports, from + 1)
  }

  /** The thunk walk stops at the first entry whose AddressOfData is 0. */
  function LookupEnd(lookups: seq<ImportLookup>, from: nat): (n: nat)
    requires from <= |lookups|
    ensures from <= n <= |lookups|
    ensures forall t :: from <= t < n ==> lookups[t].data != 0
    ensures n < |lookups| ==> lookups[n].data == 0
    decreases |lookups| - from
  {
    if from == |lookups| || lookups[from].data == 0 then from else LookupEnd(lookups, from + 1)
  }

  /** &FirstThunk[j].u1.Function. */
  function ThunkSlot(base: Word, d: ImportDescriptor, j: nat): nat
  {
    base + d.firstThunk + 8 * j
  }

  /** The test the walk applies to an entry: imported by name, a non-null
      IMAGE_IMPORT_BY_NAME, and a name equal to the one asked for, ignoring case. */
  predicate NamedImport(base: Word, l: ImportLookup, name: string)
  {
    l.data < IMAGE_ORDINAL_FLAG && Wrap64(base + l.data) != 0 && EqualsIgnoreCase(l.name, name)
  }

  /** The first matching entry of a descriptor at or after j. */
  function MatchIn(base: Word, d: ImportDescriptor, name: string, j: nat): (r: Option<nat>)
    requires j <= LookupEnd(d.lookups, 0)
    ensures r.Some? ==> j <= r.value < LookupEnd(d.lookups, 0) && NamedImport(base, d.lookups[r.value], name)
    ensures forall t :: j <= t < (if r.Some? then r.value else LookupEnd(d.lookups, 0)) ==>
      !NamedImport(base, d.lookups[t], name)
    decreases LookupEnd(d.lookups, 0) - j
  {
    if j == LookupEnd(d.lookups, 0) then None
    else if NamedImport(base, d.lookups[j], name) then Some(j)
    else MatchIn(base, d, name, j + 1)
  }

  /** The first matching (descriptor, entry) pair in walk order, from descriptor i on:
      no entry the walk visits before it matches, and None means no visited entry does. */
  function FirstImport(base: Word, imports: seq<ImportDescriptor>, name: string, i: nat): (r: Option<(nat, nat)>)
    requires i <= DescriptorEnd(imports, 0)
    ensures r.Some? ==>
      && i <= r.value.0 < DescriptorEnd(imports, 0)
      && r.value.1 < LookupEnd(imports[r.value.0].lookups, 0)
      && NamedImport(base, imports[r.value.0].lookups[r.value.1], name)
      && forall t :: 0 <= t < r.value.1 ==> !NamedImport(base, imports[r.value.0].lookups[t], name)
    ensures forall k, t :: (i <= k < (if r.Some? then r.value.0 else DescriptorEnd(imports, 0)) &&
      0 <= t < LookupEnd(imports[k].lookups, 0)) ==> !NamedImport(base, imports[k].lookups[t], name)
    decreases DescriptorEnd(imports, 0) - i
  {
    if i == DescriptorEnd(imports, 0) then None
    else match MatchIn(base, imports[i], name, 0)
      case Some(j) => Some((i, j))
      case None => FirstImport(base, imports, name, i + 1)
  }

  /** What FindIATFunction answers: InvalidModule for a null module, the slot of the
      first match, or FunctionNotFound. */
  function ImportSlot(base: Word, imports: seq<ImportDescriptor>, name: string): Result<nat, Error>
  {
    if base == 0 then Err(InvalidModule)
    else match FirstImport(base, imports, name, 0)
      case None => Err(FunctionNotFound)
      case Some((k, j)) => Ok(ThunkSlot(base, imports[k], j))
  }

  /** Every FirstThunk slot of the directory is a word of the address space. */
  predicate SlotsMapped(base: Word, imports: seq<ImportDescriptor>, words: map<nat, Word>)
  {
    forall k, j :: 0 <= k < |imports| && 0 <= j < |imports[k].lookups| ==>
      ThunkSlot(base, imports[k], j) in words
  }

  lemma ImportSlotMapped(base: Word, imports: seq<ImportDescriptor>, name: string, words: map<nat, Word>)
    requires SlotsMapped(base, imports, words)
    ensures ImportSlot(base, imports, name).Ok? ==> ImportSlot(base, imports, name).value in words
  {
  }

  // ---------------------------------------------------------------------------
  // The hook's effect on memory, chain and records
  // ---------------------------------------------------------------------------

  /** Everything an IATHook reads or changes: the slots and regions, the hook chain, and
      mOriginalFunctions (name -> slot and the value it held when first found). */
  datatype IatState = IatState(mem: Memory, chain: map<Word, Original>, records: map<string, SlotRecord>)

  /** IATHook::Hook. A null name or detour is refused first. A found slot is recorded
      (first time only), the detour is registered with the slot's current value, and
      then the slot is patched; a failed patch is returned but the registration and
      the record stay. */
  function HookStep(s: IatState, vp: Protector, base: Word, imports: seq<ImportDescriptor>,
                    functionName: Option<string>, newFunction: Word): (IatState, Result<bool, Error>)
    requires SlotsMapped(base, imports, s.mem.words)
  {
    if functionName.None? then (s, Err(FunctionNotFound))
    else if newFunction == 0 then (s, Err(InvalidDetour))
    else
      ImportSlotMapped(base, imports, functionName.value, s.mem.words);
      match ImportSlot(base, imports, functionName.value)
      case Err(e) => (s, Err(e))
      case Ok(slot) =>
        var current := s.mem.words[slot];
        var (mem, status) := Patched(s.mem, vp, slot, newFunction);
        (IatState(mem, s.chain[newFunction := Original(current)],
                  Emplace(s.records, functionName.value, SlotRecord(slot, current))),
         if status == Success then Ok(true) else Err(status.error))
  }

  /** IATHook::Unhook. An unrecorded name is NotHooked. Otherwise the recorded value is
      patched back; only when that succeeds is the hook found in the slot unregistered
      and the record erased. */
  function UnhookStep(s: IatState, vp: Protector, functionName: string): (IatState, Result<bool, Error>)
    requires SlotsIn(s.records, s.mem.words)
  {
    if functionName !in s.records then (s, Err(NotHooked))
    else
      var rec := s.records[functionName];
      var current := s.mem.words[rec.slot];
      var (mem, status) := Patched(s.mem, vp, rec.slot, rec.original);
      if status == Success then (IatState(mem, s.chain - {current}, s.records - {functionName}), Ok(true))
      else (s.(mem := mem), Err(status.error))
  }

  /** A hook whose slot is found and can be patched: the slot holds the detour, the
      detour is registered with the slot's old value, and the record is emplaced. */
  lemma HookStepPatches(s: IatState, vp: Protector, base: Word, imports: seq<ImportDescriptor>,
                        name: string, newFunction: Word)
    requires SlotsMapped(base, imports, s.mem.words)
    requires newFunction != 0 && ImportSlot(base, imports, name).Ok?
    requires PatchStatus(s.mem.regions, vp, ImportSlot(base, imports, name).value) == Success
    ensures ImportSlot(base, imports, name).value in s.mem.words
    ensures var slot := ImportSlot(base, imports, name).value;
      var current := s.mem.words[slot];
      HookStep(s, vp, base, imports, Some(name), newFunction)
        == (IatState(Memory(s.mem.words[slot := newFunction], s.mem.regions), s.chain[newFunction := Original(current)],
                     Emplace(s.records, name, SlotRecord(slot, current))), Ok(true))
  {
    ImportSlotMapped(base, imports, name, s.mem.words);
  }

  /** Hooking a name not hooked before with a detour not yet in the chain, on a slot the
      patch can write, and then unhooking it, gives back exactly the state before. */
  lemma HookThenUnhook(s: IatState, vp: Protector, base: Word, imports: seq<ImportDescriptor>,
                       name: string, newFunction: Word)
    requires SlotsMapped(base, imports, s.mem.words) && SlotsIn(s.records, s.mem.words)
    requires name !in s.records && newFunction != 0 && newFunction !in s.chain
    requires ImportSlot(base, imports, name).Ok?
    requires PatchStatus(s.mem.regions, vp, ImportSlot(base, imports, name).value) == Success
    ensures var (hooked, r) := HookStep(s, vp, base, imports, Some(name), newFunction);
      && r == Ok(true)
      && SlotsIn(hooked.records, hooked.mem.words)
      && UnhookStep(hooked, vp, name) == (s, Ok(true))
  {
    HookStepPatches(s, vp, base, imports, name, newFunction);
    var slot := ImportSlot(base, imports, name).value;
    var current := s.mem.words[slot];
    var hooked := HookStep(s, vp, base, imports, Some(name), newFunction).0;
    assert hooked.records == s.records[name := SlotRecord(slot, current)];
    assert Patched(hooked.mem, vp, slot, current).0.words == s.mem.words;
    assert hooked.chain - {newFunction} == s.chain;
    assert hooked.records - {name} == s.records;
  }

  /** Hooking the same name twice and unhooking it once puts back the value the slot
      held before the first hook: the record is never overwritten. */
  lemma HookTwiceThenUnhook(s: IatState, vp: Protector, base: Word, imports: seq<ImportDescriptor>,
                            name: string, first: Word, second: Word)
    requires SlotsMapped(base, imports, s.mem.words) && SlotsIn(s.records, s.mem.words)
    requires name !in s.records && first != 0 && second != 0 && first != second
    requires ImportSlot(base, imports, name).Ok?
    requires PatchStatus(s.mem.regions, vp, ImportSlot(base, imports, name).value) == Success
    ensures var once := HookStep(s, vp, base, imports, Some(name), first).0;
      var twice := HookStep(once, vp, base, imports, Some(name), second).0;
      && SlotsIn(twice.records, twice.mem.words)
      && var (after, r) := UnhookStep(twice, vp, name);
      && r == Ok(true)
      && after.mem == s.mem
      && after.records == s.records
      && second !in after.chain
      && after.chain[first] == Original(s.mem.words[ImportSlot(base, imports, name).value])
  {
    HookStepPatches(s, vp, base, imports, name, first);
    var slot := ImportSlot(base, imports, name).value;
    var once := HookStep(s, vp, base, imports, Some(name), first).0;
    assert once.mem.words.Keys == s.mem.words.Keys;
    HookStepPatches(once, vp, base, imports, name, second);
    var twice := HookStep(once, vp, base, imports, Some(name), second).0;
    assert twice.mem == Memory(s.mem.words[slot := second], s.mem.regions);
    assert twice.records == s.records[name := SlotRecord(slot, s.mem.words[slot])];
    assert twice.chain == s.chain[first := Original(s.mem.words[slot])][second := Original(first)];
    var after := UnhookStep(twice, vp, name).0;
    assert after.mem.words == s.mem.words;
    assert after.records == s.records;
  }

  /** A found name is recorded by Hook whether or not the patch succeeds, so IsHooked
      holds afterwards, and GetHookCount grows by one exactly when the name is new. */
  lemma HookRecordsName(s: IatState, vp: Protector, base: Word, imports: seq<ImportDescriptor>,
                        name: string, newFunction: Word)
    requires SlotsMapped(base, imports, s.mem.words)
    requires newFunction != 0 && ImportSlot(base, imports, name).Ok?
    ensures var after := HookStep(s, vp, base, imports, Some(name), newFunction).0;
      name in after.records && |after.records| == |s.records| + (if name in s.records then 0 else 1)
  {
    ImportSlotMapped(base, imports, name, s.mem.words);
    var slot := ImportSlot(base, imports, name).value;
    var after := HookStep(s, vp, base, imports, Some(name), newFunction).0;
    assert after.records == Emplace(s.records, name, SlotRecord(slot, s.mem.words[slot]));
    if name !in s.records {
      assert after.records.Keys == s.records.Keys + {name};
    } else {
      assert after.records.Keys == s.records.Keys;
    }
  }

  /** Unhook of a name not hooked is NotHooked and changes nothing; a successful one
      forgets the name, leaving one hooked name fewer. */
  lemma UnhookForgetsName(s: IatState, vp: Protector, name: string)
    requires SlotsIn(s.records, s.mem.words)
    ensures name !in s.records ==> UnhookStep(s, vp, name) == (s, Err(NotHooked))
    ensures var (after, r) := UnhookStep(s, vp, name);
      r.Ok? ==> name !in after.records && |after.records| == |s.records| - 1
  {
    if name in s.records {
      var after := UnhookStep(s, vp, name).0;
      if UnhookStep(s, vp, name).1.Ok? {
        assert after.records.Keys == s.records.Keys - {name};
      }
    }
  }

  /** The inner walk of FindIATFunction: a descriptor's thunks up to the zero entry,
      skipping ordinal imports. */
  method FindInDescriptor(base: Word, d: ImportDescriptor, name: string) returns (r: Option<nat>)
    ensures r == MatchIn(base, d, name, 0)
  {
    var j := 0;
    while j < |d.lookups| && d.lookups[j].data != 0
      invariant j <= LookupEnd(d.lookups, 0)
      invariant MatchIn(base, d, name, 0) == MatchIn(base, d, name, j)
    {
      var lookup := d.lookups[j];
      if lookup.data < IMAGE_ORDINAL_FLAG {
        if Wrap64(base + lookup.data) != 0 && EqualsIgnoreCase(lookup.name, name) {
          return Some(j);
        }
      }
      j := j + 1;
    }
    return None;
  }

  /** The outer walk of FindIATFunction: the descriptors up to the one with a null
      name, each searched by the inner walk. */
  method FindImport(base: Word, imports: seq<ImportDescriptor>, name: string) returns (r: Option<(nat, nat)>)
    ensures r == FirstImport(base, imports, name, 0)
  {
    var k := 0;
    while k < |imports| && imports[k].name != 0
      invariant k <= DescriptorEnd(imports, 0)
      invariant FirstImport(base, imports, name, 0) == FirstImport(base, imports, name, k)
    {
      var found := FindInDescriptor(base, imports[k], name);
      if found.Some? {
        return Some((k, found.value));
      }
      k := k + 1;
    }
    return None;
  }

  // ---------------------------------------------------------------------------
  // The hooker
  // ---------------------------------------------------------------------------

  class IATHook {
    const moduleBase: Word
    const imports: seq<ImportDescriptor>
    const space: AddressSpace
    const manager: Manager
    var records: map<string, SlotRecord>

    predicate Valid()
      reads this, space
    {
      SlotsMapped(moduleBase, imports, space.words) && SlotsIn(records, space.words)
    }

    function State(): IatState
      reads this, space, manager
    {
      IatState(space.Snapshot(), manager.chain, records)
    }

    constructor(space0: AddressSpace, manager0: Manager, moduleBase0: Word, imports0: seq<ImportDescriptor>)
      requires SlotsMapped(moduleBase0, imports0, space0.words)
      ensures Valid() && records == map[]
      ensures space == space0 && manager == manager0 && moduleBase == moduleBase0 && imports == imports0
    {
      space, manager := space0, manager0;
      moduleBase, imports := moduleBase0, imports0;
      records := map[];
    }

    /** FindIATFunction: the walk over the descriptors; a match is recorded with try_emplace. */
    method FindIATFunction(functionName: string) returns (r: Result<nat, Error>)
      requires Valid()
      modifies this
      ensures Valid()
      ensures r == ImportSlot(moduleBase, imports, functionName)
      ensures records == if r.Ok? then Emplace(old(records), functionName, SlotRecord(r.value, space.words[r.value]))
        else old(records)
    {
      if moduleBase == 0 {
        return Err(InvalidModule);
      }
      var found := FindImport(moduleBase, imports, functionName);
      if found.None? {
        return Err(FunctionNotFound);
      }
      var slot := ThunkSlot(moduleBase, imports[found.value.0], found.value.1);
      if functionName !in records {
        records := records[functionName := SlotRecord(slot, space.words[slot])];
      }
      return Ok(slot);
    }

    /** IATHook::Hook. */
    method Hook(functionName: Option<string>, newFunction: Word) returns (r: Result<bool, Error>)
      requires Valid()
      modifies this, space, manager
      ensures Valid()
      ensures (State(), r) == HookStep(old(State()), space.vp, moduleBase, imports, functionName, newFunction)
    {
      if functionName.None? {
        return Err(FunctionNotFound);
      }
      if newFunction == 0 {
        return Err(InvalidDetour);
      }
      var found := FindIATFunction(functionName.value);
      if found.Err? {
        return Err(found.error);
      }
      var slot := found.value;
      manager.RegisterHook(newFunction, space.words[slot]);
      var result := space.Patch(slot, newFunction);
      if result.Unexpected? {
        return Err(result.error);
      }
      return Ok(true);
    }

    /** IATHook::Unhook. */
    method Unhook(functionName: string) returns (r: Result<bool, Error>)
      requires Valid()
      modifies this, space, manager
      ensures Valid()
      ensures (State(), r) == UnhookStep(old(State()), space.vp, functionName)
    {
      if functionName !in records {
        return Err(NotHooked);
      }
      var rec := records[functionName];
      var current := space.words[rec.slot];
      var result := space.Patch(rec.slot, rec.original);
      if result.Unexpected? {
        return Err(result.error);
      }
      var _ := manager.UnregisterHook(current);
      records := records - {functionName};
      return Ok(true);
    }

    /** IATHook::UnhookAll (also run by the destructor): every slot whose value changed
      is patched back and the hook found there unregistered; then the records go. */
    method UnhookAll()
      requires Valid()
      modifies this, space, manager
      ensures Valid() && records == map[]
      ensures space.words.Keys == old(space.words).Keys
      ensures forall a :: a in space.words && Unrecorded(old(records), a) ==> space.words[a] == old(space.words)[a]
      ensures forall n :: n in old(records) && SoleSlot(old(records), n) ==>
        RestoredSlot(space.words, old(space.Snapshot()), space.vp, old(records)[n])
      ensures manager.chain.Keys <= old(manager.chain).Keys
      ensures forall n :: (n in old(records) && SoleSlot(old(records), n) &&
        old(space.words)[old(records)[n].slot] != old(records)[n].original) ==>
        old(space.words)[old(records)[n].slot] !in manager.chain
    {
      RestoreAll(space, manager, records, 0);
      forall w: Word ensures Wrap64(w) == w {
      }
      records := map[];
    }

    /** IATHook::GetHookCount. */
    function GetHookCount(): nat
      reads this
    {
      |records|
    }

    /** IATHook::IsHooked. */
    predicate IsHooked(functionName: string)
      reads this
    {
      functionName in records
    }

    /** IATHook::GetOriginal(name): a pointer to the hooked IAT slot. After Hook that slot
      holds the detour; the original import is the one the record keeps. */
    function GetOriginal(functionName: string): (r: Result<nat, Error>)
      reads this, space
      requires Valid()
      ensures r.Ok? <==> functionName in records
      ensures r.Ok? ==> r.value in space.words
      ensures r.Err? ==> r.error == NotHooked
    {
      if functionName in records then Ok(records[functionName].slot) else Err(NotHooked)
    }
  }
}
