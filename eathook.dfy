/** include/TinyHook/eathook.h: hooking an exported function by rewriting its entry in
    the exporting module's Export Address Table, so that GetProcAddress-style lookups
    (module base + table entry) resolve to the replacement.

    The export directory is given parsed: the AddressOfFunctions RVA, the names the
    name table points at, and the name-ordinal table. The address-table entries are
    words of the address space. As in the source, the address table is indexed with a
    uintptr_t stride and its entries are whole words. */
module EatHook {
  import opened Machine
  import opened TinyShared

  type U16 = x: int | 0 <= x < 0x1_0000

  /** An IMAGE_EXPORT_DIRECTORY as the lookup uses it; NumberOfNames is |names|. */
  datatype ExportDirectory = ExportDirectory(addressOfFunctions: nat, names: seq<string>, ordinals: seq<U16>)

  /** The index of the first name at or after i equal to name, ignoring case. */
  function FirstExport(names: seq<string>, name: string, i: nat): (r: Option<nat>)
    requires i <= |names|
    ensures r.Some? ==> i <= r.value < |names| && EqualsIgnoreCase(names[r.value], name)
    ensures forall t :: i <= t < (if r.Some? then r.value else |names|) ==> !EqualsIgnoreCase(names[t], name)
    decreases |names| - i
  {
    if i == |names| then None
    else if EqualsIgnoreCase(names[i], name) then Some(i)
    else FirstExport(names, name, i + 1)
  }

  /** &pAddressTable[pOrdinalTable[i]]. */
  function ExportSlot(base: Word, dir: ExportDirectory, i: nat): nat
    requires i < |dir.ordinals|
  {
    base + dir.addressOfFunctions + 8 * (dir.ordinals[i] as int)
  }

  /** The name-ordinal table covers every name, and every slot a name leads to is a
      word of the address space. */
  predicate ExportsMapped(base: Word, dir: ExportDirectory, words: map<nat, Word>)
  {
    |dir.names| <= |dir.ordinals| &&
    forall i :: 0 <= i < |dir.names| ==> ExportSlot(base, dir, i) in words
  }

  /** FindEATFunction's answer: (base + entry, address of the entry) for the first
      matching name, and (null, null) for a null module or no match. */
  function ExportLookup(base: Word, dir: ExportDirectory, words: map<nat, Word>, name: string): (r: (Word, nat))
    requires ExportsMapped(base, dir, words)
    ensures r.1 != 0 ==> r.1 in words && r.0 == Wrap64(base + words[r.1])
    ensures r.1 == 0 <==> base == 0 || forall t :: 0 <= t < |dir.names| ==> !EqualsIgnoreCase(dir.names[t], name)
  {
    if base == 0 then (0, 0)
    else match FirstExport(dir.names, name, 0)
      case None => (0, 0)
      case Some(i) =>
        var slot := ExportSlot(base, dir, i);
        (Wrap64(base + words[slot]), slot)
  }

  /** The offset written into a slot resolves back to the replacement: base plus
      (replacement - base), both modulo 2^64, is the replacement. */
  lemma OffsetResolves(base: Word, replacement: Word)
    ensures Wrap64(base + Wrap64(replacement - base)) == replacement
  {
    var d := replacement - base;
    var q := if d < 0 then -1 else 0;
    assert Wrap64(d) == d - q * TWO_64;
    assert base + Wrap64(d) == replacement + (-q) * TWO_64;
  }

  // ---------------------------------------------------------------------------
  // The hook's effect on memory, chain and records
  // ---------------------------------------------------------------------------

  /** Slots and regions, the hook chain, and mOriginalOffsets (name -> slot and the
      entry it held when first hooked). */
  datatype EatState = EatState(mem: Memory, chain: map<Word, Original>, records: map<string, SlotRecord>)

  /** EATHook::Hook. Refused (false) for a null module, name or replacement, or a name
      that is not exported or resolves to null. Otherwise the slot is recorded the
      first time, the replacement is registered with the original absolute address,
      and the slot is patched with replacement - base; the patch's result is ignored. */
  function HookStep(s: EatState, vp: Protector, base: Word, dir: ExportDirectory,
                    functionName: Option<string>, replacement: Word): (EatState, bool)
    requires ExportsMapped(base, dir, s.mem.words)
  {
    if base == 0 || functionName.None? || replacement == 0 then (s, false)
    else
      var (original, slot) := ExportLookup(base, dir, s.mem.words, functionName.value);
      if original == 0 || slot == 0 then (s, false)
      else
        var records := Emplace(s.records, functionName.value, SlotRecord(slot, s.mem.words[slot]));
        var chain := s.chain[replacement := Original(original)];
        (EatState(Patched(s.mem, vp, slot, Wrap64(replacement - base)).0, chain, records), true)
  }

  /** EATHook::Unhook. An unknown name gives false. Otherwise the recorded entry is
      patched back (result ignored), the function the slot resolved to is
      unregistered, and the record erased. */
  function UnhookStep(s: EatState, vp: Protector, base: Word, functionName: string): (EatState, bool)
    requires SlotsIn(s.records, s.mem.words)
  {
    if functionName !in s.records then (s, false)
    else
      var rec := s.records[functionName];
      var current := Wrap64(base + s.mem.words[rec.slot]);
      (EatState(Patched(s.mem, vp, rec.slot, rec.original).0, s.chain - {current}, s.records - {functionName}), true)
  }

  /** After a Hook that returned true on a writable slot, the export resolves to the
      replacement, and the replacement leads back to the original address. */
  lemma HookRedirectsExport(s: EatState, vp: Protector, base: Word, dir: ExportDirectory,
                            name: string, replacement: Word)
    requires ExportsMapped(base, dir, s.mem.words)
    requires HookStep(s, vp, base, dir, Some(name), replacement).1
    requires PatchStatus(s.mem.regions, vp, ExportLookup(base, dir, s.mem.words, name).1) == Success
    ensures var (original, slot) := ExportLookup(base, dir, s.mem.words, name);
      var hooked := HookStep(s, vp, base, dir, Some(name), replacement).0;
      && slot in hooked.mem.words
      && Wrap64(base + hooked.mem.words[slot]) == replacement
      && hooked.chain[replacement] == Original(original)
  {
    OffsetResolves(base, replacement);
  }

  /** Hooking a name not hooked before with a replacement not yet in the chain, on a
      writable slot, and then unhooking it, gives back exactly the state before. */
  lemma HookThenUnhook(s: EatState, vp: Protector, base: Word, dir: ExportDirectory,
                       name: string, replacement: Word)
    requires ExportsMapped(base, dir, s.mem.words) && SlotsIn(s.records, s.mem.words)
    requires name !in s.records && replacement !in s.chain
    requires HookStep(s, vp, base, dir, Some(name), replacement).1
    requires PatchStatus(s.mem.regions, vp, ExportLookup(base, dir, s.mem.words, name).1) == Success
    ensures var hooked := HookStep(s, vp, base, dir, Some(name), replacement).0;
      && SlotsIn(hooked.records, hooked.mem.words)
      && UnhookStep(hooked, vp, base, name) == (s, true)
  {
    var (original, slot) := ExportLookup(base, dir, s.mem.words, name);
    var hooked := HookStep(s, vp, base, dir, Some(name), replacement).0;
    OffsetResolves(base, replacement);
    assert hooked.mem == Memory(s.mem.words[slot := Wrap64(replacement - base)], s.mem.regions);
    assert hooked.records == s.records[name := SlotRecord(slot, s.mem.words[slot])];
    assert Patched(hooked.mem, vp, slot, s.mem.words[slot]).0.words == s.mem.words;
    assert hooked.chain - {replacement} == s.chain;
    assert hooked.records - {name} == s.records;
  }

  /** The loop of FindEATFunction over the NumberOfNames entries of the name table. */
  method FindEATFunction(base: Word, dir: ExportDirectory, words: map<nat, Word>, functionName: string)
    returns (original: Word, slot: nat)
    requires ExportsMapped(base, dir, words)
    ensures (original, slot) == ExportLookup(base, dir, words, functionName)
  {
    if base == 0 {
      return 0, 0;
    }
    for i := 0 to |dir.names|
      invariant FirstExport(dir.names, functionName, 0) == FirstExport(dir.names, functionName, i)
    {
      if EqualsIgnoreCase(dir.names[i], functionName) {
        slot := ExportSlot(base, dir, i);
        return Wrap64(base + words[slot]), slot;
      }
    }
    return 0, 0;
  }

  // ---------------------------------------------------------------------------
  // The hooker
  // ---------------------------------------------------------------------------

  class EATHook {
    const moduleBase: Word
    const exports: ExportDirectory
    const space: AddressSpace
    const manager: Manager
    var records: map<string, SlotRecord>

    predicate Valid()
      reads this, space
    {
      ExportsMapped(moduleBase, exports, space.words) && SlotsIn(records, space.words)
    }

    function State(): EatState
      reads this, space, manager
    {
      EatState(space.Snapshot(), manager.chain, records)
    }

    constructor(space0: AddressSpace, manager0: Manager, moduleBase0: Word, exports0: ExportDirectory)
      requires ExportsMapped(moduleBase0, exports0, space0.words)
      ensures Valid() && records == map[]
      ensures space == space0 && manager == manager0 && moduleBase == moduleBase0 && exports == exports0
    {
      space, manager := space0, manager0;
      moduleBase, exports := moduleBase0, exports0;
      records := map[];
    }

    /** EATHook::Hook. */
    method Hook(functionName: Option<string>, replacement: Word) returns (r: bool)
      requires Valid()
      modifies this, space, manager
      ensures Valid()
      ensures (State(), r) == HookStep(old(State()), space.vp, moduleBase, exports, functionName, replacement)
    {
      if moduleBase == 0 || functionName.None? || replacement == 0 {
        return false;
      }
      var original, slot := FindEATFunction(moduleBase, exports, space.words, functionName.value);
      if original == 0 || slot == 0 {
        return false;
      }
      if functionName.value !in records {
        records := records[functionName.value := SlotRecord(slot, space.words[slot])];
      }
      manager.RegisterHook(replacement, original);
      var _ := space.Patch(slot, Wrap64(replacement - moduleBase));
      return true;
    }

    /** EATHook::Unhook. */
    method Unhook(functionName: string) returns (r: bool)
      requires Valid()
      modifies this, space, manager
      ensures Valid()
      ensures (State(), r) == UnhookStep(old(State()), space.vp, moduleBase, functionName)
    {
      if functionName !in records {
        return false;
      }
      var rec := records[functionName];
      var current := Wrap64(moduleBase + space.words[rec.slot]);
      var _ := space.Patch(rec.slot, rec.original);
      var _ := manager.UnregisterHook(current);
      records := records - {functionName};
      return true;
    }

    /** EATHook::UnhookAll (also run by the destructor): every entry that differs from
      its recorded value has the function it resolves to unregistered and is patched
      back; then the records go. */
    method UnhookAll()
      requires Valid()
      modifies this, space, manager
      ensures Valid() && records == map[]
      ensures space.words.Keys == old(space.words).Keys
      ensures forall a :: a in space.words && Unrecorded(old(records), a) ==> space.words[a] == old(space.words)[a]
      ensures forall n :: n in old(records) && SoleSlot(old(records), n) ==>
        RestoredSlot(space.words, old(space.Snapshot()), space.vp, old(records)[n])
      ensures manager.chain.Keys <= old(manager.chain).Keys
      ensures forall n :: (n in old(records) && SoleSlot(old(records), n) &&
        old(space.words)[old(records)[n].slot] != old(records)[n].original) ==>
        Wrap64(moduleBase + old(space.words)[old(records)[n].slot]) !in manager.chain
    {
      RestoreAll(space, manager, records, moduleBase);
      records := map[];
    }
  }
}
