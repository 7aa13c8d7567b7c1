/** include/TinyHook/vmthook.h: hooking a virtual method by overwriting its entry in an
    object's virtual method table.

    The table is a run of pointer-sized words of the address space starting at the
    table address; entry i lives at SlotAddress(table, i). Its length is not known in
    advance: the constructor probes entries until one does not point into executable,
    committed, accessible memory. */
module TinyVmt {
  import opened Machine
  import opened TinyShared

  const PAGE_EXECUTABLE: bv32 := PAGE_EXECUTE | PAGE_EXECUTE_READ | PAGE_EXECUTE_READWRITE

  /** The test the probe applies to entry i: a non-null pointer whose region can be
      queried, is committed, is neither guarded nor PAGE_NOACCESS, and is executable. */
  predicate IsMethodSlot(m: Memory, table: nat, i: nat)
  {
    var slot := SlotAddress(table, i);
    && slot in m.words
    && m.words[slot] != 0
    && PageOf(m.words[slot]) in m.regions
    && var region := m.regions[PageOf(m.words[slot])];
    && region.state == MEM_COMMIT
    && region.protect & (PAGE_GUARD | PAGE_NOACCESS) == 0
    && region.protect & PAGE_EXECUTABLE != 0
  }

  /** The first n entries of the table are words of the address space. */
  predicate TableMapped(words: map<nat, Word>, table: nat, n: nat)
  {
    forall i :: 0 <= i < n ==> SlotAddress(table, i) in words
  }

  /** GetVTableSize: the number of leading entries that pass the method test. The probe
      reads every entry up to the first one that fails, so the caller must know that
      such an entry exists (bound) and that the entries up to it can be read. */
  method GetVTableSize(space: AddressSpace, table: nat, ghost bound: nat) returns (size: nat)
    requires TableMapped(space.words, table, bound + 1)
    requires !IsMethodSlot(space.Snapshot(), table, bound)
    ensures size <= bound
    ensures forall i :: 0 <= i < size ==> IsMethodSlot(space.Snapshot(), table, i)
    ensures !IsMethodSlot(space.Snapshot(), table, size)
  {
    size := 0;
    while true
      invariant size <= bound
      invariant forall i :: 0 <= i < size ==> IsMethodSlot(space.Snapshot(), table, i)
      decreases bound - size
    {
      var entry := space.words[SlotAddress(table, size)];
      if entry == 0 || PageOf(entry) !in space.regions {
        break;
      }
      var region := space.regions[PageOf(entry)];
      if region.state != MEM_COMMIT || region.protect & (PAGE_GUARD | PAGE_NOACCESS) != 0 ||
         region.protect & PAGE_EXECUTABLE == 0 {
        break;
      }
      size := size + 1;
    }
  }

  // ---------------------------------------------------------------------------
  // The hook's effect on memory, chain and records
  // ---------------------------------------------------------------------------

  /** Table entries and regions, the hook chain, and mOriginalMethods (index -> the
      entry it held when first hooked). */
  datatype VmtState = VmtState(mem: Memory, chain: map<Word, Original>, originals: map<nat, Word>)

  /** The recorded entries as slot records, the form the UnhookAll loop works on. */
  function Records(table: nat, originals: map<nat, Word>): (r: map<nat, SlotRecord>)
    ensures r.Keys == originals.Keys
    ensures forall i :: i in r ==> r[i] == SlotRecord(SlotAddress(table, i), originals[i]) && SoleSlot(r, i)
  {
    map i | i in originals :: SlotRecord(SlotAddress(table, i), originals[i])
  }

  /** Address a is not the entry of any recorded index. */
  predicate NotRecordedSlot(table: nat, originals: map<nat, Word>, a: nat)
  {
    forall i :: i in originals ==> SlotAddress(table, i) != a
  }

  /** VMTHook::Hook. A null method or an index past the probed size gives null and
      changes nothing. Otherwise the entry is recorded the first time, the new method
      is registered with the entry's current value, the entry is patched (the patch's
      result is ignored), and the previous value is returned. */
  function HookStep(s: VmtState, vp: Protector, table: nat, tableSize: nat, index: nat, newMethod: Word)
    : (VmtState, Word)
    requires TableMapped(s.mem.words, table, tableSize)
  {
    if newMethod == 0 || index >= tableSize then (s, 0)
    else
      var slot := SlotAddress(table, index);
      var original := s.mem.words[slot];
      var originals := if index in s.originals then s.originals else s.originals[index := original];
      (VmtState(Patched(s.mem, vp, slot, newMethod).0, s.chain[newMethod := Original(original)], originals),
       original)
  }

  /** VMTHook::Unhook. An index past the size or not recorded gives false. Otherwise the
      recorded value is patched back (result ignored), the method found in the entry is
      unregistered, and the record erased. */
  function UnhookStep(s: VmtState, vp: Protector, table: nat, tableSize: nat, index: nat): (VmtState, bool)
    requires TableMapped(s.mem.words, table, tableSize)
  {
    if index >= tableSize || index !in s.originals then (s, false)
    else
      var slot := SlotAddress(table, index);
      var current := s.mem.words[slot];
      (VmtState(Patched(s.mem, vp, slot, s.originals[index]).0, s.chain - {current}, s.originals - {index}), true)
  }

  /** A Hook that is accepted on a writable entry returns what the entry held, leaves
      the new method in the entry, and the chain leads from the new method back to the
      returned value. */
  lemma HookRedirects(s: VmtState, vp: Protector, table: nat, tableSize: nat, index: nat, newMethod: Word)
    requires TableMapped(s.mem.words, table, tableSize)
    requires newMethod != 0 && index < tableSize
    requires PatchStatus(s.mem.regions, vp, SlotAddress(table, index)) == Success
    ensures var (after, r) := HookStep(s, vp, table, tableSize, index, newMethod);
      && r == s.mem.words[SlotAddress(table, index)]
      && after.mem.words == s.mem.words[SlotAddress(table, index) := newMethod]
      && after.chain[newMethod] == Original(r)
      && index in after.originals
  {
  }

  /** Hooking an index not hooked before with a method not yet in the chain, on a
      writable entry, and then unhooking it, gives back exactly the state before. */
  lemma HookThenUnhook(s: VmtState, vp: Protector, table: nat, tableSize: nat, index: nat, newMethod: Word)
    requires TableMapped(s.mem.words, table, tableSize)
    requires newMethod != 0 && index < tableSize
    requires index !in s.originals && newMethod !in s.chain
    requires PatchStatus(s.mem.regions, vp, SlotAddress(table, index)) == Success
    ensures var hooked := HookStep(s, vp, table, tableSize, index, newMethod).0;
      && TableMapped(hooked.mem.words, table, tableSize)
      && UnhookStep(hooked, vp, table, tableSize, index) == (s, true)
  {
    var slot := SlotAddress(table, index);
    var hooked := HookStep(s, vp, table, tableSize, index, newMethod).0;
    assert hooked.mem == Memory(s.mem.words[slot := newMethod], s.mem.regions);
    assert Patched(hooked.mem, vp, slot, s.mem.words[slot]).0.words == s.mem.words;
    assert hooked.chain - {newMethod} == s.chain;
    assert hooked.originals - {index} == s.originals;
  }

  /** Hooking the same index twice and unhooking it once puts back the value the entry
      held before the first hook: the record is never overwritten. */
  lemma HookTwiceThenUnhook(s: VmtState, vp: Protector, table: nat, tableSize: nat, index: nat,
                            first: Word, second: Word)
    requires TableMapped(s.mem.words, table, tableSize)
    requires first != 0 && second != 0 && first != second && index < tableSize
    requires index !in s.originals
    requires PatchStatus(s.mem.regions, vp, SlotAddress(table, index)) == Success
    ensures var once := HookStep(s, vp, table, tableSize, index, first).0;
      var twice := HookStep(once, vp, table, tableSize, index, second).0;
      && TableMapped(twice.mem.words, table, tableSize)
      && var (after, r) := UnhookStep(twice, vp, table, tableSize, index);
      && r
      && after.mem == s.mem
      && after.originals == s.originals
      && second !in after.chain
      && after.chain[first] == Original(s.mem.words[SlotAddress(table, index)])
  {
    var slot := SlotAddress(table, index);
    var once := HookStep(s, vp, table, tableSize, index, first).0;
    assert once.mem == Memory(s.mem.words[slot := first], s.mem.regions);
    var twice := HookStep(once, vp, table, tableSize, index, second).0;
    assert twice.mem == Memory(s.mem.words[slot := second], s.mem.regions);
    assert twice.originals == s.originals[index := s.mem.words[slot]];
    var after := UnhookStep(twice, vp, table, tableSize, index).0;
    assert after.mem.words == s.mem.words;
    assert after.originals == s.originals;
  }

  // ---------------------------------------------------------------------------
  // The hooker
  // ---------------------------------------------------------------------------

  class VMTHook {
    const table: nat
    const tableSize: nat
    const space: AddressSpace
    const manager: Manager
    var originals: map<nat, Word>

    predicate Valid()
      reads this, space
    {
      table != 0 && TableMapped(space.words, table, tableSize) &&
      forall i :: i in originals ==> i < tableSize
    }

    function State(): VmtState
      reads this, space, manager
    {
      VmtState(space.Snapshot(), manager.chain, originals)
    }

    /** VMTHook(vTable): the size is probed once, here. */
    constructor(space0: AddressSpace, manager0: Manager, vTable: nat, ghost bound: nat)
      requires vTable != 0
      requires TableMapped(space0.words, vTable, bound + 1)
      requires !IsMethodSlot(space0.Snapshot(), vTable, bound)
      ensures Valid() && originals == map[]
      ensures space == space0 && manager == manager0 && table == vTable
      ensures forall i :: 0 <= i < tableSize ==> IsMethodSlot(space.Snapshot(), table, i)
      ensures !IsMethodSlot(space.Snapshot(), table, tableSize)
    {
      var size := GetVTableSize(space0, vTable, bound);
      space, manager := space0, manager0;
      table, tableSize := vTable, size;
      originals := map[];
    }

    /** VMTHook::Hook. */
    method Hook(index: nat, newMethod: Word) returns (r: Word)
      requires Valid()
      modifies this, space, manager
      ensures Valid()
      ensures (State(), r) == HookStep(old(State()), space.vp, table, tableSize, index, newMethod)
    {
      if newMethod == 0 || index >= tableSize {
        return 0;
      }
      var originalMethod := space.words[SlotAddress(table, index)];
      if index !in originals {
        originals := originals[index := originalMethod];
      }
      manager.RegisterHook(newMethod, originalMethod);
      var _ := space.PatchIndex(table, index, newMethod);
      return originalMethod;
    }

    /** VMTHook::Unhook. */
    method Unhook(index: nat) returns (r: bool)
      requires Valid()
      modifies this, space, manager
      ensures Valid()
      ensures (State(), r) == UnhookStep(old(State()), space.vp, table, tableSize, index)
    {
      if index >= tableSize || index !in originals {
        return false;
      }
      var currentMethod := space.words[SlotAddress(table, index)];
      var _ := space.PatchIndex(table, index, originals[index]);
      var _ := manager.UnregisterHook(currentMethod);
      originals := originals - {index};
      return true;
    }

    /** VMTHook::UnhookAll (also run by the destructor): every entry that no longer holds
      its recorded value is patched back and the method found there unregistered; then
      the records go. */
    method UnhookAll()
      requires Valid()
      modifies this, space, manager
      ensures Valid() && originals == map[]
      ensures space.words.Keys == old(space.words).Keys
      ensures forall a :: a in space.words && NotRecordedSlot(table, old(originals), a) ==>
        space.words[a] == old(space.words)[a]
      ensures forall i :: i in old(originals) ==>
        RestoredSlot(space.words, old(space.Snapshot()), space.vp, SlotRecord(SlotAddress(table, i), old(originals)[i]))
      ensures manager.chain.Keys <= old(manager.chain).Keys
      ensures forall i :: (i in old(originals) &&
        old(space.words)[SlotAddress(table, i)] != old(originals)[i]) ==>
        old(space.words)[SlotAddress(table, i)] !in manager.chain
    {
      var records := Records(table, originals);
      RestoreAll(space, manager, records, 0);
      forall w: Word ensures Wrap64(w) == w {
      }
      forall a | NotRecordedSlot(table, originals, a) ensures Unrecorded(records, a) {
      }
      originals := map[];
    }
  }
}
