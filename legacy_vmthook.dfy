/** include/VMTHook/vmthook.cpp: the older revision of the virtual-method-table hooker.

    It differs from the TinyHook one in three ways: an index that is already hooked
    is refused rather than re-hooked; its Patch raises the entry to
    PAGE_EXECUTE_READWRITE, writes and restores the old protection without checking
    either call, so the entry is simply overwritten and regions are left as they were;
    and its chain (mOriginalMethods, newMethod -> original) is a registry of its own,
    here a Manager distinct from the TinyHook one. The table-length probe is the same
    code and is TinyVmt.GetVTableSize. */
module LegacyVmt {
  import opened Machine
  import opened TinyShared
  import TinyVmt

  /** Table entries, mOriginalMethods and mHookedMethods (index -> entry before the hook). */
  datatype LegacyState = LegacyState(words: map<nat, Word>, chain: map<Word, Original>, hooked: map<nat, Word>)

  /** VMTHook::Hook. Refused (null) for a null method, an index past the size or an index
      already hooked; otherwise the new method is chained to the entry's value, the entry
      overwritten, the index recorded, and the previous value returned. */
  function HookStep(s: LegacyState, table: nat, tableSize: nat, index: nat, newMethod: Word): (LegacyState, Word)
    requires TinyVmt.TableMapped(s.words, table, tableSize)
  {
    if newMethod == 0 || index >= tableSize || index in s.hooked then (s, 0)
    else
      var slot := SlotAddress(table, index);
      var original := s.words[slot];
      (LegacyState(s.words[slot := newMethod], s.chain[newMethod := Original(original)], s.hooked[index := original]),
       original)
  }

  /** VMTHook::Unhook. */
  function UnhookStep(s: LegacyState, table: nat, tableSize: nat, index: nat): (LegacyState, bool)
    requires TinyVmt.TableMapped(s.words, table, tableSize)
  {
    if index >= tableSize || index !in s.hooked then (s, false)
    else
      var slot := SlotAddress(table, index);
      var current := s.words[slot];
      (LegacyState(s.words[slot := s.hooked[index]], s.chain - {current}, s.hooked - {index}), true)
  }

  /** The entries UnhookAll changed, among done, and the methods found in them. */
  function Removed(words0: map<nat, Word>, table: nat, hooked: map<nat, Word>, done: set<nat>): set<Word>
    requires forall i :: i in done ==> i in hooked && SlotAddress(table, i) in words0
  {
    set i | i in done && words0[SlotAddress(table, i)] != hooked[i] :: words0[SlotAddress(table, i)]
  }

  /** What UnhookAll does to state s, giving t: every hooked index's entry holds its
      recorded value again, every other word is as it was, the methods found in the
      changed entries leave the chain, and no index is hooked any more. */
  ghost predicate UnhookedAll(s: LegacyState, table: nat, t: LegacyState)
    requires forall i :: i in s.hooked ==> SlotAddress(table, i) in s.words
  {
    && t.words.Keys == s.words.Keys
    && (forall i :: i in s.hooked ==> t.words[SlotAddress(table, i)] == s.hooked[i])
    && (forall a :: a in t.words && TinyVmt.NotRecordedSlot(table, s.hooked, a) ==> t.words[a] == s.words[a])
    && t.chain == s.chain - Removed(s.words, table, s.hooked, s.hooked.Keys)
    && t.hooked == map[]
  }

  /** How far the UnhookAll loop has got from words w0 and chain c0 once every index
      outside pending has been visited. */
  ghost predicate Restoring(hooked: map<nat, Word>, table: nat, pending: set<nat>,
                           w0: map<nat, Word>, c0: map<Word, Original>, w: map<nat, Word>, c: map<Word, Original>)
  {
    && pending <= hooked.Keys
    && (forall i :: i in hooked ==> SlotAddress(table, i) in w0)
    && w.Keys == w0.Keys
    && (forall i :: i in hooked && i !in pending ==> w[SlotAddress(table, i)] == hooked[i])
    && (forall i :: i in pending ==> w[SlotAddress(table, i)] == w0[SlotAddress(table, i)])
    && (forall a :: a in w && TinyVmt.NotRecordedSlot(table, hooked, a) ==> w[a] == w0[a])
    && c == c0 - Removed(w0, table, hooked, hooked.Keys - pending)
  }

  lemma RestoreStep(hooked: map<nat, Word>, table: nat, pending: set<nat>, k: nat,
                     w0: map<nat, Word>, c0: map<Word, Original>, w: map<nat, Word>, c: map<Word, Original>)
    requires Restoring(hooked, table, pending, w0, c0, w, c) && k in pending
    ensures var slot := SlotAddress(table, k);
      var changed := w0[slot] != hooked[k];
      Restoring(hooked, table, pending - {k}, w0, c0,
               if changed then w[slot := hooked[k]] else w,
               if changed then c - {w0[slot]} else c)
  {
    var slot := SlotAddress(table, k);
    var rest := pending - {k};
    var w2 := w[slot := hooked[k]];
    assert w0[slot] == hooked[k] ==> w2 == w;
    assert Removed(w0, table, hooked, hooked.Keys - rest) ==
      Removed(w0, table, hooked, hooked.Keys - pending) + (if w0[slot] != hooked[k] then {w0[slot]} else {});
  }

  /** A refused Hook changes nothing; in particular an index that is already hooked keeps
      the original recorded by its first hook. */
  lemma HookRefusesHooked(s: LegacyState, table: nat, tableSize: nat, index: nat, newMethod: Word)
    requires TinyVmt.TableMapped(s.words, table, tableSize)
    requires index in s.hooked
    ensures HookStep(s, table, tableSize, index, newMethod) == (s, 0)
  {
  }

  /** Hook then Unhook of a fresh index with a method not yet chained gives back the state. */
  lemma HookThenUnhook(s: LegacyState, table: nat, tableSize: nat, index: nat, newMethod: Word)
    requires TinyVmt.TableMapped(s.words, table, tableSize)
    requires newMethod != 0 && index < tableSize && index !in s.hooked && newMethod !in s.chain
    ensures var hooked := HookStep(s, table, tableSize, index, newMethod).0;
      && TinyVmt.TableMapped(hooked.words, table, tableSize)
      && UnhookStep(hooked, table, tableSize, index) == (s, true)
  {
    var slot := SlotAddress(table, index);
    var hooked := HookStep(s, table, tableSize, index, newMethod).0;
    assert hooked.words[slot := s.words[slot]] == s.words;
    assert hooked.chain - {newMethod} == s.chain;
    assert hooked.hooked - {index} == s.hooked;
  }

  /** UnhookAll undoes a Hook just as Unhook does, when it was the only hook and put a
      different method in the entry: whatever state UnhookAll leaves is the state before
      the Hook. (Hooking an entry with the method it already holds chains that method to
      itself, and UnhookAll, seeing an unchanged entry, leaves the chain entry behind.) */
  lemma HookThenUnhookAll(s: LegacyState, table: nat, tableSize: nat, index: nat, newMethod: Word,
                          t: LegacyState)
    requires TinyVmt.TableMapped(s.words, table, tableSize)
    requires newMethod != 0 && index < tableSize && s.hooked == map[] && newMethod !in s.chain
    requires s.words[SlotAddress(table, index)] != newMethod
    requires var hooked := HookStep(s, table, tableSize, index, newMethod).0;
      && (forall i :: i in hooked.hooked ==> SlotAddress(table, i) in hooked.words)
      && UnhookedAll(hooked, table, t)
    ensures t == s
  {
    var slot := SlotAddress(table, index);
    var hooked := HookStep(s, table, tableSize, index, newMethod).0;
    assert hooked.hooked == map[index := s.words[slot]];
    assert Removed(hooked.words, table, hooked.hooked, hooked.hooked.Keys) == {newMethod};
    assert t.chain == s.chain;
    forall a | a in s.words
      ensures t.words[a] == s.words[a]
    {
      if a != slot {
        assert TinyVmt.NotRecordedSlot(table, hooked.hooked, a);
      }
    }
    assert t.words == s.words;
  }

  class VMTHook {
    const table: nat
    const tableSize: nat
    const space: AddressSpace
    const chain: Manager
    var hooked: map<nat, Word>

    predicate Valid()
      reads this, space
    {
      table != 0 && TinyVmt.TableMapped(space.words, table, tableSize) &&
      forall i :: i in hooked ==> i < tableSize
    }

    function State(): LegacyState
      reads this, space, chain
    {
      LegacyState(space.words, chain.chain, hooked)
    }

    /** VMTHook(vTable): the size is probed once, here. */
    constructor(space0: AddressSpace, chain0: Manager, vTable: nat, ghost bound: nat)
      requires vTable != 0
      requires TinyVmt.TableMapped(space0.words, vTable, bound + 1)
      requires !TinyVmt.IsMethodSlot(space0.Snapshot(), vTable, bound)
      ensures Valid() && hooked == map[]
      ensures space == space0 && chain == chain0 && table == vTable
      ensures forall i :: 0 <= i < tableSize ==> TinyVmt.IsMethodSlot(space.Snapshot(), table, i)
      ensures !TinyVmt.IsMethodSlot(space.Snapshot(), table, tableSize)
    {
      var size := TinyVmt.GetVTableSize(space0, vTable, bound);
      space, chain := space0, chain0;
      table, tableSize := vTable, size;
      hooked := map[];
    }

    /** The file-local Patch: the entry is overwritten; the protection calls around the
        write leave the regions as they were. */
    method Patch(index: nat, value: Word)
      modifies space
      ensures space.words == old(space.words)[SlotAddress(table, index) := value]
      ensures space.regions == old(space.regions)
    {
      space.words := space.words[SlotAddress(table, index) := value];
    }

    /** VMTHook::Hook. */
    method Hook(index: nat, newMethod: Word) returns (r: Word)
      requires Valid()
      modifies this, space, chain
      ensures Valid()
      ensures (State(), r) == HookStep(old(State()), table, tableSize, index, newMethod)
      ensures space.regions == old(space.regions)
    {
      if newMethod == 0 || index >= tableSize || index in hooked {
        return 0;
      }
      var originalMethod := space.words[SlotAddress(table, index)];
      chain.RegisterHook(newMethod, originalMethod);
      Patch(index, newMethod);
      hooked := hooked[index := originalMethod];
      return originalMethod;
    }

    /** VMTHook::Unhook. */
    method Unhook(index: nat) returns (r: bool)
      requires Valid()
      modifies this, space, chain
      ensures Valid()
      ensures (State(), r) == UnhookStep(old(State()), table, tableSize, index)
      ensures space.regions == old(space.regions)
    {
      if index >= tableSize || index !in hooked {
        return false;
      }
      var currentMethod := space.words[SlotAddress(table, index)];
      Patch(index, hooked[index]);
      var _ := chain.UnregisterHook(currentMethod);
      hooked := hooked - {index};
      return true;
    }

    /** VMTHook::UnhookAll (also run by the destructor): visit the hooked indices in the
        map's order; where the entry changed, write the original back and drop the method
        found there from the chain; then forget every index. */
    method UnhookAll()
      requires Valid()
      modifies this, space, chain
      ensures Valid()
      ensures UnhookedAll(old(State()), table, State())
      ensures space.regions == old(space.regions)
    {
      ghost var w0, c0 := space.words, chain.chain;
      var pending := hooked.Keys;
      while pending != {}
        invariant Valid() && space.regions == old(space.regions) && hooked == old(hooked)
        invariant Restoring(hooked, table, pending, w0, c0, space.words, chain.chain)
        decreases pending
      {
        var index :| index in pending;
        RestoreStep(hooked, table, pending, index, w0, c0, space.words, chain.chain);
        var currentMethod := space.words[SlotAddress(table, index)];
        if currentMethod != hooked[index] {
          Patch(index, hooked[index]);
          var _ := chain.UnregisterHook(currentMethod);
        }
        pending := pending - {index};
      }
      hooked := map[];
    }
  }
}
