/** The pieces of include/TinyHook/shared.h that every TinyHook hooker builds on:
    the Error enumeration and its messages, the Original handle, the process-wide
    hook chain (Manager) and Utils::Patch, the protection-aware write of one
    pointer-sized value.

    Memory is seen here at the granularity the table hookers use: a map from slot
    address to the 64-bit word stored there, next to a map from page number to the
    region information VirtualQuery reports (a page missing from it is one the
    query fails on). Two fixed sets of pages say where VirtualProtect refuses to
    make a page writable and where it refuses to put the old protection back. */
module TinyShared {
  import opened Machine
  import MemPrimitives

  datatype Error =
    | AlreadyHooked
    | FunctionNotFound
    | IndexOutOfBounds
    | InvalidAddress
    | InvalidDetour
    | InvalidModule
    | NotHooked
    | NotInitialized
    | ProtectionError

  /** Utils::GetErrorMessage. The switch covers every enumerator, so its
      "Unknown error" fallback is never reached. */
  function GetErrorMessage(error: Error): (r: string)
    ensures |r| >= 15
  {
    match error
    case AlreadyHooked => "Hook already exists"
    case FunctionNotFound => "Function not found on address table"
    case IndexOutOfBounds => "Index passed was bigger than table size"
    case InvalidAddress => "Invalid memory address"
    case InvalidDetour => "Invalid detour address"
    case InvalidModule => "Module is not loaded"
    case NotHooked => "Not currently hooked"
    case NotInitialized => "Not initialized"
    case ProtectionError => "Memory protection (VirtualProtect) failed"
  }

  /** Reads an error back from its message: the length, and where two messages have
      the same length, one distinguishing character, tell them apart. */
  function ErrorOfMessage(m: string): Option<Error>
  {
    if |m| == 19 then Some(AlreadyHooked)
    else if |m| == 35 then Some(FunctionNotFound)
    else if |m| == 39 then Some(IndexOutOfBounds)
    else if |m| == 22 then (if m[8] == 'm' then Some(InvalidAddress) else Some(InvalidDetour))
    else if |m| == 20 then (if m[0] == 'M' then Some(InvalidModule) else Some(NotHooked))
    else if |m| == 15 then Some(NotInitialized)
    else if |m| == 41 then Some(ProtectionError)
    else None
  }

  lemma ErrorOfMessageInverts(e: Error)
    ensures ErrorOfMessage(GetErrorMessage(e)) == Some(e)
  {
    match e
    case InvalidAddress => assert GetErrorMessage(e)[8] == 'm';
    case InvalidModule => assert GetErrorMessage(e)[0] == 'M';
    case _ =>
  }

  /** Different errors never share a message: the message identifies the error. */
  lemma ErrorMessagesDistinct(e1: Error, e2: Error)
    ensures GetErrorMessage(e1) == GetErrorMessage(e2) ==> e1 == e2
  {
    ErrorOfMessageInverts(e1);
    ErrorOfMessageInverts(e2);
  }

  // ---------------------------------------------------------------------------
  // Original and the hook chain
  // ---------------------------------------------------------------------------

  /** A pointer to the original code of a hooked function; the default one is null. */
  datatype Original = Original(ptr: Word)
  {
    predicate IsValid() { ptr != 0 }
  }

  /** Manager::nullMethod, what the chain answers for an unknown hook. */
  const NULL_METHOD: Original := Original(0)

  /** Manager: the process-wide map from a hook function to the original it replaced. */
  class Manager {
    var chain: map<Word, Original>

    constructor()
      ensures chain == map[]
    {
      chain := map[];
    }

    /** Manager::GetOriginal: a valid answer is always the registered original. */
    function GetOriginal(hook: Word): (r: Original)
      reads this
      ensures r.IsValid() ==> hook in chain && r == chain[hook]
      ensures hook !in chain ==> !r.IsValid()
    {
      if hook in chain then chain[hook] else NULL_METHOD
    }

    /** Manager::RegisterHook: insert_or_assign, so a second registration of the same
        hook replaces the first. */
    method RegisterHook(hook: Word, original: Word)
      modifies this
      ensures chain == old(chain)[hook := Original(original)]
      ensures GetOriginal(hook) == Original(original)
      ensures |chain| == |old(chain)| + (if hook in old(chain) then 0 else 1)
    {
      chain := chain[hook := Original(original)];
    }

    /** Manager::UnregisterHook: erase, reporting whether there was an entry. */
    method UnregisterHook(hook: Word) returns (removed: bool)
      modifies this
      ensures removed == (hook in old(chain))
      ensures chain == old(chain) - {hook}
      ensures !GetOriginal(hook).IsValid()
    {
      removed := hook in chain;
      chain := chain - {hook};
    }

    /** Manager::ClearAll. */
    method ClearAll()
      modifies this
      ensures chain == map[]
    {
      chain := map[];
    }

    /** Manager::GetHookCount. */
    function GetHookCount(): nat
      reads this
    {
      |chain|
    }

    /** Manager::IsHookRegistered. */
    predicate IsHookRegistered(hook: Word)
      reads this
    {
      hook in chain
    }
  }

  // ---------------------------------------------------------------------------
  // Regions and Utils::Patch
  // ---------------------------------------------------------------------------

  const PAGE_NOACCESS: bv32 := 0x01
  const PAGE_READWRITE: bv32 := 0x04
  const PAGE_WRITECOPY: bv32 := 0x08
  const PAGE_EXECUTE: bv32 := 0x10
  const PAGE_EXECUTE_READ: bv32 := 0x20
  const PAGE_EXECUTE_READWRITE: bv32 := 0x40
  const PAGE_GUARD: bv32 := 0x100
  const MEM_COMMIT: bv32 := 0x1000

  /** What VirtualQuery reports of a region: its State and its Protect. */
  datatype Region = Region(state: bv32, protect: bv32)

  type Regions = map<nat, Region>

  function PageOf(address: nat): nat
  {
    address / MemPrimitives.PAGE_SIZE
  }

  /** The test Patch makes before touching protection. */
  predicate Writable(protect: bv32)
  {
    protect & (PAGE_READWRITE | PAGE_EXECUTE_READWRITE | PAGE_WRITECOPY) != 0
  }

  /** std::expected<void, Error>. */
  datatype Expected = Success | Unexpected(error: Error)

  /** The pointer-sized words the table hookers read and write, and the regions. */
  datatype Memory = Memory(words: map<nat, Word>, regions: Regions)

  /** VirtualProtect's answers: the pages it will not make PAGE_EXECUTE_READWRITE,
      and the pages whose old protection it will not put back. */
  datatype Protector = Protector(refused: set<nat>, unrestorable: set<nat>)

  /** Whether Patch gets as far as storing the value: the address is not null, its
      region can be queried, and either it is writable or it can be made so. */
  predicate PatchWrites(regions: Regions, vp: Protector, address: nat)
  {
    address != 0 && PageOf(address) in regions &&
    (Writable(regions[PageOf(address)].protect) || PageOf(address) !in vp.refused)
  }

  /** What Patch returns. */
  function PatchStatus(regions: Regions, vp: Protector, address: nat): Expected
  {
    if address == 0 || PageOf(address) !in regions then Unexpected(InvalidAddress)
    else if Writable(regions[PageOf(address)].protect) then Success
    else if PageOf(address) in vp.refused || PageOf(address) in vp.unrestorable then Unexpected(ProtectionError)
    else Success
  }

  /** Utils::Patch on the abstract memory: the memory afterwards and the result. A
      region changes only when it was made writable and its old protection could not
      be put back; it is then left PAGE_EXECUTE_READWRITE. */
  function Patched(m: Memory, vp: Protector, address: nat, value: Word): (r: (Memory, Expected))
    // Only the slot itself can change, and only to the new value.
    ensures r.0.words == m.words || r.0.words == m.words[address := value]
    // Success: the value is stored and every protection is as it was.
    ensures r.1 == Success ==> r.0 == Memory(m.words[address := value], m.regions)
    // A null address or a failed query is an InvalidAddress, and nothing is touched.
    ensures r.1 == Unexpected(InvalidAddress) <==> address == 0 || PageOf(address) !in m.regions
    ensures r.1 == Unexpected(InvalidAddress) ==> r.0 == m
    // When the page cannot be made writable, ProtectionError and nothing is touched.
    ensures !PatchWrites(m.regions, vp, address) ==> r.0 == m && r.1.Unexpected?
    // A page that could be written stays one that can be written.
    ensures r.0.regions.Keys == m.regions.Keys
    ensures forall a :: PatchWrites(m.regions, vp, a) ==> PatchWrites(r.0.regions, vp, a)
  {
    var page := PageOf(address);
    var writes := PatchWrites(m.regions, vp, address);
    var regions :=
      if writes && !Writable(m.regions[page].protect) && page in vp.unrestorable
      then m.regions[page := m.regions[page].(protect := PAGE_EXECUTE_READWRITE)]
      else m.regions;
    (Memory(if writes then m.words[address := value] else m.words, regions),
     PatchStatus(m.regions, vp, address))
  }

  /** &ppAddress[index] for a table of pointers. */
  function SlotAddress(table: nat, index: nat): nat
  {
    table + 8 * index
  }

  /** The address space the table hookers write into. */
  class AddressSpace {
    var words: map<nat, Word>
    var regions: Regions
    const vp: Protector

    constructor(initial: Memory, vp0: Protector)
      ensures Snapshot() == initial && vp == vp0
    {
      words, regions := initial.words, initial.regions;
      vp := vp0;
    }

    function Snapshot(): Memory
      reads this
    {
      Memory(words, regions)
    }

    /** Utils::Patch: query the region, make it writable when it is not, store the
        value, and restore the old protection if it was changed. */
    method Patch(address: nat, value: Word) returns (r: Expected)
      modifies this
      ensures (Snapshot(), r) == Patched(old(Snapshot()), vp, address, value)
    {
      if address == 0 {
        return Unexpected(InvalidAddress);
      }
      var page := PageOf(address);
      if page !in regions {
        return Unexpected(InvalidAddress);
      }
      var before := regions[page];
      var changed := false;
      if !Writable(before.protect) {
        if page in vp.refused {
          return Unexpected(ProtectionError);
        }
        regions := regions[page := before.(protect := PAGE_EXECUTE_READWRITE)];
        changed := true;
      }
      words := words[address := value];
      if changed {
        if page in vp.unrestorable {
          return Unexpected(ProtectionError);
        }
        regions := regions[page := before];
      }
      assert regions == old(regions);
      return Success;
    }

    /** The indexed Utils::Patch: a null table is an InvalidAddress, anything else
        patches slot index of the table. */
    method PatchIndex(table: nat, index: nat, value: Word) returns (r: Expected)
      modifies this
      ensures (Snapshot(), r) ==
        if table == 0 then (old(Snapshot()), Unexpected(InvalidAddress))
        else Patched(old(Snapshot()), vp, SlotAddress(table, index), value)
    {
      if table == 0 {
        return Unexpected(InvalidAddress);
      }
      r := Patch(SlotAddress(table, index), value);
    }
  }

  // ---------------------------------------------------------------------------
  // Undoing every recorded slot (the UnhookAll loops)
  // ---------------------------------------------------------------------------

  /** A hooked table slot and the value it held before the first hook. */
  datatype SlotRecord = SlotRecord(slot: nat, original: Word)

  /** try_emplace: a record is added only for a key that has none. */
  function Emplace<K>(records: map<K, SlotRecord>, k: K, rec: SlotRecord): (r: map<K, SlotRecord>)
    ensures k in r && r[k] == (if k in records then records[k] else rec)
    ensures r.Keys == records.Keys + {k}
    ensures forall j :: j in records ==> r[j] == records[j]
  {
    if k in records then records else records[k := rec]
  }

  /** Every recorded slot is a word of the address space. */
  predicate SlotsIn<K>(records: map<K, SlotRecord>, words: map<nat, Word>)
  {
    forall k :: k in records ==> records[k].slot in words
  }

  /** No other record names the same slot. */
  predicate SoleSlot<K>(records: map<K, SlotRecord>, k: K)
    requires k in records
  {
    forall j :: j in records && j != k ==> records[j].slot != records[k].slot
  }

  predicate Unrecorded<K>(records: map<K, SlotRecord>, a: nat)
  {
    forall k :: k in records ==> records[k].slot != a
  }

  /** The outcome UnhookAll promises for the slot of a record: it holds the original
      again, or it could not be written and is as it was. */
  predicate RestoredSlot(words: map<nat, Word>, before: Memory, vp: Protector, rec: SlotRecord)
    requires rec.slot in words && rec.slot in before.words
  {
    words[rec.slot] == rec.original ||
    (!PatchWrites(before.regions, vp, rec.slot) && words[rec.slot] == before.words[rec.slot])
  }

  /** One visit of the UnhookAll loops, from memory m1 and chain c1 to m2 and c2: only
      the record's slot may change, it ends restored (or unwritable and as it was), and
      the hook found in it is unregistered when it was not the original. */
  ghost predicate Visited(rec: SlotRecord, base: Word, vp: Protector,
                          m1: Memory, c1: map<Word, Original>, m2: Memory, c2: map<Word, Original>)
  {
    && rec.slot in m1.words
    && m2.words.Keys == m1.words.Keys
    && (forall a :: a in m2.words && a != rec.slot ==> m2.words[a] == m1.words[a])
    && RestoredSlot(m2.words, m1, vp, rec)
    && (forall a :: PatchWrites(m1.regions, vp, a) ==> PatchWrites(m2.regions, vp, a))
    && c2 == if m1.words[rec.slot] == rec.original then c1 else c1 - {Wrap64(base + m1.words[rec.slot])}
  }

  /** One visit of the UnhookAll loops. */
  method RestoreRecord(space: AddressSpace, manager: Manager, rec: SlotRecord, base: Word)
    requires rec.slot in space.words
    modifies space, manager
    ensures Visited(rec, base, space.vp, old(space.Snapshot()), old(manager.chain), space.Snapshot(), manager.chain)
  {
    var current := space.words[rec.slot];
    if current != rec.original {
      var _ := manager.UnregisterHook(Wrap64(base + current));
      var _ := space.Patch(rec.slot, rec.original);
    }
  }

  /** What the UnhookAll loop has achieved, starting from m0 and chain0, once every record
      outside pending has been visited. */
  ghost predicate Progress<K>(records: map<K, SlotRecord>, pending: set<K>, base: Word, vp: Protector,
                              m0: Memory, chain0: map<Word, Original>, m: Memory, chain: map<Word, Original>)
  {
    && pending <= records.Keys
    && (forall k :: k in records ==> records[k].slot in m0.words)
    && m.words.Keys == m0.words.Keys
    && (forall a :: PatchWrites(m0.regions, vp, a) ==> PatchWrites(m.regions, vp, a))
    && (forall a :: a in m.words && Unrecorded(records, a) ==> m.words[a] == m0.words[a])
    && (forall k :: k in records && SoleSlot(records, k) && k in pending ==>
          m.words[records[k].slot] == m0.words[records[k].slot])
    && (forall k :: k in records && SoleSlot(records, k) && k !in pending ==>
          RestoredSlot(m.words, m0, vp, records[k]))
    && chain.Keys <= chain0.Keys
    && (forall h :: h in chain ==> chain[h] == chain0[h])
    && (forall k :: (k in records && SoleSlot(records, k) && k !in pending &&
          m0.words[records[k].slot] != records[k].original) ==>
          Wrap64(base + m0.words[records[k].slot]) !in chain)
  }

  lemma ProgressStep<K>(records: map<K, SlotRecord>, pending: set<K>, k: K, base: Word, vp: Protector,
                        m0: Memory, chain0: map<Word, Original>,
                        m1: Memory, c1: map<Word, Original>, m2: Memory, c2: map<Word, Original>)
    requires Progress(records, pending, base, vp, m0, chain0, m1, c1)
    requires k in pending && Visited(records[k], base, vp, m1, c1, m2, c2)
    ensures Progress(records, pending - {k}, base, vp, m0, chain0, m2, c2)
  {
    var rest := pending - {k};
    forall j | j in records && SoleSlot(records, j) && j in rest
      ensures m2.words[records[j].slot] == m0.words[records[j].slot]
    {
      assert records[j].slot != records[k].slot;
    }
    forall j | j in records && SoleSlot(records, j) && j !in rest
      ensures RestoredSlot(m2.words, m0, vp, records[j])
    {
      if j != k {
        assert records[j].slot != records[k].slot;
        assert m2.words[records[j].slot] == m1.words[records[j].slot];
      }
    }
    forall j | (j in records && SoleSlot(records, j) && j !in rest &&
      m0.words[records[j].slot] != records[j].original)
      ensures Wrap64(base + m0.words[records[j].slot]) !in c2
    {
    }
  }

  /** The loop shared by the UnhookAll of the IAT, EAT and VMT hookers: visit the records
      in the map's (unspecified) order; where a slot no longer holds its original value,
      unregister the hook found there (base + value for the EAT, where slots hold
      offsets) and patch the original back. The order within one visit does not
      matter, since the chain and the slots are disjoint. */
  method RestoreAll<K>(space: AddressSpace, manager: Manager, records: map<K, SlotRecord>, base: Word)
    requires forall k :: k in records ==> records[k].slot in space.words
    modifies space, manager
    ensures space.words.Keys == old(space.words).Keys
    ensures forall a :: a in space.words && Unrecorded(records, a) ==> space.words[a] == old(space.words)[a]
    ensures forall k :: k in records && SoleSlot(records, k) ==>
      RestoredSlot(space.words, old(space.Snapshot()), space.vp, records[k])
    ensures manager.chain.Keys <= old(manager.chain).Keys
    ensures forall h :: h in manager.chain ==> manager.chain[h] == old(manager.chain)[h]
    ensures forall k :: (k in records && SoleSlot(records, k) &&
      old(space.words)[records[k].slot] != records[k].original) ==>
      Wrap64(base + old(space.words)[records[k].slot]) !in manager.chain
  {
    ghost var m0, chain0 := space.Snapshot(), manager.chain;
    var pending := records.Keys;
    while pending != {}
      invariant Progress(records, pending, base, space.vp, m0, chain0, space.Snapshot(), manager.chain)
      decreases pending
    {
      var k :| k in pending;
      ghost var m1, c1 := space.Snapshot(), manager.chain;
      RestoreRecord(space, manager, records[k], base);
      ProgressStep(records, pending, k, base, space.vp, m0, chain0, m1, c1, space.Snapshot(), manager.chain);
      pending := pending - {k};
    }
  }
}
