/** include/SafetyHook/Wrapper.hpp: the registry that owns the SafetyHook hooks.

    HooksManager keeps two maps from a key to the vector of FunctionHook records made
    under it: `hooks`, keyed by the replacement function (inline, mid and virtual-method
    hooks), and `vmt_hooks`, keyed by the object whose table was hooked. A record is
    appended even when its hook failed; the failure only bumps the `fails` counter.

    SafetyHook itself is not part of this model: creating a hook (InlineHook::create,
    MidHook::create, VmtHook::create, VmtHook::hook_method) is an outcome the caller
    supplies, either the created hook as an opaque non-zero identifier or the error
    code of the failure. An empty hook (a default-constructed one) is identifier 0. */
module SafetyWrapper {
  import opened Machine

  /** Which of the four SafetyHook hook types a FunctionHook was made for. */
  datatype HookKind = Inline | Mid | Vmt | Vm

  /** The identifier of a default-constructed (empty) hook. */
  const EMPTY_HOOK: Word := 0

  /** A FunctionHook: the hook of its kind (empty when creation failed) and errorType,
      the error code of a failed creation and 0 otherwise. */
  datatype Record = Record(kind: HookKind, hook: Word, errorType: bv8)

  /** What a SafetyHook creation call gave back. */
  datatype Creation = Created(hook: Word) | Failed(code: bv8)

  /** The FunctionHook constructors: on success the result is moved into the record; on
      failure the record keeps an empty hook and the error's type. A failure whose code
      is 0 (BAD_ALLOCATION, the first enumerator of SafetyHook's error types) therefore
      leaves a record that reports no error. */
  function MakeRecord(kind: HookKind, creation: Creation): (r: Record)
    requires creation.Created? ==> creation.hook != EMPTY_HOOK
    ensures r.kind == kind
    ensures r.hook != EMPTY_HOOK <==> creation.Created?
    ensures r.errorType != 0 <==> creation.Failed? && creation.code != 0
    ensures creation.Failed? ==> r.errorType == creation.code
  {
    match creation
    case Created(h) => Record(kind, h, 0)
    case Failed(code) => Record(kind, EMPTY_HOOK, code)
  }

  /** FunctionHook::unhook: every hook member is reset to an empty one (the SafetyHook
      destructors undo the hook); the error stays. */
  function UnhookRecord(r: Record): (u: Record)
    ensures u.hook == EMPTY_HOOK && u.kind == r.kind && u.errorType == r.errorType
  {
    r.(hook := EMPTY_HOOK)
  }

  /** The getHookInline/getHookMid/getHookVmt/getHookVm accessor for kind: the record's
      own hook when it was made for that kind, an empty hook of the asked type when not. */
  function HookOf(r: Record, kind: HookKind): (h: Word)
    ensures h != EMPTY_HOOK ==> r.kind == kind && h == r.hook
    ensures r.kind == kind ==> h == r.hook
  {
    if r.kind == kind then r.hook else EMPTY_HOOK
  }

  /** ParseError: the seven known codes of SafetyHook's InlineHook error type, in their
      declaration order, have fixed messages; any other code gives null. */
  function ParseError(code: bv8): (r: Option<string>)
    ensures r.Some? <==> code < 7
    ensures r.Some? ==> |r.value| > 0
  {
    match code
    case 0 => Some("BAD ALLOCATION")
    case 1 => Some("FAILED TO DECODE INSTRUCTION")
    case 2 => Some("SHORT JUMP IN TRAMPOLINE")
    case 3 => Some("IP RELATIVE INSTRUCTION OUT OF RANGE")
    case 4 => Some("UNSUPPORTED INSTRUCTION IN TRAMPOLINE")
    case 5 => Some("FAILED TO UNPROTECT")
    case 6 => Some("NOT ENOUGH SPACE")
    case _ => None
  }

  /** Different known codes give different messages, so a message names its error (the
      seven messages even differ in length). */
  lemma ParseErrorDistinct(a: bv8, b: bv8)
    requires a < 7 && b < 7 && a != b
    ensures ParseError(a) != ParseError(b)
  {
    var lengths := [14, 28, 24, 36, 37, 19, 16];
    assert |ParseError(a).value| == lengths[a as int];
    assert |ParseError(b).value| == lengths[b as int];
  }

  // ---------------------------------------------------------------------------
  // The registry as a value, and what each operation does to it
  // ---------------------------------------------------------------------------

  /** fails, hooks and vmt_hooks. */
  datatype Registry = Registry(fails: int, hooks: map<Word, seq<Record>>, vmtHooks: map<Word, seq<Record>>)

  /** The vector under key, or the empty one that operator[] would create. */
  function Records(m: map<Word, seq<Record>>, key: Word): seq<Record>
  {
    if key in m then m[key] else []
  }

  /** m with record appended to key's vector (operator[] then emplace_back). */
  function Append(m: map<Word, seq<Record>>, key: Word, record: Record): (r: map<Word, seq<Record>>)
    ensures r.Keys == m.Keys + {key}
    ensures r[key] == Records(m, key) + [record]
    ensures forall k :: k in m && k != key ==> r[k] == m[k]
  {
    m[key := Records(m, key) + [record]]
  }

  /** Setup for an inline or mid hook of original by replacement: a null original, or a
      replacement already registered when duplicates are not allowed, counts a failure
      and records nothing; otherwise the new record goes to the back of the
      replacement's vector, and a record reporting an error counts a failure too. */
  function SetupStep(s: Registry, kind: HookKind, original: Word, replacement: Word, duplicated: bool,
                     creation: Creation): (r: Registry)
    requires kind == Inline || kind == Mid
    requires creation.Created? ==> creation.hook != EMPTY_HOOK
  {
    if original == 0 || (!duplicated && replacement in s.hooks) then s.(fails := s.fails + 1)
    else
      var record := MakeRecord(kind, creation);
      Registry(if record.errorType != 0 then s.fails + 1 else s.fails,
               Append(s.hooks, replacement, record), s.vmtHooks)
  }

  /** SetupVmt for target: a null target counts a failure and answers the shared empty
      hook; otherwise the record is appended under target and its hook is the answer,
      unless it reports an error, which counts a failure and answers the empty hook. */
  function SetupVmtStep(s: Registry, target: Word, creation: Creation): (r: (Registry, Word))
    requires creation.Created? ==> creation.hook != EMPTY_HOOK
  {
    if target == 0 then (s.(fails := s.fails + 1), EMPTY_HOOK)
    else
      var record := MakeRecord(Vmt, creation);
      var vmtHooks := Append(s.vmtHooks, target, record);
      if record.errorType != 0 then (Registry(s.fails + 1, s.hooks, vmtHooks), EMPTY_HOOK)
      else (Registry(s.fails, s.hooks, vmtHooks), record.hook)
  }

  /** SetupVm: the method hook's record goes to the back of hookFn's vector, with no
      null or duplicate check; an erroring record counts a failure. */
  function SetupVmStep(s: Registry, hookFn: Word, creation: Creation): (r: Registry)
    requires creation.Created? ==> creation.hook != EMPTY_HOOK
  {
    var record := MakeRecord(Vm, creation);
    Registry(if record.errorType != 0 then s.fails + 1 else s.fails, Append(s.hooks, hookFn, record), s.vmtHooks)
  }

  /** GetHookCount: the distinct keys of both maps, not the records. */
  function HookCount(s: Registry): nat
  {
    |s.hooks.Keys| + |s.vmtHooks.Keys|
  }

  /** Unhook(key): erased from hooks when there, otherwise from vmt_hooks when there,
      otherwise nothing happens. */
  function UnhookStep(s: Registry, key: Word): (r: Registry)
  {
    if key in s.hooks then s.(hooks := s.hooks - {key})
    else if key in s.vmtHooks then s.(vmtHooks := s.vmtHooks - {key})
    else s
  }

  /** A refused Setup counts one failure and records nothing. */
  lemma SetupRefused(s: Registry, kind: HookKind, original: Word, replacement: Word, duplicated: bool,
                     creation: Creation)
    requires kind == Inline || kind == Mid
    requires creation.Created? ==> creation.hook != EMPTY_HOOK
    requires original == 0 || (!duplicated && replacement in s.hooks)
    ensures SetupStep(s, kind, original, replacement, duplicated, creation) == s.(fails := s.fails + 1)
  {
  }

  /** An accepted Setup appends exactly one record, keeps it whether or not its hook was
      created, counts a failure exactly when it reports an error, and from then on
      GetOriginal of the replacement answers that record's hook: the latest record wins. */
  lemma SetupAppends(s: Registry, kind: HookKind, original: Word, replacement: Word, duplicated: bool,
                     creation: Creation)
    requires kind == Inline || kind == Mid
    requires creation.Created? ==> creation.hook != EMPTY_HOOK
    requires original != 0 && (duplicated || replacement !in s.hooks)
    ensures var r := SetupStep(s, kind, original, replacement, duplicated, creation);
      && replacement in r.hooks
      && r.hooks[replacement] == Records(s.hooks, replacement) + [MakeRecord(kind, creation)]
      && r.hooks - {replacement} == s.hooks - {replacement}
      && r.vmtHooks == s.vmtHooks
      && r.fails == s.fails + (if creation.Failed? && creation.code != 0 then 1 else 0)
      && GetOriginalOf(r, replacement, kind) == (if creation.Created? then creation.hook else EMPTY_HOOK)
  {
    var r := SetupStep(s, kind, original, replacement, duplicated, creation);
    assert r.hooks - {replacement} == s.hooks - {replacement};
  }

  /** A creation that fails with code 0 (BAD_ALLOCATION) goes uncounted: the record it
      leaves reports no error, so fails stays as it was although no hook was made. */
  lemma BadAllocationUncounted(s: Registry, kind: HookKind, original: Word, replacement: Word)
    requires kind == Inline || kind == Mid
    requires original != 0 && replacement !in s.hooks
    ensures var r := SetupStep(s, kind, original, replacement, false, Failed(0));
      && r.fails == s.fails
      && GetOriginalOf(r, replacement, kind) == EMPTY_HOOK
  {
    SetupAppends(s, kind, original, replacement, false, Failed(0));
  }

  /** GetOriginal(key) for a hook type: the back record's hook of that type. */
  function GetOriginalOf(s: Registry, key: Word, kind: HookKind): (h: Word)
    requires key in s.hooks && |s.hooks[key]| > 0
    ensures h != EMPTY_HOOK ==> exists i :: 0 <= i < |s.hooks[key]| && s.hooks[key][i].hook == h
  {
    HookOf(s.hooks[key][|s.hooks[key]| - 1], kind)
  }

  /** SetupVmt answers the created hook exactly when there is a target and the record
      reports no error; the record is kept under the target even when it errs. */
  lemma SetupVmtAnswers(s: Registry, target: Word, creation: Creation)
    requires creation.Created? ==> creation.hook != EMPTY_HOOK
    ensures var (r, h) := SetupVmtStep(s, target, creation);
      && r.hooks == s.hooks
      && (h != EMPTY_HOOK <==> target != 0 && creation.Created?)
      && (h != EMPTY_HOOK ==> h == creation.hook)
      && (target != 0 ==> target in r.vmtHooks && r.vmtHooks[target] == Records(s.vmtHooks, target) + [MakeRecord(Vmt, creation)])
      && (target == 0 ==> r == s.(fails := s.fails + 1))
      && r.fails == s.fails + (if target == 0 || (creation.Failed? && creation.code != 0) then 1 else 0)
  {
  }

  /** Each Setup adds at most one key, and adds one exactly when its key was new. */
  lemma SetupCount(s: Registry, kind: HookKind, original: Word, replacement: Word, duplicated: bool,
                   creation: Creation)
    requires kind == Inline || kind == Mid
    requires creation.Created? ==> creation.hook != EMPTY_HOOK
    ensures var r := SetupStep(s, kind, original, replacement, duplicated, creation);
      HookCount(r) == HookCount(s) + (if original != 0 && replacement !in s.hooks then 1 else 0)
  {
    if original != 0 && (duplicated || replacement !in s.hooks) {
      var r := SetupStep(s, kind, original, replacement, duplicated, creation);
      if replacement in s.hooks {
        assert r.hooks.Keys == s.hooks.Keys;
      } else {
        assert r.hooks.Keys == s.hooks.Keys + {replacement};
      }
    }
  }

  /** Unhook of a registered key takes away exactly one key (the one in hooks when it is
      in both maps), and of an unknown key nothing. */
  lemma UnhookCount(s: Registry, key: Word)
    ensures var r := UnhookStep(s, key);
      && r.fails == s.fails
      && key !in r.hooks
      && (key in s.hooks ==> r.vmtHooks == s.vmtHooks)
      && HookCount(r) == HookCount(s) - (if key in s.hooks || key in s.vmtHooks then 1 else 0)
  {
    var r := UnhookStep(s, key);
    if key in s.hooks {
      assert r.hooks.Keys == s.hooks.Keys - {key};
    } else if key in s.vmtHooks {
      assert r.vmtHooks.Keys == s.vmtHooks.Keys - {key};
    }
  }

  /** Setup of a new replacement followed by Unhook of it gives back both maps; only the
      failure count can differ. */
  lemma SetupThenUnhook(s: Registry, kind: HookKind, original: Word, replacement: Word, duplicated: bool,
                        creation: Creation)
    requires kind == Inline || kind == Mid
    requires creation.Created? ==> creation.hook != EMPTY_HOOK
    requires original != 0 && replacement !in s.hooks
    ensures var r := UnhookStep(SetupStep(s, kind, original, replacement, duplicated, creation), replacement);
      r.hooks == s.hooks && r.vmtHooks == s.vmtHooks
  {
    var r := SetupStep(s, kind, original, replacement, duplicated, creation);
    assert r.hooks - {replacement} == s.hooks;
  }

  // ---------------------------------------------------------------------------
  // The HooksManager namespace
  // ---------------------------------------------------------------------------

  /** The namespace's globals as one object. */
  class HooksManager {
    var fails: int
    var hooks: map<Word, seq<Record>>
    var vmtHooks: map<Word, seq<Record>>

    function State(): Registry
      reads this
    {
      Registry(fails, hooks, vmtHooks)
    }

    constructor()
      ensures fails == 0 && hooks == map[] && vmtHooks == map[]
    {
      fails, hooks, vmtHooks := 0, map[], map[];
    }

    /** Setup<InlineHook> / Setup<MidHook>. */
    method Setup(kind: HookKind, original: Word, replacement: Word, duplicated: bool, creation: Creation)
      requires kind == Inline || kind == Mid
      requires creation.Created? ==> creation.hook != EMPTY_HOOK
      modifies this
      ensures State() == SetupStep(old(State()), kind, original, replacement, duplicated, creation)
    {
      if original == 0 {
        fails := fails + 1;
        return;
      }
      if !duplicated && replacement in hooks {
        fails := fails + 1;
        return;
      }
      hooks := Append(hooks, replacement, MakeRecord(kind, creation));
      if hooks[replacement][|hooks[replacement]| - 1].errorType != 0 {
        fails := fails + 1;
      }
    }

    /** SetupVmt. */
    method SetupVmt(target: Word, creation: Creation) returns (hook: Word)
      requires creation.Created? ==> creation.hook != EMPTY_HOOK
      modifies this
      ensures (State(), hook) == SetupVmtStep(old(State()), target, creation)
    {
      if target == 0 {
        fails := fails + 1;
        return EMPTY_HOOK;
      }
      vmtHooks := Append(vmtHooks, target, MakeRecord(Vmt, creation));
      var back := vmtHooks[target][|vmtHooks[target]| - 1];
      if back.errorType != 0 {
        fails := fails + 1;
        return EMPTY_HOOK;
      }
      return HookOf(back, Vmt);
    }

    /** SetupVm. */
    method SetupVm(hookFn: Word, creation: Creation)
      requires creation.Created? ==> creation.hook != EMPTY_HOOK
      modifies this
      ensures State() == SetupVmStep(old(State()), hookFn, creation)
    {
      hooks := Append(hooks, hookFn, MakeRecord(Vm, creation));
      if hooks[hookFn][|hooks[hookFn]| - 1].errorType != 0 {
        fails := fails + 1;
      }
    }

    /** GetOriginal<HookType>(replacement), and the untyped GetOriginal for inline hooks:
        back() of an empty or missing vector is undefined, so the key must hold a record. */
    method GetOriginal(replacement: Word, kind: HookKind) returns (hook: Word)
      requires replacement in hooks && |hooks[replacement]| > 0
      ensures hook == GetOriginalOf(State(), replacement, kind)
    {
      hook := HookOf(hooks[replacement][|hooks[replacement]| - 1], kind);
    }

    /** GetVmtHook(target): the VMT hook of the back record under target. */
    method GetVmtHook(target: Word) returns (hook: Word)
      requires target in vmtHooks && |vmtHooks[target]| > 0
      ensures hook != EMPTY_HOOK ==> exists i :: 0 <= i < |vmtHooks[target]| && vmtHooks[target][i].hook == hook
      ensures vmtHooks[target][|vmtHooks[target]| - 1].kind == Vmt ==> hook == vmtHooks[target][|vmtHooks[target]| - 1].hook
    {
      hook := HookOf(vmtHooks[target][|vmtHooks[target]| - 1], Vmt);
    }

    /** GetFailCount. */
    method GetFailCount() returns (n: int)
      ensures n == fails
    {
      return fails;
    }

    /** GetHookCount. */
    method GetHookCount() returns (n: nat)
      ensures n == HookCount(State())
    {
      return |hooks.Keys| + |vmtHooks.Keys|;
    }

    /** UnhookAll: both maps are emptied (destroying every record); fails stays. */
    method UnhookAll()
      modifies this
      ensures hooks == map[] && vmtHooks == map[] && fails == old(fails)
      ensures HookCount(State()) == 0
    {
      hooks, vmtHooks := map[], map[];
    }

    /** Unhook(key). */
    method Unhook(key: Word)
      modifies this
      ensures State() == UnhookStep(old(State()), key)
    {
      if key in hooks {
        hooks := hooks - {key};
      } else if key in vmtHooks {
        vmtHooks := vmtHooks - {key};
      }
    }
  }
}
