/** src/misc/keybinds.h: key bindings that drive boolean switches of the menu.

    A binding names a bool somewhere in the program (a pointer, 0 for null), a key, a
    set of modifier flags and whether the key toggles the bool or is held for it. The
    bools themselves are a map from their addresses to their values. ImGui's key state
    and key names, and the Windows key-name lookup, are inputs: the name ImGui gives a
    key, the text GetKeyNameTextW gives a punctuation key (one byte per character after
    the UTF-8 conversion; empty when the call fails), and which keys were pressed this
    frame and which are down. Key codes are those of Dear ImGui 1.91's ImGuiKey
    enumeration; imgui.h itself is not part of this model. */
module Keybinds {
  import opened Machine

  // ---------------------------------------------------------------------------
  // Keys and modifiers
  // ---------------------------------------------------------------------------

  const KEY_INSERT: int := 521
  const KEY_LEFT_CTRL: int := 527
  const KEY_LEFT_SHIFT: int := 528
  const KEY_LEFT_ALT: int := 529
  const KEY_LEFT_SUPER: int := 530
  const KEY_RIGHT_CTRL: int := 531
  const KEY_RIGHT_SHIFT: int := 532
  const KEY_RIGHT_ALT: int := 533
  const KEY_RIGHT_SUPER: int := 534
  const KEY_APOSTROPHE: int := 596
  const KEY_SLASH: int := 600
  const KEY_SEMICOLON: int := 601
  const KEY_LEFT_BRACKET: int := 603
  const KEY_BACKSLASH: int := 604
  const KEY_RIGHT_BRACKET: int := 605
  const KEY_GRAVE_ACCENT: int := 606

  /** A key code, held in a std::uint16_t. */
  newtype Key = k: int | 0 <= k < 0x1_0000

  /** ImGuiMod_Ctrl, ImGuiMod_Shift, ImGuiMod_Alt, ImGuiMod_Super: bits 12 to 15. */
  const MOD_CTRL: bv16 := 0x1000
  const MOD_SHIFT: bv16 := 0x2000
  const MOD_ALT: bv16 := 0x4000
  const MOD_SUPER: bv16 := 0x8000

  /** Modifiers::keys: the modifier a modifier key itself stands for, 0 for the rest. */
  function OwnModifier(key: int): (r: bv16)
    ensures r == 0 || r == MOD_CTRL || r == MOD_SHIFT || r == MOD_ALT || r == MOD_SUPER
    ensures r != 0 <==> KEY_LEFT_CTRL <= key <= KEY_RIGHT_SUPER
  {
    if key == KEY_LEFT_CTRL || key == KEY_RIGHT_CTRL then MOD_CTRL
    else if key == KEY_LEFT_SHIFT || key == KEY_RIGHT_SHIFT then MOD_SHIFT
    else if key == KEY_LEFT_ALT || key == KEY_RIGHT_ALT then MOD_ALT
    else if key == KEY_LEFT_SUPER || key == KEY_RIGHT_SUPER then MOD_SUPER
    else 0
  }

  /** Modifiers::keys as declared: its values are std::uint8_t, so each ImGuiMod flag
      (bits 12 to 15) is stored as its low byte. */
  function StoredModifier(key: int): (r: bv8)
    ensures r == 0
  {
    ((OwnModifier(key) as int) % 256) as bv8
  }

  /** The modifier test of KeyBind::Check as written: with the stored byte widened back
      to 16 bits as the own modifier. */
  predicate ModifiersMatchAsWritten(kb: KeyBind, currentModifiers: bv16)
  {
    kb.modifiers | (StoredModifier(kb.key as int) as bv16) == currentModifiers
  }

  /** As written, the own modifier drops out: the held modifiers must equal the
      binding's own modifiers, whatever the key. */
  lemma ModifiersMatchAsWrittenIgnoresKey(kb: KeyBind, currentModifiers: bv16)
    ensures ModifiersMatchAsWritten(kb, currentModifiers) <==> kb.modifiers == currentModifiers
  {
    assert StoredModifier(kb.key as int) as bv16 == 0;
    assert kb.modifiers | 0 == kb.modifiers;
  }

  /** The intended test: a binding on a modifier key matches only when the flag that key
      stands for is held, which ImGui reports whenever that key is down; and it matches
      the binding's own modifiers plus that flag. */
  lemma ModifierKeyMatchesWithOwnFlag(kb: KeyBind, currentModifiers: bv16)
    requires KEY_LEFT_CTRL <= kb.key as int <= KEY_RIGHT_SUPER
    ensures OwnModifier(kb.key as int) != 0
    ensures ModifiersMatch(kb, kb.modifiers | OwnModifier(kb.key as int))
    ensures ModifiersMatch(kb, currentModifiers) ==> currentModifiers & OwnModifier(kb.key as int) != 0
  {
    var own := OwnModifier(kb.key as int);
    if ModifiersMatch(kb, currentModifiers) {
      OrKeepsFlag(kb.modifiers, own);
    }
  }

  /** A flag or-ed into a value is still set in the result. */
  lemma OrKeepsFlag(x: bv16, flag: bv16)
    requires flag == MOD_CTRL || flag == MOD_SHIFT || flag == MOD_ALT || flag == MOD_SUPER
    ensures (x | flag) & flag == flag
  {
  }

  /** The punctuation keys whose names come from the keyboard layout (the keyNames
      table: the VK_OEM_1 to VK_OEM_7 keys). */
  predicate IsOemKey(key: int)
  {
    key in {KEY_SEMICOLON, KEY_SLASH, KEY_GRAVE_ACCENT, KEY_LEFT_BRACKET, KEY_BACKSLASH, KEY_RIGHT_BRACKET, KEY_APOSTROPHE}
  }

  /** What the name lookups answer: ImGui::GetKeyName, and the layout's name of a
      punctuation key. */
  datatype KeyNames = KeyNames(imgui: int -> string, layout: int -> string)

  /** The name GetKeyName starts from: none for key 0; for a punctuation key the
      layout's text, which the resize to size + 1 leaves followed by the converted
      terminator; otherwise ImGui's name. */
  function BaseName(key: int, names: KeyNames): (r: string)
    ensures key == 0 ==> r == ""
    ensures key != 0 && IsOemKey(key) ==> r == (if names.layout(key) == "" then "" else names.layout(key) + ['\0'])
    ensures key != 0 && !IsOemKey(key) ==> r == names.imgui(key)
  {
    if key == 0 then ""
    else if IsOemKey(key) then
      var text := names.layout(key);
      if |text| > 0 then text + ['\0'] else ""
    else names.imgui(key)
  }

  /** prefix put in front of name when the modifier is held. */
  function PrefixIf(held: bool, prefix: string, name: string): string
  {
    if held then prefix + name else name
  }

  /** GetKeyName: "None" when there is no base name; otherwise the base name with
      "Alt+", "Shift+", "Ctrl+" and "Win+" put in front, in that order, for the
      modifiers present. */
  function GetKeyName(key: int, modifiers: bv16, names: KeyNames): string
  {
    var result := BaseName(key, names);
    if result == "" then "None"
    else
      var a := PrefixIf(modifiers & MOD_ALT != 0, "Alt+", result);
      var s := PrefixIf(modifiers & MOD_SHIFT != 0, "Shift+", a);
      var c := PrefixIf(modifiers & MOD_CTRL != 0, "Ctrl+", s);
      PrefixIf(modifiers & MOD_SUPER != 0, "Win+", c)
  }

  /** The prefix the modifiers give a name: Win+Ctrl+Shift+Alt+, keeping those present. */
  function ModifierPrefix(modifiers: bv16): string
  {
    (if modifiers & MOD_SUPER != 0 then "Win+" else "")
    + (if modifiers & MOD_CTRL != 0 then "Ctrl+" else "")
    + (if modifiers & MOD_SHIFT != 0 then "Shift+" else "")
    + (if modifiers & MOD_ALT != 0 then "Alt+" else "")
  }

  /** A key without a base name (key 0, or a name lookup that gave nothing) is "None"
      whatever the modifiers; any other is the modifier prefix in the fixed order
      Win, Ctrl, Shift, Alt, followed by the base name. */
  lemma KeyNameShape(key: int, modifiers: bv16, names: KeyNames)
    ensures BaseName(key, names) == "" ==> GetKeyName(key, modifiers, names) == "None"
    ensures BaseName(key, names) != "" ==>
      GetKeyName(key, modifiers, names) == ModifierPrefix(modifiers) + BaseName(key, names)
  {
    var base := BaseName(key, names);
    if base != "" {
      var super, ctrl, shift, alt := modifiers & MOD_SUPER != 0, modifiers & MOD_CTRL != 0,
                                     modifiers & MOD_SHIFT != 0, modifiers & MOD_ALT != 0;
      var w := if super then "Win+" else "";
      var c := if ctrl then "Ctrl+" else "";
      var s := if shift then "Shift+" else "";
      var a := if alt then "Alt+" else "";
      assert ModifierPrefix(modifiers) == w + c + s + a;
      assert GetKeyName(key, modifiers, names)
          == PrefixIf(super, "Win+", PrefixIf(ctrl, "Ctrl+", PrefixIf(shift, "Shift+", PrefixIf(alt, "Alt+", base))));
      PrefixIfIs(alt, "Alt+", base);
      PrefixIfIs(shift, "Shift+", a + base);
      PrefixIfIs(ctrl, "Ctrl+", s + (a + base));
      PrefixIfIs(super, "Win+", c + (s + (a + base)));
      Regroup(w, c, s, a, base);
    }
  }

  lemma PrefixIfIs(held: bool, prefix: string, name: string)
    ensures PrefixIf(held, prefix, name) == (if held then prefix else "") + name
  {
    if !held {
      assert "" + name == name;
    }
  }

  lemma Regroup(w: string, c: string, s: string, a: string, base: string)
    ensures w + (c + (s + (a + base))) == w + c + s + a + base
  {
  }

  // ---------------------------------------------------------------------------
  // KeyBind
  // ---------------------------------------------------------------------------

  datatype BindType = TOGGLE | HOLD

  /** KeyBind: name, function (the bool's address), key, type, modifiers, keyName and
      isWaiting. */
  datatype KeyBind = KeyBind(name: string, pFunction: nat, key: Key, bindType: BindType, modifiers: bv16,
                             keyName: string, isWaiting: bool)

  /** The KeyBind constructor: the key name is computed, and it is not waiting. */
  function NewKeyBind(name: string, pFunction: nat, key: Key, bindType: BindType, modifiers: bv16,
                      names: KeyNames): (kb: KeyBind)
    ensures kb.keyName == GetKeyName(key as int, modifiers, names) && !kb.isWaiting
    ensures kb.name == name && kb.pFunction == pFunction && kb.key == key
    ensures kb.bindType == bindType && kb.modifiers == modifiers
  {
    KeyBind(name, pFunction, key, bindType, modifiers, GetKeyName(key as int, modifiers, names), false)
  }

  /** ChangeType: TOGGLE and HOLD trade places; nothing else changes. */
  function ChangeType(kb: KeyBind): (r: KeyBind)
    ensures r.bindType != kb.bindType
    ensures r == kb.(bindType := r.bindType)
  {
    kb.(bindType := if kb.bindType == TOGGLE then HOLD else TOGGLE)
  }

  /** Changing the type twice gives back the binding. */
  lemma ChangeTypeTwice(kb: KeyBind)
    ensures ChangeType(ChangeType(kb)) == kb
  {
    assert ChangeType(kb).bindType != kb.bindType;
  }

  /** Update: the new key and modifiers, their name, and no longer waiting. */
  function Update(kb: KeyBind, pressedKey: Key, currentModifiers: bv16, names: KeyNames): (r: KeyBind)
    ensures r.key == pressedKey && r.modifiers == currentModifiers && !r.isWaiting
    ensures r.keyName == GetKeyName(pressedKey as int, currentModifiers, names)
    ensures r.name == kb.name && r.pFunction == kb.pFunction && r.bindType == kb.bindType
  {
    kb.(key := pressedKey, modifiers := currentModifiers, keyName := GetKeyName(pressedKey as int, currentModifiers, names),
        isWaiting := false)
  }

  /** Clearing a binding (Update with key 0 and no modifiers) names it "None". */
  lemma ClearedIsNone(kb: KeyBind, names: KeyNames)
    ensures Update(kb, 0, 0, names).keyName == "None"
  {
    KeyNameShape(0, 0, names);
  }

  /** ImGui's key state this frame: the keys pressed (the down edge, without repeat) and
      the keys held down. */
  datatype KeyState = KeyState(pressed: int -> bool, down: int -> bool)

  /** Whether the binding's modifiers, with the one its own key stands for, are exactly
      the modifiers held. */
  predicate ModifiersMatch(kb: KeyBind, currentModifiers: bv16)
  {
    kb.modifiers | OwnModifier(kb.key as int) == currentModifiers
  }

  /** KeyBind::Check on the bools: nothing for a null function or other modifiers; a
      toggle flips the bool on the frame its key is pressed, a hold sets it to whether
      its key is down. No other bool changes. */
  function Check(kb: KeyBind, currentModifiers: bv16, keys: KeyState, flags: map<nat, bool>): (r: map<nat, bool>)
    requires kb.pFunction != 0 ==> kb.pFunction in flags
    ensures r.Keys == flags.Keys
    ensures forall f :: f in flags && f != kb.pFunction ==> r[f] == flags[f]
    ensures kb.pFunction == 0 || !ModifiersMatch(kb, currentModifiers) ==> r == flags
    ensures kb.pFunction != 0 && ModifiersMatch(kb, currentModifiers) ==>
      r[kb.pFunction] == (if kb.bindType == HOLD then keys.down(kb.key as int)
                          else flags[kb.pFunction] != keys.pressed(kb.key as int))
  {
    if kb.pFunction == 0 || !ModifiersMatch(kb, currentModifiers) then flags
    else match kb.bindType
      case TOGGLE =>
        if keys.pressed(kb.key as int) then flags[kb.pFunction := !flags[kb.pFunction]] else flags
      case HOLD => flags[kb.pFunction := keys.down(kb.key as int)]
  }

  /** A toggle bound to Left Ctrl with no further modifiers, on the frame Left Ctrl is
      pressed (so ImGui reports Ctrl held): as written the modifier test fails and the
      bool stays; with the own modifier kept at 16 bits the bool flips. */
  lemma CtrlToggleAsWritten(kb: KeyBind, keys: KeyState, flags: map<nat, bool>)
    requires kb.key as int == KEY_LEFT_CTRL && kb.modifiers == 0 && kb.bindType == TOGGLE
    requires kb.pFunction != 0 && kb.pFunction in flags && keys.pressed(KEY_LEFT_CTRL)
    ensures !ModifiersMatchAsWritten(kb, MOD_CTRL)
    ensures Check(kb, MOD_CTRL, keys, flags)[kb.pFunction] == !flags[kb.pFunction]
  {
    ModifiersMatchAsWrittenIgnoresKey(kb, MOD_CTRL);
  }

  /** Every binding in the list, in order, checked against the same frame. */
  function CheckAll(list: seq<KeyBind>, currentModifiers: bv16, keys: KeyState, flags: map<nat, bool>): (r: map<nat, bool>)
    requires forall i :: 0 <= i < |list| && list[i].pFunction != 0 ==> list[i].pFunction in flags
    ensures r.Keys == flags.Keys
    decreases |list|
  {
    if list == [] then flags
    else
      var next := Check(list[0], currentModifiers, keys, flags);
      CheckAll(list[1..], currentModifiers, keys, next)
  }

  /** A bool no binding points at keeps its value through CheckKeybinds. */
  lemma {:induction false} CheckAllLeavesOthers(list: seq<KeyBind>, currentModifiers: bv16, keys: KeyState,
                                                flags: map<nat, bool>, f: nat)
    requires forall i :: 0 <= i < |list| && list[i].pFunction != 0 ==> list[i].pFunction in flags
    requires f in flags && forall i :: 0 <= i < |list| ==> list[i].pFunction != f
    ensures CheckAll(list, currentModifiers, keys, flags)[f] == flags[f]
    decreases |list|
  {
    if list != [] {
      var next := Check(list[0], currentModifiers, keys, flags);
      CheckAllLeavesOthers(list[1..], currentModifiers, keys, next, f);
    }
  }

  /** A bool that exactly one binding points at ends as that binding's Check alone
      leaves it. */
  lemma {:induction false} CheckAllSole(list: seq<KeyBind>, currentModifiers: bv16, keys: KeyState,
                                        flags: map<nat, bool>, k: nat)
    requires forall i :: 0 <= i < |list| && list[i].pFunction != 0 ==> list[i].pFunction in flags
    requires k < |list| && list[k].pFunction != 0
    requires forall i :: 0 <= i < |list| && i != k ==> list[i].pFunction != list[k].pFunction
    ensures CheckAll(list, currentModifiers, keys, flags)[list[k].pFunction]
         == Check(list[k], currentModifiers, keys, flags)[list[k].pFunction]
    decreases |list|
  {
    var f := list[k].pFunction;
    var next := Check(list[0], currentModifiers, keys, flags);
    if k == 0 {
      CheckAllLeavesOthers(list[1..], currentModifiers, keys, next, f);
    } else {
      assert list[1..][k - 1] == list[k];
      CheckAllSole(list[1..], currentModifiers, keys, next, k - 1);
      CheckReadsOwn(list[k], currentModifiers, keys, next, flags);
    }
  }

  /** Check's effect on its own bool depends only on that bool's value before. */
  lemma CheckReadsOwn(kb: KeyBind, currentModifiers: bv16, keys: KeyState, m1: map<nat, bool>, m2: map<nat, bool>)
    requires kb.pFunction != 0 && kb.pFunction in m1 && kb.pFunction in m2 && m1[kb.pFunction] == m2[kb.pFunction]
    ensures Check(kb, currentModifiers, keys, m1)[kb.pFunction] == Check(kb, currentModifiers, keys, m2)[kb.pFunction]
  {
  }

  /** The bools the bindings point at. */
  class Flags {
    var values: map<nat, bool>

    constructor(values0: map<nat, bool>)
      ensures values == values0
    {
      values := values0;
    }
  }

  /** kbList. Every non-null function a binding holds is a bool of the program. */
  class KeyBindList {
    var kbList: seq<KeyBind>

    /** The list the source starts with: open_menu on Insert, for the menu's bOpen. */
    constructor(menuOpen: nat, names: KeyNames)
      ensures kbList == [NewKeyBind("open_menu", menuOpen, KEY_INSERT as Key, TOGGLE, 0, names)]
    {
      kbList := [NewKeyBind("open_menu", menuOpen, KEY_INSERT as Key, TOGGLE, 0, names)];
    }

    predicate Points(flags: Flags)
      reads this, flags
    {
      forall i :: 0 <= i < |kbList| && kbList[i].pFunction != 0 ==> kbList[i].pFunction in flags.values
    }

    /** GetKeyBind: the first binding whose function is the given pointer, or null. */
    method GetKeyBind(pFunction: nat) returns (r: Option<nat>)
      ensures r.Some? ==> r.value < |kbList| && kbList[r.value].pFunction == pFunction
      ensures r.Some? ==> forall j :: 0 <= j < r.value ==> kbList[j].pFunction != pFunction
      ensures r.None? <==> forall j :: 0 <= j < |kbList| ==> kbList[j].pFunction != pFunction
    {
      for i := 0 to |kbList|
        invariant forall j :: 0 <= j < i ==> kbList[j].pFunction != pFunction
      {
        if kbList[i].pFunction == pFunction {
          return Some(i);
        }
      }
      return None;
    }

    /** ChangeType on the binding at index. */
    method ChangeTypeAt(index: nat)
      requires index < |kbList|
      modifies this
      ensures kbList == old(kbList)[index := ChangeType(old(kbList)[index])]
    {
      kbList := kbList[index := ChangeType(kbList[index])];
    }

    /** Update on the binding at index. */
    method UpdateAt(index: nat, pressedKey: Key, currentModifiers: bv16, names: KeyNames)
      requires index < |kbList|
      modifies this
      ensures kbList == old(kbList)[index := Update(old(kbList)[index], pressedKey, currentModifiers, names)]
    {
      kbList := kbList[index := Update(kbList[index], pressedKey, currentModifiers, names)];
    }

    /** KeyBind::Check for the binding at index: writes through its function. */
    method CheckAt(index: nat, currentModifiers: bv16, keys: KeyState, flags: Flags)
      requires index < |kbList|
      requires kbList[index].pFunction != 0 ==> kbList[index].pFunction in flags.values
      modifies flags
      ensures flags.values == Check(kbList[index], currentModifiers, keys, old(flags.values))
    {
      var kb := kbList[index];
      var values := flags.values;
      if kb.pFunction != 0 && ModifiersMatch(kb, currentModifiers) {
        var down := keys.down(kb.key as int);
        var pressed := keys.pressed(kb.key as int);
        if kb.bindType == HOLD {
          values := values[kb.pFunction := down];
        } else if pressed {
          values := values[kb.pFunction := !values[kb.pFunction]];
        }
      }
      assert values == Check(kb, currentModifiers, keys, flags.values);
      flags.values := values;
    }

    /** CheckKeybinds: every binding in turn checks the same modifiers and key state. */
    method CheckKeybinds(currentModifiers: bv16, keys: KeyState, flags: Flags)
      requires Points(flags)
      modifies flags
      ensures flags.values == CheckAll(kbList, currentModifiers, keys, old(flags.values))
    {
      ghost var start := flags.values;
      for i := 0 to |kbList|
        invariant flags.values.Keys == start.Keys
        invariant CheckAll(kbList[i..], currentModifiers, keys, flags.values) == CheckAll(kbList, currentModifiers, keys, start)
      {
        assert kbList[i..][1..] == kbList[i + 1..];
        CheckAt(i, currentModifiers, keys, flags);
      }
    }
  }

}
