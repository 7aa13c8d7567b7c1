/** src/ui/widgets.h: the label-to-identifier conversion and the registration half of
    the key-binding widget. The widget's drawing (CustomBindKeyEx) is not part of this
    model; what it is drawn for is the binding CustomBindKey finds or appends. */
module Widgets {
  import opened Machine
  import opened Keybinds

  // ---------------------------------------------------------------------------
  // ToSnakeCase: three passes over a copy of the label
  // ---------------------------------------------------------------------------

  /** isalnum in the "C" locale. */
  predicate IsAlnum(c: char)
  {
    'a' <= c <= 'z' || 'A' <= c <= 'Z' || '0' <= c <= '9'
  }

  /** What erase_if keeps: alphanumerics and '_'. */
  predicate Kept(c: char)
  {
    IsAlnum(c) || c == '_'
  }

  /** What an identifier made by ToSnakeCase is built from. */
  predicate SnakeChar(c: char)
  {
    'a' <= c <= 'z' || '0' <= c <= '9' || c == '_'
  }

  /** transform with tolower. */
  function Lowered(s: string): (r: string)
    ensures |r| == |s| && forall i :: 0 <= i < |s| ==> r[i] == ToLower(s[i])
  {
    if s == [] then [] else [ToLower(s[0])] + Lowered(s[1..])
  }

  /** replace of ' ' by '_'. */
  function SpacesReplaced(s: string): (r: string)
    ensures |r| == |s| && forall i :: 0 <= i < |s| ==> r[i] == (if s[i] == ' ' then '_' else s[i])
  {
    if s == [] then [] else [if s[0] == ' ' then '_' else s[0]] + SpacesReplaced(s[1..])
  }

  /** erase_if of everything that is not alphanumeric or '_'. */
  function Erased(s: string): (r: string)
    ensures |r| <= |s| && forall i :: 0 <= i < |r| ==> Kept(r[i])
  {
    if s == [] then []
    else if Kept(s[0]) then [s[0]] + Erased(s[1..])
    else Erased(s[1..])
  }

  function ToSnakeCase(input: string): string
  {
    Erased(SpacesReplaced(Lowered(input)))
  }

  /** One character of the label as ToSnakeCase treats it: lowered, a space made '_',
      and dropped unless it is then alphanumeric or '_'. */
  function SnakeOf(c: char): string
  {
    var l := ToLower(c);
    var u := if l == ' ' then '_' else l;
    if Kept(u) then [u] else []
  }

  /** The label character by character, the reference for ToSnakeCase. */
  function SnakeEach(s: string): string
  {
    if s == [] then [] else SnakeOf(s[0]) + SnakeEach(s[1..])
  }

  /** The three passes do to every character what SnakeOf does to it alone. */
  lemma {:induction false} ToSnakeCaseEach(s: string)
    ensures ToSnakeCase(s) == SnakeEach(s)
  {
    if s != [] {
      ToSnakeCaseEach(s[1..]);
      assert Lowered(s) == [ToLower(s[0])] + Lowered(s[1..]);
      var l := Lowered(s);
      assert l[1..] == Lowered(s[1..]);
      assert SpacesReplaced(l) == [SpacesReplaced(l)[0]] + SpacesReplaced(l[1..]);
    }
  }

  /** The identifier is made only of lowercase letters, digits and '_', and is no longer
      than the label. */
  lemma ToSnakeCaseShape(s: string)
    ensures |ToSnakeCase(s)| <= |s|
    ensures forall i :: 0 <= i < |ToSnakeCase(s)| ==> SnakeChar(ToSnakeCase(s)[i])
  {
    var r := ToSnakeCase(s);
    var l := Lowered(s);
    var u := SpacesReplaced(l);
    assert forall i :: 0 <= i < |u| ==> !('A' <= u[i] <= 'Z');
    ErasedFrom(u);
  }

  /** Every character erase_if keeps was in its input. */
  lemma {:induction false} ErasedFrom(s: string)
    ensures forall i :: 0 <= i < |Erased(s)| ==> Erased(s)[i] in s
  {
    if s != [] {
      ErasedFrom(s[1..]);
    }
  }

  /** A string already in snake case is left as it is. */
  lemma {:induction false} SnakeEachFixes(s: string)
    requires forall i :: 0 <= i < |s| ==> SnakeChar(s[i])
    ensures SnakeEach(s) == s
  {
    if s != [] {
      SnakeEachFixes(s[1..]);
      assert SnakeOf(s[0]) == [s[0]];
      assert s == [s[0]] + s[1..];
    }
  }

  /** ToSnakeCase is idempotent. */
  lemma ToSnakeCaseIdempotent(s: string)
    ensures ToSnakeCase(ToSnakeCase(s)) == ToSnakeCase(s)
  {
    var t := ToSnakeCase(s);
    ToSnakeCaseShape(s);
    ToSnakeCaseEach(t);
    SnakeEachFixes(t);
  }

  // ---------------------------------------------------------------------------
  // CustomBindKey: registration
  // ---------------------------------------------------------------------------

  /** The registration of either overload, given the binding it would add: none for a
      null target (the widget answers false); the first binding already holding the
      target, with the list unchanged; otherwise the candidate appended at the back. */
  function RegisterStep(list: seq<KeyBind>, candidate: KeyBind): (r: (seq<KeyBind>, Option<nat>))
    ensures candidate.pFunction == 0 ==> r == (list, None)
    ensures r.1.Some? ==> r.1.value < |r.0| && r.0[r.1.value].pFunction == candidate.pFunction
    ensures r.1.Some? ==> forall j :: 0 <= j < r.1.value ==> r.0[j].pFunction != candidate.pFunction
    ensures r.0 == list || r.0 == list + [candidate]
    ensures r.0 == list + [candidate] <==>
      candidate.pFunction != 0 && forall j :: 0 <= j < |list| ==> list[j].pFunction != candidate.pFunction
  {
    if candidate.pFunction == 0 then (list, None)
    else match FirstBinding(list, candidate.pFunction)
      case Some(i) => (list, Some(i))
      case None => (list + [candidate], Some(|list|))
  }

  /** What GetKeyBind answers, as an index. */
  function FirstBinding(list: seq<KeyBind>, pFunction: nat): (r: Option<nat>)
    ensures r.Some? ==> r.value < |list| && list[r.value].pFunction == pFunction
    ensures r.Some? ==> forall j :: 0 <= j < r.value ==> list[j].pFunction != pFunction
    ensures r.None? <==> forall j :: 0 <= j < |list| ==> list[j].pFunction != pFunction
  {
    if list == [] then None
    else if list[0].pFunction == pFunction then Some(0)
    else match FirstBinding(list[1..], pFunction)
      case Some(i) => Some(i + 1)
      case None => None
  }

  /** The binding the label overload adds: named after the label in snake case, on no
      key, a toggle. */
  function LabelBinding(caption: string, pFunction: nat, names: KeyNames): (kb: KeyBind)
    ensures kb.pFunction == pFunction && kb.key == 0 && kb.modifiers == 0 && kb.bindType == TOGGLE
    ensures kb.keyName == "None" && !kb.isWaiting
    ensures forall i :: 0 <= i < |kb.name| ==> SnakeChar(kb.name[i])
  {
    KeyNameShape(0, 0, names);
    ToSnakeCaseShape(caption);
    NewKeyBind(ToSnakeCase(caption), pFunction, 0, TOGGLE, 0, names)
  }

  /** Binding the same target twice adds at most one binding, and the second call
      finds the binding the first one used. */
  lemma RegisterTwice(list: seq<KeyBind>, first: KeyBind, second: KeyBind)
    requires first.pFunction == second.pFunction
    ensures var (l1, b1) := RegisterStep(list, first);
      var (l2, b2) := RegisterStep(l1, second);
      l2 == l1 && b2 == b1 && |l1| <= |list| + 1
  {
    var (l1, b1) := RegisterStep(list, first);
    if first.pFunction != 0 {
      var i := b1.value;
      var j := FirstBinding(l1, second.pFunction);
      if l1 == list + [first] {
        assert forall k :: 0 <= k < |list| ==> l1[k] == list[k];
      }
      assert j.Some? && j.value == i;
    }
  }

  /** CustomBindKey(label, pFunction): the index of the binding its widget is drawn for,
      None where the source answers false. */
  method CustomBindKey(kb: KeyBindList, caption: string, pFunction: nat, names: KeyNames) returns (bound: Option<nat>)
    modifies kb
    ensures (kb.kbList, bound) == RegisterStep(old(kb.kbList), LabelBinding(caption, pFunction, names))
  {
    if pFunction == 0 {
      return None;
    }
    var existing := kb.GetKeyBind(pFunction);
    if existing.Some? {
      return existing;
    }
    kb.kbList := kb.kbList + [NewKeyBind(ToSnakeCase(caption), pFunction, 0, TOGGLE, 0, names)];
    return Some(|kb.kbList| - 1);
  }

  /** CustomBindKey(label, keyBind): the given binding itself is what is appended. */
  method CustomBindKeyWith(kb: KeyBindList, caption: string, keyBind: KeyBind) returns (bound: Option<nat>)
    modifies kb
    ensures (kb.kbList, bound) == RegisterStep(old(kb.kbList), keyBind)
  {
    if keyBind.pFunction == 0 {
      return None;
    }
    var existing := kb.GetKeyBind(keyBind.pFunction);
    if existing.Some? {
      return existing;
    }
    kb.kbList := kb.kbList + [keyBind];
    return Some(|kb.kbList| - 1);
  }
}
