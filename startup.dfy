/** src/main.cpp: the checks the DLL makes when it starts. Its substring search (named
    stristr, but comparing characters exactly), the process blacklist, and the guess
    of the graphics API from the window title. The process name and the window title
    are inputs; how they are read from the system is not part of this model. */
module Startup {
  import opened Machine
  import Steam

  /** needle sits in haystack at position p. */
  predicate OccursAt(haystack: string, needle: string, p: nat)
  {
    p + |needle| <= |haystack| && haystack[p..p + |needle|] == needle
  }

  ghost predicate Contains(haystack: string, needle: string)
  {
    exists p: nat :: OccursAt(haystack, needle, p)
  }

  /** string_view::find from position from: the first occurrence at or after it. */
  function FindFrom(haystack: string, needle: string, from: nat): (r: Option<nat>)
    requires from <= |haystack|
    ensures r.Some? ==> from <= r.value && OccursAt(haystack, needle, r.value)
    ensures r.Some? ==> forall q: nat :: from <= q < r.value ==> !OccursAt(haystack, needle, q)
    ensures r.None? ==> forall q: nat :: from <= q ==> !OccursAt(haystack, needle, q)
    decreases |haystack| - from
  {
    if from + |needle| > |haystack| then None
    else if haystack[from..from + |needle|] == needle then Some(from)
    else if from == |haystack| then None
    else FindFrom(haystack, needle, from + 1)
  }

  /** stristr: the haystack itself for an empty needle; otherwise the suffix that starts
      at the needle's first occurrence, or the null view (None) when there is none. */
  function Stristr(haystack: string, needle: string): Option<string>
  {
    if needle == [] then Some(haystack)
    else match FindFrom(haystack, needle, 0)
      case Some(pos) => Some(haystack[pos..])
      case None => None
  }

  /** What stristr answers: for a non-empty needle, a non-null view exactly when the
      needle occurs, and then the suffix that starts with the needle and has no earlier
      occurrence before it. */
  lemma StristrFinds(haystack: string, needle: string)
    ensures needle == [] ==> Stristr(haystack, needle) == Some(haystack)
    ensures needle != [] ==> (Stristr(haystack, needle).Some? <==> Contains(haystack, needle))
    ensures needle != [] && Stristr(haystack, needle).Some? ==>
      var s := Stristr(haystack, needle).value;
      var pos := |haystack| - |s|;
      && 0 <= pos <= |haystack| && s == haystack[pos..]
      && |needle| <= |s| && s[..|needle|] == needle
      && forall q: nat :: q < pos ==> !OccursAt(haystack, needle, q)
  {
    if needle != [] {
      match FindFrom(haystack, needle, 0)
      case Some(pos) =>
        assert OccursAt(haystack, needle, pos);
        assert haystack[pos..][..|needle|] == haystack[pos..pos + |needle|];
      case None =>
    }
  }

  /** For a non-empty needle: a non-null view exactly when the needle occurs. */
  lemma StristrFound(haystack: string, needle: string)
    requires needle != []
    ensures Stristr(haystack, needle).Some? <==> Contains(haystack, needle)
  {
    StristrFinds(haystack, needle);
  }

  /** Despite the name, the match is case-sensitive: a title saying "dx11" does not
      match "DX11". */
  lemma StristrCaseSensitive()
    ensures Stristr("dx11", "DX11") == None
  {
    assert !OccursAt("dx11", "DX11", 0) by {
      assert "dx11"[0] != "DX11"[0];
    }
  }

  /** The processes the DLL refuses to run in. */
  const BLACKLIST: seq<string> := ["UnityCrashHandler"]

  /** Whether any listed name is found in the process name by stristr. */
  function Listed(processName: string, names: seq<string>): bool
  {
    if names == [] then false
    else Stristr(processName, names[0]).Some? || Listed(processName, names[1..])
  }

  /** IsBlacklistedProcess, given the name of the process. */
  function IsBlacklistedProcess(processName: string): bool
  {
    Listed(processName, BLACKLIST)
  }

  /** A process is refused exactly when its name contains "UnityCrashHandler". */
  lemma BlacklistedIff(processName: string)
    ensures IsBlacklistedProcess(processName) <==> Contains(processName, "UnityCrashHandler")
  {
    var n := "UnityCrashHandler";
    assert n != [];
    StristrFinds(processName, n);
    assert BLACKLIST[0] == n;
    assert BLACKLIST[1..] == [];
    assert Listed(processName, BLACKLIST[1..]) == false;
    assert IsBlacklistedProcess(processName) == Stristr(processName, n).Some?;
  }

  /** The title words in the order ParseTitleForGraphicsAPI tries them. */
  const TITLE_WORDS: seq<(string, Steam.GraphicsAPI)> :=
    [("DX9", Steam.D3D9), ("DX11", Steam.D3D11), ("DX12", Steam.D3D12), ("OpenGL", Steam.OpenGL), ("Vulkan", Steam.Vulkan)]

  /** The API the title names, or the current one when it names none. */
  function TitleAPI(title: string, current: Steam.GraphicsAPI): Steam.GraphicsAPI
  {
    if Stristr(title, "DX9").Some? then Steam.D3D9
    else if Stristr(title, "DX11").Some? then Steam.D3D11
    else if Stristr(title, "DX12").Some? then Steam.D3D12
    else if Stristr(title, "OpenGL").Some? then Steam.OpenGL
    else if Stristr(title, "Vulkan").Some? then Steam.Vulkan
    else current
  }

  /** The API of the first word in words that the title contains, if any. */
  ghost function FirstNamed(title: string, words: seq<(string, Steam.GraphicsAPI)>): Option<Steam.GraphicsAPI>
  {
    if words == [] then None
    else if Contains(title, words[0].0) then Some(words[0].1)
    else FirstNamed(title, words[1..])
  }

  /** The first word of the list the title contains decides the API; a title with none
      of them leaves the API as it was. */
  lemma TitleAPIFirstWord(title: string, current: Steam.GraphicsAPI)
    ensures TitleAPI(title, current) == match FirstNamed(title, TITLE_WORDS)
      case Some(api) => api
      case None => current
  {
    var w := TITLE_WORDS;
    StristrFound(title, "DX9");
    StristrFound(title, "DX11");
    StristrFound(title, "DX12");
    StristrFound(title, "OpenGL");
    StristrFound(title, "Vulkan");
    assert w[0] == ("DX9", Steam.D3D9) && w[1..][0] == ("DX11", Steam.D3D11) && w[2..][0] == ("DX12", Steam.D3D12);
    assert w[3..][0] == ("OpenGL", Steam.OpenGL) && w[4..][0] == ("Vulkan", Steam.Vulkan);
    assert w[1..][1..] == w[2..] && w[2..][1..] == w[3..] && w[3..][1..] == w[4..] && w[4..][1..] == [];
    if !Contains(title, "DX9") {
      assert FirstNamed(title, w) == FirstNamed(title, w[1..]);
      if !Contains(title, "DX11") {
        assert FirstNamed(title, w[1..]) == FirstNamed(title, w[2..]);
        if !Contains(title, "DX12") {
          assert FirstNamed(title, w[2..]) == FirstNamed(title, w[3..]);
          if !Contains(title, "OpenGL") {
            assert FirstNamed(title, w[3..]) == FirstNamed(title, w[4..]);
            assert FirstNamed(title, w[4..][1..]) == None;
          }
        }
      }
    }
  }

  /** Overlay::graphicsAPI. */
  class Overlay {
    var graphicsAPI: Steam.GraphicsAPI

    constructor()
      ensures graphicsAPI == Steam.UNKNOWN
    {
      graphicsAPI := Steam.UNKNOWN;
    }

    method ParseTitleForGraphicsAPI(windowTitle: string)
      modifies this
      ensures graphicsAPI == TitleAPI(windowTitle, old(graphicsAPI))
    {
      if Stristr(windowTitle, "DX9").Some? {
        graphicsAPI := Steam.D3D9;
      } else if Stristr(windowTitle, "DX11").Some? {
        graphicsAPI := Steam.D3D11;
      } else if Stristr(windowTitle, "DX12").Some? {
        graphicsAPI := Steam.D3D12;
      } else if Stristr(windowTitle, "OpenGL").Some? {
        graphicsAPI := Steam.OpenGL;
      } else if Stristr(windowTitle, "Vulkan").Some? {
        graphicsAPI := Steam.Vulkan;
      }
    }
  }
}
