/** src/ui/backend/Steam.h: hooking through the Steam overlay. The overlay module
    (GameOverlayRenderer64.dll, GameOverlayRenderer.dll on 32-bit builds) keeps the
    present and resize functions it calls in global pointer slots. A pattern scan finds
    an instruction that loads such a slot; GetAddressFromRef decodes the slot's address
    from that instruction, and SwapPointer puts a detour in the slot, chaining the
    detour to the pointer it replaced in TinyHook's registry.

    The module lookup, the pattern scans and DirectX12::CreateFactoryAndCommandQueue are
    inputs here: whether the module is loaded, the address each scan found (0 when it
    found none) and whether the D3D12 objects could be made. */
module Steam {
  import opened Machine
  import opened TinyShared

  // ---------------------------------------------------------------------------
  // Decoding the reference
  // ---------------------------------------------------------------------------

  /** GetAddressFromRef on x64: the instruction at start is `mov reg, [rip + disp32]`
      (48 8B 05 or 4C 8B 15 and four displacement bytes), seven bytes long, so the slot is
      start + 7 plus the sign-extended displacement at start + 3, in 64-bit unsigned
      arithmetic. The displacement is read from process memory. */
  function AddressFromRef64(m: Mem, start: Word): Word
    requires Mapped(m, start + 3, 4)
  {
    Wrap64(start + 7 + SignExtend32(ReadU32(m, start + 3)))
  }

  /** GetAddressFromRef on x86: the instruction at start is `mov eax, [abs32]` (A1 and
      the address), so the slot is the 32-bit pointer stored at start + 1. */
  function AddressFromRef32(m: Mem, start: Word): (r: nat)
    requires Mapped(m, start + 1, 4)
    ensures r < TWO_32
  {
    ReadU32(m, start + 1)
  }

  /** The x64 decode inverts the encoding of a RIP-relative load: when the seven bytes
      after start encode a load of slot, whose distance from the next instruction fits
      the 32-bit displacement, the decoded address is slot. */
  lemma AddressFromRef64Decodes(m: Mem, start: Word, slot: Word)
    requires FitsInt32(slot - (start + 7))
    requires Mapped(m, start + 3, 4) && Read(m, start + 3, 4) == LE(Wrap32(slot - (start + 7)), 4)
    ensures AddressFromRef64(m, start) == slot
  {
    var d := Wrap32(slot - (start + 7));
    var r := ReadU32(m, start + 3);
    assert LE(r, 4) == LE(d, 4);
    assert Pow256(4) == TWO_32;
    FromLEOfLE(r, 4);
    FromLEOfLE(d, 4);
    SignExtendWrap32(slot - (start + 7));
  }

  /** The x86 decode reads back the absolute address the instruction encodes. */
  lemma AddressFromRef32Decodes(m: Mem, start: Word, slot: nat)
    requires slot < TWO_32
    requires Mapped(m, start + 1, 4) && Read(m, start + 1, 4) == LE(slot, 4)
    ensures AddressFromRef32(m, start) == slot
  {
    var r := ReadU32(m, start + 1);
    assert LE(r, 4) == LE(slot, 4);
    assert Pow256(4) == TWO_32;
    FromLEOfLE(r, 4);
    FromLEOfLE(slot, 4);
  }

  // ---------------------------------------------------------------------------
  // Swapping a pointer
  // ---------------------------------------------------------------------------

  /** SwapPointer on the slots and the chain: a null slot or a null new address changes
      nothing; otherwise the new address is chained to the slot's value and the slot
      then holds the new address. */
  function SwapStep(words: map<nat, Word>, chain: map<Word, Original>, slot: Word, newAddress: Word)
    : (r: (map<nat, Word>, map<Word, Original>))
    requires slot != 0 && newAddress != 0 ==> slot in words
  {
    if slot == 0 || newAddress == 0 then (words, chain)
    else (words[slot := newAddress], chain[newAddress := Original(words[slot])])
  }

  /** After a swap the slot holds the detour and the detour's original is the pointer
      the slot held, so calling the original reaches the overlay's function; writing that
      original back gives back the slots. */
  lemma SwapThenRestore(words: map<nat, Word>, chain: map<Word, Original>, slot: Word, newAddress: Word)
    requires slot != 0 && newAddress != 0 && slot in words
    ensures var (w, c) := SwapStep(words, chain, slot, newAddress);
      && w[slot] == newAddress
      && newAddress in c && c[newAddress] == Original(words[slot])
      && w[slot := c[newAddress].ptr] == words
  {
    var w := SwapStep(words, chain, slot, newAddress).0;
    assert w[slot := words[slot]] == words;
  }

  /** Swapping one slot twice chains the second detour to the first one: the second
      detour's original is the first detour, not the overlay's function. */
  lemma SwapTwice(words: map<nat, Word>, chain: map<Word, Original>, slot: Word, first: Word, second: Word)
    requires slot != 0 && first != 0 && second != 0 && slot in words
    ensures var (w1, c1) := SwapStep(words, chain, slot, first);
      var (w2, c2) := SwapStep(w1, c1, slot, second);
      && w2[slot] == second
      && c2[second] == Original(first)
      && (first != second ==> c2[first] == Original(words[slot]))
  {
  }

  /** SwapPointer(pAddress, newAddress): the slot is dereferenced only when both
      pointers are non-null. */
  method SwapPointer(space: AddressSpace, registry: Manager, slot: Word, newAddress: Word)
    requires slot != 0 && newAddress != 0 ==> slot in space.words
    modifies space, registry
    ensures (space.words, registry.chain) == SwapStep(old(space.words), old(registry.chain), slot, newAddress)
    ensures space.regions == old(space.regions)
  {
    if slot == 0 || newAddress == 0 {
      return;
    }
    var original := space.words[slot];
    registry.RegisterHook(newAddress, original);
    space.words := space.words[slot := newAddress];
  }

  // ---------------------------------------------------------------------------
  // Which pointers Hook swaps
  // ---------------------------------------------------------------------------

  /** The GraphicsAPI enumeration of src/ui/overlay.h: plain enumerators, not flags. */
  datatype GraphicsAPI = UNKNOWN | D3D9 | D3D11 | D3D12 | OpenGL | Vulkan

  /** An enumerator's value: its position, from UNKNOWN = 0 to Vulkan = 5. */
  function Code(api: GraphicsAPI): (r: bv8)
    ensures r < 6
  {
    match api
    case UNKNOWN => 0
    case D3D9 => 1
    case D3D11 => 2
    case D3D12 => 3
    case OpenGL => 4
    case Vulkan => 5
  }

  /** The enumerator values are distinct, so Code identifies the API. */
  lemma CodeInjective(a: GraphicsAPI, b: GraphicsAPI)
    ensures Code(a) == Code(b) <==> a == b
  {
  }

  /** The detours Hook can install. */
  datatype Detour = DX9Present | DX11Present | DX11ResizeBuffers | DX12Present | DX12ResizeBuffers | GLSwapBuffers

  /** The API whose backend a detour belongs to. */
  function BackendOf(d: Detour): GraphicsAPI
  {
    match d
    case DX9Present => D3D9
    case DX11Present | DX11ResizeBuffers => D3D11
    case DX12Present | DX12ResizeBuffers => D3D12
    case GLSwapBuffers => OpenGL
  }

  /** One SwapPointer Hook makes: the slot referenced by the instruction at xref gets
      the detour. */
  datatype Swap = Swap(xref: Word, detour: Detour)

  /** Where each pattern scan found its instruction, 0 when it found none. */
  datatype Scans = Scans(devicePresent: Word, present: Word, resizeBuffers: Word, swapBuffers: Word)

  /** Hook's decisions, given how it tests the detected API against a backend: nothing
      when the overlay module is not loaded; otherwise the D3D9 present swap, then the
      D3D11 and D3D12 swaps when both of their references were found (the D3D12 ones
      only in 64-bit builds and when its objects could be made), then the OpenGL swap.
      The answer is whether any swap was made. */
  function HookWith(selects: GraphicsAPI -> bool, loaded: bool, scans: Scans, x64: bool, d3d12Ready: bool)
    : (r: (seq<Swap>, bool))
    ensures !loaded ==> r == ([], false)
    ensures r.1 <==> |r.0| > 0
    ensures forall i :: 0 <= i < |r.0| ==> selects(BackendOf(r.0[i].detour)) && r.0[i].xref != 0
  {
    if !loaded then ([], false)
    else
      var d9 := if selects(D3D9) && scans.devicePresent != 0 then [Swap(scans.devicePresent, DX9Present)] else [];
      var both := scans.present != 0 && scans.resizeBuffers != 0;
      var d11 :=
        if (selects(D3D11) || selects(D3D12)) && both && selects(D3D11)
        then [Swap(scans.present, DX11Present), Swap(scans.resizeBuffers, DX11ResizeBuffers)] else [];
      var d12 :=
        if (selects(D3D11) || selects(D3D12)) && both && x64 && selects(D3D12) && d3d12Ready
        then [Swap(scans.present, DX12Present), Swap(scans.resizeBuffers, DX12ResizeBuffers)] else [];
      var gl := if selects(OpenGL) && scans.swapBuffers != 0 then [Swap(scans.swapBuffers, GLSwapBuffers)] else [];
      AllSelectedAppend(selects, d9, d11);
      AllSelectedAppend(selects, d9 + d11, d12);
      AllSelectedAppend(selects, d9 + d11 + d12, gl);
      var swaps := d9 + d11 + d12 + gl;
      (swaps, |swaps| > 0)
  }

  /** Every swap targets a selected backend through a reference that was found. */
  predicate AllSelected(selects: GraphicsAPI -> bool, swaps: seq<Swap>)
  {
    forall i :: 0 <= i < |swaps| ==> selects(BackendOf(swaps[i].detour)) && swaps[i].xref != 0
  }

  lemma AllSelectedAppend(selects: GraphicsAPI -> bool, a: seq<Swap>, b: seq<Swap>)
    requires AllSelected(selects, a) && AllSelected(selects, b)
    ensures AllSelected(selects, a + b)
  {
    forall i | 0 <= i < |a + b|
      ensures selects(BackendOf((a + b)[i].detour)) && (a + b)[i].xref != 0
    {
      if i >= |a| {
        assert (a + b)[i] == b[i - |a|];
      }
    }
  }

  /** How Steam::Hook tests the API: `graphicsAPI & Backend`, a bitwise and of the two
      enumerator values, which is non-zero for some pairs of different APIs. */
  predicate SelectsAsWritten(api: GraphicsAPI, backend: GraphicsAPI)
  {
    Code(api) & Code(backend) != 0
  }

  /** Steam::Hook as written. */
  function HookAsWritten(api: GraphicsAPI, loaded: bool, scans: Scans, x64: bool, d3d12Ready: bool)
    : (r: (seq<Swap>, bool))
    ensures !loaded ==> r == ([], false)
    ensures r.1 <==> |r.0| > 0
  {
    HookWith(backend => SelectsAsWritten(api, backend), loaded, scans, x64, d3d12Ready)
  }

  /** Steam::Hook with the test it evidently means: the detected API is that backend. */
  function Hook(api: GraphicsAPI, loaded: bool, scans: Scans, x64: bool, d3d12Ready: bool)
    : (r: (seq<Swap>, bool))
    ensures !loaded ==> r == ([], false)
    ensures r.1 <==> |r.0| > 0
  {
    HookWith(backend => backend == api, loaded, scans, x64, d3d12Ready)
  }

  /** As written, a D3D12 game (3 = 0b11) also passes the D3D9 (1) and D3D11 (2) tests:
      with every reference found, Hook puts the D3D9 detour in the D3D9 device's slot
      and swaps the present and resize slots twice, first to the D3D11 detours and then
      to the D3D12 ones, so that the D3D12 detours' originals are the D3D11 detours. */
  lemma HookAsWrittenD3D12(scans: Scans)
    requires scans.devicePresent != 0 && scans.present != 0 && scans.resizeBuffers != 0 && scans.swapBuffers != 0
    ensures HookAsWritten(D3D12, true, scans, true, true).0 ==
      [Swap(scans.devicePresent, DX9Present),
       Swap(scans.present, DX11Present), Swap(scans.resizeBuffers, DX11ResizeBuffers),
       Swap(scans.present, DX12Present), Swap(scans.resizeBuffers, DX12ResizeBuffers)]
  {
    assert SelectsAsWritten(D3D12, D3D9) && SelectsAsWritten(D3D12, D3D11);
    assert SelectsAsWritten(D3D12, D3D12) && !SelectsAsWritten(D3D12, OpenGL);
  }

  /** The pairs of different enumerators whose values share a bit, smaller value first. */
  predicate Overlap(a: GraphicsAPI, b: GraphicsAPI)
  {
    || (a == D3D9 && (b == D3D12 || b == Vulkan))
    || (a == D3D11 && b == D3D12)
    || (a == D3D12 && b == Vulkan)
    || (a == OpenGL && b == Vulkan)
  }

  /** As written, the test passes for a backend other than the detected API exactly for
      these pairs: D3D9 (1) with D3D12 (3) and Vulkan (5), D3D11 (2) with D3D12, D3D12
      with Vulkan, and OpenGL (4) with Vulkan, in either order. */
  lemma SelectsAsWrittenStray(api: GraphicsAPI, backend: GraphicsAPI)
    requires api != backend
    ensures SelectsAsWritten(api, backend) <==> Overlap(api, backend) || Overlap(backend, api)
  {
    match api
    case UNKNOWN =>
    case D3D9 =>
    case D3D11 =>
    case D3D12 =>
    case OpenGL =>
    case Vulkan =>
  }

  /** With the test corrected, Hook installs only the detected API's detours, each
      reference at most once, so no detour is chained to another detour. */
  lemma HookSwapsOwnBackend(api: GraphicsAPI, loaded: bool, scans: Scans, x64: bool, d3d12Ready: bool)
    ensures var swaps := Hook(api, loaded, scans, x64, d3d12Ready).0;
      && (forall i :: 0 <= i < |swaps| ==> BackendOf(swaps[i].detour) == api)
      && (forall i, j :: 0 <= i < j < |swaps| ==> swaps[i].xref != swaps[j].xref || scans.present == scans.resizeBuffers)
  {
    var swaps := Hook(api, loaded, scans, x64, d3d12Ready).0;
    assert |swaps| <= 2;
  }

  /** With the test corrected, a D3D12 game gets exactly its two D3D12 swaps when both
      references are found, the build is 64-bit and its objects could be made. */
  lemma HookD3D12(scans: Scans)
    requires scans.present != 0 && scans.resizeBuffers != 0
    ensures Hook(D3D12, true, scans, true, true) ==
      ([Swap(scans.present, DX12Present), Swap(scans.resizeBuffers, DX12ResizeBuffers)], true)
  {
    var selects := backend => backend == D3D12;
    assert !selects(D3D9) && !selects(D3D11) && selects(D3D12) && !selects(OpenGL);
    assert Hook(D3D12, true, scans, true, true) == HookWith(selects, true, scans, true, true);
    var d12 := [Swap(scans.present, DX12Present), Swap(scans.resizeBuffers, DX12ResizeBuffers)];
    assert HookWith(selects, true, scans, true, true).0 == [] + [] + d12 + [];
    assert [] + [] + d12 + [] == d12;
  }
}
