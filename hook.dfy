/** The inline hook of include/Mem/hook.h and include/Mem/hook.cpp: a Hook finds its
    target with a pattern scan, snapshots the bytes it will overwrite, and on Enable
    builds a trampoline in a page allocated near the target (the detour code, the
    displaced original bytes, a jump back) and redirects the target into it, with a
    5-byte rel32 jump when the trampoline is within reach and a 13-byte absolute jump
    otherwise. */
module InlineHook {
  import opened Machine
  import opened MemPrimitives

  /** JMP_SIZE: the bytes an absolute and a relative redirection occupy. */
  const ABS_JMP_SIZE: nat := 14
  const REL_JMP_SIZE: nat := 5

  /** Capacity of originalBytes. */
  const ORIGINAL_CAPACITY: nat := 128

  /** pop rax */
  const POP_RAX: Byte := 0x58

  /** How many bytes each kind of redirection overwrites at the target. */
  datatype LengthPatched = LengthPatched(absolute: nat, relative: nat)

  /** LengthPatched(): both lengths 0. */
  const DEFAULT_LENGTH := LengthPatched(0, 0)

  /** LengthPatched(rel, abs): each length is raised to at least its jump size.
      Note the argument order (relative first) is the reverse of the field order. */
  function MakeLength(rel: nat, abs: nat): (r: LengthPatched)
    ensures r.relative >= REL_JMP_SIZE && r.absolute >= ABS_JMP_SIZE
    ensures r.relative == rel <==> rel >= REL_JMP_SIZE
    ensures r.absolute == abs <==> abs >= ABS_JMP_SIZE
    ensures r.relative > rel ==> r.relative == REL_JMP_SIZE
    ensures r.absolute > abs ==> r.absolute == ABS_JMP_SIZE
  {
    LengthPatched(if ABS_JMP_SIZE > abs then ABS_JMP_SIZE else abs,
                  if REL_JMP_SIZE > rel then REL_JMP_SIZE else rel)
  }

  /** std::max(len.relative, len.absolute): the bytes Disable restores. */
  function Longest(len: LengthPatched): nat
  {
    if len.relative > len.absolute then len.relative else len.absolute
  }

  // ---------------------------------------------------------------------------
  // Trampoline layout
  // ---------------------------------------------------------------------------

  /** The intptr_t distance of a rel32 jump placed at address that should land on detour. */
  function Distance(address: nat, detour: nat): int
  {
    Signed64(Wrap64(detour - address - REL_JMP_SIZE))
  }

  /** The displacement the near trampoline's closing jump carries, for n bytes of
      detour code and original code in front of it. */
  function BackDisplacement(distance: int, n: nat): int
  {
    -(distance + n + REL_JMP_SIZE)
  }

  /** Near path: the detour code, the displaced original bytes, then jmp rel32 back. */
  function NearTrampoline(code: seq<Byte>, saved: seq<Byte>, distance: int): (r: seq<Byte>)
    ensures |r| == |code| + |saved| + REL_JMP_SIZE
  {
    code + saved + RelJumpBytes(Wrap64(BackDisplacement(distance, |code| + |saved|)))
  }

  /** Near path at the target: jmp rel32 to the trampoline, NOP padding over the rest. */
  function NearSite(distance: int, relative: nat): (r: seq<Byte>)
    requires relative >= REL_JMP_SIZE
    ensures |r| == relative
  {
    RelJumpBytes(Wrap64(distance)) + AlignedNops(relative - REL_JMP_SIZE)
  }

  /** The value of `gateway`: address + (absolute - diff - sizeof(pop_rax)), where
      diff = absolute - ABS_JMP_SIZE. */
  function Gateway(address: nat, absolute: nat): Word
    requires absolute >= ABS_JMP_SIZE
  {
    var diff := absolute - ABS_JMP_SIZE;
    Wrap64(address + (absolute - diff - 1))
  }

  /** Far path: pop rax, the detour code, the displaced original bytes, then the
      absolute jump to the gateway. */
  function FarTrampoline(code: seq<Byte>, saved: seq<Byte>, gateway: Word): (r: seq<Byte>)
    ensures |r| == 1 + |code| + |saved| + ABS_JUMP_SIZE
  {
    [POP_RAX] + code + saved + AbsJumpBytes(LE(gateway, 8))
  }

  /** Far path at the target: the absolute jump whose imm64 is the eight bytes found at
      the detour page (head), pop rax, NOP padding over the rest. */
  function FarSite(head: seq<Byte>, absolute: nat): (r: seq<Byte>)
    requires |head| == 8 && absolute >= ABS_JMP_SIZE
    ensures |r| == absolute
  {
    AbsJumpBytes(head) + [POP_RAX] + AlignedNops(absolute - ABS_JMP_SIZE)
  }

  // ---------------------------------------------------------------------------
  // Choice of path (see the Findings of the README)
  // ---------------------------------------------------------------------------

  /** The near path as hook.cpp chooses it: only the entry jump's distance is checked. */
  predicate NearPathAsWritten(distance: int)
  {
    FitsInt32(distance)
  }

  /** The near path taken only when both of its rel32 jumps can carry their distance:
      the entry jump, and the closing jump n trampoline bytes further on. */
  predicate NearPathSafe(distance: int, n: nat)
  {
    FitsInt32(distance) && FitsInt32(BackDisplacement(distance, n))
  }

  /** Inside x64 user space the distance is the plain difference. */
  lemma DistanceInUserSpace(address: nat, detour: nat)
    requires address < USER_SPACE_END && detour < USER_SPACE_END
    ensures Distance(address, detour) == detour - address - REL_JMP_SIZE
  {
  }

  /** On the near path, the target's jump lands on the trampoline, the trampoline's
      closing jump lands at address + 5, and from there to address + relative the
      target holds NOPs, so execution resumes after the overwritten instructions. */
  lemma NearJumpsLand(address: nat, detour: nat, code: seq<Byte>, saved: seq<Byte>)
    requires address < USER_SPACE_END && detour < USER_SPACE_END
    requires |saved| >= REL_JMP_SIZE
    requires NearPathSafe(Distance(address, detour), |code| + |saved|)
    ensures var d := Distance(address, detour);
      RelJumpTarget(address, NearSite(d, |saved|)[..REL_JMP_SIZE]) == detour
    ensures var t := NearTrampoline(code, saved, Distance(address, detour));
      RelJumpTarget(detour + |code| + |saved|, t[|code| + |saved|..]) == address + REL_JMP_SIZE
    ensures DecodesAsNops(NearSite(Distance(address, detour), |saved|)[REL_JMP_SIZE..])
  {
    NearEntryLands(address, detour, |saved|);
    NearReturnLands(address, detour, code, saved);
    var d := Distance(address, detour);
    assert NearSite(d, |saved|)[REL_JMP_SIZE..] == AlignedNops(|saved| - REL_JMP_SIZE);
    AlignedNopsDecode(|saved| - REL_JMP_SIZE);
  }

  lemma NearEntryLands(address: nat, detour: nat, relative: nat)
    requires address < USER_SPACE_END && detour < USER_SPACE_END
    requires relative >= REL_JMP_SIZE && FitsInt32(Distance(address, detour))
    ensures RelJumpTarget(address, NearSite(Distance(address, detour), relative)[..REL_JMP_SIZE]) == detour
  {
    var d := Distance(address, detour);
    DistanceInUserSpace(address, detour);
    assert NearSite(d, relative)[..REL_JMP_SIZE] == RelJumpBytes(Wrap64(d));
    RelJumpReaches(address, detour);
  }

  lemma NearReturnLands(address: nat, detour: nat, code: seq<Byte>, saved: seq<Byte>)
    requires address < USER_SPACE_END && detour < USER_SPACE_END
    requires NearPathSafe(Distance(address, detour), |code| + |saved|)
    ensures var t := NearTrampoline(code, saved, Distance(address, detour));
      RelJumpTarget(detour + |code| + |saved|, t[|code| + |saved|..]) == address + REL_JMP_SIZE
  {
    var d := Distance(address, detour);
    var n := |code| + |saved|;
    DistanceInUserSpace(address, detour);
    var t := NearTrampoline(code, saved, d);
    assert t[n..] == RelJumpBytes(Wrap64(BackDisplacement(d, n)));
    RelJumpReaches(detour + n, address + REL_JMP_SIZE);
  }

  /** As written, the near path can be chosen when the closing jump's displacement does
      not fit in rel32: with the trampoline page exactly 2 GiB above the target's page,
      an entry distance of 0x7FFFFFEB passes the check, but twelve bytes of detour code
      and five original bytes push the closing displacement to -0x80000001, whose low
      32 bits send execution 2 GiB past the trampoline instead of back to the target. */
  lemma NearPathAsWrittenMissesReturn()
    ensures var address, detour := 0x1_0000_0010, 0x1_8000_0000;
      var code, saved := seq(12, _ => 0xCC), seq(5, _ => 0x90);
      var d := Distance(address, detour);
      var t := NearTrampoline(code, saved, d);
      NearPathAsWritten(d) && !NearPathSafe(d, 17) &&
      RelJumpTarget(detour + 17, t[17..]) == detour + 0x8000_0015 &&
      RelJumpTarget(detour + 17, t[17..]) != address + REL_JMP_SIZE
  {
    var address, detour := 0x1_0000_0010, 0x1_8000_0000;
    var code, saved := seq(12, _ => 0xCC), seq(5, _ => 0x90);
    var d := Distance(address, detour);
    assert d == 0x7FFF_FFEB;
    var t := NearTrampoline(code, saved, d);
    assert t[17..] == RelJumpBytes(Wrap64(BackDisplacement(d, 17)));
    assert BackDisplacement(d, 17) == -0x8000_0001;
    RelJumpKeepsLowDword(detour + 17, -0x8000_0001);
    assert Wrap32(-0x8000_0001) == 0x7FFF_FFFF;
  }

  /** On the far path the trampoline starts with pop rax and its closing absolute jump
      goes to gateway = address + 13, where the target holds pop rax, followed by NOPs
      up to address + absolute. */
  lemma FarReturnLands(address: nat, code: seq<Byte>, saved: seq<Byte>)
    requires address < USER_SPACE_END && |saved| >= ABS_JMP_SIZE
    ensures var t := FarTrampoline(code, saved, Gateway(address, |saved|));
      t[0] == POP_RAX && AbsJumpTarget(t[1 + |code| + |saved|..]) == address + 13
    ensures var t := FarTrampoline(code, saved, Gateway(address, |saved|));
      var s := FarSite(t[..8], |saved|);
      s[13] == POP_RAX && DecodesAsNops(s[ABS_JMP_SIZE..])
  {
    var g := Gateway(address, |saved|);
    assert g == address + 13;
    var t := FarTrampoline(code, saved, g);
    assert t[1 + |code| + |saved|..] == AbsJumpBytes(LE(g, 8));
    AbsJumpReaches(LE(g, 8));
    FromLEBound(LE(g, 8));
    assert Pow256(8) == TWO_64;
    LEOfFromLE(LE(g, 8));
    var target := AbsJumpTarget(AbsJumpBytes(LE(g, 8)));
    FromLEOfLE(target, 8);
    FromLEOfLE(g, 8);
    var s := FarSite(t[..8], |saved|);
    assert s[ABS_JMP_SIZE..] == AlignedNops(|saved| - ABS_JMP_SIZE);
    AlignedNopsDecode(|saved| - ABS_JMP_SIZE);
  }

  /** The far entry jump's imm64 is the first eight trampoline bytes, not the
      trampoline's address: its target has low byte 0x58 (pop rax), so it never lands on
      the page-aligned trampoline. */
  lemma FarEntryMissesTrampoline(detour: nat, code: seq<Byte>, saved: seq<Byte>, gateway: Word)
    requires detour % PAGE_SIZE == 0 && |saved| >= ABS_JMP_SIZE
    ensures var t := FarTrampoline(code, saved, gateway);
      var entry := FarSite(t[..8], |saved|)[..ABS_JUMP_SIZE];
      AbsJumpTarget(entry) % 256 == POP_RAX && AbsJumpTarget(entry) != detour
  {
    var t := FarTrampoline(code, saved, gateway);
    var entry := FarSite(t[..8], |saved|)[..ABS_JUMP_SIZE];
    assert entry == AbsJumpBytes(t[..8]);
    assert entry[3..11] == t[..8];
    assert t[..8][0] == POP_RAX;
    assert FromLE(t[..8]) % 256 == POP_RAX;
  }

  // ---------------------------------------------------------------------------
  // Memory effect of Enable and Disable
  // ---------------------------------------------------------------------------

  /** No byte of the page at page is mapped (VirtualAlloc hands out free pages only). */
  predicate PageFree(m: Mem, page: nat)
  {
    forall k :: page <= k < page + PAGE_SIZE ==> k !in m
  }

  /** VirtualFree(page, 0, MEM_RELEASE): the page is unmapped again. */
  function Release(m: Mem, page: nat): (r: Mem)
    ensures forall k :: k in r <==> k in m && !(page <= k < page + PAGE_SIZE)
    ensures forall k :: k in r ==> r[k] == m[k]
  {
    map k | k in m && !(page <= k < page + PAGE_SIZE) :: m[k]
  }

  /** The trampoline, with either layout, fits in the one page allocated for it. */
  predicate TrampolineFits(codeLen: nat, len: LengthPatched)
  {
    1 + codeLen + Longest(len) + ABS_JUMP_SIZE <= PAGE_SIZE
  }

  /** The lengths Enable relies on: set by LengthPatched(rel, abs), and within the snapshot. */
  predicate UsableLength(len: LengthPatched, snapshot: nat)
  {
    len.relative >= REL_JMP_SIZE && len.absolute >= ABS_JMP_SIZE && Longest(len) <= snapshot
  }

  /** Memory after SetupHook: the page is committed, the trampoline written into it and
      the target redirected, along the near path exactly when both rel32 jumps fit. */
  function EnabledMem(m: Mem, address: nat, detour: nat, code: seq<Byte>, original: seq<Byte>,
                      len: LengthPatched): Mem
    requires UsableLength(len, |original|)
  {
    var page := Overlay(m, detour, Zeros(PAGE_SIZE));
    var d := Distance(address, detour);
    if NearPathSafe(d, |code| + len.relative) then
      Overlay(Overlay(page, detour, NearTrampoline(code, original[..len.relative], d)),
              address, NearSite(d, len.relative))
    else
      var t := FarTrampoline(code, original[..len.absolute], Gateway(address, len.absolute));
      Overlay(Overlay(page, detour, t), address, FarSite(t[..8], len.absolute))
  }

  /** EnabledMem on the near path, with the page commit as its own step. */
  lemma EnabledMemNear(m: Mem, committed: Mem, address: nat, detour: nat, code: seq<Byte>, original: seq<Byte>,
                       len: LengthPatched)
    requires UsableLength(len, |original|) && committed == Overlay(m, detour, Zeros(PAGE_SIZE))
    requires NearPathSafe(Distance(address, detour), |code| + len.relative)
    ensures EnabledMem(m, address, detour, code, original, len)
         == Overlay(Overlay(committed, detour, NearTrampoline(code, original[..len.relative], Distance(address, detour))),
                    address, NearSite(Distance(address, detour), len.relative))
  {
  }

  /** EnabledMem on the far path, with the page commit as its own step. */
  lemma EnabledMemFar(m: Mem, committed: Mem, address: nat, detour: nat, code: seq<Byte>, original: seq<Byte>,
                      len: LengthPatched)
    requires UsableLength(len, |original|) && committed == Overlay(m, detour, Zeros(PAGE_SIZE))
    requires !NearPathSafe(Distance(address, detour), |code| + len.relative)
    ensures var t := FarTrampoline(code, original[..len.absolute], Gateway(address, len.absolute));
      EnabledMem(m, address, detour, code, original, len)
         == Overlay(Overlay(committed, detour, t), address, FarSite(t[..8], len.absolute))
  {
  }

  /** Memory after Disable: the snapshot is copied back over the longer of the two
      patch lengths and the trampoline page is released (a null detour frees nothing). */
  function DisabledMem(m: Mem, address: nat, detour: nat, original: seq<Byte>, len: LengthPatched): Mem
    requires Longest(len) <= |original|
  {
    var restored := Overlay(m, address, original[..Longest(len)]);
    if detour == 0 then restored else Release(restored, detour)
  }

  /** Writing a trampoline into a free page and a patch over the target, then copying
      the target's old bytes back and releasing the page, gives the memory back. */
  lemma RestoreAndRelease(m: Mem, page: nat, t: seq<Byte>, a: nat, s: seq<Byte>, saved: seq<Byte>)
    requires PageFree(m, page) && |t| <= PAGE_SIZE
    requires Mapped(m, a, |saved|) && saved == Read(m, a, |saved|) && |s| <= |saved|
    ensures Release(Overlay(Overlay(Overlay(Overlay(m, page, Zeros(PAGE_SIZE)), page, t), a, s), a, saved), page) == m
  {
    var x := Release(Overlay(Overlay(Overlay(Overlay(m, page, Zeros(PAGE_SIZE)), page, t), a, s), a, saved), page);
    forall k | k in x || k in m
      ensures k in x && k in m && x[k] == m[k]
    {
      RestoreAndReleaseAt(m, page, t, a, s, saved, k);
    }
    assert x == m;
  }

  /** RestoreAndRelease at one address. */
  lemma RestoreAndReleaseAt(m: Mem, page: nat, t: seq<Byte>, a: nat, s: seq<Byte>, saved: seq<Byte>, k: nat)
    requires PageFree(m, page) && |t| <= PAGE_SIZE
    requires Mapped(m, a, |saved|) && saved == Read(m, a, |saved|) && |s| <= |saved|
    ensures var x := Release(Overlay(Overlay(Overlay(Overlay(m, page, Zeros(PAGE_SIZE)), page, t), a, s), a, saved), page);
      (k in x <==> k in m) && (k in m ==> x[k] == m[k])
  {
    var m1 := Overlay(m, page, Zeros(PAGE_SIZE));
    var m2 := Overlay(m1, page, t);
    var m3 := Overlay(m2, a, s);
    var m4 := Overlay(m3, a, saved);
    if k in m {
      assert !(page <= k < page + PAGE_SIZE);
      if a <= k < a + |saved| {
        assert m4[k] == saved[k - a] == m[k];
      } else {
        assert !(a <= k < a + |s|);
        assert m4[k] == m3[k] == m2[k] == m1[k];
      }
    }
  }

  /** Enable followed by Disable leaves the process memory as it was, whichever path
      Enable took, provided the snapshot holds the target's bytes. */
  lemma EnableDisableRoundTrip(m: Mem, address: nat, detour: nat, code: seq<Byte>,
                               original: seq<Byte>, len: LengthPatched)
    requires UsableLength(len, |original|) && TrampolineFits(|code|, len)
    requires detour != 0 && PageFree(m, detour)
    requires Mapped(m, address, Longest(len)) && original[..Longest(len)] == Read(m, address, Longest(len))
    ensures DisabledMem(EnabledMem(m, address, detour, code, original, len), address, detour, original, len) == m
  {
    var d := Distance(address, detour);
    var saved := original[..Longest(len)];
    if NearPathSafe(d, |code| + len.relative) {
      RestoreAndRelease(m, detour, NearTrampoline(code, original[..len.relative], d),
                        address, NearSite(d, len.relative), saved);
    } else {
      var t := FarTrampoline(code, original[..len.absolute], Gateway(address, len.absolute));
      RestoreAndRelease(m, detour, t, address, FarSite(t[..8], len.absolute), saved);
    }
  }

  /** Overwriting n mapped bytes and then copying their old contents back is the
      identity: NopDisable undoes NopEnable and DisableOnlyRewrite undoes EnableOnlyRewrite. */
  lemma RestoreOverwrite(m: Mem, a: nat, x: seq<Byte>, saved: seq<Byte>)
    requires Mapped(m, a, |x|) && saved == Read(m, a, |x|)
    ensures Overlay(Overlay(m, a, x), a, saved) == m
  {
    var r := Overlay(Overlay(m, a, x), a, saved);
    forall k | k in r
      ensures k in m && r[k] == m[k]
    {
    }
    assert r == m;
  }

  // ---------------------------------------------------------------------------
  // The Hook object
  // ---------------------------------------------------------------------------

  /** The address the constructors' pattern scan yields, or None for nullptr. */
  function Located(m: Mem, moduleBase: nat, pattern: string): Option<nat>
    requires ScannableModule(m, moduleBase)
    requires Scannable(pattern, SizeOfImage(m, moduleBase).value)
  {
    AtBase(moduleBase, ScanResult(ModuleImage(m, moduleBase), pattern))
  }

  /** A constructor may snapshot n bytes at what the scan found: they fit in the buffer
      and are mapped. */
  predicate CanSnapshot(m: Mem, moduleBase: nat, pattern: string, n: nat)
  {
    ScannableModule(m, moduleBase) &&
    Scannable(pattern, SizeOfImage(m, moduleBase).value) &&
    (Located(m, moduleBase, pattern).Some? ==>
       n <= ORIGINAL_CAPACITY && Mapped(m, Located(m, moduleBase, pattern).value, n))
  }

  /** Lines 16-18 of SetupHook: the near trampoline written at detour, each write
      appended after the bytes counted so far. */
  method WriteNearTrampoline(proc: Process, detour: nat, code: seq<Byte>, saved: seq<Byte>, d: int)
    returns (ghost t: seq<Byte>)
    requires Mapped(proc.mem, detour, |code| + |saved| + REL_JMP_SIZE)
    modifies proc
    ensures t == NearTrampoline(code, saved, d)
    ensures proc.mem == Overlay(old(proc.mem), detour, t) && proc.mem.Keys == old(proc.mem).Keys
  {
    ghost var m0 := proc.mem;
    var n := proc.Write(detour, code, Some(0));
    ghost var m1 := proc.mem;
    var at := detour + n.value;
    n := proc.Write(at, saved, n);
    OverlayAppend(m0, m1, proc.mem, detour, code, at, saved);
    ghost var m2 := proc.mem;
    var back := Wrap64(BackDisplacement(d, n.value));
    at := detour + n.value;
    proc.RelativeJump(at, back);
    OverlayAppend(m0, m2, proc.mem, detour, code + saved, at, RelJumpBytes(back));
    t := code + saved + RelJumpBytes(back);
  }

  /** Lines 35-38 of SetupHook: the far trampoline written at detour. */
  method WriteFarTrampoline(proc: Process, detour: nat, code: seq<Byte>, saved: seq<Byte>, gateway: Word)
    returns (ghost t: seq<Byte>)
    requires Mapped(proc.mem, detour, 1 + |code| + |saved| + ABS_JUMP_SIZE)
    modifies proc
    ensures t == FarTrampoline(code, saved, gateway)
    ensures proc.mem == Overlay(old(proc.mem), detour, t) && proc.mem.Keys == old(proc.mem).Keys
  {
    ghost var m0 := proc.mem;
    var n := proc.Write(detour, [POP_RAX], Some(0));
    ghost var m1 := proc.mem;
    var at := detour + n.value;
    n := proc.Write(at, code, n);
    OverlayAppend(m0, m1, proc.mem, detour, [POP_RAX], at, code);
    ghost var m2 := proc.mem;
    at := detour + n.value;
    n := proc.Write(at, saved, n);
    OverlayAppend(m0, m2, proc.mem, detour, [POP_RAX] + code, at, saved);
    ghost var m3 := proc.mem;
    at := detour + n.value;
    var destination := LE(gateway, 8);
    n := proc.AbsoluteJump(at, destination, n);
    OverlayAppend(m0, m3, proc.mem, detour, [POP_RAX] + code + saved, at, AbsJumpBytes(destination));
    t := [POP_RAX] + code + saved + AbsJumpBytes(destination);
  }

  /** Lines 21-22 of SetupHook: the entry jump and the NOP padding after it. */
  method WriteNearSite(proc: Process, address: nat, d: int, relative: nat)
    requires relative >= REL_JMP_SIZE && Mapped(proc.mem, address, relative)
    modifies proc
    ensures proc.mem == Overlay(old(proc.mem), address, NearSite(d, relative))
  {
    ghost var m0 := proc.mem;
    var jump := RelJumpBytes(Wrap64(d));
    proc.RelativeJump(address, Wrap64(d));
    ghost var m1 := proc.mem;
    var at := address + REL_JMP_SIZE;
    proc.Nop(at, relative - REL_JMP_SIZE);
    OverlayAppend(m0, m1, proc.mem, address, jump, at, AlignedNops(relative - REL_JMP_SIZE));
  }

  /** Lines 43-45 of SetupHook: the absolute entry jump carrying head, pop rax at
      address + 13 and the NOP padding after it. */
  method WriteFarSite(proc: Process, address: nat, head: seq<Byte>, absolute: nat)
    requires |head| == 8 && absolute >= ABS_JMP_SIZE && Mapped(proc.mem, address, absolute)
    modifies proc
    ensures proc.mem == Overlay(old(proc.mem), address, FarSite(head, absolute))
  {
    var diff := absolute - ABS_JMP_SIZE;
    ghost var m0 := proc.mem;
    var n := proc.AbsoluteJump(address, head, Some(0));
    ghost var m1 := proc.mem;
    var at := address + n.value;
    var _ := proc.Patch(at, [POP_RAX], None);
    OverlayAppend(m0, m1, proc.mem, address, AbsJumpBytes(head), at, [POP_RAX]);
    ghost var m2 := proc.mem;
    at := address + ABS_JMP_SIZE;
    proc.Nop(at, diff);
    OverlayAppend(m0, m2, proc.mem, address, AbsJumpBytes(head) + [POP_RAX], at, AlignedNops(diff));
  }

  class Hook {
    const proc: Process
    var bStatus: bool
    var bDisabled: bool
    var address: nat
    var len: LengthPatched
    const originalBytes: array<Byte>
    var detour: Word
    var code: Option<seq<Byte>>
    var codeLen: nat

    /** The buffer has its fixed size, a hook is disabled exactly when its scan found
        nothing, and a code buffer is codeLen bytes long. */
    predicate Valid()
      reads this, originalBytes
    {
      originalBytes.Length == ORIGINAL_CAPACITY &&
      (bDisabled <==> address == 0) &&
      (code.Some? ==> |code.value| == codeLen)
    }

    /** Shared by the constructors: scan for the target and snapshot n bytes there. */
    method Locate(moduleBase: nat, pattern: string, n: nat)
      requires originalBytes.Length == ORIGINAL_CAPACITY
      requires CanSnapshot(proc.mem, moduleBase, pattern, n)
      modifies this, originalBytes
      ensures address == (match Located(proc.mem, moduleBase, pattern) case Some(a) => a case None => 0)
      ensures bDisabled <==> address == 0
      ensures address != 0 ==> originalBytes[..n] == Read(proc.mem, address, n)
      ensures bStatus == old(bStatus) && len == old(len) && detour == old(detour)
      ensures code == old(code) && codeLen == old(codeLen)
    {
      var found := PatternScan(proc.mem, moduleBase, pattern);
      address := if found.Some? then found.value else 0;
      bDisabled := address == 0;
      if address != 0 {
        forall i | 0 <= i < n {
          originalBytes[i] := proc.mem[address + i];
        }
      }
    }

    /** Hook(moduleHandle, pattern, length): a hook for NopEnable/NopDisable over
        length bytes. A failed scan leaves the hook disabled. */
    constructor WithLength(proc: Process, moduleBase: nat, pattern: string, length: nat)
      requires CanSnapshot(proc.mem, moduleBase, pattern, length)
      ensures Valid() && fresh(originalBytes) && this.proc == proc
      ensures !bStatus && detour == 0 && len == DEFAULT_LENGTH && code == None
      ensures address == (match Located(proc.mem, moduleBase, pattern) case Some(a) => a case None => 0)
      ensures bDisabled <==> address == 0
      ensures !bDisabled ==> codeLen == length && originalBytes[..length] == Read(proc.mem, address, length)
    {
      this.proc := proc;
      bStatus := false;
      bDisabled := true;
      address := 0;
      len := DEFAULT_LENGTH;
      originalBytes := new Byte[ORIGINAL_CAPACITY];
      detour := 0;
      code := None;
      codeLen := 0;
      new;
      Locate(moduleBase, pattern, length);
      if !bDisabled {
        codeLen := length;
      }
    }

    /** Hook(moduleHandle, pattern, length, code, codeLen): a full detour hook; the
        snapshot covers the longer of the two patch lengths. */
    constructor WithTrampoline(proc: Process, moduleBase: nat, pattern: string, length: LengthPatched, code: seq<Byte>)
      requires CanSnapshot(proc.mem, moduleBase, pattern, Longest(length))
      ensures Valid() && fresh(originalBytes) && this.proc == proc
      ensures !bStatus && detour == 0
      ensures address == (match Located(proc.mem, moduleBase, pattern) case Some(a) => a case None => 0)
      ensures bDisabled <==> address == 0
      ensures bDisabled ==> len == DEFAULT_LENGTH && this.code == None
      ensures !bDisabled ==> len == length && this.code == Some(code) && codeLen == |code|
      ensures !bDisabled ==> originalBytes[..Longest(length)] == Read(proc.mem, address, Longest(length))
    {
      this.proc := proc;
      bStatus := false;
      bDisabled := true;
      address := 0;
      len := DEFAULT_LENGTH;
      originalBytes := new Byte[ORIGINAL_CAPACITY];
      detour := 0;
      this.code := None;
      codeLen := 0;
      new;
      Locate(moduleBase, pattern, Longest(length));
      if !bDisabled {
        len := length;
        this.code := Some(code);
        codeLen := |code|;
      }
    }

    /** Hook(moduleHandle, pattern, code, codeLen): a hook for EnableOnlyRewrite; the
        snapshot covers codeLen bytes. */
    constructor WithCode(proc: Process, moduleBase: nat, pattern: string, code: seq<Byte>)
      requires CanSnapshot(proc.mem, moduleBase, pattern, |code|)
      ensures Valid() && fresh(originalBytes) && this.proc == proc
      ensures !bStatus && detour == 0 && len == DEFAULT_LENGTH
      ensures address == (match Located(proc.mem, moduleBase, pattern) case Some(a) => a case None => 0)
      ensures bDisabled <==> address == 0
      ensures bDisabled ==> this.code == None
      ensures !bDisabled ==> this.code == Some(code) && codeLen == |code|
      ensures !bDisabled ==> originalBytes[..|code|] == Read(proc.mem, address, |code|)
    {
      this.proc := proc;
      bStatus := false;
      bDisabled := true;
      address := 0;
      len := DEFAULT_LENGTH;
      originalBytes := new Byte[ORIGINAL_CAPACITY];
      detour := 0;
      this.code := None;
      codeLen := 0;
      new;
      Locate(moduleBase, pattern, |code|);
      if !bDisabled {
        this.code := Some(code);
        codeLen := |code|;
      }
    }

    /** What SetupHook needs: a detour hook whose page search succeeds with a free
        page of x64 user space, a trampoline that fits that page, and a mapped target. */
    predicate CanSetUp(info: SystemInfo, alloc: Allocator)
      reads this, proc, originalBytes
    {
      0 < info.minApplication && info.maxApplication < USER_SPACE_END && address < USER_SPACE_END &&
      code.Some? && originalBytes.Length == ORIGINAL_CAPACITY &&
      UsableLength(len, ORIGINAL_CAPACITY) && TrampolineFits(codeLen, len) &&
      Mapped(proc.mem, address, Longest(len)) &&
      var page := Search(Window(address, info), alloc, 1);
      page != 0 && page < USER_SPACE_END && PageFree(proc.mem, page)
    }

    /** The near-path writes: trampoline first, then the entry jump and the padding. */
    method WriteNear(d: int)
      requires Valid() && code.Some? && UsableLength(len, ORIGINAL_CAPACITY) && TrampolineFits(codeLen, len)
      requires Mapped(proc.mem, detour, PAGE_SIZE) && Mapped(proc.mem, address, len.relative)
      modifies proc
      ensures proc.mem == Overlay(Overlay(old(proc.mem), detour,
                NearTrampoline(code.value, originalBytes[..len.relative], d)), address, NearSite(d, len.relative))
    {
      var t := WriteNearTrampoline(proc, detour, code.value, originalBytes[..len.relative], d);
      WriteNearSite(proc, address, d, len.relative);
    }

    /** The far-path writes: trampoline first, then the entry jump built from the
        bytes now at the detour page, pop rax and the padding. */
    method WriteFar()
      requires Valid() && code.Some? && UsableLength(len, ORIGINAL_CAPACITY) && TrampolineFits(codeLen, len)
      requires Mapped(proc.mem, detour, PAGE_SIZE) && Mapped(proc.mem, address, len.absolute)
      modifies proc
      ensures var t := FarTrampoline(code.value, originalBytes[..len.absolute], Gateway(address, len.absolute));
        proc.mem == Overlay(Overlay(old(proc.mem), detour, t), address, FarSite(t[..8], len.absolute))
    {
      var t := WriteFarTrampoline(proc, detour, code.value, originalBytes[..len.absolute], Gateway(address, len.absolute));
      ReadOverlayPrefix(old(proc.mem), detour, t, 8);
      var head := Read(proc.mem, detour, 8);
      WriteFarSite(proc, address, head, len.absolute);
    }

    /** SetupHook: allocate the page near the target, then build the near or far detour. */
    method SetupHook(info: SystemInfo, alloc: Allocator)
      requires Valid() && CanSetUp(info, alloc)
      modifies this, proc
      ensures bStatus == old(bStatus) && bDisabled == old(bDisabled) && address == old(address)
      ensures len == old(len) && code == old(code) && codeLen == old(codeLen)
      ensures Valid() && detour == Search(Window(address, info), alloc, 1)
      ensures proc.mem == EnabledMem(old(proc.mem), address, detour, code.value, originalBytes[..], len)
    {
      ghost var m0 := proc.mem;
      ghost var original := originalBytes[..];
      detour := AllocateMemory(address, info, alloc);
      proc.Commit(detour);
      ghost var committed := proc.mem;
      var d := Distance(address, detour);
      assert original[..len.relative] == originalBytes[..len.relative];
      assert original[..len.absolute] == originalBytes[..len.absolute];
      if NearPathSafe(d, codeLen + len.relative) {
        WriteNear(d);
        EnabledMemNear(m0, committed, address, detour, code.value, original, len);
      } else {
        WriteFar();
        EnabledMemFar(m0, committed, address, detour, code.value, original, len);
      }
    }

    /** Enable: marks the hook on and, unless it is disabled, installs the detour. */
    method Enable(info: SystemInfo, alloc: Allocator)
      requires Valid() && (!bDisabled ==> CanSetUp(info, alloc))
      modifies this, proc
      ensures Valid() && bStatus
      ensures bDisabled == old(bDisabled) && address == old(address) && len == old(len)
      ensures code == old(code) && codeLen == old(codeLen)
      ensures bDisabled ==> proc.mem == old(proc.mem) && detour == old(detour)
      ensures !bDisabled ==> (detour == Search(Window(address, info), alloc, 1) &&
        proc.mem == EnabledMem(old(proc.mem), address, detour, code.value, originalBytes[..], len))
    {
      bStatus := true;
      if bDisabled {
        return;
      }
      SetupHook(info, alloc);
    }

    /** Disable: marks the hook off and, unless it is disabled, restores the target and
        frees the trampoline page. */
    method Disable()
      requires Valid() && (!bDisabled ==> Longest(len) <= ORIGINAL_CAPACITY && Mapped(proc.mem, address, Longest(len)))
      modifies this, proc
      ensures Valid() && !bStatus
      ensures bDisabled == old(bDisabled) && address == old(address) && len == old(len) && detour == old(detour)
      ensures code == old(code) && codeLen == old(codeLen)
      ensures proc.mem == if bDisabled then old(proc.mem)
        else DisabledMem(old(proc.mem), address, detour, originalBytes[..], len)
    {
      bStatus := false;
      if bDisabled {
        return;
      }
      var _ := proc.Patch(address, originalBytes[..Longest(len)], None);
      if detour != 0 {
        proc.mem := Release(proc.mem, detour);
      }
    }

    /** NopEnable: marks the hook on and NOPs out codeLen bytes at the target. */
    method NopEnable()
      requires Valid() && (!bDisabled ==> Mapped(proc.mem, address, codeLen))
      modifies this, proc
      ensures Valid() && bStatus
      ensures bDisabled == old(bDisabled) && address == old(address) && len == old(len) && detour == old(detour)
      ensures code == old(code) && codeLen == old(codeLen)
      ensures proc.mem == if bDisabled then old(proc.mem) else Overlay(old(proc.mem), address, AlignedNops(codeLen))
    {
      bStatus := true;
      if bDisabled {
        return;
      }
      proc.Nop(address, codeLen);
    }

    /** NopDisable: marks the hook off and copies codeLen snapshot bytes back. */
    method NopDisable()
      requires Valid() && (!bDisabled ==> codeLen <= ORIGINAL_CAPACITY && Mapped(proc.mem, address, codeLen))
      modifies this, proc
      ensures Valid() && !bStatus
      ensures bDisabled == old(bDisabled) && address == old(address) && len == old(len) && detour == old(detour)
      ensures code == old(code) && codeLen == old(codeLen)
      ensures proc.mem == if bDisabled then old(proc.mem) else Overlay(old(proc.mem), address, originalBytes[..codeLen])
    {
      bStatus := false;
      if bDisabled {
        return;
      }
      var _ := proc.Patch(address, originalBytes[..codeLen], None);
    }

    /** EnableOnlyRewrite: marks the hook on and copies the code over the target. */
    method EnableOnlyRewrite()
      requires Valid() && (!bDisabled ==> code.Some? && Mapped(proc.mem, address, codeLen))
      modifies this, proc
      ensures Valid() && bStatus
      ensures bDisabled == old(bDisabled) && address == old(address) && len == old(len) && detour == old(detour)
      ensures code == old(code) && codeLen == old(codeLen)
      ensures proc.mem == if bDisabled then old(proc.mem) else Overlay(old(proc.mem), address, code.value)
    {
      bStatus := true;
      if bDisabled {
        return;
      }
      var _ := proc.Patch(address, code.value, None);
    }

    /** DisableOnlyRewrite: marks the hook off and copies codeLen snapshot bytes back. */
    method DisableOnlyRewrite()
      requires Valid() && (!bDisabled ==> codeLen <= ORIGINAL_CAPACITY && Mapped(proc.mem, address, codeLen))
      modifies this, proc
      ensures Valid() && !bStatus
      ensures bDisabled == old(bDisabled) && address == old(address) && len == old(len) && detour == old(detour)
      ensures code == old(code) && codeLen == old(codeLen)
      ensures proc.mem == if bDisabled then old(proc.mem) else Overlay(old(proc.mem), address, originalBytes[..codeLen])
    {
      bStatus := false;
      if bDisabled {
        return;
      }
      var _ := proc.Patch(address, originalBytes[..codeLen], None);
    }

    /** ToggleOnlyRewrite: nothing at all on a disabled hook; otherwise flips bStatus
        through EnableOnlyRewrite or DisableOnlyRewrite. */
    method ToggleOnlyRewrite()
      requires Valid() && (!bDisabled ==> code.Some? && codeLen <= ORIGINAL_CAPACITY && Mapped(proc.mem, address, codeLen))
      modifies this, proc
      ensures Valid() && bDisabled == old(bDisabled) && address == old(address) && code == old(code) && codeLen == old(codeLen)
      ensures len == old(len) && detour == old(detour)
      ensures bDisabled ==> bStatus == old(bStatus) && proc.mem == old(proc.mem)
      ensures !bDisabled ==> (bStatus == !old(bStatus) && proc.mem ==
        Overlay(old(proc.mem), address, if bStatus then code.value else originalBytes[..codeLen]))
    {
      if bDisabled {
        return;
      }
      if !bStatus {
        EnableOnlyRewrite();
      } else {
        DisableOnlyRewrite();
      }
    }

    /** NopToggle: nothing at all on a disabled hook; otherwise flips bStatus through
        NopEnable or NopDisable. */
    method NopToggle()
      requires Valid() && (!bDisabled ==> codeLen <= ORIGINAL_CAPACITY && Mapped(proc.mem, address, codeLen))
      modifies this, proc
      ensures Valid() && bDisabled == old(bDisabled) && address == old(address) && codeLen == old(codeLen)
      ensures len == old(len) && detour == old(detour) && code == old(code)
      ensures bDisabled ==> bStatus == old(bStatus) && proc.mem == old(proc.mem)
      ensures !bDisabled ==> (bStatus == !old(bStatus) && proc.mem ==
        Overlay(old(proc.mem), address, if bStatus then AlignedNops(codeLen) else originalBytes[..codeLen]))
    {
      if bDisabled {
        return;
      }
      if !bStatus {
        NopEnable();
      } else {
        NopDisable();
      }
    }

    /** Toggle: nothing at all on a disabled hook; otherwise Enable when off, Disable when on. */
    method Toggle(info: SystemInfo, alloc: Allocator)
      requires Valid()
      requires !bDisabled && !bStatus ==> CanSetUp(info, alloc)
      requires !bDisabled && bStatus ==> Longest(len) <= ORIGINAL_CAPACITY && Mapped(proc.mem, address, Longest(len))
      modifies this, proc
      ensures Valid() && bDisabled == old(bDisabled) && address == old(address) && len == old(len)
      ensures code == old(code) && codeLen == old(codeLen)
      ensures bDisabled ==> bStatus == old(bStatus) && proc.mem == old(proc.mem) && detour == old(detour)
      ensures !bDisabled && bStatus ==> (!old(bStatus) && detour == Search(Window(address, info), alloc, 1) &&
        proc.mem == EnabledMem(old(proc.mem), address, detour, code.value, originalBytes[..], len))
      ensures !bDisabled && !bStatus ==> (old(bStatus) && detour == old(detour) &&
        proc.mem == DisabledMem(old(proc.mem), address, detour, originalBytes[..], len))
    {
      if bDisabled {
        return;
      }
      if !bStatus {
        Enable(info, alloc);
      } else {
        Disable();
      }
    }
  }
}
