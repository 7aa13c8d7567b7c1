/** The byte-level primitives of include/Mem/mem.cpp: multi-byte NOP padding,
    the two jump encodings, raw writes into process memory, and the outward
    page search used to place a trampoline. */
module MemPrimitives {
  import opened Machine

  // ---------------------------------------------------------------------------
  // Multi-byte NOPs
  // ---------------------------------------------------------------------------

  /** The recommended x86 NOP instruction of each length from 1 to 9 bytes. */
  function NopOfLength(len: nat): (r: seq<Byte>)
    requires 1 <= len <= 9
    ensures |r| == len
  {
    seq(len, i requires 0 <= i < len => NopByte(len, i))
  }

  function NopByte(len: nat, i: nat): Byte
    requires 1 <= len <= 9 && i < len
  {
    if len == 9 then [0x66, 0x0F, 0x1F, 0x84, 0x00, 0x00, 0x00, 0x00, 0x00][i]
    else if len == 8 then [0x0F, 0x1F, 0x84, 0x00, 0x00, 0x00, 0x00, 0x00][i]
    else if len == 7 then [0x0F, 0x1F, 0x80, 0x00, 0x00, 0x00, 0x00][i]
    else if len == 6 then [0x66, 0x0F, 0x1F, 0x44, 0x00, 0x00][i]
    else if len == 5 then [0x0F, 0x1F, 0x44, 0x00, 0x00][i]
    else if len == 4 then [0x0F, 0x1F, 0x40, 0x00][i]
    else if len == 3 then [0x0F, 0x1F, 0x00][i]
    else if len == 2 then [0x66, 0x90][i]
    else 0x90
  }
  /** count copies of the 9-byte NOP. */
  function Nop9s(count: nat): (r: seq<Byte>)
    ensures |r| == 9 * count
  {
    if count == 0 then [] else NopOfLength(9) + Nop9s(count - 1)
  }

  /** The padding FillWithAlignedNOPs lays down over n bytes: as many 9-byte NOPs
      as fit, then one NOP covering the remainder, if any. */
  function AlignedNops(n: nat): (r: seq<Byte>)
    ensures |r| == n
  {
    Nop9s(n / 9) + (if n % 9 == 0 then [] else NopOfLength(n % 9))
  }

  /** The copy of the 9-byte NOP that starts at offset 9j of a run of them. */
  lemma {:induction false} Nop9sSlice(count: nat, j: nat)
    requires j < count
    ensures Nop9s(count)[9 * j..9 * j + 9] == NopOfLength(9)
  {
    if j > 0 {
      Nop9sSlice(count - 1, j - 1);
      assert Nop9s(count)[9 * j..9 * j + 9] == Nop9s(count - 1)[9 * (j - 1)..9 * (j - 1) + 9];
    }
  }

  /** The length of the NOP instruction a decoder finds at the start of s, if s starts with one. */
  function DecodeNop(s: seq<Byte>): (r: Option<nat>)
    ensures r.Some? ==> 1 <= r.value <= |s| && r.value <= 9 && s[..r.value] == NopOfLength(r.value)
  {
    DecodeNopUpTo(s, 9)
  }

  /** The longest NOP form of at most max bytes that s starts with. */
  function DecodeNopUpTo(s: seq<Byte>, max: nat): (r: Option<nat>)
    requires max <= 9
    ensures r.Some? ==> 1 <= r.value <= |s| && r.value <= max && s[..r.value] == NopOfLength(r.value)
  {
    if max == 0 then None
    else if |s| >= max && s[..max] == NopOfLength(max) then Some(max)
    else DecodeNopUpTo(s, max - 1)
  }

  /** s decodes, instruction by instruction, as NOPs that end exactly at its end. */
  predicate DecodesAsNops(s: seq<Byte>)
    decreases |s|
  {
    s == [] || (DecodeNop(s).Some? && DecodesAsNops(s[DecodeNop(s).value..]))
  }

  /** No NOP form is a prefix of a longer one. */
  lemma NopFormsPrefixFree()
    ensures forall m, l :: 1 <= l < m <= 9 ==> NopOfLength(m)[..l] != NopOfLength(l)
  {
    forall m, l | 1 <= l < m <= 9
      ensures NopOfLength(m)[..l] != NopOfLength(l)
    {
      NopPrefixDiffers(m, l);
    }
  }

  lemma NopPrefixDiffers(m: nat, l: nat)
    requires 1 <= l < m <= 9
    ensures NopOfLength(m)[..l] != NopOfLength(l)
  {
    var p := NopOfLength(m)[..l];
    if l == 1 {
      assert p[0] != NopOfLength(l)[0];
    } else if l == 2 {
      assert p[0] != NopOfLength(l)[0] || p[1] != NopOfLength(l)[1];
    } else if l == 6 {
      assert p[0] != NopOfLength(l)[0] || p[3] != NopOfLength(l)[3];
    } else {
      assert p[0] != NopOfLength(l)[0] || p[2] != NopOfLength(l)[2];
    }
  }

  /** A decoder reading one NOP form, whatever follows it, sees exactly that form. */
  lemma {:induction false} DecodeNopForm(len: nat, rest: seq<Byte>, max: nat)
    requires 1 <= len <= max <= 9
    ensures DecodeNopUpTo(NopOfLength(len) + rest, max) == Some(len)
  {
    var s := NopOfLength(len) + rest;
    if max == len {
      assert s[..len] == NopOfLength(len);
    } else {
      if |s| >= max {
        assert s[..max][..len] == NopOfLength(len);
        NopPrefixDiffers(max, len);
        assert s[..max] != NopOfLength(max);
      }
      assert DecodeNopUpTo(s, max) == DecodeNopUpTo(s, max - 1);
      DecodeNopForm(len, rest, max - 1);
    }
  }

  /** The padding decodes as a whole number of NOP instructions, with no overrun past n bytes. */
  lemma {:induction false} AlignedNopsDecode(n: nat)
    ensures DecodesAsNops(AlignedNops(n))
  {
    var tail := if n % 9 == 0 then [] else NopOfLength(n % 9);
    if n % 9 != 0 {
      ConsNop(n % 9, []);
      assert tail == NopOfLength(n % 9) + [];
    }
    Nop9sDecode(n / 9, tail);
  }

  /** Putting one NOP in front of a stream of NOPs gives a stream of NOPs. */
  lemma ConsNop(len: nat, t: seq<Byte>)
    requires 1 <= len <= 9
    requires DecodesAsNops(t)
    ensures DecodesAsNops(NopOfLength(len) + t)
  {
    var s := NopOfLength(len) + t;
    DecodeNopForm(len, t, 9);
    assert s[len..] == t;
  }

  lemma AppendAssoc(a: seq<Byte>, b: seq<Byte>, c: seq<Byte>)
    ensures (a + b) + c == a + (b + c)
  {
  }

  lemma {:induction false} Nop9sDecode(count: nat, tail: seq<Byte>)
    requires DecodesAsNops(tail)
    ensures DecodesAsNops(Nop9s(count) + tail)
  {
    if count == 0 {
      assert Nop9s(count) + tail == tail;
    } else {
      var rest := Nop9s(count - 1) + tail;
      Nop9sDecode(count - 1, tail);
      ConsNop(9, rest);
      AppendAssoc(NopOfLength(9), Nop9s(count - 1), tail);
    }
  }

  /** memcpy(buf + at, data, |data|). */
  method CopyInto(buf: array<Byte>, at: nat, data: seq<Byte>)
    requires at + |data| <= buf.Length
    modifies buf
    ensures forall i :: 0 <= i < buf.Length ==>
      buf[i] == if at <= i < at + |data| then data[i - at] else old(buf[i])
  {
    forall j | 0 <= j < |data| {
      buf[at + j] := data[j];
    }
  }

  /** Where the greedy fill stands while it lays down the NOP of length 9 - k: with the
      9-byte form it has written only whole 9-byte NOPs; after it, either exactly the
      9-byte run with a remainder still shorter than the forms tried so far, or everything. */
  predicate FillStage(n: nat, k: nat, offset: nat)
  {
    offset <= n &&
    (k == 0 ==> offset % 9 == 0 && offset <= n - n % 9) &&
    (k > 0 ==> (offset == n - n % 9 && n % 9 < 10 - k) || offset == n)
  }

  /** One more NOP of length 9 - k fits: it is the next piece of the padding. */
  lemma FillStep(n: nat, k: nat, offset: nat)
    requires k < 9 && FillStage(n, k, offset) && n - offset >= 9 - k
    ensures offset + (9 - k) <= n
    ensures forall i :: offset <= i < offset + (9 - k) ==> AlignedNops(n)[i] == NopOfLength(9 - k)[i - offset]
    ensures FillStage(n, k, offset + (9 - k))
  {
    if k == 0 {
      var head := Nop9s(n / 9);
      var tail := if n % 9 == 0 then [] else NopOfLength(n % 9);
      assert AlignedNops(n) == head + tail;
      assert 9 * (offset / 9) == offset;
      assert offset / 9 < n / 9;
      Nop9sSlice(n / 9, offset / 9);
      forall i | offset <= i < offset + 9
        ensures AlignedNops(n)[i] == NopOfLength(9)[i - offset]
      {
        assert (head + tail)[i] == head[i] == head[offset..offset + 9][i - offset];
      }
    } else {
      assert n % 9 == 9 - k;
      var head, tail := Nop9s(n / 9), NopOfLength(9 - k);
      assert AlignedNops(n) == head + tail;
      assert |head| == offset;
      forall i | offset <= i < offset + (9 - k)
        ensures AlignedNops(n)[i] == NopOfLength(9 - k)[i - offset]
      {
        assert (head + tail)[i] == tail[i - offset];
      }
    }
  }

  /** No NOP of length 9 - k fits any more: the fill is ready for the next shorter form. */
  lemma FillNext(n: nat, k: nat, offset: nat)
    requires k < 9 && FillStage(n, k, offset) && n - offset < 9 - k
    ensures FillStage(n, k + 1, offset)
  {
  }

  lemma FillDone(n: nat, offset: nat)
    requires FillStage(n, 9, offset)
    ensures offset == n
  {
  }

  /** FillWithAlignedNOPs: writes n bytes of padding at buf[start..], taking each NOP
      form from the longest down and repeating it while it still fits. */
  method FillWithAlignedNops(buf: array<Byte>, start: nat, n: nat)
    requires start + n <= buf.Length
    modifies buf
    ensures buf[start..start + n] == AlignedNops(n)
    ensures forall i :: 0 <= i < buf.Length && !(start <= i < start + n) ==> buf[i] == old(buf[i])
  {
    ghost var pad := AlignedNops(n);
    var offset: nat := 0;
    for k := 0 to 9
      invariant FillStage(n, k, offset)
      invariant forall i :: 0 <= i < buf.Length ==>
        buf[i] == if start <= i < start + offset then pad[i - start] else old(buf[i])
    {
      var nop := NopOfLength(9 - k);
      while n - offset >= |nop|
        invariant FillStage(n, k, offset)
        invariant forall i :: 0 <= i < buf.Length ==>
          buf[i] == if start <= i < start + offset then pad[i - start] else old(buf[i])
        decreases n - offset
      {
        FillStep(n, k, offset);
        CopyInto(buf, start + offset, nop);
        offset := offset + |nop|;
      }
      FillNext(n, k, offset);
    }
    FillDone(n, offset);
    assert buf[start..start + n] == pad by {
      forall j | 0 <= j < n
        ensures buf[start..start + n][j] == pad[j]
      {
        assert buf[start + j] == pad[j];
      }
    }
  }

  // ---------------------------------------------------------------------------
  // Byte patterns ("48 8B ?? 05") and the signature scan
  // ---------------------------------------------------------------------------

  /** A NUL-terminated C string: every character is a non-NUL 8-bit char; the
      terminator sits just past the last character. */
  predicate IsCString(s: string)
  {
    forall i :: 0 <= i < |s| ==> 0 < s[i] as int < 256
  }

  /** A char (signed on MSVC) promoted to int. */
  function SignedChar(c: char): (r: int)
    requires c as int < 256
    ensures -128 <= r < 128
  {
    if c as int < 128 then c as int else c as int - 256
  }

  /** x & ~0x20 on a two's-complement int: clears bit 5. */
  function ClearBit5(x: int): int
  {
    if x % 64 >= 32 then x - 32 else x
  }

  /** The getBits macro: a decimal digit's value, otherwise the letter folded to upper
      case minus 'A' plus 10 (no check that it is a hex letter). */
  function GetBits(c: char): int
    requires c as int < 256
  {
    var x := SignedChar(c);
    if '0' as int <= x <= '9' as int then x - '0' as int
    else ClearBit5(x) - 'A' as int + 0xA
  }

  /** The getByte macro stored into a BYTE: getBits(hi) << 4 | getBits(lo), of which the
      BYTE keeps the low 8 bits (high nibble: hi's low nibble OR lo's bits 4..7). */
  function GetByte(hi: char, lo: char): Byte
    requires hi as int < 256 && lo as int < 256
  {
    var l := GetBits(lo) % 256;
    16 * BitOr(GetBits(hi) % 16, l / 16, 4) + l % 16
  }

  predicate IsHexDigit(c: char)
  {
    '0' <= c <= '9' || 'a' <= c <= 'f' || 'A' <= c <= 'F'
  }

  function HexValue(c: char): (r: nat)
    requires IsHexDigit(c)
    ensures r < 16
  {
    if '0' <= c <= '9' then c as int - '0' as int
    else if 'a' <= c <= 'f' then c as int - 'a' as int + 10
    else c as int - 'A' as int + 10
  }

  lemma GetBitsHex(c: char)
    requires IsHexDigit(c)
    ensures GetBits(c) == HexValue(c)
  {
  }

  /** Two hex digits, in either case, give the byte they spell. */
  lemma GetByteHex(hi: char, lo: char)
    requires IsHexDigit(hi) && IsHexDigit(lo)
    ensures GetByte(hi, lo) == 16 * HexValue(hi) + HexValue(lo)
  {
    var a, b := HexValue(hi), HexValue(lo);
    GetBitsHex(hi);
    GetBitsHex(lo);
    assert GetBits(lo) % 256 == b && b / 16 == 0 && b % 16 == b;
    assert GetBits(hi) % 16 == a;
    assert Pow2(4) == 16;
    BitOrZero(a, 4);
  }

  /** One parsed signature element: the byte to compare and whether it is compared
      (false for a ? wildcard, whose stored byte is 0). */
  datatype PatternByte = PatternByte(value: Byte, significant: bool)

  function Cons(b: PatternByte, rest: Option<seq<PatternByte>>): Option<seq<PatternByte>>
  {
    if rest.Some? then Some([b] + rest.value) else None
  }

  /** One step of the parsing loop of PatternScanEx at index i of pattern text s: an
      optional space, then a ? (or ??) wildcard or two hex digits. Gives the element and
      the index after it; None when the step would read past the terminating NUL (a
      hex byte cut short by the end of the text, or a space as the last character). */
  function Token(s: string, i: nat): (r: Option<(PatternByte, nat)>)
    requires IsCString(s) && i < |s|
    ensures r.Some? ==> i < r.value.1 <= |s|
  {
    var j := if s[i] == ' ' then i + 1 else i;
    if j < |s| && s[j] == '?' then
      Some((PatternByte(0, false), if j + 1 < |s| && s[j + 1] == '?' then j + 2 else j + 1))
    else if j + 2 <= |s| then
      Some((PatternByte(GetByte(s[j], s[j + 1]), true), j + 2))
    else
      None
  }

  /** The signature the parsing loop builds from index i on, or None if it would run
      past the terminator. */
  function ParseFrom(s: string, i: nat): (r: Option<seq<PatternByte>>)
    requires IsCString(s) && i <= |s|
    ensures r.Some? ==> |r.value| <= |s| - i
    decreases |s| - i
  {
    if i == |s| then Some([])
    else
      var t := Token(s, i);
      if t.None? then None
      else
        var rest := ParseFrom(s, t.value.1);
        if rest.None? then None else Some([t.value.0] + rest.value)
  }

  function Parse(s: string): Option<seq<PatternByte>>
    requires IsCString(s)
  {
    ParseFrom(s, 0)
  }

  function Zip(bytes: seq<Byte>, mask: seq<bool>): (r: seq<PatternByte>)
    requires |bytes| == |mask|
    ensures |r| == |bytes|
    ensures forall k :: 0 <= k < |r| ==> r[k] == PatternByte(bytes[k], mask[k])
  {
    seq(|bytes|, k requires 0 <= k < |bytes| => PatternByte(bytes[k], mask[k]))
  }

  /** Appending one element to both buffers appends it to the signature they hold. */
  lemma ZipSnoc(bytes: seq<Byte>, mask: seq<bool>, b: Byte, significant: bool)
    requires |bytes| == |mask|
    ensures Zip(bytes + [b], mask + [significant]) == Zip(bytes, mask) + [PatternByte(b, significant)]
  {
  }

  /** A successful parse from i is the token at i followed by the parse after it. */
  lemma ParseStep(s: string, i: nat, done: seq<PatternByte>, all: seq<PatternByte>)
    requires IsCString(s) && i < |s|
    requires ParseFrom(s, i).Some? && done + ParseFrom(s, i).value == all
    ensures Token(s, i).Some? && ParseFrom(s, Token(s, i).value.1).Some?
    ensures (done + [Token(s, i).value.0]) + ParseFrom(s, Token(s, i).value.1).value == all
  {
    var t := Token(s, i).value;
    assert ParseFrom(s, i).value == [t.0] + ParseFrom(s, t.1).value;
  }

  /** The parsing loop of PatternScanEx: fills the byte and mask buffers and counts nBytes. */
  method ParsePattern(s: string) returns (bytes: seq<Byte>, mask: seq<bool>)
    requires IsCString(s) && Parse(s).Some?
    ensures |bytes| == |mask|
    ensures Zip(bytes, mask) == Parse(s).value
  {
    bytes, mask := [], [];
    var i := 0;
    while i < |s|
      invariant i <= |s| && |bytes| == |mask|
      invariant ParseFrom(s, i).Some?
      invariant Zip(bytes, mask) + ParseFrom(s, i).value == Parse(s).value
      decreases |s| - i
    {
      ParseStep(s, i, Zip(bytes, mask), Parse(s).value);
      var b, significant, next := ReadToken(s, i);
      ZipSnoc(bytes, mask, b, significant);
      bytes, mask, i := bytes + [b], mask + [significant], next;
    }
  }

  /** One pass of the parsing loop: skip a space, then read "?" or "??" as a wildcard
      or two hex digits as a byte. */
  method ReadToken(s: string, start: nat) returns (b: Byte, significant: bool, next: nat)
    requires IsCString(s) && start < |s| && Token(s, start).Some?
    ensures (PatternByte(b, significant), next) == Token(s, start).value
  {
    var i := start;
    if s[i] == ' ' {
      i := i + 1;
    }
    if i < |s| && s[i] == '?' {
      i := i + 1;
      if i < |s| && s[i] == '?' {
        i := i + 1;
      }
      b, significant := 0, false;
    } else {
      b, significant := GetByte(s[i], s[i + 1]), true;
      i := i + 2;
    }
    next := i;
  }

  /** The test the scan loop makes at offset n: the first and the last byte compared
      exactly, every later byte compared unless it is a wildcard. */
  predicate ScanHit(image: seq<Byte>, sig: seq<PatternByte>, n: nat)
    requires 1 <= |sig| && n + |sig| <= |image|
  {
    image[n] == sig[0].value &&
    image[n + |sig| - 1] == sig[|sig| - 1].value &&
    forall pos :: 1 <= pos < |sig| ==> image[n + pos] == sig[pos].value || !sig[pos].significant
  }

  /** The lowest offset from `from` on at which the scan loop reports a hit. */
  function FirstHit(image: seq<Byte>, sig: seq<PatternByte>, from: nat): (r: Option<nat>)
    requires 1 <= |sig| <= |image|
    ensures r.Some? ==> from <= r.value && r.value + |sig| <= |image| && ScanHit(image, sig, r.value)
    ensures r.Some? ==> forall m :: from <= m < r.value ==> !ScanHit(image, sig, m)
    ensures r.None? ==> forall m :: from <= m && m + |sig| <= |image| ==> !ScanHit(image, sig, m)
    decreases |image| - from
  {
    if from + |sig| > |image| then None
    else if ScanHit(image, sig, from) then Some(from)
    else FirstHit(image, sig, from + 1)
  }

  /** What the pattern syntax promises: every non-wildcard byte matches. */
  predicate WildcardMatch(image: seq<Byte>, sig: seq<PatternByte>, n: nat)
    requires n + |sig| <= |image|
  {
    forall pos :: 0 <= pos < |sig| ==> sig[pos].significant ==> image[n + pos] == sig[pos].value
  }

  /** The scan's hit is the wildcard match, except that a wildcard as first or last
      element is compared with 0 like any other byte. */
  lemma ScanHitIsWildcardMatch(image: seq<Byte>, sig: seq<PatternByte>, n: nat)
    requires 1 <= |sig| && n + |sig| <= |image|
    ensures ScanHit(image, sig, n) <==>
      WildcardMatch(image, sig, n) && image[n] == sig[0].value && image[n + |sig| - 1] == sig[|sig| - 1].value
  {
    if WildcardMatch(image, sig, n) && image[n] == sig[0].value && image[n + |sig| - 1] == sig[|sig| - 1].value {
      assert ScanHit(image, sig, n);
    }

  }

  /** A pattern that starts with a wildcard only ever hits where the image holds 0. */
  lemma LeadingWildcardNeedsZero(image: seq<Byte>, sig: seq<PatternByte>, n: nat)
    requires 1 <= |sig| && n + |sig| <= |image|
    requires !sig[0].significant && sig[0].value == 0
    requires ScanHit(image, sig, n)
    ensures image[n] == 0
  {
  }

  /** The wildcard signature "?? 90" does not hit the bytes 55 90, though every
      significant byte matches: the wildcard in front is compared with 0. */
  lemma LeadingWildcardMissesExample()
    ensures var sig := [PatternByte(0, false), PatternByte(0x90, true)];
      WildcardMatch([0x55, 0x90], sig, 0) && !ScanHit([0x55, 0x90], sig, 0)
  {
  }

  /** A pattern the scan accepts: it parses without running past its terminator and
      yields between 1 and size elements (an empty pattern, or one longer than the
      region, makes the scan index outside its buffers). */
  predicate Scannable(pattern: string, size: nat)
  {
    IsCString(pattern) && Parse(pattern).Some? && 1 <= |Parse(pattern).value| <= size
  }

  /** Offset of the first hit of a scannable pattern in image. */
  function ScanResult(image: seq<Byte>, pattern: string): Option<nat>
    requires Scannable(pattern, |image|)
  {
    FirstHit(image, Parse(pattern).value, 0)
  }

  /** An address when the offset is a hit, null (None) otherwise. */
  function AtBase(base: nat, offset: Option<nat>): (r: Option<nat>)
    ensures r.Some? <==> offset.Some?
    ensures r.Some? ==> r.value == base + offset.value
  {
    if offset.Some? then Some(base + offset.value) else None
  }

  /** PatternScanEx: parses the pattern, then walks the size bytes at base and returns
      the address of the first hit. */
  method PatternScanEx(m: Mem, base: nat, size: nat, pattern: string) returns (r: Option<nat>)
    requires size < TWO_32 && Mapped(m, base, size)
    requires Scannable(pattern, size)
    ensures r == AtBase(base, ScanResult(Read(m, base, size), pattern))
  {
    ghost var image := Read(m, base, size);
    ghost var sig := Parse(pattern).value;
    var bytes, mask := ParsePattern(pattern);
    var nBytes := |bytes|;
    assert forall k :: 0 <= k < nBytes ==> bytes[k] == sig[k].value && mask[k] == sig[k].significant;
    var n := 0;
    while n <= size - nBytes
      invariant n <= size - nBytes + 1
      invariant FirstHit(image, sig, 0) == FirstHit(image, sig, n)
      decreases size - n
    {
      var hit := MatchesAt(m, base, image, sig, bytes, mask, n);
      if hit {
        return Some(base + n);
      }
      n := n + 1;
    }
    return None;
  }

  /** The body of the scan loop at offset n: the first and the last byte, then the
      bytes between them unless masked out. */
  method MatchesAt(m: Mem, base: nat, ghost image: seq<Byte>, ghost sig: seq<PatternByte>,
                   bytes: seq<Byte>, mask: seq<bool>, n: nat) returns (hit: bool)
    requires Mapped(m, base, |image|) && image == Read(m, base, |image|)
    requires 1 <= |sig| && n + |sig| <= |image| && |bytes| == |sig| && |mask| == |sig|
    requires forall k :: 0 <= k < |sig| ==> bytes[k] == sig[k].value && mask[k] == sig[k].significant
    ensures hit == ScanHit(image, sig, n)
  {
    var nBytes := |bytes|;
    if m[base + n] != bytes[0] || m[base + n + nBytes - 1] != bytes[nBytes - 1] {
      return false;
    }
    var pos := 1;
    while pos < nBytes && (m[base + n + pos] == bytes[pos] || !mask[pos])
      invariant 1 <= pos <= nBytes
      invariant forall q :: 1 <= q < pos ==> image[n + q] == sig[q].value || !sig[q].significant
    {
      pos := pos + 1;
    }
    return pos == nBytes;
  }

  /** IMAGE_DOS_HEADER::e_lfanew, the offset of the NT headers. */
  const E_LFANEW_OFFSET: nat := 0x3C
  /** IMAGE_NT_HEADERS64::OptionalHeader.SizeOfImage: 4 (signature) + 20 (file header) + 56. */
  const SIZE_OF_IMAGE_OFFSET: nat := 0x50

  /** The SizeOfImage field of the module loaded at base, or None when reading the
      headers would fault. */
  function SizeOfImage(m: Mem, base: nat): Option<nat>
  {
    if !Mapped(m, base + E_LFANEW_OFFSET, 4) then None
    else
      var nt := base + SignExtend32(ReadU32(m, base + E_LFANEW_OFFSET));
      if nt < 0 || !Mapped(m, nt + SIZE_OF_IMAGE_OFFSET, 4) then None
      else Some(ReadU32(m, nt + SIZE_OF_IMAGE_OFFSET))
  }

  /** The module at base can be scanned: its headers can be read and the whole image is mapped. */
  predicate ScannableModule(m: Mem, base: nat)
  {
    SizeOfImage(m, base).Some? && Mapped(m, base, SizeOfImage(m, base).value)
  }

  /** The image bytes of the module at base. */
  function ModuleImage(m: Mem, base: nat): (r: seq<Byte>)
    requires ScannableModule(m, base)
    ensures |r| == SizeOfImage(m, base).value
  {
    Read(m, base, SizeOfImage(m, base).value)
  }

  /** PatternScan(hModule, pattern): scans the module's whole image. */
  method PatternScan(m: Mem, base: nat, pattern: string) returns (r: Option<nat>)
    requires ScannableModule(m, base)
    requires Scannable(pattern, SizeOfImage(m, base).value)
    ensures r == AtBase(base, ScanResult(ModuleImage(m, base), pattern))
  {
    var size := SizeOfImage(m, base).value;
    r := PatternScanEx(m, base, size, pattern);
  }

  /** The first of the patterns, in order, that hits anywhere in image, at its first hit. */
  function FirstPatternHit(image: seq<Byte>, patterns: seq<string>): Option<nat>
    requires forall i :: 0 <= i < |patterns| ==> Scannable(patterns[i], |image|)
  {
    if patterns == [] then None
    else if ScanResult(image, patterns[0]).Some? then ScanResult(image, patterns[0])
    else FirstPatternHit(image, patterns[1..])
  }

  /** The multi-pattern result is the result of some pattern all of whose predecessors
      miss; no result means every pattern misses. */
  lemma {:induction false} FirstPatternHitSpec(image: seq<Byte>, patterns: seq<string>)
    requires forall i :: 0 <= i < |patterns| ==> Scannable(patterns[i], |image|)
    ensures FirstPatternHit(image, patterns).Some? ==>
      exists i :: 0 <= i < |patterns| && ScanResult(image, patterns[i]) == FirstPatternHit(image, patterns) &&
        forall j :: 0 <= j < i ==> ScanResult(image, patterns[j]).None?
    ensures FirstPatternHit(image, patterns).None? ==>
      forall i :: 0 <= i < |patterns| ==> ScanResult(image, patterns[i]).None?
  {
    if patterns != [] && ScanResult(image, patterns[0]).None? {
      var rest := patterns[1..];
      FirstPatternHitSpec(image, rest);
      assert forall i :: 1 <= i < |patterns| ==> patterns[i] == rest[i - 1];
      if FirstPatternHit(image, rest).Some? {
        var i :| 0 <= i < |rest| && ScanResult(image, rest[i]) == FirstPatternHit(image, rest) &&
          forall j :: 0 <= j < i ==> ScanResult(image, rest[j]).None?;
        assert ScanResult(image, patterns[i + 1]) == FirstPatternHit(image, patterns);
      }
    }
  }

  /** PatternScan(hModule, patterns): tries each pattern in turn and returns the first hit. */
  method PatternScanAny(m: Mem, base: nat, patterns: seq<string>) returns (r: Option<nat>)
    requires ScannableModule(m, base)
    requires forall i :: 0 <= i < |patterns| ==> Scannable(patterns[i], SizeOfImage(m, base).value)
    ensures r == AtBase(base, FirstPatternHit(ModuleImage(m, base), patterns))
  {
    ghost var image := ModuleImage(m, base);
    for i := 0 to |patterns|
      invariant FirstPatternHit(image, patterns) == FirstPatternHit(image, patterns[i..])
    {
      assert patterns[i..][1..] == patterns[i + 1..];
      var address := PatternScan(m, base, patterns[i]);
      if address.Some? {
        return address;
      }
    }
    return None;
  }

  // ---------------------------------------------------------------------------
  // Jump encodings
  // ---------------------------------------------------------------------------

  /** RelativeJump's five bytes: jmp rel32 (E9) followed by the low four bytes of distance. */
  function RelJumpBytes(distance: Word): (r: seq<Byte>)
    ensures |r| == 5
  {
    [0xE9] + LE(distance, 8)[..4]
  }

  /** Where a jmp rel32 placed at src lands. */
  function RelJumpTarget(src: int, code: seq<Byte>): int
    requires |code| == 5
  {
    FromLEBound(code[1..]);
    assert Pow256(4) == TWO_32;
    src + 5 + SignExtend32(FromLE(code[1..]))
  }

  /** A jmp rel32 keeps only the low 32 bits of the distance it is given: it lands
      src + 5 + that value read as a signed 32-bit number. */
  lemma RelJumpKeepsLowDword(src: int, x: int)
    ensures RelJumpTarget(src, RelJumpBytes(Wrap64(x))) == src + 5 + SignExtend32(Wrap32(x))
  {
    var w := Wrap64(x);
    LEPrefix(w, 8, 4);
    assert RelJumpBytes(w)[1..] == LE(w, 4);
    var r, q := w % TWO_32, w / TWO_32;
    assert Pow256(4) == TWO_32;
    assert w == r + Pow256(4) * q;
    LEShift(r, q, 4);
    FromLEOfLE(r, 4);
    ModOfWrap64(x);
  }

  /** Truncating to 64 and then to 32 bits is truncating to 32 bits. */
  lemma ModOfWrap64(x: int)
    ensures Wrap64(x) % TWO_32 == Wrap32(x)
  {
    var a := x / TWO_64;
    assert x == TWO_64 * a + Wrap64(x);
    assert TWO_64 * a == TWO_32 * (TWO_32 * a);
    ModAddMultiple(Wrap64(x), TWO_32 * a);
  }

  lemma ModAddMultiple(w: int, k: int)
    ensures (w + TWO_32 * k) % TWO_32 == w % TWO_32
  {
  }

  /** A distance computed as the uintptr_t target - src - 5 is carried into the jump
      exactly when it fits in 32 signed bits: the jump then lands on target. */
  lemma RelJumpReaches(src: int, target: int)
    requires FitsInt32(target - src - 5)
    ensures RelJumpBytes(Wrap64(target - src - 5))[0] == 0xE9
    ensures RelJumpTarget(src, RelJumpBytes(Wrap64(target - src - 5))) == target
  {
    RelJumpKeepsLowDword(src, target - src - 5);
    SignExtendWrap32(target - src - 5);
  }

  /** AbsoluteJump's thirteen bytes: push rax; mov rax, imm64; jmp rax, where imm64 is
      the eight bytes found at pDestination. */
  function AbsJumpBytes(destination: seq<Byte>): (r: seq<Byte>)
    requires |destination| == 8
    ensures |r| == ABS_JUMP_SIZE
  {
    [0x50, 0x48, 0xB8] + destination + [0xFF, 0xE0]
  }

  const ABS_JUMP_SIZE: nat := 13

  /** The address an AbsoluteJump transfers to: the imm64 of its mov rax. */
  function AbsJumpTarget(code: seq<Byte>): nat
    requires |code| == ABS_JUMP_SIZE
  {
    FromLE(code[3..11])
  }

  /** The jump is push rax / mov rax / jmp rax, and lands on the 64-bit value stored
      at pDestination (not on pDestination itself). */
  lemma AbsJumpReaches(destination: seq<Byte>)
    requires |destination| == 8
    ensures AbsJumpBytes(destination)[..3] == [0x50, 0x48, 0xB8]
    ensures AbsJumpBytes(destination)[11..] == [0xFF, 0xE0]
    ensures LE(AbsJumpTarget(AbsJumpBytes(destination)), 8) == destination
  {
    assert AbsJumpBytes(destination)[3..11] == destination;
    LEOfFromLE(destination);
  }

  /** *nWritten += n when the counter pointer is non-null. */
  function Advance(nWritten: Option<nat>, n: nat): (r: Option<nat>)
    ensures r.Some? <==> nWritten.Some?
    ensures r.Some? ==> r.value == nWritten.value + n
  {
    if nWritten.Some? then Some(nWritten.value + n) else None
  }

  // ---------------------------------------------------------------------------
  // Writing into process memory
  // ---------------------------------------------------------------------------

  /** The memory of a process, as the mem:: helpers see it. Protection changes
      around a write are not represented: every write below restores the old
      protection, so only the bytes change. */
  class Process {
    var mem: Mem

    constructor(initial: Mem)
      ensures mem == initial
    {
      mem := initial;
    }

    /** mem::Write: memcpy into the process, counting the bytes written. */
    method Write(address: nat, data: seq<Byte>, nWritten: Option<nat>) returns (written: Option<nat>)
      requires Mapped(mem, address, |data|)
      modifies this
      ensures mem == Overlay(old(mem), address, data) && mem.Keys == old(mem).Keys
      ensures written == Advance(nWritten, |data|)
    {
      mem := Overlay(mem, address, data);
      written := Advance(nWritten, |data|);
    }

    /** mem::Patch: the same copy, bracketed by VirtualProtect to RWX and back. */
    method Patch(address: nat, code: seq<Byte>, nWritten: Option<nat>) returns (written: Option<nat>)
      requires Mapped(mem, address, |code|)
      modifies this
      ensures mem == Overlay(old(mem), address, code) && mem.Keys == old(mem).Keys
      ensures written == Advance(nWritten, |code|)
    {
      mem := Overlay(mem, address, code);
      written := Advance(nWritten, |code|);
    }

    /** mem::Nop: n bytes of aligned NOP padding written in place. */
    method Nop(address: nat, n: nat)
      requires Mapped(mem, address, n)
      modifies this
      ensures mem == Overlay(old(mem), address, AlignedNops(n)) && mem.Keys == old(mem).Keys
      ensures DecodesAsNops(Read(mem, address, n))
    {
      var buffer := new Byte[n];
      FillWithAlignedNops(buffer, 0, n);
      assert buffer[..] == buffer[0..n];
      mem := Overlay(mem, address, buffer[..]);
      AlignedNopsDecode(n);
      assert Read(mem, address, n) == AlignedNops(n);
    }

    /** mem::RelativeJump: writes jmp rel32 carrying the low four bytes of distance. */
    method RelativeJump(source: nat, distance: Word)
      requires Mapped(mem, source, 5)
      modifies this
      ensures mem == Overlay(old(mem), source, RelJumpBytes(distance)) && mem.Keys == old(mem).Keys
    {
      var _ := Patch(source, RelJumpBytes(distance), None);
    }

    /** mem::AbsoluteJump: writes the 13-byte absolute jump whose imm64 is the eight
        bytes read at pDestination (destination holds those bytes). */
    method AbsoluteJump(source: nat, destination: seq<Byte>, nWritten: Option<nat>) returns (written: Option<nat>)
      requires |destination| == 8 && Mapped(mem, source, ABS_JUMP_SIZE)
      modifies this
      ensures mem == Overlay(old(mem), source, AbsJumpBytes(destination)) && mem.Keys == old(mem).Keys
      ensures written == Advance(nWritten, ABS_JUMP_SIZE)
    {
      written := Patch(source, AbsJumpBytes(destination), nWritten);
    }

    /** The page VirtualAlloc handed out is committed: readable, writable and zero-filled. */
    method Commit(page: nat)
      modifies this
      ensures mem == Overlay(old(mem), page, Zeros(PAGE_SIZE))
    {
      mem := Overlay(mem, page, Zeros(PAGE_SIZE));
    }
  }

  function Zeros(n: nat): (r: seq<Byte>)
    ensures |r| == n && forall i :: 0 <= i < n ==> r[i] == 0
  {
    seq(n, _ => 0)
  }

  /** mem::PatchEx: WriteProcessMemory into another process; a write the other process
      refuses (its target is unmapped) changes nothing and is not reported. */
  method PatchEx(target: Process, address: nat, code: seq<Byte>)
    modifies target
    ensures target.mem == if Mapped(old(target.mem), address, |code|)
      then Overlay(old(target.mem), address, code) else old(target.mem)
  {
    if Mapped(target.mem, address, |code|) {
      target.mem := Overlay(target.mem, address, code);
    }
  }

  /** mem::NopEx: fills a scratch buffer with aligned NOPs and writes it with PatchEx. */
  method NopEx(target: Process, address: nat, n: nat)
    modifies target
    ensures target.mem == if Mapped(old(target.mem), address, n)
      then Overlay(old(target.mem), address, AlignedNops(n)) else old(target.mem)
  {
    var buffer := new Byte[n];
    FillWithAlignedNops(buffer, 0, n);
    assert buffer[..] == buffer[0..n];
    PatchEx(target, address, buffer[..]);
  }

  // ---------------------------------------------------------------------------
  // AllocateMemory: outward page search near an address
  // ---------------------------------------------------------------------------

  /** dwPageSize of x64 Windows. */
  const PAGE_SIZE: nat := 4096
  /** How far from the hooked address the search starts out wanting to stay. */
  const REL32_REACH: nat := 0x7FFFFF00

  /** lpMinimumApplicationAddress / lpMaximumApplicationAddress from GetSystemInfo. */
  datatype SystemInfo = SystemInfo(minApplication: Word, maxApplication: Word)

  /** The search window: the page holding the address, and the bounds, each taken as the
      wider of the rel32 reach around that page and the application range. */
  datatype SearchWindow = SearchWindow(start: nat, minAddr: nat, maxAddr: nat)

  function Window(address: Word, info: SystemInfo): (w: SearchWindow)
    ensures w.start % PAGE_SIZE == 0 && w.start <= address < w.start + PAGE_SIZE
    ensures w.minAddr <= info.minApplication && w.maxAddr >= info.maxApplication
    ensures w.maxAddr >= w.start + REL32_REACH
  {
    var start := address - address % PAGE_SIZE;
    var low := Wrap64(start - REL32_REACH);
    SearchWindow(start,
      if low < info.minApplication then low else info.minApplication,
      if start + REL32_REACH > info.maxApplication then start + REL32_REACH else info.maxApplication)
  }

  /** The window's pages are addresses, and the bottom of the window is above 0. */
  predicate ValidWindow(w: SearchWindow)
  {
    0 < w.minAddr && w.start <= w.maxAddr < TWO_64
  }

  /** The page pageOffset pages above the start. */
  function High(w: SearchWindow, pageOffset: nat): nat
  {
    w.start + pageOffset * PAGE_SIZE
  }

  /** The page pageOffset pages below the start, or 0 once that would go below 0. */
  function Low(w: SearchWindow, pageOffset: nat): nat
  {
    if w.start > pageOffset * PAGE_SIZE then w.start - pageOffset * PAGE_SIZE else 0
  }

  predicate NeedsExit(w: SearchWindow, pageOffset: nat)
  {
    High(w, pageOffset) > w.maxAddr && Low(w, pageOffset) < w.minAddr
  }

  /** A measure that drops on every iteration that does not exit: the distance the
      high candidate still has to climb past maxAddr, plus the low candidate. */
  function SearchMeasure(w: SearchWindow, pageOffset: nat): nat
  {
    (if High(w, pageOffset) <= w.maxAddr then w.maxAddr + PAGE_SIZE - High(w, pageOffset) else 0) + Low(w, pageOffset)
  }

  lemma SearchMeasureDrops(w: SearchWindow, pageOffset: nat)
    requires ValidWindow(w) && !NeedsExit(w, pageOffset)
    ensures SearchMeasure(w, pageOffset + 1) < SearchMeasure(w, pageOffset)
  {
  }

  /** What one VirtualAlloc attempt at a page returns: the page, or 0 for failure. */
  type Allocator = Word -> Word

  /** The high candidate is tried when it lies below maxAddr. */
  predicate TriesHigh(w: SearchWindow, pageOffset: nat)
  {
    High(w, pageOffset) < w.maxAddr
  }

  /** The low candidate is tried when it lies above minAddr. */
  predicate TriesLow(w: SearchWindow, pageOffset: nat)
  {
    Low(w, pageOffset) > w.minAddr
  }

  /** Both candidates of an iteration that are tried are refused by the allocator. */
  predicate Refused(w: SearchWindow, alloc: Allocator, pageOffset: nat)
    requires ValidWindow(w)
  {
    (TriesHigh(w, pageOffset) ==> alloc(High(w, pageOffset)) == 0) &&
    (TriesLow(w, pageOffset) ==> alloc(Low(w, pageOffset)) == 0)
  }

  /** The search from iteration pageOffset on: the first page the allocator grants, or
      0 once an iteration finds both candidates outside the window. */
  function Search(w: SearchWindow, alloc: Allocator, pageOffset: nat): Word
    requires ValidWindow(w)
    decreases SearchMeasure(w, pageOffset)
  {
    if TriesHigh(w, pageOffset) && alloc(High(w, pageOffset)) != 0 then alloc(High(w, pageOffset))
    else if TriesLow(w, pageOffset) && alloc(Low(w, pageOffset)) != 0 then alloc(Low(w, pageOffset))
    else if NeedsExit(w, pageOffset) then 0
    else
      SearchMeasureDrops(w, pageOffset);
      Search(w, alloc, pageOffset + 1)
  }

  /** r is what iteration j returns: the high page when it is tried and granted,
      otherwise the low page when it is tried and granted. */
  predicate GrantedAt(w: SearchWindow, alloc: Allocator, j: nat, r: Word)
    requires ValidWindow(w)
  {
    (TriesHigh(w, j) && r == alloc(High(w, j)) && r != 0) ||
    ((TriesHigh(w, j) ==> alloc(High(w, j)) == 0) && TriesLow(w, j) && r == alloc(Low(w, j)) && r != 0)
  }

  /** No iteration from `from` up to (not including) `to` ends the search. */
  predicate Continues(w: SearchWindow, from: nat, to: nat)
  {
    forall i :: from <= i < to ==> !NeedsExit(w, i)
  }

  /** A non-null result is a candidate tried at some iteration j, after every earlier
      iteration continued and had both its candidates refused; at iteration j itself
      the low page is only taken after the high one was refused or not tried. */
  lemma {:induction false} SearchFindsFirstGrant(w: SearchWindow, alloc: Allocator, k: nat)
    requires ValidWindow(w)
    requires Search(w, alloc, k) != 0
    ensures exists j :: k <= j && Continues(w, k, j) && (forall i :: k <= i < j ==> Refused(w, alloc, i)) && GrantedAt(w, alloc, j, Search(w, alloc, k))
    decreases SearchMeasure(w, k)
  {
    var r := Search(w, alloc, k);
    if (TriesHigh(w, k) && alloc(High(w, k)) != 0) || (TriesLow(w, k) && alloc(Low(w, k)) != 0) {
      assert Continues(w, k, k);
    } else {
      SearchMeasureDrops(w, k);
      SearchFindsFirstGrant(w, alloc, k + 1);
      var j :| k + 1 <= j && Continues(w, k + 1, j) && (forall i :: k + 1 <= i < j ==> Refused(w, alloc, i)) && GrantedAt(w, alloc, j, Search(w, alloc, k + 1));
      assert Continues(w, k, j);
      assert forall i :: k <= i < j ==> Refused(w, alloc, i);
    }
  }

  /** A null result means every candidate tried up to and including the iteration
      that found both candidates outside the window was refused. */
  lemma {:induction false} SearchNullMeansAllRefused(w: SearchWindow, alloc: Allocator, k: nat, j: nat)
    requires ValidWindow(w)
    requires Search(w, alloc, k) == 0 && k <= j && Continues(w, k, j)
    ensures Refused(w, alloc, j)
    decreases j - k
  {
    if j > k {
      SearchMeasureDrops(w, k);
      SearchNullMeansAllRefused(w, alloc, k + 1, j);
    }
  }

  /** mem::AllocateMemory: tries the pages 1, 2, 3, ... pages above and then below the
      page holding address, each only while it lies inside the window, and returns the
      first page VirtualAlloc grants, or null after an iteration with both candidates
      outside. */
  method AllocateMemory(address: Word, info: SystemInfo, alloc: Allocator) returns (r: Word)
    requires 0 < info.minApplication
    requires address < USER_SPACE_END && info.maxApplication < USER_SPACE_END
    ensures r == Search(Window(address, info), alloc, 1)
  {
    var w := Window(address, info);
    assert ValidWindow(w);
    var pageOffset: nat := 1;
    while true
      invariant pageOffset >= 1
      invariant Search(w, alloc, 1) == Search(w, alloc, pageOffset)
      decreases SearchMeasure(w, pageOffset)
    {
      var done, out := TryPages(w, alloc, pageOffset);
      if done {
        return out;
      }
      SearchMeasureDrops(w, pageOffset);
      pageOffset := pageOffset + 1;
    }
  }

  /** One iteration of the search: the high candidate, then the low one, then the
      exit test. */
  method TryPages(w: SearchWindow, alloc: Allocator, pageOffset: nat) returns (done: bool, r: Word)
    requires ValidWindow(w)
    ensures done ==> r == Search(w, alloc, pageOffset)
    ensures !done ==> !NeedsExit(w, pageOffset) && Search(w, alloc, pageOffset) == Search(w, alloc, pageOffset + 1)
  {
    var byteOffset := pageOffset * PAGE_SIZE;
    var highAddr := w.start + byteOffset;
    var lowAddr := if w.start > byteOffset then w.start - byteOffset else 0;
    var needsExit := highAddr > w.maxAddr && lowAddr < w.minAddr;
    assert highAddr == High(w, pageOffset) && lowAddr == Low(w, pageOffset);
    if highAddr < w.maxAddr {
      var out := alloc(highAddr);
      if out != 0 {
        return true, out;
      }
    }
    if lowAddr > w.minAddr {
      var out := alloc(lowAddr);
      if out != 0 {
        return true, out;
      }
    }
    return needsExit, 0;
  }

  /** The end of the x64 user-mode address range (addresses are below 2^47). */
  const USER_SPACE_END: nat := 0x8000_0000_0000
}
