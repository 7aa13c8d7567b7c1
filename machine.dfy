/** Machine-level vocabulary shared by every part of the model: bytes, 64-bit
    words with C's unsigned wrap-around, little-endian encoding, byte-addressed
    process memory, and the Option/Result wrappers that stand for null returns
    and std::expected. */
module Machine {

  /** A BYTE / std::uint8_t. */
  type Byte = b: int | 0 <= b < 256

  const TWO_32: int := 0x1_0000_0000
  const TWO_64: int := 0x1_0000_0000_0000_0000
  const INT32_MIN: int := -0x8000_0000
  const INT32_MAX: int := 0x7FFF_FFFF

  /** A uintptr_t / size_t on x64. */
  type Word = w: int | 0 <= w < TWO_64

  datatype Option<T> = None | Some(value: T)

  datatype Result<T, E> = Ok(value: T) | Err(error: E)

  /** Unsigned 64-bit arithmetic: the value C keeps of an integer result. */
  function Wrap64(x: int): Word
  {
    x % TWO_64
  }

  /** Unsigned 32-bit truncation (a cast to UINT / DWORD). */
  function Wrap32(x: int): nat
    ensures Wrap32(x) < TWO_32
  {
    x % TWO_32
  }

  /** A uintptr_t reinterpreted as intptr_t (two's complement). */
  function Signed64(w: Word): int
  {
    if w < 0x8000_0000_0000_0000 then w else w - TWO_64
  }

  /** A 32-bit value reinterpreted as int32_t (two's complement). */
  function SignExtend32(u: int): int
    requires 0 <= u < TWO_32
  {
    if u < 0x8000_0000 then u else u - TWO_32
  }

  predicate FitsInt32(x: int)
  {
    INT32_MIN <= x <= INT32_MAX
  }

  /** Truncating to 32 bits and sign-extending gives back every value that fits. */
  lemma SignExtendWrap32(x: int)
    requires FitsInt32(x)
    ensures SignExtend32(Wrap32(x)) == x
  {
  }

  function Pow256(n: nat): (r: nat)
    ensures r > 0
  {
    if n == 0 then 1 else 256 * Pow256(n - 1)
  }

  /** The low n bytes of v, least significant first (memcpy of a little-endian integer). */
  function LE(v: nat, n: nat): (r: seq<Byte>)
    ensures |r| == n
  {
    if n == 0 then [] else [v % 256] + LE(v / 256, n - 1)
  }

  /** The unsigned integer a little-endian byte string denotes. */
  function FromLE(s: seq<Byte>): nat
  {
    if s == [] then 0 else s[0] + 256 * FromLE(s[1..])
  }

  lemma {:induction false} FromLEBound(s: seq<Byte>)
    ensures FromLE(s) < Pow256(|s|)
  {
    if s != [] {
      FromLEBound(s[1..]);
    }
  }

  /** Decoding an encoded value gives it back when it fits in n bytes. */
  lemma {:induction false} FromLEOfLE(v: nat, n: nat)
    requires v < Pow256(n)
    ensures FromLE(LE(v, n)) == v
  {
    if n > 0 {
      assert LE(v, n)[1..] == LE(v / 256, n - 1);
      FromLEOfLE(v / 256, n - 1);
    }
  }

  /** Encoding what a byte string decodes to gives the same bytes back. */
  lemma {:induction false} LEOfFromLE(s: seq<Byte>)
    ensures LE(FromLE(s), |s|) == s
  {
    if s != [] {
      LEOfFromLE(s[1..]);
      var v := FromLE(s);
      assert v % 256 == s[0];
      assert v / 256 == FromLE(s[1..]);
    }
  }

  /** Byte-addressed process memory; an absent address is unmapped (touching it faults). */
  type Mem = map<nat, Byte>

  predicate Mapped(m: Mem, a: nat, n: nat)
  {
    forall k :: a <= k < a + n ==> k in m
  }

  /** The n bytes stored from address a on. */
  function Read(m: Mem, a: nat, n: nat): (r: seq<Byte>)
    requires Mapped(m, a, n)
    ensures |r| == n
    ensures forall i :: 0 <= i < n ==> r[i] == m[a + i]
  {
    seq(n, i requires 0 <= i < n => m[a + i])
  }

  /** memcpy of data to address a: those addresses now hold data, all others are unchanged. */
  function Overlay(m: Mem, a: nat, data: seq<Byte>): (r: Mem)
    ensures forall k :: k in r <==> k in m || a <= k < a + |data|
    ensures forall k :: a <= k < a + |data| ==> r[k] == data[k - a]
    ensures forall k :: k in m && !(a <= k < a + |data|) ==> r[k] == m[k]
  {
    m + map k: nat | a <= k < a + |data| :: ByteAt(data, a, k)
  }

  /** The byte of data that lands on address k when data is copied to address a. */
  function ByteAt(data: seq<Byte>, a: nat, k: nat): Byte
    requires a <= k < a + |data|
  {
    data[k - a]
  }

  /** Two adjacent copies are one copy of the concatenation. */
  lemma OverlayConcat(m: Mem, a: nat, s: seq<Byte>, t: seq<Byte>)
    ensures Overlay(Overlay(m, a, s), a + |s|, t) == Overlay(m, a, s + t)
  {
    var l := Overlay(Overlay(m, a, s), a + |s|, t);
    var r := Overlay(m, a, s + t);
    assert forall k :: k in l <==> k in r;
    forall k | k in l
      ensures l[k] == r[k]
    {
      if a + |s| <= k < a + |s| + |t| {
        assert (s + t)[k - a] == t[k - (a + |s|)];
      } else if a <= k < a + |s| {
        assert (s + t)[k - a] == s[k - a];
      }
    }
  }

  /** A copy placed right after an accumulated copy extends it. */
  lemma OverlayAppend(m0: Mem, prev: Mem, next: Mem, a: nat, acc: seq<Byte>, at: nat, data: seq<Byte>)
    requires prev == Overlay(m0, a, acc) && at == a + |acc| && next == Overlay(prev, at, data)
    ensures next == Overlay(m0, a, acc + data)
  {
    OverlayConcat(m0, a, acc, data);
  }

  /** What was just copied reads back unchanged. */
  lemma ReadOverlay(m: Mem, a: nat, data: seq<Byte>)
    ensures Mapped(Overlay(m, a, data), a, |data|)
    ensures Read(Overlay(m, a, data), a, |data|) == data
  {
  }

  /** The first k bytes of a copy read back as the first k bytes copied. */
  lemma ReadOverlayPrefix(m: Mem, a: nat, data: seq<Byte>, k: nat)
    requires k <= |data|
    ensures Mapped(Overlay(m, a, data), a, k)
    ensures Read(Overlay(m, a, data), a, k) == data[..k]
  {
  }

  /** A 64-bit little-endian word read from memory, or None if any of its bytes is unmapped. */
  function ReadWord(m: Mem, a: nat): (r: Option<Word>)
    ensures r.Some? <==> Mapped(m, a, 8)
    ensures r.Some? ==> LE(r.value, 8) == Read(m, a, 8)
  {
    if Mapped(m, a, 8) then
      var s := Read(m, a, 8);
      FromLEBound(s);
      LEOfFromLE(s);
      assert Pow256(8) == TWO_64;
      Some(FromLE(s))
    else
      None
  }

  /** A 32-bit little-endian value (DWORD / LONG bits) read from memory. */
  function ReadU32(m: Mem, a: nat): (r: nat)
    requires Mapped(m, a, 4)
    ensures r < TWO_32
    ensures LE(r, 4) == Read(m, a, 4)
  {
    var s := Read(m, a, 4);
    FromLEBound(s);
    LEOfFromLE(s);
    assert Pow256(4) == TWO_32;
    FromLE(s)
  }

  /** Bitwise OR of the low `width` bits of x and y. */
  function BitOr(x: nat, y: nat, width: nat): (r: nat)
    ensures r < Pow2(width)
  {
    if width == 0 then 0
    else (if x % 2 == 1 || y % 2 == 1 then 1 else 0) + 2 * BitOr(x / 2, y / 2, width - 1)
  }

  function Pow2(n: nat): (r: nat)
    ensures r > 0
  {
    if n == 0 then 1 else 2 * Pow2(n - 1)
  }

  /** OR with zero keeps every bit that fits in the width. */
  lemma {:induction false} BitOrZero(x: nat, width: nat)
    requires x < Pow2(width)
    ensures BitOr(x, 0, width) == x
  {
    if width > 0 {
      BitOrZero(x / 2, width - 1);
    }
  }

  /** The first k bytes of an n-byte encoding are the k-byte encoding (memcpy of a prefix). */
  lemma {:induction false} LEPrefix(v: nat, n: nat, k: nat)
    requires k <= n
    ensures LE(v, n)[..k] == LE(v, k)
  {
    if k > 0 {
      LEPrefix(v / 256, n - 1, k - 1);
      assert LE(v, n)[..k] == [v % 256] + LE(v / 256, n - 1)[..k - 1];
    }
  }

  /** Adding a multiple of 256^n does not change the low n bytes. */
  lemma {:induction false} LEShift(v: nat, c: nat, n: nat)
    ensures LE(v + Pow256(n) * c, n) == LE(v, n)
  {
    if n > 0 {
      var c' := Pow256(n - 1) * c;
      assert Pow256(n) * c == 256 * c';
      assert (v + 256 * c') % 256 == v % 256;
      assert (v + 256 * c') / 256 == v / 256 + c';
      LEShift(v / 256, c, n - 1);
    }
  }

  // ---------------------------------------------------------------------------
  // C runtime character helpers
  // ---------------------------------------------------------------------------

  /** tolower in the "C" locale: only 'A'..'Z' change. */
  function ToLower(c: char): char
  {
    if 'A' <= c <= 'Z' then (c as int + 32) as char else c
  }

  /** _stricmp(a, b) == 0: the same length and the same characters after tolower. */
  predicate EqualsIgnoreCase(a: string, b: string)
  {
    |a| == |b| && forall i :: 0 <= i < |a| ==> ToLower(a[i]) == ToLower(b[i])
  }
}
