/** The pointer-chain walks of include/Mem/mem.h: follow a base address through
    a list of offsets, dereferencing a 64-bit word at each step. A null pointer met
    before a dereference, or an access fault (caught by __except), ends the walk
    with the default value. */
module MemChain {
  import opened Machine

  /** An `unsigned int` offset. */
  type Offset = o: int | 0 <= o < TWO_32

  /** The walk of the loop: at each offset, stop (None) if the pointer is null,
      otherwise replace it with the word stored at pointer + offset, stopping (None)
      when that read faults. Some(p) is the pointer the loop ends with. */
  function Walk(m: Mem, address: Word, offsets: seq<Offset>): Option<Word>
    decreases |offsets|
  {
    if offsets == [] then Some(address)
    else if address == 0 then None
    else
      match ReadWord(m, Wrap64(address + offsets[0]))
      case None => None
      case Some(next) => Walk(m, next, offsets[1..])
  }

  /** The value FindDMAAddy returns: the walk's final pointer, or T() = 0 when it stopped. */
  function Chain(m: Mem, address: Word, offsets: seq<Offset>): Word
  {
    match Walk(m, address, offsets)
    case None => 0
    case Some(p) => p
  }

  /** The value FindDMAAddyPtr returns: every offset but the last is dereferenced, the last
      is only added; null when the walk stopped. */
  function PointerChain(m: Mem, address: Word, offsets: seq<Offset>): Word
    requires |offsets| >= 1
  {
    match Walk(m, address, offsets[..|offsets| - 1])
    case None => 0
    case Some(p) => Wrap64(p + offsets[|offsets| - 1])
  }

  /** Walking a concatenation walks the first part, then the second from where it ended. */
  lemma {:induction false} WalkConcat(m: Mem, address: Word, xs: seq<Offset>, ys: seq<Offset>)
    ensures Walk(m, address, xs + ys) ==
      match Walk(m, address, xs) case None => None case Some(p) => Walk(m, p, ys)
    decreases |xs|
  {
    if xs == [] {
      assert xs + ys == ys;
    } else if address != 0 {
      assert (xs + ys)[0] == xs[0];
      assert (xs + ys)[1..] == xs[1..] + ys;
      match ReadWord(m, Wrap64(address + xs[0])) {
        case None =>
        case Some(next) => WalkConcat(m, next, xs[1..], ys);
      }
    }
  }

  /** FindDMAAddy over a concatenation is FindDMAAddy over the second part, started from
      the first part's result: a chain can be resolved in stages. A stage that ends in
      null or a fault makes the whole chain 0. */
  lemma ChainCompose(m: Mem, address: Word, xs: seq<Offset>, ys: seq<Offset>)
    requires ys != []
    ensures Chain(m, address, xs + ys) == Chain(m, Chain(m, address, xs), ys)
  {
    WalkConcat(m, address, xs, ys);
  }

  /** One step of FindDMAAddy reads the word at address + offset; it is 0 when the
      address is null or that word is unmapped. */
  lemma ChainSingle(m: Mem, address: Word, offset: Offset)
    ensures Chain(m, address, [offset]) ==
      if address == 0 || !Mapped(m, Wrap64(address + offset), 8) then 0
      else ReadWord(m, Wrap64(address + offset)).value
  {
    assert [offset][1..] == [];
    if address != 0 {
      match ReadWord(m, Wrap64(address + offset)) {
        case None =>
        case Some(next) => assert Walk(m, address, [offset]) == Walk(m, next, []);
      }
    }
  }

  /** FindDMAAddyPtr is the pointer chain over all but the last offset with the last one
      added; when that chain ends in a null word the result is the last offset itself,
      not null. */
  lemma PointerChainOfNull(m: Mem, address: Word, offsets: seq<Offset>, last: Offset)
    requires Walk(m, address, offsets) == Some(0)
    ensures PointerChain(m, address, offsets + [last]) == last
  {
    assert (offsets + [last])[..|offsets|] == offsets;
  }

  /** FindDMAAddy<uintptr_t>: the loop over the offsets. */
  method FindDMAAddy(m: Mem, address: Word, offsets: seq<Offset>) returns (r: Word)
    ensures r == Chain(m, address, offsets)
  {
    var addr := address;
    for i := 0 to |offsets|
      invariant Walk(m, address, offsets) == Walk(m, addr, offsets[i..])
    {
      assert offsets[i..][1..] == offsets[i + 1..];
      if addr == 0 {
        return 0;
      }
      var word := ReadWord(m, Wrap64(addr + offsets[i]));
      if word.None? {
        return 0;
      }
      addr := word.value;
    }
    assert offsets[|offsets|..] == [];
    return addr;
  }

  /** FindDMAAddyPtr: dereferences for every offset except the last, then adds the last.
      The source computes `offsets.size() - 1` on an unsigned size, so an empty list is
      outside its contract. */
  method FindDMAAddyPtr(m: Mem, address: Word, offsets: seq<Offset>) returns (r: Word)
    requires |offsets| >= 1
    ensures r == PointerChain(m, address, offsets)
  {
    ghost var walked := offsets[..|offsets| - 1];
    var addr := address;
    var i := 0;
    while i < |offsets| - 1
      invariant i <= |offsets| - 1
      invariant Walk(m, address, walked) == Walk(m, addr, walked[i..])
    {
      assert walked[i..][1..] == walked[i + 1..];
      if addr == 0 {
        return 0;
      }
      var word := ReadWord(m, Wrap64(addr + offsets[i]));
      if word.None? {
        return 0;
      }
      addr := word.value;
      i := i + 1;
    }
    assert walked[i..] == [];
    return Wrap64(addr + offsets[|offsets| - 1]);
  }
}
