/** src/ui/backend/D3D12.h, Interface::HeapAllocator: hands out the descriptors of a
    D3D12 descriptor heap by index. The free list is a stack of indices; a descriptor's
    CPU and GPU handles are the heap's start handles plus index times the device's
    increment size, in 64-bit unsigned arithmetic, and Free recovers the index from the
    CPU handle. The device, the heap and its description are reduced to the values the
    allocator reads from them. */
module HeapAllocation {
  import opened Machine

  /** [n - 1, ..., 1, 0]: the free list Create leaves. */
  function Descending(n: nat): (r: seq<nat>)
    ensures |r| == n
  {
    if n == 0 then [] else [n - 1] + Descending(n - 1)
  }

  /** Position j of the list holds n - 1 - j, so its back is index 0. */
  lemma {:induction false} DescendingAt(n: nat, j: nat)
    requires j < n
    ensures Descending(n)[j] == n - 1 - j
  {
    if j > 0 {
      DescendingAt(n - 1, j - 1);
    }
  }

  /** Every index below n is in the list exactly once and nothing else is: the free
      list Create leaves is a permutation of the heap's indices. */
  lemma {:induction false} DescendingIndices(n: nat)
    ensures forall i :: 0 <= i < n ==> multiset(Descending(n))[i] == 1
    ensures forall x :: x in Descending(n) ==> x < n
  {
    if n > 0 {
      DescendingIndices(n - 1);
      assert n - 1 !in Descending(n - 1);
      assert multiset(Descending(n)) == multiset{n - 1} + multiset(Descending(n - 1));
    }
  }

  /** After k Allocs following Create the back of the free list is k, so the k-th Alloc
      (counting from 0) hands out index k and leaves [n - 1, ..., k + 1]. */
  lemma AllocOrder(n: nat, k: nat)
    requires k < n
    ensures var rest := Descending(n)[..n - k];
      rest[|rest| - 1] == k && rest[..|rest| - 1] == Descending(n)[..n - k - 1]
  {
    DescendingAt(n, n - k - 1);
  }

  /** Create's loop: push n - 1 for n from the descriptor count down to 1. */
  method CountDown(count: nat) returns (indices: seq<nat>)
    ensures indices == Descending(count)
  {
    indices := [];
    var n: nat := count;
    while n > 0
      invariant n <= count && indices + Descending(n) == Descending(count)
    {
      assert Descending(n) == [n - 1] + Descending(n - 1);
      indices := indices + [n - 1];
      n := n - 1;
    }
  }

  /** The handle of descriptor index in a heap starting at start: start.ptr + index *
      incrementSize, as a SIZE_T (CPU) or UINT64 (GPU) sum. */
  function Handle(start: Word, index: nat, increment: nat): Word
  {
    Wrap64(start + index * increment)
  }

  /** The index Free recovers from a handle: the unsigned difference from the heap start,
      divided by the increment and cast to UINT. */
  function IndexOf(handle: Word, start: Word, increment: nat): (r: nat)
    requires increment > 0
    ensures r < TWO_32
  {
    Wrap32(Wrap64(handle - start) / increment)
  }

  /** The index comes back from its handle whenever the heap's span fits in 64 bits,
      however the start handle sits in the address space. */
  lemma IndexOfHandle(start: Word, index: nat, increment: nat)
    requires increment > 0 && index < TWO_32 && index * increment < TWO_64
    ensures IndexOf(Handle(start, index, increment), start, increment) == index
  {
    WrapDifference(start, index * increment);
    DivideProduct(index, increment);
  }

  /** Subtracting the start from start + offset in 64-bit unsigned arithmetic gives the
      offset back. */
  lemma WrapDifference(start: Word, offset: Word)
    ensures Wrap64(Wrap64(start + offset) - start) == offset
  {
    if start + offset >= TWO_64 {
      assert Wrap64(start + offset) == start + offset - TWO_64;
    }
  }

  lemma DivideProduct(index: nat, increment: nat)
    requires increment > 0
    ensures index * increment / increment == index
  {
    var q, r := index * increment / increment, index * increment % increment;
    assert q * increment + r == index * increment;
    assert 0 <= r < increment;
    if q < index {
      assert (index - q) * increment >= increment by { AtLeastOnce(index - q, increment); }
    }
  }

  lemma ScaleBelow(a: nat, b: nat, m: nat)
    requires a < b && m > 0
    ensures a * m < b * m
  {
    assert b * m == a * m + (b - a) * m;
    AtLeastOnce(b - a, m);
  }

  lemma AtLeastOnce(k: int, m: nat)
    requires k >= 1
    ensures k * m >= m
  {
    assert k * m == (k - 1) * m + m;
  }

  /** Alloc then Free of the same descriptor gives back the free list exactly: the index
      popped from the back is pushed back there. */
  lemma AllocThenFree(free: seq<nat>, cpuStart: Word, gpuStart: Word, increment: nat)
    requires |free| > 0 && increment > 0
    requires free[|free| - 1] < TWO_32 && free[|free| - 1] * increment < TWO_64
    ensures var index := free[|free| - 1];
      && IndexOf(Handle(cpuStart, index, increment), cpuStart, increment)
         == IndexOf(Handle(gpuStart, index, increment), gpuStart, increment)
      && free[..|free| - 1] + [IndexOf(Handle(cpuStart, index, increment), cpuStart, increment)] == free
  {
    var index := free[|free| - 1];
    IndexOfHandle(cpuStart, index, increment);
    IndexOfHandle(gpuStart, index, increment);
  }

  /** The heap allocator: the heap's start handles, the increment, the free list, and
      (ghost) the heap's descriptor count. */
  class HeapAllocator {
    var cpuHeapStart: Word
    var gpuHeapStart: Word
    var incrementSize: nat
    var freeIndices: seq<nat>
    ghost var capacity: nat

    /** Every free index names a descriptor of the heap, and the heap's span fits in
        the handles' 64 bits. */
    ghost predicate Valid()
      reads this
    {
      && 0 < incrementSize < TWO_32
      && capacity <= TWO_32
      && capacity * incrementSize <= TWO_64
      && forall x :: x in freeIndices ==> x < capacity
    }

    /** The global, zero-initialised. */
    constructor()
      ensures freeIndices == []
    {
      cpuHeapStart, gpuHeapStart, incrementSize, freeIndices := 0, 0, 0, [];
      capacity := 0;
    }

    /** Create: asserts an empty free list, reads the heap's start handles, the device's
        increment size and the heap's descriptor count, and pushes the indices from
        the last down to 0. */
    method Create(cpuStart: Word, gpuStart: Word, increment: nat, numDescriptors: nat)
      requires freeIndices == []
      requires 0 < increment < TWO_32 && numDescriptors <= TWO_32 && numDescriptors * increment <= TWO_64
      modifies this
      ensures Valid()
      ensures cpuHeapStart == cpuStart && gpuHeapStart == gpuStart && incrementSize == increment
      ensures freeIndices == Descending(numDescriptors)
    {
      cpuHeapStart, gpuHeapStart, incrementSize := cpuStart, gpuStart, increment;
      capacity := numDescriptors;
      freeIndices := CountDown(numDescriptors);
      DescendingIndices(numDescriptors);
    }

    /** Alloc: asserts a non-empty free list, pops its back index and answers that
        descriptor's CPU and GPU handles. */
    method Alloc() returns (cpu: Word, gpu: Word)
      requires Valid() && |freeIndices| > 0
      modifies this
      ensures Valid()
      ensures freeIndices == old(freeIndices)[..|old(freeIndices)| - 1]
      ensures var index := old(freeIndices)[|old(freeIndices)| - 1];
        && cpu == Handle(cpuHeapStart, index, incrementSize)
        && gpu == Handle(gpuHeapStart, index, incrementSize)
        && IndexOf(cpu, cpuHeapStart, incrementSize) == index
        && IndexOf(gpu, gpuHeapStart, incrementSize) == index
      ensures unchanged(`cpuHeapStart, `gpuHeapStart, `incrementSize)
    {
      var index := freeIndices[|freeIndices| - 1];
      assert index in freeIndices;
      ScaleBelow(index, capacity, incrementSize);
      ghost var before := freeIndices;
      freeIndices := freeIndices[..|freeIndices| - 1];
      assert forall x :: x in freeIndices ==> x in before;
      cpu := Wrap64(cpuHeapStart + index * incrementSize);
      gpu := Wrap64(gpuHeapStart + index * incrementSize);
      IndexOfHandle(cpuHeapStart, index, incrementSize);
      IndexOfHandle(gpuHeapStart, index, incrementSize);
    }

    /** Free: the index of the CPU handle, which the debug assertion checks against the
        GPU handle's, goes back on the free list. */
    method Free(cpu: Word, gpu: Word)
      requires Valid()
      requires IndexOf(cpu, cpuHeapStart, incrementSize) == IndexOf(gpu, gpuHeapStart, incrementSize)
      requires IndexOf(cpu, cpuHeapStart, incrementSize) < capacity
      modifies this
      ensures Valid()
      ensures freeIndices == old(freeIndices) + [IndexOf(cpu, cpuHeapStart, incrementSize)]
      ensures unchanged(`cpuHeapStart, `gpuHeapStart, `incrementSize)
    {
      var cpuIndex := Wrap32(Wrap64(cpu - cpuHeapStart) / incrementSize);
      freeIndices := freeIndices + [cpuIndex];
    }
  }
}
