/**
  Guest memory: regions of one shared-memory file mapped at a base address, and
  the allocator that hands out guest addresses for them.
*/
module Memmap {
  import opened Words
  import opened Wrappers

  datatype MemRegion = MemRegion(ptr: Word, offset: Word, size: Word)
  {
    /** The test of `GetPointer`, in 64-bit arithmetic. */
    predicate Contains(address: Word) {
      offset <= address < Add(offset, size)
    }
  }

  /** The addresses of a region as integers; one that reaches 2^64 has none. */
  predicate Inside(r: MemRegion, address: int) {
    r.offset <= address < r.offset + r.size && r.offset + r.size < M64
  }

  lemma ContainsExactly(r: MemRegion, address: Word)
    ensures r.Contains(address) <==> Inside(r, address)
  {
  }

  lemma OffsetFromBase(base: Word, offset: Word, address: Word)
    ensures Add(Add(base, offset), Sub(address, offset)) == Add(base, address)
  {
  }

  class Memmap {
    var mappedRegions: seq<MemRegion>
    var base: Word

    /** Every region lies at the base address plus its offset. */
    ghost predicate Valid()
      reads this
    {
      forall i :: 0 <= i < |mappedRegions| ==> mappedRegions[i].ptr == Add(base, mappedRegions[i].offset)
    }

    constructor ()
      ensures Valid() && mappedRegions == [] && base == 0
    {
      mappedRegions, base := [], 0;
    }

    /**
      `answer` is what the kernel's `mmap` returns, or nothing if it fails. A
      region mapped with MAP_FIXED lands where it was asked to.
    */
    method MapRegion(offset: Word, size: Word, isFixed: bool, answer: Option<Word>) returns (ptr: Option<Word>)
      requires isFixed && answer.Some? ==> answer.value == Add(base, offset)
      modifies this`mappedRegions
      ensures ptr == answer
      ensures mappedRegions == old(mappedRegions) + if answer.Some? then [MemRegion(answer.value, offset, size)] else []
      ensures isFixed && old(Valid()) ==> Valid()
    {
      ptr := answer;
      if answer.Some? {
        mappedRegions := mappedRegions + [MemRegion(answer.value, offset, size)];
      }
    }

    /** The first mapping, which may land anywhere and sets the base. */
    method AllocateSHMRegion(size: Word, answer: Option<Word>)
      requires mappedRegions == []
      modifies this
      ensures Valid() && base == (if answer.Some? then answer.value else 0)
      ensures mappedRegions == if answer.Some? then [MemRegion(base, 0, size)] else []
    {
      var ptr := MapRegion(0, size, false, answer);
      base := if ptr.Some? then ptr.value else 0;
    }

    /** Erases the first region at that address, whatever its size. */
    method UnmapRegion(ptr: Word)
      requires Valid()
      modifies this`mappedRegions
      ensures Valid()
      ensures if exists i :: 0 <= i < |old(mappedRegions)| && old(mappedRegions)[i].ptr == ptr then
                exists i :: 0 <= i < |old(mappedRegions)| && old(mappedRegions)[i].ptr == ptr &&
                            (forall j :: 0 <= j < i ==> old(mappedRegions)[j].ptr != ptr) &&
                            mappedRegions == old(mappedRegions)[..i] + old(mappedRegions)[i + 1..]
              else mappedRegions == old(mappedRegions)
    {
      var i := 0;
      while i < |mappedRegions|
        invariant 0 <= i <= |mappedRegions| && mappedRegions == old(mappedRegions)
        invariant forall j :: 0 <= j < i ==> mappedRegions[j].ptr != ptr
      {
        if mappedRegions[i].ptr == ptr {
          mappedRegions := mappedRegions[..i] + mappedRegions[i + 1..];
          return;
        }
        i := i + 1;
      }
    }

    function GetBaseOffset(offset: Word): Word
      reads this
    {
      Add(base, offset)
    }

    /**
      The pointer of a guest address: base plus address, whichever of the
      overlapping regions is found first; nothing exactly when no region has it.
    */
    method GetPointer(address: Word) returns (ptr: Option<Word>)
      requires Valid()
      ensures ptr.Some? <==> exists i :: 0 <= i < |mappedRegions| && Inside(mappedRegions[i], address)
      ensures ptr.Some? ==> ptr.value == GetBaseOffset(address)
    {
      var i := 0;
      while i < |mappedRegions|
        invariant 0 <= i <= |mappedRegions|
        invariant forall j :: 0 <= j < i ==> !Inside(mappedRegions[j], address)
      {
        var region := mappedRegions[i];
        ContainsExactly(region, address);
        if region.Contains(address) {
          OffsetFromBase(base, region.offset, address);
          return Some(Add(region.ptr, Sub(address, region.offset)));
        }
        i := i + 1;
      }
      ptr := None;
    }
  }

  /*** The allocator ***/

  const PAGE_SIZE: nat := 4096
  const FIRST_MMAP: Word := 0xd000_0000

  function AlignUp(value: Word): Word {
    Add(value, (PAGE_SIZE - value % PAGE_SIZE) % PAGE_SIZE)
  }

  function AlignDown(value: Word): Word {
    value - value % PAGE_SIZE
  }

  /** The least page boundary at or above the value, unless that is 2^64, which wraps to 0. */
  lemma AlignUpExactlyWhen(value: Word)
    ensures AlignUp(value) % 4096 == 0
    ensures value <= AlignUp(value) <==> value <= M64 - 4096
    ensures value <= M64 - 4096 ==> AlignUp(value) < value + 4096
    ensures value > M64 - 4096 ==> AlignUp(value) == 0
  {
    var r := value % PAGE_SIZE;
    var q := value / PAGE_SIZE;
    assert value == PAGE_SIZE * q + r;
    assert r > 0 ==> value + (PAGE_SIZE - r) == PAGE_SIZE * (q + 1);
  }

  lemma AlignedSum(x: Word, y: Word)
    requires x % PAGE_SIZE == 0 && y % PAGE_SIZE == 0
    ensures Add(x, y) % PAGE_SIZE == 0
  {
  }

  datatype Range = Range(start: Word, size: Word)

  /** The ranges handed out for a sequence of requested lengths. */
  function Handed(last: Word, lengths: seq<Word>): seq<Range>
    decreases |lengths|
  {
    if lengths == [] then []
    else
      [Range(AlignDown(last), AlignUp(lengths[0]))] + Handed(Add(last, AlignUp(lengths[0])), lengths[1..])
  }

  function Total(lengths: seq<Word>): nat {
    if lengths == [] then 0 else AlignUp(lengths[0]) + Total(lengths[1..])
  }

  lemma {:induction false} TotalSplit(lengths: seq<Word>, k: nat)
    requires k <= |lengths|
    ensures Total(lengths) == Total(lengths[..k]) + Total(lengths[k..])
    decreases k
  {
    if k == 0 {
      assert lengths[0..] == lengths;
    } else {
      TotalSplit(lengths[1..], k - 1);
      assert lengths[..k][1..] == lengths[1..][..k - 1] && lengths[1..][k - 1..] == lengths[k..];
    }
  }

  lemma TotalNext(lengths: seq<Word>, k: nat)
    requires k < |lengths|
    ensures Total(lengths[..k + 1]) == Total(lengths[..k]) + AlignUp(lengths[k])
  {
    TotalSplit(lengths[..k + 1], k);
    assert lengths[..k + 1][..k] == lengths[..k] && lengths[..k + 1][k..] == [lengths[k]];
    assert [lengths[k]][1..] == [];
  }

  lemma TotalsGrow(lengths: seq<Word>, a: nat, b: nat)
    requires a <= |lengths| && b <= |lengths|
    ensures a <= b ==> Total(lengths[..a]) <= Total(lengths[..b])
  {
    if a <= b {
      TotalSplit(lengths[..b], a);
      assert lengths[..b][..a] == lengths[..a];
    }
  }

  /** Every range starts where the earlier ones end, modulo 2^64, and is page-aligned. */
  lemma {:induction false} HandedAt(last: Word, lengths: seq<Word>, k: nat)
    requires last % PAGE_SIZE == 0 && k < |lengths|
    ensures |Handed(last, lengths)| == |lengths|
    ensures var r := Handed(last, lengths)[k];
            && r.start == (last + Total(lengths[..k])) % M64 && r.size == AlignUp(lengths[k])
            && r.start % PAGE_SIZE == 0 && r.size % PAGE_SIZE == 0
    decreases k + |lengths|
  {
    hide AlignUp;
    AlignUpExactlyWhen(lengths[0]);
    AlignedSum(last, AlignUp(lengths[0]));
    var next := Add(last, AlignUp(lengths[0]));
    if k == 0 {
      if |lengths| > 1 {
        HandedAt(next, lengths[1..], 0);
      }
    } else {
      HandedAt(next, lengths[1..], k - 1);
      assert lengths[..k][1..] == lengths[1..][..k - 1];
      ModuloOnce(last, AlignUp(lengths[0]), Total(lengths[1..][..k - 1]));
    }
  }

  lemma ModuloOnce(x: Word, y: Word, z: nat)
    ensures (Add(x, y) + z) % M64 == (x + (y + z)) % M64
  {
  }

  /** The addresses of a range, which may go past 2^64 to 0. */
  predicate Covers(r: Range, p: Word) {
    (p - r.start) % M64 < r.size
  }

  ghost predicate Disjoint(a: Range, b: Range) {
    forall p: Word :: !(Covers(a, p) && Covers(b, p))
  }

  ghost predicate PairwiseDisjoint(ranges: seq<Range>) {
    forall i, j :: 0 <= i < j < |ranges| ==> Disjoint(ranges[i], ranges[j])
  }

  /** Seen from `last`, range `k` is the interval between two totals. */
  lemma CoversInterval(last: Word, before: nat, size: Word, p: Word)
    requires before + size <= M64
    ensures Covers(Range((last + before) % M64, size), p) <==> before <= (p - last) % M64 < before + size
  {
    var q, start := (p - last) % M64, (last + before) % M64;
    if before == M64 {
      assert size == 0;
    } else {
      assert start == if last + before < M64 then last + before else last + before - M64;
      assert q == if p >= last then p - last else p - last + M64;
      assert (p - start) % M64 == if p >= start then p - start else p - start + M64;
    }
  }

  lemma HandedApart(last: Word, lengths: seq<Word>, i: nat, j: nat)
    requires last % PAGE_SIZE == 0 && Total(lengths) <= M64 && i < j < |lengths|
    ensures |Handed(last, lengths)| == |lengths| && Disjoint(Handed(last, lengths)[i], Handed(last, lengths)[j])
  {
    hide AlignUp, Handed, Covers;
    HandedAt(last, lengths, i);
    HandedAt(last, lengths, j);
    TotalNext(lengths, i);
    TotalNext(lengths, j);
    TotalSplit(lengths, j + 1);
    TotalsGrow(lengths, i + 1, j);
    forall p: Word
      ensures !(Covers(Handed(last, lengths)[i], p) && Covers(Handed(last, lengths)[j], p))
    {
      CoversInterval(last, Total(lengths[..i]), AlignUp(lengths[i]), p);
      CoversInterval(last, Total(lengths[..j]), AlignUp(lengths[j]), p);
    }
  }

  /** The request at which the total first passes `bound`. */
  lemma {:induction false} Passing(lengths: seq<Word>, n: nat, bound: nat) returns (k: nat)
    requires n <= |lengths| && Total(lengths[..n]) > bound
    ensures k < n && Total(lengths[..k]) <= bound < Total(lengths[..k]) + AlignUp(lengths[k])
    decreases n
  {
    hide AlignUp;
    assert n > 0;
    TotalNext(lengths, n - 1);
    if Total(lengths[..n - 1]) > bound {
      k := Passing(lengths, n - 1, bound);
    } else {
      k := n - 1;
    }
  }

  lemma HandedAgain(last: Word, lengths: seq<Word>) returns (i: nat, j: nat)
    requires last % PAGE_SIZE == 0 && Total(lengths) > M64
    ensures i < j < |lengths| == |Handed(last, lengths)|
    ensures Covers(Handed(last, lengths)[i], last) && Covers(Handed(last, lengths)[j], last)
  {
    hide AlignUp, Handed;
    assert lengths[..|lengths|] == lengths;
    i := Passing(lengths, |lengths|, 0);
    j := Passing(lengths, |lengths|, M64);
    HandedAt(last, lengths, i);
    HandedAt(last, lengths, j);
    TotalNext(lengths, j);
    TotalsGrow(lengths, j + 1, i);
  }

  /**
    Over every sequence of requests, no address is handed out twice exactly as long
    as no more than the 2^64 addresses there are is handed out.
  */
  lemma HandedDisjointExactlyWhen(last: Word, lengths: seq<Word>)
    requires last % PAGE_SIZE == 0
    ensures PairwiseDisjoint(Handed(last, lengths)) <==> Total(lengths) <= M64
  {
    hide AlignUp, Handed, Covers;
    if Total(lengths) > M64 {
      var i, j := HandedAgain(last, lengths);
      assert !Disjoint(Handed(last, lengths)[i], Handed(last, lengths)[j]);
    } else if lengths != [] {
      HandedAt(last, lengths, 0);
      forall i, j | 0 <= i < j < |lengths|
        ensures Disjoint(Handed(last, lengths)[i], Handed(last, lengths)[j])
      {
        HandedApart(last, lengths, i, j);
      }
    } else {
      NothingHanded(last);
    }
  }

  lemma NothingHanded(last: Word)
    ensures Handed(last, []) == []
  {
  }

  class SyscallHandler {
    const memory: Memmap
    var lastMMAP: Word

    ghost predicate Valid()
      reads this, memory
    {
      memory.Valid() && lastMMAP % PAGE_SIZE == 0
    }

    constructor (mapper: Memmap)
      requires mapper.Valid()
      ensures Valid() && memory == mapper && lastMMAP == FIRST_MMAP
    {
      memory, lastMMAP := mapper, FIRST_MMAP;
    }

    /**
      The memory-map system call: the region is mapped once per thread, each time
      at the same place. `succeeds` is whether the kernel grants it.
    */
    method Mmap(length: Word, threads: nat, succeeds: bool) returns (result: Word)
      requires Valid()
      modifies this`lastMMAP, memory`mappedRegions
      ensures Valid() && memory.base == old(memory.base)
      ensures result == old(lastMMAP) && Handed(old(lastMMAP), [length]) == [Range(result, AlignUp(length))]
      ensures lastMMAP == Add(old(lastMMAP), AlignUp(length))
      ensures old(memory.mappedRegions) <= memory.mappedRegions
      ensures succeeds && threads > 0 ==>
                MemRegion(memory.GetBaseOffset(result), result, AlignUp(length)) in memory.mappedRegions
    {
      var basePtr, baseSize := AlignDown(lastMMAP), AlignUp(length);
      AlignUpExactlyWhen(length);
      AlignedSum(lastMMAP, baseSize);
      lastMMAP := Add(lastMMAP, baseSize);
      var answer := if succeeds then Some(Add(memory.base, basePtr)) else None;
      var i := 0;
      while i < threads
        invariant lastMMAP == Add(old(lastMMAP), baseSize)
        invariant 0 <= i <= threads && memory.Valid() && old(memory.mappedRegions) <= memory.mappedRegions
        invariant succeeds && i > 0 ==>
                    MemRegion(Add(memory.base, basePtr), basePtr, baseSize) in memory.mappedRegions
      {
        var _ := memory.MapRegion(basePtr, baseSize, true, answer);
        i := i + 1;
      }
      result := basePtr;
    }
  }

  /** An address inside a mapped, unwrapped region is found, at base plus address. */
  lemma MappedIsContained(m: Memmap, r: MemRegion, address: Word)
    requires r in m.mappedRegions && r.offset + r.size < M64 && r.offset <= address < r.offset + r.size
    ensures exists i :: 0 <= i < |m.mappedRegions| && m.mappedRegions[i].Contains(address)
  {
    var i :| 0 <= i < |m.mappedRegions| && m.mappedRegions[i] == r;
    assert m.mappedRegions[i].Contains(address);
  }
}
