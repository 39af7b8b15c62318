/**
 The kernel's cache for large objects: slabs whose objects lie in buddy regions
 of their own, three lists of slabs, and a hash table that leads from an object's
 address back to its slab. It runs on the list and the table proved beside it.
 */
module LargeCache {
  import opened Bits
  import opened SlabObjects
  import opened SlabList
  import opened HashTable

  const PAGE_SHIFT: nat := 12
  const ADDRESS_BITS: nat := 32

  /** `1 << PAGE_SHIFT << order`: the size, and the alignment, of a slab's buddy region. */
  function RegionSize(order: nat): (r: nat)
    ensures r > 0
  {
    Pow2(PAGE_SHIFT + order)
  }

  /** `addr & ~(size - 1)` for the region size. */
  function LowerBoundary(address: nat, order: nat): nat
    requires PAGE_SHIFT + order <= ADDRESS_BITS
  {
    Pow2Monotone(PAGE_SHIFT + order, ADDRESS_BITS);
    And(address, Pow2(ADDRESS_BITS) - RegionSize(order))
  }

  /** The definition's hash: the number of the region. */
  function HashKey(key: nat, order: nat): nat
    requires PAGE_SHIFT + order <= ADDRESS_BITS
  {
    ShiftRight(ShiftRight(LowerBoundary(key, order), order), PAGE_SHIFT)
  }

  /** An address inside an aligned region leads back to the region's start. */
  lemma LowerBoundaryFindsStart(address: nat, order: nat, start: nat)
    requires PAGE_SHIFT + order <= ADDRESS_BITS && start % RegionSize(order) == 0
    requires start <= address < start + RegionSize(order) <= Pow2(ADDRESS_BITS)
    ensures LowerBoundary(address, order) == start
  {
    AlignDown(address, PAGE_SHIFT + order, ADDRESS_BITS, start);
  }

  /** A region is 2^order pages of 0x1000 bytes, and the hash its number in the address space. */
  lemma {:induction false} RegionNumber(key: nat, order: nat)
    requires PAGE_SHIFT + order <= ADDRESS_BITS && key < Pow2(ADDRESS_BITS)
    ensures RegionSize(order) == 0x1000 * Pow2(order) && HashKey(key, order) == key / RegionSize(order)
  {
    hide And, Pow2, ShiftRight, LowerBoundary;
    Pow2Of12();
    Pow2Add(12, order);
    LowerBoundaryIs(key, order);
    ShiftIsQuotient(LowerBoundary(key, order), order);
    ShiftIsQuotient(ShiftRight(LowerBoundary(key, order), order), PAGE_SHIFT);
    TwoQuotients(key, RegionSize(order), 0x1000, Pow2(order));
  }

  lemma TwoQuotients(n: nat, r: nat, a: nat, p: nat)
    requires a > 0 && p > 0 && r == a * p
    ensures r > 0 && ((n - n % r) / p) / a == n / r
  {
    var q := n / r;
    ProductPositive(a, p);
    assert n - n % r == q * r;
    assert q * r == (q * a) * p;
    ExactQuotient(q * a, p);
    ExactQuotient(q, a);
  }

  lemma ProductPositive(a: int, p: int)
    requires a > 0 && p > 0
    ensures a * p > 0
  {
  }

  lemma LowerBoundaryIs(key: nat, order: nat)
    requires PAGE_SHIFT + order <= ADDRESS_BITS && key < Pow2(ADDRESS_BITS)
    ensures LowerBoundary(key, order) == key - key % RegionSize(order)
  {
    hide And, Pow2;
    AndHighMask(key, PAGE_SHIFT + order, ADDRESS_BITS);
  }

  // ---------------------------------------------------------------------------
  // One slab
  // ---------------------------------------------------------------------------

  ghost function Arrays(slabs: set<HashedSlab>): set<array<int>> {
    set s | s in slabs :: s.freeArray
  }

  ghost predicate Distinct(c: seq<int>) {
    forall i, j :: 0 <= i < j < |c| ==> c[i] != c[j]
  }

  /** From the slab's free index the free array leads through exactly the indices `c`. */
  ghost predicate FreeChain(s: HashedSlab, c: seq<int>)
    reads s`freeIndex, s.freeArray
  {
    && Distinct(c)
    && (forall i :: 0 <= i < |c| ==> 0 <= c[i] < s.freeArray.Length < SLAB_BUF_END)
    && (c == [] ==> s.freeIndex == SLAB_BUF_END)
    && (c != [] ==> s.freeIndex == c[0] && s.freeArray[c[|c| - 1]] == SLAB_BUF_END)
    && (forall i, j :: 0 <= i && j == i + 1 && j < |c| ==> s.freeArray[c[i]] == c[j])
  }

  /** Every object is either on the free chain or in use. */
  ghost predicate SlabValid(s: HashedSlab, c: seq<int>)
    reads s`freeIndex, s`inUse, s.freeArray
  {
    FreeChain(s, c) && s.inUse + |c| == s.freeArray.Length
  }

  /** Takes the first object off the chain. */
  method TakeFirst(s: HashedSlab, ghost c: seq<int>) returns (index: int)
    requires SlabValid(s, c) && c != []
    modifies s`freeIndex, s`inUse
    ensures index == c[0] == old(s.freeIndex) && SlabValid(s, c[1..]) && s.inUse == old(s.inUse) + 1
  {
    ghost var second := if |c| > 1 then c[1] else c[0];
    index := s.freeIndex;
    s.freeIndex := s.freeArray[s.freeIndex];
    s.inUse := s.inUse + 1;
  }

  /** Puts an object back in front of the chain. */
  method PutFirst(s: HashedSlab, index: int, ghost c: seq<int>)
    requires SlabValid(s, c) && 0 <= index < s.freeArray.Length < SLAB_BUF_END && index !in c
    requires s.inUse > 0
    modifies s`freeIndex, s`inUse, s.freeArray
    ensures SlabValid(s, [index] + c) && s.inUse == old(s.inUse) - 1 && s.freeIndex == index
  {
    s.freeArray[index] := s.freeIndex;
    s.freeIndex := index;
    s.inUse := s.inUse - 1;
  }

  /** A chain that leaves no object in use holds every index; an empty one leaves them all in use. */
  lemma IsFullMeansAllInUse(s: HashedSlab, c: seq<int>)
    requires SlabValid(s, c)
    ensures s.IsFull() <==> s.inUse == s.freeArray.Length
  {
  }

  /** An index that is not on the chain is that of an object in use. */
  lemma SomeInUse(s: HashedSlab, c: seq<int>, index: int)
    requires SlabValid(s, c) && 0 <= index < s.freeArray.Length && index !in c
    ensures s.inUse > 0
  {
    var free := set i | i in c;
    CountDistinct(c);
    assert free <= Range(s.freeArray.Length) - {index};
    SubsetSize(free, Range(s.freeArray.Length) - {index});
  }

  /** If nothing is in use the chain visits every index. */
  lemma NoneInUse(s: HashedSlab, c: seq<int>)
    requires SlabValid(s, c) && s.inUse == 0
    ensures forall i :: 0 <= i < s.freeArray.Length ==> i in c
  {
    forall i | 0 <= i < s.freeArray.Length
      ensures i in c
    {
      if i !in c { SomeInUse(s, c, i); }
    }
  }

  ghost function Range(n: nat): (r: set<int>)
    ensures |r| == n && forall i :: i in r <==> 0 <= i < n
  {
    if n == 0 then {} else Range(n - 1) + {n - 1}
  }

  lemma {:induction false} CountDistinct(c: seq<int>)
    requires Distinct(c)
    ensures |set i | i in c| == |c|
  {
    if c != [] {
      var front := c[..|c| - 1];
      CountDistinct(front);
      assert c == front + [c[|c| - 1]];
      assert (set i | i in c) == (set i | i in front) + {c[|c| - 1]};
    }
  }

  lemma {:induction false} SubsetSize<T>(a: set<T>, b: set<T>)
    requires a <= b
    ensures |a| <= |b|
  {
    if x :| x in a { SubsetSize(a - {x}, b - {x}); }
  }

  lemma SomeUnused(s: HashedSlab, c: seq<int>)
    requires SlabValid(s, c)
    ensures s.inUse < s.freeArray.Length ==> c != []
    ensures Distinct(c) && forall i :: 0 <= i < |c| ==> 0 <= c[i] < s.freeArray.Length
    ensures s.inUse + |c| == s.freeArray.Length
  {
  }

  /** The chain of a fresh slab: all indices in order. */
  ghost function AllIndices(n: nat): seq<int> {
    seq(n, i => i)
  }

  method FreshSlab(start: nat, n: nat) returns (s: HashedSlab)
    requires 0 < n < SLAB_BUF_END
    ensures fresh(s) && fresh(s.freeArray) && s.objectStart == start && s.freeArray.Length == n
    ensures SlabValid(s, AllIndices(n)) && s.inUse == 0 && s.freeIndex == 0
  {
    var indices := new int[n];
    var i := 0;
    while i < n - 1
      invariant 0 <= i <= n - 1
      invariant forall k :: 0 <= k < i ==> indices[k] == k + 1
    {
      indices[i] := i + 1;
      i := i + 1;
    }
    indices[n - 1] := SLAB_BUF_END;
    s := new HashedSlab(start, indices);
  }

  // ---------------------------------------------------------------------------
  // The cache
  // ---------------------------------------------------------------------------

  /** The three lists together hold each slab once. */
  ghost predicate Three(a: DoublyLinkedList, b: DoublyLinkedList, c: DoublyLinkedList, slabs: set<HashedSlab>)
    reads a, b, c, slabs`next, slabs`previous
  {
    && Elements(a.elems) + Elements(b.elems) + Elements(c.elems) == slabs
    && Elements(a.elems) !! Elements(b.elems) && Elements(a.elems) !! Elements(c.elems)
    && Elements(b.elems) !! Elements(c.elems)
    && a.Valid() && b.Valid() && c.Valid()
  }

  /** Takes a slab off one list and makes it the first of another. */
  method Move(slab: HashedSlab, from: DoublyLinkedList, to: DoublyLinkedList, ghost other: DoublyLinkedList,
          ghost slabs: set<HashedSlab>)
    requires Three(from, to, other, slabs) && slab in from.elems
    requires from != to && from != other && to != other
    modifies from, to, slabs`next, slabs`previous
    ensures Three(from, to, other, slabs)
    ensures forall s :: s in from.elems <==> s in old(from.elems) && s != slab
    ensures forall s :: s in to.elems <==> s in old(to.elems) || s == slab
  {
    hide NoDuplicates, Removed;
    assert slab in Elements(from.elems);
    assert slab !in Elements(to.elems);
    ghost var before, others := from.elems, Elements(to.elems);
    var k := from.Remove(slab);
    Without(before, k);
    to.Prepend(slab);
    assert Elements(to.elems) == others + {slab};
  }

  lemma Without(c: seq<HashedSlab>, k: nat)
    requires NoDuplicates(c) && k < |c|
    ensures forall s :: s in Removed(c, k) <==> s in c && s != c[k]
    ensures Elements(Removed(c, k)) == Elements(c) - {c[k]}
  {
    assert c == c[..k] + [c[k]] + c[k + 1..];
  }

  class Cache {
    const order: nat
    const objSize: nat
    const objectsPerSlab: nat
    const freeSlabList: DoublyLinkedList
    const partialSlabList: DoublyLinkedList
    const fullSlabList: DoublyLinkedList
    const hashTable: BHashTable
    var objectsAllocated: nat
    ghost var slabs: set<HashedSlab>
    /** The free chain of each slab. */
    ghost var chains: map<HashedSlab, seq<int>>
    /** The addresses handed out and not yet given back. */
    ghost var live: set<int>

    ghost predicate Sane() {
      && PAGE_SHIFT + order <= ADDRESS_BITS
      && 0 < objSize && 0 < objectsPerSlab < SLAB_BUF_END && objectsPerSlab * objSize <= RegionSize(order)
      && freeSlabList != partialSlabList && freeSlabList != fullSlabList && partialSlabList != fullSlabList
      && !hashTable.autoExpand && !hashTable.checkDuplicates
    }

    ghost predicate Lists(slabs: set<HashedSlab>)
      reads freeSlabList, partialSlabList, fullSlabList, slabs`next, slabs`previous
    {
      Three(freeSlabList, partialSlabList, fullSlabList, slabs)
    }

    /** The hash table holds each slab, and no two slabs share a region. */
    ghost predicate Table(slabs: set<HashedSlab>)
      reads hashTable, hashTable.storage, slabs`hashTableNext
    {
      && hashTable.items == slabs && hashTable.Valid()
      && (slabs != {} ==> hashTable.curTableSize > 0)
      && (forall s :: s in slabs ==>
          s.objectStart % RegionSize(order) == 0 && s.objectStart + RegionSize(order) <= Pow2(ADDRESS_BITS))
      && (forall s, t :: s in slabs && t in slabs && s.objectStart == t.objectStart ==> s == t)
    }

    ghost predicate Slabs(slabs: set<HashedSlab>, chains: map<HashedSlab, seq<int>>)
      reads slabs`freeIndex, slabs`inUse, (set s | s in slabs :: s.freeArray)
    {
      && chains.Keys == slabs
      && (forall s :: s in slabs ==> s.freeArray.Length == objectsPerSlab)
      && (forall s, t :: s in slabs && t in slabs && s.freeArray == t.freeArray ==> s == t)
      && (forall s :: s in slabs ==> SlabValid(s, chains[s]))
    }

    /** Each slab is on the list that its number of objects in use dictates. */
    ghost predicate OnRightList(s: HashedSlab)
      reads freeSlabList`elems, partialSlabList`elems, fullSlabList`elems, s`inUse
    {
      && (s in freeSlabList.elems <==> s.inUse == 0)
      && (s in partialSlabList.elems <==> 0 < s.inUse < objectsPerSlab)
      && (s in fullSlabList.elems <==> s.inUse == objectsPerSlab)
    }

    ghost predicate InUse(chains: map<HashedSlab, seq<int>>, s: HashedSlab, i: int) {
      s in chains && 0 <= i < objectsPerSlab && i !in chains[s]
    }

    /** Address `a` is that of an object in use. */
    ghost predicate Live(chains: map<HashedSlab, seq<int>>, a: int) {
      exists s, i :: s in chains && InUse(chains, s, i) && a == s.objectStart + i * objSize
    }

    ghost predicate LiveExactly(chains: map<HashedSlab, seq<int>>, live: set<int>) {
      forall a :: a in live <==> Live(chains, a)
    }

    ghost predicate Valid()
      reads this, freeSlabList, partialSlabList, fullSlabList, hashTable, hashTable.storage, slabs,
          (set s | s in slabs :: s.freeArray)
    {
      && Sane() && Lists(slabs) && Table(slabs) && Slabs(slabs, chains)
      && (forall s :: s in slabs ==> OnRightList(s))
      && LiveExactly(chains, live)
      && objectsAllocated == |live|
    }

    constructor (ord: nat, size: nat, perSlab: nat)
      requires PAGE_SHIFT + ord <= ADDRESS_BITS
      requires 0 < size && 0 < perSlab < SLAB_BUF_END && perSlab * size <= RegionSize(ord)
      ensures Valid() && live == {} && slabs == {}
      ensures order == ord && objSize == size && objectsPerSlab == perSlab
    {
      order, objSize, objectsPerSlab := ord, size, perSlab;
      freeSlabList := new DoublyLinkedList();
      partialSlabList := new DoublyLinkedList();
      fullSlabList := new DoublyLinkedList();
      hashTable := new BHashTable(key => HashKey(key, ord), false, false);
      objectsAllocated := 0;
      slabs, chains, live := {}, map[], {};
      new;
      assert Lists(slabs) && Table(slabs);
    }

    /** The table never gets near the sizes at which its arithmetic could overflow. */
    lemma FewSlabs(slabs: set<HashedSlab>)
      requires Sane() && Table(slabs)
      ensures |slabs| <= Pow2(20) && Pow2(20) < GrowLimit(LARGEST_SIZE) - 1
    {
      hide Pow2;
      var k := ADDRESS_BITS - PAGE_SHIFT - order;
      Pow2Add(k, PAGE_SHIFT + order);
      CountRegions(slabs, RegionSize(order), Pow2(k));
      Pow2Monotone(k, 20);
      Pow2Of20();
    }

    /** ResizeHashTableIfNeeded; `memory` says whether a buffer can be had. */
    method ResizeHashTableIfNeeded(memory: bool, ghost slabs: set<HashedSlab>)
      requires Sane() && Table(slabs) && hashTable.curTableSize > 0
      modifies hashTable, slabs`hashTableNext
      ensures Table(slabs) && hashTable.curTableSize > 0
      ensures memory ==> Suits(hashTable.curTableSize, |slabs|)
      ensures hashTable.storage == old(hashTable.storage) || fresh(hashTable.storage)
    {
      FewSlabs(slabs);
      var hashSize := ResizeNeeded(hashTable.curTableSize, hashTable.curItemCount);
      if hashSize != 0 && memory {
        var again := ResizeNeeded(hashTable.curTableSize, hashTable.curItemCount);
        TargetUnique(hashTable.curTableSize, hashTable.curItemCount, hashSize / POINTER_SIZE, again / POINTER_SIZE);
        if again == hashSize {
          var resized := hashTable.Resize(hashSize, true);
        }
      }
    }

    /** A region from the buddy allocator: aligned to its size, inside the address space, and nobody else's. */
    ghost predicate NewRegion(start: nat)
      reads this`slabs
    {
      && start % RegionSize(order) == 0 && start + RegionSize(order) <= Pow2(ADDRESS_BITS)
      && forall s :: s in slabs ==> s.objectStart != start
    }

    /** Grow: a slab of unused objects in a region of its own joins the free list and the hash table. */
    method Grow(start: nat, memory: bool) returns (slab: HashedSlab)
      requires Valid() && NewRegion(start)
      modifies this`slabs, this`chains, freeSlabList, hashTable
      modifies hashTable.storage, slabs`next, slabs`previous, slabs`hashTableNext
      ensures Valid() && live == old(live) && objectsAllocated == old(objectsAllocated)
      ensures fresh(slab) && slab.objectStart == start && slab.IsEmpty() && slab.freeIndex == 0
      ensures slabs == old(slabs) + {slab} && (memory ==> Suits(hashTable.curTableSize, |slabs|))
      ensures freeSlabList.elems == [slab] + old(freeSlabList.elems)
      ensures hashTable.storage == old(hashTable.storage) || fresh(hashTable.storage)
    {
      hide DoublyLinkedList.Valid, BHashTable.Valid, SlabValid, Lists, Table, Suits;
      hide Slabs, LiveExactly, NewRegion, Elements, OnRightList;
      slab := FreshSlab(start, objectsPerSlab);
      Attach(slab, memory);
      ghost var more := slabs + {slab};
      AddUnused(slab);
      assert Lists(more) && Table(more);
      assert forall s :: s in slabs ==> OnRightList(s);
    }

    /** The slab is known to the lists and to the table. */
    method Attach(slab: HashedSlab, memory: bool)
      requires Valid() && NewRegion(slab.objectStart) && slab !in slabs && slab.inUse == 0
      requires slab as object != hashTable.storage && slab.freeArray as object != hashTable.storage
      modifies freeSlabList, slabs`previous, slab`next, slab`previous
      modifies hashTable, hashTable.storage, slabs`hashTableNext, slab`hashTableNext
      ensures Lists(slabs + {slab}) && Table(slabs + {slab}) && Slabs(slabs, chains)
      ensures forall s :: s in slabs + {slab} ==> OnRightList(s)
      ensures freeSlabList.elems == [slab] + old(freeSlabList.elems)
      ensures memory ==> Suits(hashTable.curTableSize, |slabs + {slab}|)
      ensures hashTable.storage == old(hashTable.storage) || fresh(hashTable.storage)
    {
      hide DoublyLinkedList.Valid, BHashTable.Valid, SlabValid, Lists, Table, Suits;
      hide Slabs, LiveExactly, NewRegion, Elements, OnRightList;
      StorageIsElsewhere();
      AddToLists(slab);
      ghost var more := slabs + {slab};
      AddToTable(slab, memory);
      assert Lists(more) && Slabs(slabs, chains);
    }

    /** The table's storage holds slabs, so it is none of the other things. */
    lemma StorageIsElsewhere()
      ensures forall s: HashedSlab :: s in slabs ==> s as object != hashTable.storage
      ensures forall s: HashedSlab :: s in slabs ==> s.freeArray as object != hashTable.storage
      ensures freeSlabList as object != hashTable.storage && partialSlabList as object != hashTable.storage
      ensures fullSlabList as object != hashTable.storage && this as object != hashTable.storage
    {
    }

    /** The slab becomes the first of the free list. */
    method AddToLists(slab: HashedSlab)
      requires Sane() && Lists(slabs) && slab !in slabs && slab.inUse == 0
      requires forall s :: s in slabs ==> OnRightList(s)
      modifies freeSlabList, slabs`previous, slab`next, slab`previous
      ensures Lists(slabs + {slab}) && freeSlabList.elems == [slab] + old(freeSlabList.elems)
      ensures forall s :: s in slabs + {slab} ==> OnRightList(s)
    {
      assert slab !in Elements(freeSlabList.elems) && slab !in Elements(partialSlabList.elems) &&
          slab !in Elements(fullSlabList.elems);
      freeSlabList.Prepend(slab);
    }

    method AddToTable(slab: HashedSlab, memory: bool)
      requires Sane() && Table(slabs) && NewRegion(slab.objectStart) && slab !in slabs
      modifies hashTable, hashTable.storage, slabs`hashTableNext, slab`hashTableNext
      ensures Table(slabs + {slab}) && (memory ==> Suits(hashTable.curTableSize, |slabs + {slab}|))
      ensures hashTable.storage == old(hashTable.storage) || fresh(hashTable.storage)
    {
      hide BHashTable.Valid, Suits, Pow2;
      FewSlabs(slabs);
      hashTable.SizeFacts();
      var inserted := hashTable.Insert(slab, true);
      hashTable.SizeFacts();
      ResizeHashTableIfNeeded(memory, slabs + {slab});
    }

    /** The ghost side of Grow. */
    ghost method AddUnused(slab: HashedSlab)
      requires Sane() && Slabs(slabs, chains) && slab !in slabs && slab.freeArray !in Arrays(slabs)
      requires slab.freeArray.Length == objectsPerSlab && SlabValid(slab, AllIndices(objectsPerSlab))
      requires LiveExactly(chains, live)
      modifies this`slabs, this`chains
      ensures slabs == old(slabs) + {slab} && Slabs(slabs, chains) && LiveExactly(chains, live)
    {
      hide SlabValid, InUse, Live, AllIndices;
      slabs := slabs + {slab};
      ghost var before := chains;
      NothingInUse(before, slab);
      chains := chains[slab := AllIndices(objectsPerSlab)];
      SameLive(before, chains);
    }

    lemma NothingInUse(before: map<HashedSlab, seq<int>>, slab: HashedSlab)
      requires slab !in before
      ensures forall s, i :: InUse(before[slab := AllIndices(objectsPerSlab)], s, i) <==> InUse(before, s, i)
    {
      forall s, i
        ensures InUse(before[slab := AllIndices(objectsPerSlab)], s, i) <==> InUse(before, s, i)
      {
        if s == slab && 0 <= i < objectsPerSlab { assert AllIndices(objectsPerSlab)[i] == i; }
      }
    }

    lemma SameLive(c: map<HashedSlab, seq<int>>, c': map<HashedSlab, seq<int>>)
      requires forall s, i :: InUse(c, s, i) <==> InUse(c', s, i)
      ensures forall a :: Live(c, a) <==> Live(c', a)
    {
      forall a
        ensures Live(c, a) <==> Live(c', a)
      {
        if s, i :| s in c && InUse(c, s, i) && a == s.objectStart + i * objSize { assert InUse(c', s, i); }
        if s, i :| s in c' && InUse(c', s, i) && a == s.objectStart + i * objSize { assert InUse(c, s, i); }
      }
    }

    // -------------------------------------------------------------------------
    // Addresses
    // -------------------------------------------------------------------------

    /** An object's address lies in its slab's region, and the table's key for it is the region's start. */
    lemma AddressInRegion(slabs: set<HashedSlab>, s: HashedSlab, i: nat)
      requires Sane() && Table(slabs) && s in slabs && i < objectsPerSlab
      ensures s.objectStart <= s.objectStart + i * objSize < s.objectStart + RegionSize(order)
      ensures LowerBoundary(s.objectStart + i * objSize, order) == s.objectStart
    {
      hide BHashTable.Valid, Pow2;
      IndexInRegion(i, objectsPerSlab, objSize, RegionSize(order));
      LowerBoundaryFindsStart(s.objectStart + i * objSize, order, s.objectStart);
    }

    /** No address belongs to two objects. */
    lemma AddressUnique(slabs: set<HashedSlab>, s: HashedSlab, i: nat, t: HashedSlab, j: nat)
      requires Sane() && Table(slabs) && s in slabs && t in slabs && i < objectsPerSlab && j < objectsPerSlab
      requires s.objectStart + i * objSize == t.objectStart + j * objSize
      ensures s == t && i == j
    {
      hide BHashTable.Valid, Pow2, LowerBoundary;
      AddressInRegion(slabs, s, i);
      AddressInRegion(slabs, t, j);
      SameProduct(i, j, objSize);
    }

    // -------------------------------------------------------------------------
    // Allocation
    // -------------------------------------------------------------------------

    /** GetNonEmptySlab: a partial slab if there is one, else a free one, else a new one in the given region. */
    method GetNonEmptySlab(start: nat, memory: bool) returns (slab: HashedSlab)
      requires Valid()
      requires partialSlabList.elems == [] && freeSlabList.elems == [] ==> NewRegion(start)
      modifies this`slabs, this`chains, freeSlabList, hashTable
      modifies hashTable.storage, slabs`next, slabs`previous, slabs`hashTableNext
      ensures Valid() && live == old(live) && objectsAllocated == old(objectsAllocated)
      ensures slab in slabs && slab.inUse < objectsPerSlab
      ensures var partial, unused := old(partialSlabList.elems), old(freeSlabList.elems);
              if partial != [] then slab == partial[0] && slabs == old(slabs)
              else if unused != [] then slab == unused[0] && slabs == old(slabs)
              else fresh(slab) && slab.objectStart == start && slab.freeIndex == 0 && slabs == old(slabs) + {slab}
      ensures hashTable.storage == old(hashTable.storage) || fresh(hashTable.storage)
    {
      hide BHashTable.Valid, Table, Slabs, LiveExactly, NewRegion;
      if partialSlabList.IsEmpty() {
        if freeSlabList.IsEmpty() {
          slab := Grow(start, memory);
        } else {
          slab := freeSlabList.head;
          assert slab in Elements(freeSlabList.elems);
        }
      } else {
        slab := partialSlabList.head;
        assert slab in Elements(partialSlabList.elems);
      }
    }

    /** Takes the first unused object of a slab that has one. */
    method TakeObject(slab: HashedSlab) returns (address: nat)
      requires Sane() && Table(slabs) && Slabs(slabs, chains) && LiveExactly(chains, live)
      requires slab in slabs && slab.inUse < objectsPerSlab
      modifies slab`freeIndex, slab`inUse, this`chains, this`live
      ensures Slabs(slabs, chains) && LiveExactly(chains, live)
      ensures slab.inUse == old(slab.inUse) + 1 && address == slab.objectStart + old(slab.freeIndex) * objSize
      ensures address !in old(live) && live == old(live) + {address}
    {
      hide BHashTable.Valid, Table, SlabValid, LiveExactly, RegionSize, LowerBoundary;
      ghost var before, c := chains, chains[slab];
      SomeUnused(slab, c);
      var index := TakeFirst(slab, c);
      AddressInRegion(slabs, slab, index);
      address := slab.objectStart + index * objSize;
      chains := chains[slab := c[1..]];
      TakenFromChain(before, slab, address);
      MoreLive(before, chains, address);
      live := live + {address};
    }

    lemma MoreLive(before: map<HashedSlab, seq<int>>, after: map<HashedSlab, seq<int>>, address: int)
      requires !Live(before, address) && LiveExactly(before, live)
      requires forall a :: Live(after, a) <==> Live(before, a) || a == address
      ensures address !in live && LiveExactly(after, live + {address})
    {
    }

    /** Ghost bookkeeping of one object more in use: the first of the slab's chain. */
    lemma TakenFromChain(before: map<HashedSlab, seq<int>>, slab: HashedSlab, address: nat)
      requires Sane() && Table(slabs) && before.Keys == slabs
      requires slab in before && before[slab] != [] && Distinct(before[slab]) && 0 <= before[slab][0] < objectsPerSlab
      requires address == slab.objectStart + before[slab][0] * objSize
      ensures !Live(before, address)
      ensures forall a :: Live(before[slab := before[slab][1..]], a) <==> Live(before, a) || a == address
    {
      hide BHashTable.Valid, Table;
      var c := before[slab];
      var after := before[slab := c[1..]];
      assert c == [c[0]] + c[1..];
      assert c[0] !in c[1..];
      forall s, i
        ensures InUse(after, s, i) <==> InUse(before, s, i) || (s == slab && i == c[0])
      {
      }
      assert InUse(after, slab, c[0]);
      if Live(before, address) {
        var s, i :| s in before && InUse(before, s, i) && address == s.objectStart + i * objSize;
        AddressUnique(slabs, s, i, slab, c[0]);
      }
      LiveAfter(before, after, slab, c[0]);
    }

    /** One object more in use is one address more that is live. */
    lemma LiveAfter(before: map<HashedSlab, seq<int>>, after: map<HashedSlab, seq<int>>, slab: HashedSlab, index: int)
      requires forall s, i :: InUse(after, s, i) <==> InUse(before, s, i) || (s == slab && i == index)
      ensures forall a :: Live(after, a) <==> Live(before, a) || a == slab.objectStart + index * objSize
    {
      assert InUse(after, slab, index);
      forall a
        ensures Live(after, a) <==> Live(before, a) || a == slab.objectStart + index * objSize
      {
        if s, i :| s in after && InUse(after, s, i) && a == s.objectStart + i * objSize {
          assert InUse(before, s, i) || (s == slab && i == index);
        }
        if s, i :| s in before && InUse(before, s, i) && a == s.objectStart + i * objSize {
          assert InUse(after, s, i);
        }
      }
    }

    /** The order in which the lists are named does not matter. */
    lemma Rotate(slabs: set<HashedSlab>)
      ensures Lists(slabs) <==> Three(freeSlabList, partialSlabList, fullSlabList, slabs)
      ensures Lists(slabs) <==> Three(partialSlabList, fullSlabList, freeSlabList, slabs)
      ensures Lists(slabs) <==> Three(fullSlabList, partialSlabList, freeSlabList, slabs)
      ensures Lists(slabs) <==> Three(partialSlabList, freeSlabList, fullSlabList, slabs)
    {
    }

    lemma FullMeansAllInUse(slab: HashedSlab)
      requires Slabs(slabs, chains) && slab in slabs
      ensures slab.IsFull() <==> slab.inUse == objectsPerSlab
      ensures slab.inUse <= objectsPerSlab
    {
      IsFullMeansAllInUse(slab, chains[slab]);
    }

    /** AllocateObject: the address of an object that was not in use. */
    method AllocateObject(start: nat, memory: bool) returns (address: nat)
      requires Valid()
      requires partialSlabList.elems == [] && freeSlabList.elems == [] ==> NewRegion(start)
      modifies this`slabs, this`chains, this`live, this`objectsAllocated
      modifies freeSlabList, partialSlabList, fullSlabList, hashTable, hashTable.storage, slabs
      ensures Valid()
      ensures address !in old(live) && live == old(live) + {address}
      ensures objectsAllocated == old(objectsAllocated) + 1
      ensures if old(partialSlabList.elems == [] && freeSlabList.elems == [])
              then address == start && exists slab: HashedSlab ::
                     fresh(slab) && slab.objectStart == start && slabs == old(slabs) + {slab}
              else
                var slab := if old(partialSlabList.elems) != [] then old(partialSlabList.elems)[0]
                            else old(freeSlabList.elems)[0];
                address == slab.objectStart + old(slab.freeIndex) * objSize && slabs == old(slabs)
    {
      hide BHashTable.Valid, DoublyLinkedList.Valid, Lists, Table, Slabs, LiveExactly, NewRegion, Elements;
      var slab := GetNonEmptySlab(start, memory);
      address := AllocateFrom(slab);
    }

    /** All of the invariant except that `slab` may be on a list other than its own. */
    ghost predicate ValidExcept(slab: HashedSlab)
      reads this, freeSlabList, partialSlabList, fullSlabList, hashTable, hashTable.storage, slabs,
          (set s | s in slabs :: s.freeArray)
    {
      && Sane() && Lists(slabs) && Table(slabs) && Slabs(slabs, chains) && LiveExactly(chains, live)
      && (forall s :: s in slabs && s != slab ==> OnRightList(s))
      && objectsAllocated == |live|
    }

    /** The slab, empty or partial, is put on the partial list. */
    method MakePartial(slab: HashedSlab)
      requires Valid() && slab in slabs && slab.inUse < objectsPerSlab
      modifies freeSlabList, partialSlabList, slabs`next, slabs`previous
      ensures ValidExcept(slab)
      ensures slab !in freeSlabList.elems && slab in partialSlabList.elems && slab !in fullSlabList.elems
    {
      hide BHashTable.Valid, DoublyLinkedList.Valid, Three, Table, Slabs, LiveExactly, Elements;
      assert OnRightList(slab);
      if slab.IsEmpty() {
        Rotate(slabs);
        Move(slab, freeSlabList, partialSlabList, fullSlabList, slabs);
      }
      forall s | s in slabs && s != slab
        ensures OnRightList(s)
      {
        assert old(OnRightList(s));
      }
    }

    /** AllocateObject, once there is a slab with an unused object. */
    method AllocateFrom(slab: HashedSlab) returns (address: nat)
      requires Valid() && slab in slabs && slab.inUse < objectsPerSlab
      modifies this`chains, this`live, this`objectsAllocated
      modifies freeSlabList, partialSlabList, fullSlabList, slabs`next, slabs`previous, slab`freeIndex, slab`inUse
      ensures Valid()
      ensures address !in old(live) && live == old(live) + {address}
      ensures address == slab.objectStart + old(slab.freeIndex) * objSize
      ensures objectsAllocated == old(objectsAllocated) + 1
    {
      hide BHashTable.Valid, Three, Table, Slabs, LiveExactly;
      MakePartial(slab);
      label partial:
      address := TakeObject(slab);
      objectsAllocated := objectsAllocated + 1;
      forall s | s in slabs && s != slab
        ensures OnRightList(s)
      {
        assert old@partial(OnRightList(s));
      }
      SettleFull(slab);
    }

    /** A slab on the partial list goes to the full list if all of it is in use now. */
    method SettleFull(slab: HashedSlab)
      requires ValidExcept(slab) && slab in slabs && slab.inUse > 0
      requires slab !in freeSlabList.elems && slab in partialSlabList.elems && slab !in fullSlabList.elems
      modifies partialSlabList, fullSlabList, slabs`next, slabs`previous
      ensures Valid()
    {
      hide BHashTable.Valid, DoublyLinkedList.Valid, Three, Table, Slabs, LiveExactly, Elements;
      FullMeansAllInUse(slab);
      if slab.IsFull() {
        Rotate(slabs);
        Move(slab, partialSlabList, fullSlabList, freeSlabList, slabs);
        Rotate(slabs);
      }
      forall s | s in slabs
        ensures OnRightList(s)
      {
        assert s == slab || old(OnRightList(s));
      }
    }

    // -------------------------------------------------------------------------
    // Freeing
    // -------------------------------------------------------------------------

    /** A live address is that of one object in use, and the hash table leads to its slab. */
    lemma OwnerOfLive(address: nat) returns (slab: HashedSlab, index: nat)
      requires Valid() && address in live
      ensures InUse(chains, slab, index) && slab in slabs && slab.inUse > 0
      ensures address == slab.objectStart + index * objSize
      ensures LowerBoundary(address, order) == slab.objectStart
    {
      hide BHashTable.Valid, Table, Three, RegionSize;
      assert Live(chains, address);
      var s, i :| s in chains && InUse(chains, s, i) && address == s.objectStart + i * objSize;
      slab, index := s, i;
      AddressInRegion(slabs, slab, index);
      SomeInUse(slab, chains[slab], index);
    }

    /** FreeObject of an address that AllocateObject returned. */
    method FreeObject(address: nat, memory: bool)
      requires Valid() && address in live
      modifies this`chains, this`live, this`objectsAllocated
      modifies freeSlabList, partialSlabList, fullSlabList, hashTable, slabs, (set s | s in slabs :: s.freeArray)
      ensures Valid() && slabs == old(slabs) && (memory ==> Suits(hashTable.curTableSize, |slabs|))
      ensures exists slab :: slab in slabs && address == slab.objectStart + slab.freeIndex * objSize
      ensures live == old(live) - {address} && objectsAllocated == old(objectsAllocated) - 1
    {
      hide DoublyLinkedList.Valid, Lists, Slabs, LiveExactly, Elements, BHashTable.Valid, RegionSize, InUse, Live;
      hide Suits;
      ghost var owner, i := OwnerOfLive(address);
      StorageIsElsewhere();
      var slab := SlabOf(address);
      ReturnTo(slab, address, i);
      assert forall s :: s in slabs ==> OnRightList(s);
      ResizeHashTableIfNeeded(memory, slabs);
      assert Lists(slabs) && Slabs(slabs, chains) && LiveExactly(chains, live);
    }

    /** The slab that the hash table has for an address. */
    method SlabOf(address: nat) returns (slab: HashedSlab)
      requires Valid() && address in live
      ensures slab in slabs && slab.objectStart == LowerBoundary(address, order)
    {
      hide BHashTable.Valid, Lists, Slabs, LiveExactly, RegionSize;
      ghost var owner, i := OwnerOfLive(address);
      var found := hashTable.Lookup(LowerBoundary(address, order));
      slab := found;
    }

    /** FreeObject, once the slab is known. */
    method ReturnTo(slab: HashedSlab, address: nat, ghost i: nat)
      requires Valid() && slab in slabs && InUse(chains, slab, i) && slab.inUse > 0
      requires address == slab.objectStart + i * objSize
      modifies this`chains, this`live, this`objectsAllocated
      modifies freeSlabList, partialSlabList, fullSlabList, slabs`next
      modifies slabs`previous, slab`freeIndex, slab`inUse, slab.freeArray
      ensures Valid() && address in old(live) && address == slab.objectStart + slab.freeIndex * objSize
      ensures live == old(live) - {address} && objectsAllocated == old(objectsAllocated) - 1
    {
      hide BHashTable.Valid, DoublyLinkedList.Valid, Three, Table, Slabs, LiveExactly, InUse, Live;
      FullMeansAllInUse(slab);
      LeaveFull(slab);
      label partial:
      PutObject(slab, address, i);
      objectsAllocated := objectsAllocated - 1;
      forall s | s in slabs && s != slab
        ensures OnRightList(s)
      {
        assert old@partial(OnRightList(s));
      }
      SettleEmpty(slab);
    }

    /** A slab on the partial list goes to the free list if nothing of it is in use any more. */
    method SettleEmpty(slab: HashedSlab)
      requires ValidExcept(slab) && slab in slabs && slab.inUse < objectsPerSlab
      requires slab !in freeSlabList.elems && slab in partialSlabList.elems && slab !in fullSlabList.elems
      modifies freeSlabList, partialSlabList, slabs`next, slabs`previous
      ensures Valid()
    {
      hide BHashTable.Valid, DoublyLinkedList.Valid, Three, Table, Slabs, LiveExactly, Elements;
      if slab.IsEmpty() {
        Rotate(slabs);
        Move(slab, partialSlabList, freeSlabList, fullSlabList, slabs);
        Rotate(slabs);
      }
      forall s | s in slabs
        ensures OnRightList(s)
      {
        assert s == slab || old(OnRightList(s));
      }
    }

    /** The slab, full or partial, is put on the partial list. */
    method LeaveFull(slab: HashedSlab)
      requires Valid() && slab in slabs && slab.inUse > 0
      modifies fullSlabList, partialSlabList, slabs`next, slabs`previous
      ensures ValidExcept(slab)
      ensures slab !in freeSlabList.elems && slab in partialSlabList.elems && slab !in fullSlabList.elems
    {
      hide BHashTable.Valid, DoublyLinkedList.Valid, Three, Table, Slabs, LiveExactly, Elements;
      assert OnRightList(slab);
      FullMeansAllInUse(slab);
      if slab.IsFull() {
        Rotate(slabs);
        Move(slab, fullSlabList, partialSlabList, freeSlabList, slabs);
        Rotate(slabs);
      }
      forall s | s in slabs && s != slab
        ensures OnRightList(s)
      {
        assert old(OnRightList(s));
      }
    }

    /** Puts the object with the given address back on its slab's chain. */
    method PutObject(slab: HashedSlab, address: nat, ghost i: nat)
      requires Sane() && Table(slabs) && Slabs(slabs, chains) && LiveExactly(chains, live)
      requires slab in slabs && InUse(chains, slab, i) && slab.inUse > 0
      requires address == slab.objectStart + i * objSize
      modifies slab`freeIndex, slab`inUse, slab.freeArray, this`chains, this`live
      ensures Slabs(slabs, chains) && LiveExactly(chains, live)
      ensures slab.inUse == old(slab.inUse) - 1 && address == slab.objectStart + slab.freeIndex * objSize
      ensures address in old(live) && live == old(live) - {address}
    {
      hide BHashTable.Valid, Table, SlabValid, LiveExactly, RegionSize, LowerBoundary, Live, Pow2;
      ghost var before, c := chains, chains[slab];
      var index := (address - slab.objectStart) / objSize;
      ExactQuotient(i, objSize);
      PutFirst(slab, index, c);
      chains := chains[slab := [index] + c];
      PutOnChain(before, slab, i);
      FewerLive(before, chains, address);
      live := live - {address};
    }

    lemma PutOnChain(before: map<HashedSlab, seq<int>>, slab: HashedSlab, index: nat)
      requires Sane() && Table(slabs) && before.Keys == slabs && slab in before && InUse(before, slab, index)
      ensures Live(before, slab.objectStart + index * objSize)
      ensures var after := before[slab := [index] + before[slab]];
              forall a :: Live(after, a) <==> Live(before, a) && a != slab.objectStart + index * objSize
    {
      hide BHashTable.Valid, Table;
      var after, address := before[slab := [index] + before[slab]], slab.objectStart + index * objSize;
      forall s, i
        ensures InUse(before, s, i) <==> InUse(after, s, i) || (s == slab && i == index)
        ensures !InUse(after, slab, index)
      {
      }
      if Live(after, address) {
        var s, i :| s in after && InUse(after, s, i) && address == s.objectStart + i * objSize;
        AddressUnique(slabs, s, i, slab, index);
      }
      LiveAfter(after, before, slab, index);
    }

    lemma FewerLive(before: map<HashedSlab, seq<int>>, after: map<HashedSlab, seq<int>>, address: int)
      requires Live(before, address) && LiveExactly(before, live)
      requires forall a :: Live(after, a) <==> Live(before, a) && a != address
      ensures address in live && LiveExactly(after, live - {address})
    {
    }

    // -------------------------------------------------------------------------
    // Giving slabs back
    // -------------------------------------------------------------------------

    /** ReleaseUnusedMemory: the slabs without objects in use leave the cache, and nothing else changes. */
    method ReleaseUnusedMemory(memory: bool)
      requires Valid()
      modifies this`slabs, this`chains, freeSlabList, hashTable
      modifies hashTable.storage, slabs`next, slabs`previous, slabs`hashTableNext
      ensures Valid() && live == old(live) && objectsAllocated == old(objectsAllocated)
      ensures freeSlabList.elems == []
      ensures forall s :: s in slabs <==> s in old(slabs) && s.inUse > 0
      ensures memory && slabs != old(slabs) ==> Suits(hashTable.curTableSize, |slabs|)
    {
      hide BHashTable.Valid, DoublyLinkedList.Valid, Three, Table, Slabs, LiveExactly, Elements, Suits;
      ghost var storage0 := hashTable.storage;
      while freeSlabList.head != null
        invariant Valid() && live == old(live) && objectsAllocated == old(objectsAllocated)
        invariant slabs <= old(slabs)
        invariant memory && slabs != old(slabs) ==> Suits(hashTable.curTableSize, |slabs|)
        invariant forall s :: s in old(slabs) && s.inUse > 0 ==> s in slabs
        invariant hashTable.storage == storage0 || fresh(hashTable.storage)
        decreases slabs
      {
        ReleaseFirst(memory);
      }
      NoHeadNoElements();
      forall s | s in slabs
        ensures s.inUse > 0
      {
        assert OnRightList(s);
      }
    }

    lemma NoHeadNoElements()
      requires Lists(slabs)
      ensures freeSlabList.head == null <==> freeSlabList.elems == []
      ensures forall s :: s in freeSlabList.elems ==> s in slabs
      ensures freeSlabList.elems != [] ==> freeSlabList.head == freeSlabList.elems[0]
    {
      forall s | s in freeSlabList.elems
        ensures s in slabs
      {
        assert s in Elements(freeSlabList.elems);
      }
    }

    /** One round: the head of the free list is removed from it, and released. */
    method ReleaseFirst(memory: bool)
      requires Valid() && freeSlabList.head != null
      modifies this`slabs, this`chains, freeSlabList, hashTable
      modifies hashTable.storage, slabs`next, slabs`previous, slabs`hashTableNext
      ensures Valid() && live == old(live) && objectsAllocated == old(objectsAllocated)
      ensures slabs < old(slabs) && (memory ==> Suits(hashTable.curTableSize, |slabs|))
      ensures forall s :: s in old(slabs) && s.inUse > 0 ==> s in slabs
      ensures hashTable.storage == old(hashTable.storage) || fresh(hashTable.storage)
    {
      hide BHashTable.Valid, Three, Table, Slabs, LiveExactly, Elements, DoublyLinkedList.Valid, Suits;
      NoHeadNoElements();
      StorageIsElsewhere();
      var slab := freeSlabList.head;
      assert OnRightList(slab);
      RemoveFromFree(slab);
      ReleaseSlab(slab, memory);
      ghost var fewer := slabs - {slab};
      assert Lists(fewer);
      Forget(slab);
      assert slab !in slabs;
      forall s | s in slabs
        ensures OnRightList(s)
      {
        assert old(OnRightList(s));
      }
      assert Lists(fewer) && Table(fewer);
    }

    method RemoveFromFree(slab: HashedSlab)
      requires Lists(slabs) && slab in freeSlabList.elems
      modifies freeSlabList, slabs`next, slabs`previous
      ensures Lists(slabs - {slab})
      ensures forall s :: s in freeSlabList.elems <==> s in old(freeSlabList.elems) && s != slab
    {
      ghost var before := freeSlabList.elems;
      assert slab in Elements(before);
      var k := freeSlabList.Remove(slab);
      Without(before, k);
      assert Elements(freeSlabList.elems) == Elements(before) - {slab};
    }

    /** ReleaseSlab: the slab leaves the hash table; its memory goes back to where it came from. */
    method ReleaseSlab(slab: HashedSlab, memory: bool)
      requires Sane() && Table(slabs) && slab in slabs
      modifies hashTable, hashTable.storage, slabs`hashTableNext
      ensures Table(slabs - {slab}) && (memory ==> Suits(hashTable.curTableSize, |slabs - {slab}|))
      ensures hashTable.storage == old(hashTable.storage) || fresh(hashTable.storage)
    {
      hide BHashTable.Valid;
      var removed := hashTable.Remove(slab, memory);
      ResizeHashTableIfNeeded(memory, slabs - {slab});
    }

    /** The ghost side of releasing a slab none of whose objects is in use. */
    ghost method Forget(slab: HashedSlab)
      requires Sane() && Slabs(slabs, chains) && slab in slabs && slab.inUse == 0 && LiveExactly(chains, live)
      modifies this`slabs, this`chains
      ensures slabs == old(slabs) - {slab} && Slabs(slabs, chains) && LiveExactly(chains, live)
    {
      ghost var before := chains;
      NoneInUse(slab, chains[slab]);
      slabs := slabs - {slab};
      chains := chains - {slab};
      forall s, i
        ensures InUse(chains, s, i) <==> InUse(before, s, i)
      {
      }
      SameLive(before, chains);
    }
  }

  lemma Pow2Of12()
    ensures Pow2(12) == 0x1000
  {
    assert Pow2(6) == 64;
    Pow2Add(6, 6);
  }

  lemma Pow2Of20()
    ensures Pow2(20) == 0x10_0000
  {
    assert Pow2(10) == 1024 by { assert Pow2(5) == 32; }
    Pow2Add(10, 10);
  }

  lemma IndexInRegion(i: int, n: int, size: int, region: int)
    requires 0 <= i < n && size > 0 && n * size <= region
    ensures 0 <= i * size < region
  {
    assert (n - i) * size == n * size - i * size;
    MulAtLeast(n - i, size);
  }

  lemma ExactQuotient(i: int, m: int)
    requires m > 0
    ensures (i * m) / m == i
  {
    ModUnique(i * m, m, i, 0);
  }

  lemma SameProduct(i: int, j: int, m: int)
    requires m > 0 && i * m == j * m
    ensures i == j
  {
    assert (i - j) * m == 0 && (j - i) * m == 0;
    if i > j { MulAtLeast(i - j, m); }
    if j > i { MulAtLeast(j - i, m); }
  }

  lemma NonPositiveProduct(a: int, m: int)
    requires a <= 0 && m > 0
    ensures a * m <= 0
  {
  }

  lemma MultipleBelow(x: nat, m: nat, n: nat)
    requires m > 0 && n > 0 && x % m == 0 && x < n * m
    ensures x <= (n - 1) * m
  {
    var q := x / m;
    assert x == m * q;
    assert (n - q) * m == n * m - m * q;
    if n - q <= 0 { NonPositiveProduct(n - q, m); }
    assert m * q <= m * (n - 1);
  }

  /** Below `n * m` there is room for at most `n` regions that start at different multiples of `m`. */
  lemma {:induction false} CountRegions(slabs: set<HashedSlab>, m: nat, n: nat)
    requires m > 0
    requires forall s :: s in slabs ==> s.objectStart % m == 0 && s.objectStart < n * m
    requires forall s, t :: s in slabs && t in slabs && s.objectStart == t.objectStart ==> s == t
    ensures |slabs| <= n
    decreases n
  {
    if n == 0 {
      assert n * m == 0;
      if s :| s in slabs { assert false; }
    } else {
      var last := (n - 1) * m;
      var rest := set s | s in slabs && s.objectStart != last;
      forall s | s in rest
        ensures s.objectStart < (n - 1) * m
      {
        MultipleBelow(s.objectStart, m, n);
      }
      CountRegions(rest, m, n - 1);
      if top :| top in slabs && top.objectStart == last {
        assert slabs == rest + {top};
      } else {
        assert slabs == rest;
      }
    }
  }
}
