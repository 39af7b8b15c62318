/**
 The kernel's intrusive hash table: chains through the items' own link field,
 a power-of-two number of buckets, and resizing. It is shown to be a set of
 items, each on the one chain that its hash selects.

 Items are slab headers, the table's one use in the kernel; the key of an item
 is the address its objects start at. `hashKey` is the definition's hash.
 */
module HashTable {
  import opened Bits
  import opened SlabObjects
  import opened Outcome

  const MINIMUM_SIZE: nat := 8
  const POINTER_SIZE: nat := 4

  /** `size_t` has 32 bits: up to this many buckets the products below stay in range. */
  const LARGEST_SIZE: nat := 0x100_0000
  const WORD_LIMIT: nat := 0x1_0000_0000

  // ---------------------------------------------------------------------------
  // Sizing
  // ---------------------------------------------------------------------------

  function GrowLimit(size: int): int { size * 200 / 256 }
  function ShrinkLimit(size: int): int { size * 50 / 256 }

  /** The size suits the number of items: ResizeNeeded has nothing to ask for. */
  predicate Suits(size: nat, count: nat) {
    size != 0 && count < GrowLimit(size) && (size <= MINIMUM_SIZE || ShrinkLimit(size) <= count)
  }

  /** At most 200 of 256 buckets' worth of items, one more counted in, and above the least size at least 50 of 256. */
  lemma SuitsMeans(size: nat, count: nat)
    ensures Suits(size, count) <==>
              size != 0 && 256 * (count + 1) <= 200 * size && (size <= 8 || 50 * size < 256 * (count + 1))
  {
    var g, s := size * 200 / 256, size * 50 / 256;
    assert 256 * g <= 200 * size < 256 * g + 256;
    assert 256 * s <= 50 * size < 256 * s + 256;
  }

  ghost predicate ValidSize(size: nat) {
    size == 0 || (MINIMUM_SIZE <= size <= LARGEST_SIZE && IsPow2(size))
  }

  /** The size to change to: the nearest power of two that suits, going up or down. */
  ghost predicate IsTarget(size: nat, count: nat, t: nat) {
    && t != size && t >= MINIMUM_SIZE && IsPow2(t) && Suits(t, count)
    && (t < size ==> count < ShrinkLimit(2 * t))
    && (t > size ==> (size == 0 && t == MINIMUM_SIZE) || GrowLimit(t / 2) <= count)
  }

  lemma LimitsMonotone(a: int, b: int)
    ensures a <= b ==> GrowLimit(a) <= GrowLimit(b) && ShrinkLimit(a) <= ShrinkLimit(b)
    ensures 0 <= a ==> ShrinkLimit(2 * a) <= GrowLimit(a)
  {
  }

  lemma Pow2Gap(a: int, b: int)
    requires IsPow2(a) && IsPow2(b) && a < b
    ensures 2 * a <= b
  {
    var i: nat :| a == Pow2(i);
    var j: nat :| b == Pow2(j);
    if j <= i { Pow2Monotone(j, i); } else { Pow2Monotone(i + 1, j); }
  }

  /** At most one size can be asked for. */
  lemma TargetUnique(size: nat, count: nat, t: nat, t': nat)
    requires ValidSize(size) && IsTarget(size, count, t) && IsTarget(size, count, t')
    ensures t == t'
  {
    TargetsOrdered(size, count, t, t');
    TargetsOrdered(size, count, t', t);
  }

  lemma TargetsOrdered(size: nat, count: nat, t: nat, t': nat)
    requires ValidSize(size) && IsTarget(size, count, t) && IsTarget(size, count, t')
    ensures t >= t'
  {
    var twice, half := 2 * t, t' / 2;
    if t < t' { Pow2Gap(t, t'); }
    if 0 < size && t < size { Pow2Gap(t, size); }
    if 0 < size && size < t' { Pow2Gap(size, t'); }
    LimitsMonotone(t, half);
    LimitsMonotone(size, half);
    LimitsMonotone(twice, size);
    LimitsMonotone(twice, t');
  }

  /**
     ResizeNeeded: the size, in bytes, that the table should have, or 0. Once that
     size is installed nothing more is asked for, so resizing never oscillates.
   */
  method ResizeNeeded(curTableSize: nat, curItemCount: nat) returns (bytes: nat)
    requires ValidSize(curTableSize) && curItemCount < GrowLimit(LARGEST_SIZE)
    ensures bytes == 0 <==> Suits(curTableSize, curItemCount)
    ensures bytes == 0 <==>
              && curTableSize != 0 && 256 * (curItemCount + 1) <= 200 * curTableSize
              && (curTableSize <= 8 || 50 * curTableSize < 256 * (curItemCount + 1))
    ensures bytes != 0 ==> bytes % POINTER_SIZE == 0 && IsTarget(curTableSize, curItemCount, bytes / POINTER_SIZE)
    ensures bytes != 0 ==> ValidSize(bytes / POINTER_SIZE)
  {
    hide Pow2;
    SuitsMeans(curTableSize, curItemCount);
    var size := curTableSize;
    ghost var k: nat := 3;
    assert Pow2(3) == 8 by { Eight(); }
    if size != 0 {
      k :| size == Pow2(k);
    }
    if size == 0 || curItemCount >= size * 200 / 256 {
      if size == 0 {
        size := MINIMUM_SIZE;
      }
      while curItemCount >= size * 200 / 256
        invariant MINIMUM_SIZE <= size <= LARGEST_SIZE && size == Pow2(k)
        invariant size >= curTableSize
        invariant (size == curTableSize && curItemCount >= GrowLimit(size)) ||
                    (curTableSize == 0 && size == MINIMUM_SIZE)
                  || (size > curTableSize && GrowLimit(size / 2) <= curItemCount)
        decreases LARGEST_SIZE - size
      {
        assert size * 200 < WORD_LIMIT;
        if size == LARGEST_SIZE { assert false; }
        Pow2Step(k);
        Pow2Doubles(k + 1);
        size := 2 * size;
        k := k + 1;
      }
    } else if size > MINIMUM_SIZE && curItemCount < size * 50 / 256 {
      while curItemCount < size * 50 / 256
        invariant 0 < size <= curTableSize && size == Pow2(k)
        invariant size < curTableSize ==> curItemCount < ShrinkLimit(2 * size)
        invariant curItemCount < GrowLimit(size) || size < MINIMUM_SIZE
        decreases size
      {
        assert size * 200 < WORD_LIMIT;
        Pow2Doubles(k);
        size := size / 2;
        k := k - 1;
      }
      if size < MINIMUM_SIZE {
        size := MINIMUM_SIZE;
        k := 3;
      }
    }
    if size == curTableSize {
      return 0;
    }
    assert IsPow2(size);
    bytes := size * POINTER_SIZE;
    assert bytes / POINTER_SIZE == size;
  }

  lemma Eight()
    ensures Pow2(3) == 8
  {
    assert Pow2(1) == 2;
    assert Pow2(2) == 4;
  }

  /** Powers of two below 2^24 double to at most 2^24. */
  lemma Pow2Step(k: nat)
    requires Pow2(k) < LARGEST_SIZE
    ensures 2 * Pow2(k) <= LARGEST_SIZE
  {
    assert Pow2(4) == 16;
    assert Pow2(8) == 256 by { assert Pow2(6) == 64; }
    assert Pow2(12) == 4096 by { assert Pow2(10) == 1024; }
    assert Pow2(16) == 65536 by { assert Pow2(14) == 16384; }
    assert Pow2(20) == 1048576 by { assert Pow2(18) == 262144; }
    assert Pow2(24) == LARGEST_SIZE by { assert Pow2(22) == 4194304; }
    Pow2Gap(Pow2(k), Pow2(24));
  }

  // ---------------------------------------------------------------------------
  // Chains
  // ---------------------------------------------------------------------------

  /** Following the links from `head` visits exactly `c` and then reaches `tail`. */
  ghost predicate Chain(head: HashedSlab?, c: seq<HashedSlab>, tail: HashedSlab?)
    reads Elements(c)`hashTableNext
  {
    if c == [] then head == tail
    else head == c[0] && Chain(c[0].hashTableNext, c[1..], tail)
  }

  lemma {:induction false} ChainConcat(head: HashedSlab?, a: seq<HashedSlab>, mid: HashedSlab?, b: seq<HashedSlab>,
          tail: HashedSlab?)
    requires Chain(head, a, mid) && Chain(mid, b, tail)
    ensures Chain(head, a + b, tail)
  {
    if a == [] {
      assert a + b == b;
    } else {
      ChainConcat(a[0].hashTableNext, a[1..], mid, b, tail);
      assert (a + b)[1..] == a[1..] + b;
    }
  }

  lemma {:induction false} ChainCut(head: HashedSlab?, a: seq<HashedSlab>, b: seq<HashedSlab>, tail: HashedSlab?)
    returns (mid: HashedSlab?)
    requires Chain(head, a + b, tail)
    ensures Chain(head, a, mid) && Chain(mid, b, tail)
  {
    if a == [] {
      assert a + b == b;
      mid := head;
    } else {
      assert (a + b)[1..] == a[1..] + b;
      mid := ChainCut(a[0].hashTableNext, a[1..], b, tail);
    }
  }

  lemma TailFacts(c: seq<HashedSlab>)
    requires NoDuplicates(c) && c != []
    ensures NoDuplicates(c[1..]) && Elements(c[1..]) == Elements(c) - {c[0]}
    ensures c[0] !in c[1..]
  {
    assert c == [c[0]] + c[1..];
  }

  type Chains = seq<seq<HashedSlab>>

  function BucketOf(hash: nat, size: nat): (b: nat)
    requires size > 0
    ensures b < size
  {
    And(hash, size - 1)
  }

  /** Under a power-of-two size the mask selects the hash modulo the size. */
  lemma BucketIsRemainder(hash: nat, size: nat)
    requires IsPow2(size)
    ensures BucketOf(hash, size) == hash % size
  {
    var k: nat :| size == Pow2(k);
    AndLowMask(hash, k);
  }

  /** Bucket `from` and those after it hold the chains `cs`. */
  ghost predicate Buckets(table: array<HashedSlab?>, cs: Chains, from: nat, nodes: set<HashedSlab>)
    reads table, nodes`hashTableNext
  {
    && table.Length == |cs|
    && (forall b :: from <= b < |cs| ==> Elements(cs[b]) <= nodes && NoDuplicates(cs[b]))
    && (forall b :: from <= b < |cs| ==> Chain(table[b], cs[b], null))
  }

  /** Every element of a chain is on the chain that its hash selects. */
  ghost predicate Placed(cs: Chains, hashKey: nat -> nat) {
    forall b, x :: 0 <= b < |cs| && x in cs[b] ==> BucketOf(hashKey(x.objectStart), |cs|) == b
  }

  ghost predicate Holds(cs: Chains, x: HashedSlab, hashKey: nat -> nat) {
    |cs| > 0 && x in cs[BucketOf(hashKey(x.objectStart), |cs|)]
  }

  ghost function Flatten(cs: Chains): seq<HashedSlab> {
    if cs == [] then [] else Flatten(cs[..|cs| - 1]) + cs[|cs| - 1]
  }

  lemma NothingStored(table: array<HashedSlab?>, cs: Chains, nodes: set<HashedSlab>, hashKey: nat -> nat)
    requires |cs| == table.Length && forall b :: 0 <= b < table.Length ==> table[b] == null && cs[b] == []
    ensures Buckets(table, cs, 0, nodes) && Placed(cs, hashKey)
  {
  }

  class BHashTable {
    const hashKey: nat -> nat
    const autoExpand: bool
    const checkDuplicates: bool
    var curTableSize: nat
    var curItemCount: nat
    var storage: array?<HashedSlab?>
    ghost var chains: Chains
    ghost var items: set<HashedSlab>

    /** Each item is on one chain, the one that its hash selects. */
    ghost predicate Sound()
      reads this`storage, this`chains, this`items, storage, items`hashTableNext
    {
      && (storage != null ==> Buckets(storage, chains, 0, items))
      && Placed(chains, hashKey)
      && forall x :: x in items ==> Holds(chains, x, hashKey)
    }

    /** The table stands for the set `items`. */
    ghost predicate Valid()
      reads this, storage, items`hashTableNext
    {
      && ValidSize(curTableSize) && |chains| == curTableSize
      && (storage == null <==> curTableSize == 0)
      && Sound() && curItemCount == |items|
    }

    constructor (hash: nat -> nat, expand: bool, check: bool)
      ensures Valid() && items == {} && curTableSize == 0
      ensures hashKey == hash && autoExpand == expand && checkDuplicates == check
    {
      hashKey, autoExpand, checkDuplicates := hash, expand, check;
      curTableSize, curItemCount, storage := 0, 0, null;
      chains, items := [], {};
    }

    lemma SizeFacts()
      requires Valid()
      ensures curItemCount == |items|
      ensures items != {} ==> curTableSize > 0
    {
      assert forall x :: x in items ==> Holds(chains, x, hashKey);
    }

    /** Finds an item with the key exactly when there is one. */
    method Lookup(key: nat) returns (slot: HashedSlab?)
      requires Valid()
      ensures slot != null ==> slot in items && slot.objectStart == key
      ensures slot == null ==> forall x :: x in items ==> x.objectStart != key
    {
      if curTableSize == 0 {
        return null;
      }
      var index := BucketOf(hashKey(key), curTableSize);
      slot := storage[index];
      ghost var rest := chains[index];
      while slot != null
        invariant Chain(slot, rest, null) && Elements(rest) <= Elements(chains[index])
        invariant forall x :: x in chains[index] && x !in rest ==> x.objectStart != key
        decreases |rest|
      {
        if slot.objectStart == key {
          assert slot in Elements(chains[index]);
          break;
        }
        slot := slot.hashTableNext;
        rest := rest[1..];
      }
    }

    /** _Insert: the value becomes the head of the chain its hash selects. */
    method InsertInto(table: array<HashedSlab?>, value: HashedSlab, ghost cs: Chains, ghost nodes: set<HashedSlab>)
      returns (ghost cs': Chains)
      requires 0 < table.Length && Buckets(table, cs, 0, nodes) && Placed(cs, hashKey)
      requires value in nodes && forall b :: 0 <= b < |cs| ==> value !in cs[b]
      modifies table, value`hashTableNext
      ensures var b := BucketOf(hashKey(value.objectStart), |cs|); cs' == cs[b := [value] + cs[b]]
      ensures Buckets(table, cs', 0, nodes) && Placed(cs', hashKey)
    {
      var index := BucketOf(hashKey(value.objectStart), table.Length);
      value.hashTableNext := table[index];
      table[index] := value;
      cs' := cs[index := [value] + cs[index]];
      assert Chain(value, cs'[index], null) by {
        assert cs'[index][1..] == cs[index];
      }
    }

    /** Moves the chain `cs[i]` over to the new storage, item by item. */
    method MoveChain(i: nat, newStorage: array<HashedSlab?>, ghost ns: Chains) returns (ghost ns': Chains)
      requires storage != null && i < storage.Length && storage != newStorage
      requires Buckets(storage, chains, i, items) && Placed(chains, hashKey)
      requires 0 < newStorage.Length && Buckets(newStorage, ns, 0, items) && Placed(ns, hashKey)
      requires forall x :: x in items ==> Holds(chains, x, hashKey)
      requires forall x :: x in items ==> (Holds(ns, x, hashKey) <==> BucketOf(hashKey(x.objectStart), |chains|) < i)
      modifies newStorage, items`hashTableNext
      ensures Buckets(storage, chains, i + 1, items)
      ensures Buckets(newStorage, ns', 0, items) && Placed(ns', hashKey)
      ensures forall x :: x in items ==>
                (Holds(ns', x, hashKey) <==> BucketOf(hashKey(x.objectStart), |chains|) < i + 1)
    {
      hide NoDuplicates, BucketOf, And, Placed, Holds;
      OnlyThere(chains, i);
      ns' := ns;
      var bucket := storage[i];
      ghost var rest := chains[i];
      while bucket != null
        invariant Chain(bucket, rest, null) && NoDuplicates(rest) && Elements(rest) <= Elements(chains[i])
        invariant Buckets(storage, chains, i + 1, items)
        invariant Buckets(newStorage, ns', 0, items) && Placed(ns', hashKey)
        invariant forall x :: x in items ==>
                    (Holds(ns', x, hashKey) <==>
                        BucketOf(hashKey(x.objectStart), |chains|) < i || (x in chains[i] && x !in rest))
        decreases |rest|
      {
        var next := bucket.hashTableNext;
        ghost var before, tail := ns', rest[1..];
        TailFacts(rest);
        assert Chain(next, tail, null) && bucket !in Elements(tail);
        assert bucket in Elements(chains[i]) && bucket in chains[i] && !Holds(ns', bucket, hashKey);
        NotHeld(ns', bucket);
        assert forall b :: i < b < |chains| ==> bucket !in Elements(chains[b]);
        ns' := InsertInto(newStorage, bucket, ns', items);
        MovedOne(before, ns', bucket);
        bucket, rest := next, tail;
      }
    }

    lemma OnlyThere(cs: Chains, i: nat)
      requires Placed(cs, hashKey) && i < |cs|
      ensures forall x :: x in cs[i] ==> BucketOf(hashKey(x.objectStart), |cs|) == i
      ensures forall x :: Holds(cs, x, hashKey) && BucketOf(hashKey(x.objectStart), |cs|) == i ==> x in cs[i]
      ensures forall b :: i < b < |cs| ==> Elements(cs[b]) !! Elements(cs[i])
    {
    }

    lemma NotHeld(cs: Chains, x: HashedSlab)
      requires Placed(cs, hashKey) && !Holds(cs, x, hashKey)
      ensures forall b :: 0 <= b < |cs| ==> x !in cs[b]
    {
    }

    lemma MovedOne(cs: Chains, cs': Chains, value: HashedSlab)
      requires |cs| > 0
      requires var b := BucketOf(hashKey(value.objectStart), |cs|); cs' == cs[b := [value] + cs[b]]
      ensures forall x :: Holds(cs', x, hashKey) <==> Holds(cs, x, hashKey) || x == value
    {
    }

    /** Moves every chain over to the new storage. */
    method MoveAll(newStorage: array<HashedSlab?>, ghost empty: Chains) returns (ghost ns: Chains)
      requires Valid() && storage != null && storage != newStorage && 0 < newStorage.Length == |empty|
      requires Buckets(newStorage, empty, 0, items) && forall b :: 0 <= b < |empty| ==> empty[b] == []
      modifies newStorage, items`hashTableNext
      ensures |ns| == newStorage.Length && Buckets(newStorage, ns, 0, items) && Placed(ns, hashKey)
      ensures forall x :: x in items ==> Holds(ns, x, hashKey)
    {
      hide BucketOf, And, IsPow2;
      ns := empty;
      var i := 0;
      while i < curTableSize
        invariant 0 <= i <= curTableSize
        invariant Buckets(storage, chains, i, items)
        invariant |ns| == newStorage.Length && Buckets(newStorage, ns, 0, items) && Placed(ns, hashKey)
        invariant forall x :: x in items ==> (Holds(ns, x, hashKey) <==> BucketOf(hashKey(x.objectStart), |chains|) < i)
      {
        ns := MoveChain(i, newStorage, ns);
        i := i + 1;
      }
    }

    /** _Resize: every item moves to the chain its hash selects under the new size; the set stays what it is. */
    method DoResize(newSize: nat)
      requires Valid() && ValidSize(newSize) && newSize > 0
      modifies this, items`hashTableNext
      ensures Valid() && items == old(items) && curTableSize == newSize && curItemCount == old(curItemCount)
      ensures fresh(storage)
    {
      hide BucketOf, And, IsPow2, Buckets, Placed, Chain, Elements, NoDuplicates;
      var newStorage := new HashedSlab?[newSize](_ => null);
      ghost var ns: Chains := seq(newSize, _ => []);
      NothingStored(newStorage, ns, items, hashKey);
      if storage != null {
        ns := MoveAll(newStorage, ns);
      }
      curTableSize := newSize;
      storage := newStorage;
      chains := ns;
    }

    /** Walks every chain of the table. */
    method ExhaustiveSearch(value: HashedSlab) returns (found: bool)
      requires Valid()
      ensures found <==> value in items
    {
      var i := 0;
      while i < curTableSize
        invariant 0 <= i <= curTableSize
        invariant forall b :: 0 <= b < i ==> value !in chains[b]
      {
        var bucket := storage[i];
        ghost var rest := chains[i];
        while bucket != null
          invariant Chain(bucket, rest, null) && Elements(rest) <= Elements(chains[i])
          invariant value in chains[i] ==> value in rest
          decreases |rest|
        {
          if bucket == value {
            assert value in Elements(chains[i]);
            return true;
          }
          bucket := bucket.hashTableNext;
          rest := rest[1..];
        }
        i := i + 1;
      }
      return false;
    }

    /**
     Insert; `memory` says whether storage for another size can be had. Without
     storage at all it fails, without bigger storage it goes on with what there is.
     */
    method Insert(value: HashedSlab, memory: bool) returns (r: Outcome<bool>)
      requires Valid() && curItemCount < GrowLimit(LARGEST_SIZE)
      requires !checkDuplicates ==> value !in items
      modifies this, storage, items`hashTableNext, value`hashTableNext
      ensures r.Panic? <==> checkDuplicates && value in old(items)
      ensures r.Returned? ==> (r.value <==> old(curTableSize) > 0 || memory)
      ensures r.Returned? ==> Valid() && items == if r.value then old(items) + {value} else old(items)
      ensures r.Returned? && r.value ==>
                curTableSize == if old(curTableSize) == 0 then MINIMUM_SIZE
                                else if autoExpand && memory && GrowLimit(old(curTableSize)) <= |old(items)|
                                then 2 * old(curTableSize)
                                else old(curTableSize)
      ensures fresh({storage} - old({storage}))
    {
      var room := MakeRoom(memory);
      if !room {
        return Returned(false);
      }
      if checkDuplicates {
        var known := ExhaustiveSearch(value);
        if known {
          return Panic;
        }
      }
      Link(value);
      return Returned(true);
    }

    /** The first step of Insert: storage to begin with, or more of it. */
    method MakeRoom(memory: bool) returns (room: bool)
      requires Valid() && curItemCount < GrowLimit(LARGEST_SIZE)
      modifies this, items`hashTableNext
      ensures Valid() && items == old(items)
      ensures room <==> old(curTableSize) > 0 || memory
      ensures room ==> curTableSize == if old(curTableSize) == 0 then MINIMUM_SIZE
                                       else if autoExpand && memory && GrowLimit(old(curTableSize)) <= |items|
                                       then 2 * old(curTableSize)
                                       else old(curTableSize)
      ensures storage == old(storage) || fresh(storage)
    {
      if curTableSize == 0 {
        if !memory {
          return false;
        }
        EightIsPow2();
        DoResize(MINIMUM_SIZE);
      } else if autoExpand && curItemCount >= curTableSize * 200 / 256 {
        if memory {
          DoubleIsPow2(curTableSize);
          DoResize(curTableSize * 2);
        }
      }
      return true;
    }

    /** The last two steps of Insert. */
    method Link(value: HashedSlab)
      requires Valid() && curTableSize > 0 && value !in items
      modifies this`curItemCount, this`items, this`chains, storage, value`hashTableNext
      ensures Valid() && items == old(items) + {value} && curTableSize == old(curTableSize)
    {
      hide Chain, Placed, Holds, Elements, NoDuplicates, ValidSize;
      LinkOnly(value);
      curItemCount := curItemCount + 1;
    }

    method LinkOnly(value: HashedSlab)
      requires storage != null && storage.Length > 0 && Buckets(storage, chains, 0, items) && Placed(chains, hashKey)
      requires forall x :: x in items ==> Holds(chains, x, hashKey)
      requires value !in items
      modifies this`items, this`chains, storage, value`hashTableNext
      ensures items == old(items) + {value} && |items| == |old(items)| + 1 && |chains| == |old(chains)|
      ensures Buckets(storage, chains, 0, items) && Placed(chains, hashKey)
      ensures forall x :: x in items ==> Holds(chains, x, hashKey)
    {
      Outside(value);
      ghost var cs' := InsertInto(storage, value, chains, items + {value});
      MovedOne(chains, cs', value);
      Remember(value, cs');
    }

    /** The ghost side of Link. */
    ghost method Remember(value: HashedSlab, cs': Chains)
      requires value !in items && |cs'| == |chains|
      requires forall x :: x in items ==> Holds(chains, x, hashKey)
      requires forall x :: Holds(cs', x, hashKey) <==> Holds(chains, x, hashKey) || x == value
      modifies this`items, this`chains
      ensures items == old(items) + {value} && |items| == |old(items)| + 1 && chains == cs'
      ensures forall x :: x in items ==> Holds(chains, x, hashKey)
    {
      items := items + {value};
      chains := cs';
    }

    lemma Outside(value: HashedSlab)
      requires storage != null && Buckets(storage, chains, 0, items) && value !in items
      ensures forall b :: 0 <= b < |chains| ==> value !in chains[b]
      ensures Buckets(storage, chains, 0, items + {value})
    {
      forall b | 0 <= b < |chains|
        ensures value !in chains[b]
      {
        assert Elements(chains[b]) <= items;
        assert value !in Elements(chains[b]);
      }
    }

    lemma EightIsPow2()
      ensures ValidSize(MINIMUM_SIZE)
    {
      Eight();
    }

    lemma DoubleIsPow2(size: nat)
      requires ValidSize(size) && 0 < size
      ensures size < LARGEST_SIZE ==> ValidSize(2 * size)
      ensures size > MINIMUM_SIZE ==> size % 2 == 0 && ValidSize(size / 2)
    {
      var k: nat :| size == Pow2(k);
      EightIsPow2();
      assert Pow2(k + 1) == 2 * size;
      if size < LARGEST_SIZE { Pow2Step(k); }
      if size > MINIMUM_SIZE {
        Pow2Gap(MINIMUM_SIZE, size);
        assert Pow2(k - 1) == size / 2;
      }
    }

    /** Remove of a value, in the table or not; a table that never had storage cannot be asked. */
    method Remove(value: HashedSlab, memory: bool) returns (removed: bool)
      requires Valid() && curTableSize > 0
      modifies this, storage, items`hashTableNext
      ensures Valid() && items == old(items) - {value}
      ensures removed <==> value in old(items)
      ensures curTableSize == if removed && autoExpand && memory && old(curTableSize) > MINIMUM_SIZE
                                 && |items| < ShrinkLimit(old(curTableSize))
                              then old(curTableSize) / 2 else old(curTableSize)
      ensures fresh({storage} - old({storage}))
    {
      removed := Unlink(value);
      if !removed {
        return;
      }
      if checkDuplicates {
        var again := ExhaustiveSearch(value);
        assert !again;
      }
      if autoExpand && curTableSize > MINIMUM_SIZE && curItemCount < curTableSize * 50 / 256 {
        if memory {
          DoubleIsPow2(curTableSize);
          DoResize(curTableSize / 2);
        }
      }
    }

    /** The walk of Remove along the chain the value's hash selects. */
    method Find(value: HashedSlab, index: nat)
      returns (slot: HashedSlab?, previous: HashedSlab?, ghost done: seq<HashedSlab>, ghost rest: seq<HashedSlab>)
      requires storage != null && index < storage.Length == |chains| && Chain(storage[index], chains[index], null)
      ensures slot == null ==> value !in chains[index]
      ensures slot != null ==> slot == value && chains[index] == done + [slot] + rest
      ensures slot != null ==> Chain(storage[index], done, slot) && Chain(slot, [slot] + rest, null)
      ensures slot != null ==> previous == if done == [] then null else done[|done| - 1]
    {
      previous, slot := null, storage[index];
      done, rest := [], chains[index];
      while slot != null && slot != value
        invariant chains[index] == done + rest
        invariant Chain(storage[index], done, slot) && Chain(slot, rest, null)
        invariant previous == if done == [] then null else done[|done| - 1]
        invariant value !in done
        modifies {}
        decreases |rest|
      {
        previous := slot;
        slot := slot.hashTableNext;
        assert done + [rest[0]] + rest[1..] == done + rest;
        assert [rest[0]][1..] == [];
        ChainConcat(storage[index], done, previous, [previous], slot);
        done, rest := done + [rest[0]], rest[1..];
      }
      if slot != null {
        assert done + [slot] + rest[1..] == done + rest && [slot] + rest[1..] == rest;
        rest := rest[1..];
      }
    }

    method Unlink(value: HashedSlab) returns (removed: bool)
      requires Valid() && curTableSize > 0
      modifies this`curItemCount, this`items, this`chains, storage, items`hashTableNext
      ensures Valid() && items == old(items) - {value} && curTableSize == old(curTableSize)
      ensures removed <==> value in old(items)
    {
      hide Sound, BucketOf, Chain, NoDuplicates, Elements;
      var index := BucketOf(hashKey(value.objectStart), curTableSize);
      ChainOf(value, index);
      var slot, previous, done, rest := Find(value, index);
      if slot == null {
        return false;
      }
      TakeOut(index, previous, slot, done, rest);
      curItemCount := curItemCount - 1;
      removed := true;
    }

    /** The chain that a value's hash selects, and that it is there or nowhere. */
    lemma ChainOf(value: HashedSlab, index: nat)
      requires Sound() && storage != null && |chains| > 0 && index == BucketOf(hashKey(value.objectStart), |chains|)
      ensures storage.Length == |chains| && Chain(storage[index], chains[index], null)
      ensures value in chains[index] <==> value in items
    {
      hide Chain, BucketOf;
      if value in chains[index] { assert value in Elements(chains[index]); }
      if value in items { assert Holds(chains, value, hashKey); }
    }

    /** The slot leaves its chain, and the set. */
    method TakeOut(index: nat, previous: HashedSlab?, slot: HashedSlab, ghost done: seq<HashedSlab>,
            ghost rest: seq<HashedSlab>)
      requires Sound() && storage != null && index < |chains| && chains[index] == done + [slot] + rest && slot in items
      requires Chain(storage[index], done, slot) && Chain(slot, [slot] + rest, null)
      requires previous == if done == [] then null else done[|done| - 1]
      modifies this`items, this`chains, storage, items`hashTableNext
      ensures Sound() && items == old(items) - {slot} && |items| == |old(items)| - 1 && |chains| == |old(chains)|
    {
      hide Chain, NoDuplicates, BucketOf;
      WithoutOne(done, slot, rest);
      assert slot in Elements(chains[index]);
      Bypass(index, previous, slot, done, rest);
      Forget(index, slot, done, rest);
    }

    /** The ghost side of Bypass. */
    ghost method Forget(index: nat, slot: HashedSlab, done: seq<HashedSlab>, rest: seq<HashedSlab>)
      requires storage != null && index < |chains| && chains[index] == done + [slot] + rest && slot in items
      requires NoDuplicates(chains[index]) && Placed(chains, hashKey)
      requires forall x :: x in items ==> Holds(chains, x, hashKey)
      requires forall b :: 0 <= b < |chains| ==> Elements(chains[b]) <= items
      requires Buckets(storage, chains[index := done + rest], 0, items)
      modifies this`items, this`chains
      ensures items == old(items) - {slot} && |chains| == |old(chains)|
      ensures Buckets(storage, chains, 0, items) && Placed(chains, hashKey)
      ensures forall x :: x in items ==> Holds(chains, x, hashKey)
    {
      WithoutOne(done, slot, rest);
      assert slot in chains[index];
      forall b | 0 <= b < |chains| && b != index
        ensures slot !in Elements(chains[b])
      {
      }
      chains := chains[index := done + rest];
      items := items - {slot};
    }

    /** The link that led to the slot now leads past it. */
    method Bypass(index: nat, previous: HashedSlab?, slot: HashedSlab, ghost done: seq<HashedSlab>,
            ghost rest: seq<HashedSlab>)
      requires storage != null && Buckets(storage, chains, 0, items) && Placed(chains, hashKey)
      requires index < |chains| && chains[index] == done + [slot] + rest
      requires Chain(storage[index], done, slot) && Chain(slot, [slot] + rest, null)
      requires previous == if done == [] then null else done[|done| - 1]
      modifies storage, items`hashTableNext
      ensures Buckets(storage, chains[index := done + rest], 0, items)
    {
      var next := slot.hashTableNext;
      assert ([slot] + rest)[1..] == rest;
      assert Chain(next, rest, null);
      ghost var c, head := chains[index], storage[index];
      WithoutOne(done, slot, rest);
      assert Elements(c) <= items;
      if previous != null {
        ghost var front := done[..|done| - 1];
        assert done == front + [previous];
        ghost var mid := ChainCut(head, front, [previous], slot);
        assert previous in c && previous in Elements(c);
        OnOneChain(index, previous);
        assert front + [previous] + [] == done;
        WithoutOne(front, previous, []);
        assert previous !in Elements(front) && previous !in Elements(rest);
        previous.hashTableNext := next;
        assert [previous][1..] == [];
        ChainConcat(head, front, previous, [previous], next);
        ChainConcat(head, done, next, rest, null);
        forall b | 0 <= b < |chains| && b != index
          ensures Chain(storage[b], chains[b], null)
        {
          assert previous !in Elements(chains[b]);
        }
      } else {
        storage[index] := next;
        assert done + rest == rest;
      }
    }

    lemma OnOneChain(index: nat, x: HashedSlab)
      requires Placed(chains, hashKey) && index < |chains| && x in chains[index]
      ensures forall b :: 0 <= b < |chains| && b != index ==> x !in chains[b] && x !in Elements(chains[b])
    {
      assert BucketOf(hashKey(x.objectStart), |chains|) == index;
      forall b | 0 <= b < |chains| && b != index
        ensures x !in chains[b] && x !in Elements(chains[b])
      {
      }
    }

    lemma WithoutOne(a: seq<HashedSlab>, x: HashedSlab, b: seq<HashedSlab>)
      requires NoDuplicates(a + [x] + b)
      ensures NoDuplicates(a + b) && Elements(a + b) == Elements(a + [x] + b) - {x}
      ensures NoDuplicates(a) && NoDuplicates(b) && (forall y :: y in a && y in b ==> false) && x !in a && x !in b
    {
      var c := a + [x] + b;
      assert forall i :: 0 <= i < |a| ==> c[i] == a[i];
      assert c[|a|] == x;
      assert forall i :: 0 <= i < |b| ==> c[|a| + 1 + i] == b[i];
    }

    /** Resize with storage of the given size; unless forced, only if that is what the table needs. */
    method Resize(bytes: nat, force: bool) returns (resized: bool)
      requires Valid() && curItemCount < GrowLimit(LARGEST_SIZE)
      requires force ==> bytes % POINTER_SIZE == 0 && ValidSize(bytes / POINTER_SIZE) && bytes > 0
      requires bytes > 0
      modifies this, items`hashTableNext
      ensures Valid() && items == old(items)
      ensures !resized ==> !force && unchanged(this)
      ensures resized ==> curTableSize == bytes / POINTER_SIZE && fresh(storage)
      ensures resized && !force ==> Suits(curTableSize, curItemCount) && !Suits(old(curTableSize), old(curItemCount))
    {
      if !force {
        var needed := ResizeNeeded(curTableSize, curItemCount);
        if bytes != needed {
          return false;
        }
      }
      DoResize(bytes / POINTER_SIZE);
      resized := true;
    }

    /**
     Clear: the buckets are emptied, and the items are handed out as one chain if wanted.
     The item count stays, so a table that held anything no longer stands for a set.
     */
    method Clear(returnElements: bool) returns (result: HashedSlab?)
      requires Valid()
      modifies this, storage, items`hashTableNext
      ensures old(items) == {} ==> result == null && unchanged(this)
      ensures old(items) != {} ==> storage != null && items == {} && Buckets(storage, seq(curTableSize, _ => []), 0, {})
      ensures curItemCount == old(curItemCount) && curTableSize == old(curTableSize)
      ensures if returnElements && old(items) != {} then Chain(result, Flatten(old(chains)), null) else result == null
      ensures Valid() <==> old(items) == {}
    {
      hide Chain, Placed, BucketOf, ValidSize, Flatten;
      result := null;
      if curItemCount == 0 {
        return;
      }
      ghost var some :| some in items;
      assert Holds(chains, some, hashKey);
      ghost var all := Flatten(chains);
      if returnElements {
        result := Thread();
        assert Chain(result, all, null);
      }
      assert forall x :: x in Elements(all) ==> x as object != storage;
      EmptyBuckets();
      assert returnElements ==> Chain(result, all, null);
    }

    method EmptyBuckets()
      requires storage != null && storage.Length == curTableSize == |chains|
      modifies storage, this`chains, this`items
      ensures items == {} && chains == seq(curTableSize, _ => []) && Buckets(storage, chains, 0, {})
    {
      forall i | 0 <= i < storage.Length { storage[i] := null; }
      chains := seq(curTableSize, _ => []);
      items := {};
    }

    /** Links the last item of each chain to the first of the next one that has any. */
    method Thread() returns (result: HashedSlab?)
      requires storage != null && |chains| == curTableSize
      requires Buckets(storage, chains, 0, items) && Placed(chains, hashKey)
      modifies items`hashTableNext
      ensures Chain(result, Flatten(chains), null)
    {
      result := null;
      var last: HashedSlab? := null;
      ghost var all: seq<HashedSlab> := [];
      var i := 0;
      assert chains[..0] == [];
      while i < curTableSize
        invariant 0 <= i <= curTableSize && storage != null
        invariant Buckets(storage, chains, i, items) && Placed(chains, hashKey)
        invariant all == Flatten(chains[..i]) && NoDuplicates(all) && Elements(all) <= items
        invariant forall x :: x in all ==> BucketOf(hashKey(x.objectStart), |chains|) < i
        invariant Chain(result, all, null) && last == if all == [] then null else all[|all| - 1]
      {
        assert chains[..i + 1][..i] == chains[..i];
        result, last, all := ThreadOne(i, result, last, all);
        i := i + 1;
      }
      assert chains[..i] == chains;
    }

    method ThreadOne(i: nat, first: HashedSlab?, last: HashedSlab?, ghost all: seq<HashedSlab>)
      returns (result: HashedSlab?, last': HashedSlab?, ghost all': seq<HashedSlab>)
      requires storage != null && i < |chains| && Buckets(storage, chains, i, items) && Placed(chains, hashKey)
      requires NoDuplicates(all) && Elements(all) <= items
      requires forall x :: x in all ==> BucketOf(hashKey(x.objectStart), |chains|) < i
      requires Chain(first, all, null) && last == if all == [] then null else all[|all| - 1]
      modifies items`hashTableNext
      ensures all' == all + chains[i] && NoDuplicates(all')
      ensures Elements(all') <= items && Buckets(storage, chains, i + 1, items)
      ensures forall x :: x in all' ==> BucketOf(hashKey(x.objectStart), |chains|) < i + 1
      ensures Chain(result, all', null) && last' == if all' == [] then null else all'[|all'| - 1]
    {
      var element := storage[i];
      ghost var c := chains[i];
      assert forall x :: x in c ==> x !in all;
      NoDuplicatesConcat(all, c);
      result, last', all' := first, last, all + c;
      if element != null {
        result := Append(first, last, element, all, c, i);
        last' := LastOf(element, c);
      } else {
        assert c == [];
        assert all + c == all;
      }
    }

    /** The last link so far, or the result itself, now leads to the next chain. */
    method Append(first: HashedSlab?, last: HashedSlab?, element: HashedSlab, ghost all: seq<HashedSlab>,
            ghost c: seq<HashedSlab>, ghost i: nat)
      returns (result: HashedSlab?)
      requires Chain(first, all, null) && Chain(element, c, null) && NoDuplicates(all + c) && Elements(all) <= items
      requires last == if all == [] then null else all[|all| - 1]
      requires storage != null && i < |chains| && Buckets(storage, chains, i, items) && Placed(chains, hashKey)
      requires forall x :: x in all ==> BucketOf(hashKey(x.objectStart), |chains|) < i
      modifies items`hashTableNext
      ensures Chain(result, all + c, null) && Chain(element, c, null)
      ensures Buckets(storage, chains, i + 1, items)
    {
      if last == null {
        assert all + c == c;
        return element;
      }
      assert last in all && last in Elements(all);
      forall b | i <= b < |chains|
        ensures last !in Elements(chains[b])
      {
      }
      ghost var front := all[..|all| - 1];
      assert all == front + [last];
      assert all + c == front + [last] + c;
      Redirect(first, last, element, front, c);
      result := first;
    }

    /** One link is changed: the chain that ended at `last` goes on with `c`. */
    method Redirect(first: HashedSlab?, last: HashedSlab, element: HashedSlab, ghost front: seq<HashedSlab>,
            ghost c: seq<HashedSlab>)
      requires Chain(first, front + [last], null) && Chain(element, c, null) && NoDuplicates(front + [last] + c)
      modifies last`hashTableNext
      ensures Chain(first, front + [last] + c, null) && Chain(element, c, null)
    {
      WithoutOne(front, last, c);
      ghost var mid := ChainCut(first, front, [last], null);
      assert last !in Elements(front) && last !in Elements(c);
      last.hashTableNext := element;
      assert [last][1..] == [];
      ChainConcat(first, front, last, [last], element);
      ChainConcat(first, front + [last], element, c, null);
    }

    /** The walk to the end of a chain. */
    method LastOf(element: HashedSlab, ghost c: seq<HashedSlab>) returns (last: HashedSlab)
      requires Chain(element, c, null)
      ensures c != [] && last == c[|c| - 1]
    {
      last := element;
      var next := element.hashTableNext;
      ghost var k := 0;
      while next != null
        invariant 0 <= k < |c| && last == c[k] && Chain(next, c[k + 1..], null)
        decreases |c| - k
      {
        last := next;
        next := next.hashTableNext;
        assert c[k + 1..][1..] == c[k + 2..];
        k := k + 1;
      }
    }

    lemma NoDuplicatesConcat(a: seq<HashedSlab>, b: seq<HashedSlab>)
      requires NoDuplicates(a) && NoDuplicates(b) && forall x :: x in b ==> x !in a
      ensures NoDuplicates(a + b)
    {
      var c := a + b;
      forall i, j | 0 <= i < j < |c|
        ensures c[i] != c[j]
      {
        if j >= |a| { assert b[j - |a|] in b; }
      }
    }
  }
}
