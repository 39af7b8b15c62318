/** The kernel's slab header, with the links that put it on a slab list and on a hash chain. */
module SlabObjects {

  /** Ends the free-list threaded through a slab's free array. */
  const SLAB_BUF_END: int := 0xFFFF_FFFF

  class HashedSlab {
    const objectStart: nat
    const freeArray: array<int>
    var freeIndex: int
    var inUse: nat
    var next: HashedSlab?
    var previous: HashedSlab?
    var hashTableNext: HashedSlab?

    constructor (start: nat, indices: array<int>)
      ensures objectStart == start && freeArray == indices
      ensures inUse == 0 && freeIndex == 0
    {
      objectStart := start;
      freeArray := indices;
      freeIndex := 0;
      inUse := 0;
      next, previous, hashTableNext := null, null, null;
    }

    predicate IsFull()
      reads this
    {
      freeIndex == SLAB_BUF_END
    }

    predicate IsEmpty()
      reads this
    {
      inUse == 0
    }
  }

  ghost function Elements(s: seq<HashedSlab>): set<HashedSlab> {
    set x | x in s
  }

  ghost predicate NoDuplicates(s: seq<HashedSlab>) {
    forall i, j :: 0 <= i < j < |s| ==> s[i] != s[j]
  }
}
