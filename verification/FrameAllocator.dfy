/** The kernel's physical frame allocator. */
module FrameAllocator {
  import opened Outcome
  import opened Bitfield

  const PAGE_SIZE: nat := 0x1000
  const WORD_LIMIT: nat := 0x1_0000_0000

  /** The number of frames for a memory size that is taken to be in kilobytes, in 32-bit arithmetic. */
  function FrameCount(memorySize: nat): nat {
    memorySize % WORD_LIMIT * 1024 % WORD_LIMIT / PAGE_SIZE
  }

  /**
     The boot environment passes bytes instead. For `pages` pages of memory the
     allocator then believes in `pages mod 1024` times 1024 frames.
   */
  lemma FrameCountOfBytes(pages: nat)
    ensures FrameCount(pages * PAGE_SIZE) == pages % 1024 * 1024
    ensures FrameCount(pages * PAGE_SIZE) == pages <==> pages == 0
  {
    var low := pages % 0x10_0000;
    Wrapped(pages * PAGE_SIZE, pages / 0x10_0000, low * PAGE_SIZE);
    var q, r := low / 1024, low % 1024;
    assert r == pages % 1024;
    Wrapped(low * PAGE_SIZE * 1024, q, r * 1024 * PAGE_SIZE);
    assert r * 1024 * 0x1000 / 0x1000 == r * 1024;
    if r * 1024 == pages { assert pages < 0x10_0000 && q == 0; }
  }

  lemma Wrapped(x: int, q: int, r: int)
    requires x == q * WORD_LIMIT + r && 0 <= r < WORD_LIMIT
    ensures x % WORD_LIMIT == r
  {
  }

  class PhysicalAllocator {
    const frames: Bits
    const nFrames: nat

    ghost predicate Valid()
    {
      frames.Valid() && frames.numElements == nFrames <= WORD_LIMIT / PAGE_SIZE
    }

    predicate Used(i: nat)
      requires Valid() && i < nFrames
      reads frames.field
    {
      frames.Has(i)
    }

    constructor (memorySize: nat)
      ensures Valid() && nFrames == FrameCount(memorySize) && fresh(frames.field)
      ensures forall i :: 0 <= i < nFrames ==> !Used(i)
    {
      nFrames := FrameCount(memorySize);
      frames := new Bits(FrameCount(memorySize));
    }

    /** The lowest free frame of those in full words of the bitfield; a frame in use is never handed out. */
    method AllocateFrame() returns (r: Outcome<nat>)
      requires Valid()
      modifies frames.field
      ensures r.Panic? <==> forall i :: 0 <= i < nFrames / 32 * 32 ==> old(Used(i))
      ensures r.Panic? ==> forall i :: 0 <= i < nFrames ==> Used(i) == old(Used(i))
      ensures r.Returned? ==> r.value % PAGE_SIZE == 0 && r.value / PAGE_SIZE < nFrames / 32 * 32
      ensures r.Returned? ==> !old(Used(r.value / PAGE_SIZE))
      ensures r.Returned? ==> forall i :: 0 <= i < r.value / PAGE_SIZE ==> old(Used(i))
      ensures r.Returned? ==> forall i :: 0 <= i < nFrames ==> Used(i) == (i == r.value / PAGE_SIZE || old(Used(i)))
    {
      hide Bits.Has;
      var pageIndex := frames.GetFirstClearedIndex();
      if pageIndex == -1 {
        assert forall i :: 0 <= i < nFrames / 32 * 32 ==> old(Used(i)) by {
          forall i | 0 <= i < nFrames / 32 * 32
            ensures old(Used(i))
          {
            assert frames.Has(i) && Used(i) == old(Used(i));
          }
        }
        return Panic;
      }
      assert !Used(pageIndex);
      forall i | 0 <= i < pageIndex
        ensures old(Used(i))
      {
        assert frames.Has(i) && Used(i) == old(Used(i));
      }
      var _ := frames.SetBit(pageIndex);
      assert pageIndex * PAGE_SIZE / PAGE_SIZE == pageIndex;
      return Returned(pageIndex * PAGE_SIZE);
    }

    method DeallocateFrame(physAddr: nat) returns (r: Outcome<()>)
      requires Valid()
      modifies frames.field
      ensures r.Panic? <==> physAddr / PAGE_SIZE >= nFrames
      ensures r.Returned? ==> forall i :: 0 <= i < nFrames ==> Used(i) == (i != physAddr / PAGE_SIZE && old(Used(i)))
    {
      r := frames.ClearBit(physAddr / PAGE_SIZE);
    }

    /**
       Marking twice stops the kernel, and so does the one frame number past the last;
       numbers above that are ignored.
     */
    method MarkAsUsed(physAddr: nat) returns (r: Outcome<()>)
      requires Valid()
      modifies frames.field
      ensures r.Panic? <==>
                physAddr / PAGE_SIZE == nFrames || (physAddr / PAGE_SIZE < nFrames && old(Used(physAddr / PAGE_SIZE)))
      ensures r.Returned? ==> forall i :: 0 <= i < nFrames ==> Used(i) == (i == physAddr / PAGE_SIZE || old(Used(i)))
    {
      if physAddr / PAGE_SIZE <= nFrames {
        var known := frames.IsBitSet(physAddr / PAGE_SIZE);
        if known.Panic? || known.value {
          return Panic;
        }
        r := frames.SetBit(physAddr / PAGE_SIZE);
      } else {
        r := Returned(());
      }
    }

    method IsFree(physAddr: nat) returns (r: Outcome<bool>)
      requires Valid()
      ensures r.Panic? <==> physAddr / PAGE_SIZE == nFrames
      ensures r.Returned? ==> (r.value <==> physAddr / PAGE_SIZE < nFrames && !Used(physAddr / PAGE_SIZE))
    {
      if physAddr / PAGE_SIZE <= nFrames {
        var known := frames.IsBitSet(physAddr / PAGE_SIZE);
        if known.Panic? { return Panic; }
        return Returned(!known.value);
      }
      return Returned(false);
    }
  }
}
