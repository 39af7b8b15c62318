/** The kernel's bitfield, and the physical frame allocator on top of it. */
module Bitfield {
  import opened Outcome

  /** `0x1 << o`. */
  function Mask(o: nat): bv32
    requires o < 32
  {
    (1 as bv32) << o
  }

  predicate Bit(w: bv32, k: nat)
    requires k < 32
  {
    Meets(w, Mask(k))
  }

  lemma MasksDisjoint(o: nat, k: nat)
    requires o < 32 && k < 32 && o != k
    ensures Mask(o) & Mask(k) == 0
  {
    if o < k { ShiftedApart(Mask(o), o, k); } else { ShiftedApart(Mask(k), k, o); }
  }

  lemma ShiftedApart(low: bv32, o: nat, k: nat)
    requires o < k < 32 && low == Mask(o)
    ensures low & Mask(k) == 0
  {
  }

  lemma MaskNonzero(o: nat)
    requires o < 32
    ensures Mask(o) != 0
  {
  }

  /** `Bit`, for a mask that is already at hand. */
  predicate Meets(w: bv32, mask: bv32) { w & mask != 0 }

  lemma OrMeets(w: bv32, a: bv32)
    requires a != 0
    ensures Meets(w | a, a)
  {
    assert (w | a) & a == a;
  }

  lemma AndNotMisses(w: bv32, a: bv32)
    ensures !Meets(w & !a, a)
  {
  }

  lemma OrLeavesOthers(w: bv32, a: bv32, b: bv32)
    requires a & b == 0
    ensures Meets(w | a, b) == Meets(w, b)
  {
    assert (w | a) & b == w & b;
  }

  lemma AndNotLeavesOthers(w: bv32, a: bv32, b: bv32)
    requires a & b == 0
    ensures (w & !a) & b == w & b
  {
  }

  lemma OthersAfterSet(w: bv32, o: nat, k: nat)
    requires o < 32 && k < 32 && o != k
    ensures Bit(w | Mask(o), k) <==> Bit(w, k)
  {
    MasksDisjoint(o, k);
    OrLeavesOthers(w, Mask(o), Mask(k));
  }

  lemma OthersAfterClear(w: bv32, o: nat, k: nat)
    requires o < 32 && k < 32 && o != k
    ensures Bit(w & !Mask(o), k) <==> Bit(w, k)
  {
    MasksDisjoint(o, k);
    AndNotLeavesOthers(w, Mask(o), Mask(k));
  }

  lemma OwnAfterChange(w: bv32, o: nat)
    requires o < 32
    ensures Bit(w | Mask(o), o) && !Bit(w & !Mask(o), o)
  {
    MaskNonzero(o);
    OrMeets(w, Mask(o));
    AndNotMisses(w, Mask(o));
  }

  lemma AllBitsSet(k: nat)
    requires k < 32
    ensures Bit(0xFFFF_FFFF, k)
  {
  }

  lemma NoBitsSet(k: nat)
    requires k < 32
    ensures !Bit(0, k)
  {
  }

  class Bits {
    const numElements: nat
    const field: array<bv32>

    ghost predicate Valid() {
      numElements < 0x1_0000_0000 && numElements / 32 < field.Length
    }

    /** Element `i` is set. */
    predicate Has(i: nat)
      requires Valid() && i < numElements
      reads field
    {
      Bit(field[i / 32], i % 32)
    }

    constructor (n: nat)
      requires n < 0x1_0000_0000
      ensures Valid() && numElements == n && fresh(field)
      ensures forall i :: 0 <= i < n ==> !Has(i)
    {
      numElements := n;
      field := new bv32[(n / 4 + 4) / 4](_ => 0);
      new;
      forall i | 0 <= i < n
        ensures !Has(i)
      {
        NoBitsSet(i % 32);
      }
    }

    /** SetBit; an index out of bounds stops the kernel. */
    method SetBit(index: nat) returns (r: Outcome<()>)
      requires Valid()
      modifies field
      ensures r.Panic? <==> index >= numElements
      ensures r.Panic? ==> field[..] == old(field[..])
      ensures r.Returned? ==> forall i :: 0 <= i < numElements ==> (Has(i) <==> i == index || old(Has(i)))
    {
      if index >= numElements {
        return Panic;
      }
      hide Mask, Meets, Bit;
      var idx, off := index / 32, index % 32;
      OwnAfterChange(field[idx], off);
      forall k: nat | k < 32 && k != off { OthersAfterSet(field[idx], off, k); }
      StoreWord(index, field[idx] | Mask(off), true);
      return Returned(());
    }

    /** Writes back a word in which only the given element's bit is other than before. */
    method StoreWord(index: nat, w: bv32, b: bool)
      requires Valid() && index < numElements
      requires Bit(w, index % 32) == b
      requires forall k: nat :: k < 32 && k != index % 32 ==> Bit(w, k) == Bit(field[index / 32], k)
      modifies field
      ensures forall i :: 0 <= i < numElements ==> Has(i) == if i == index then b else old(Has(i))
    {
      hide Bit;
      field[index / 32] := w;
      forall i | 0 <= i < numElements
        ensures Has(i) == if i == index then b else old(Has(i))
      {
        assert i / 32 == index / 32 && i % 32 == index % 32 ==> i == index;
      }
    }

    method ClearBit(index: nat) returns (r: Outcome<()>)
      requires Valid()
      modifies field
      ensures r.Panic? <==> index >= numElements
      ensures r.Panic? ==> field[..] == old(field[..])
      ensures r.Returned? ==> forall i :: 0 <= i < numElements ==> (Has(i) <==> i != index && old(Has(i)))
    {
      if index >= numElements {
        return Panic;
      }
      hide Mask, Meets, Bit;
      var idx, off := index / 32, index % 32;
      OwnAfterChange(field[idx], off);
      forall k: nat | k < 32 && k != off { OthersAfterClear(field[idx], off, k); }
      StoreWord(index, field[idx] & !Mask(off), false);
      return Returned(());
    }

    method IsBitSet(index: nat) returns (r: Outcome<bool>)
      requires Valid()
      ensures r.Panic? <==> index >= numElements
      ensures r.Returned? ==> (r.value <==> Has(index))
    {
      if index >= numElements {
        return Panic;
      }
      return Returned(Bit(field[index / 32], index % 32));
    }

    /**
     The lowest element that is not set, or -1. Elements after the last full word
     of 32 are never looked at.
     */
    method GetFirstClearedIndex() returns (r: int)
      requires Valid()
      ensures r == -1 || 0 <= r < numElements / 32 * 32 <= numElements
      ensures r == -1 ==> forall i :: 0 <= i < numElements / 32 * 32 ==> Has(i)
      ensures r != -1 ==> !Has(r) && forall i :: 0 <= i < r ==> Has(i)
    {
      hide Mask, Meets, Bit;
      var i := 0;
      while i < numElements / 32
        invariant 0 <= i <= numElements / 32
        invariant forall e :: 0 <= e < i * 32 ==> Has(e)
      {
        if field[i] != 0xFFFF_FFFF {
          var j := 0;
          while j < 32
            invariant 0 <= j <= 32
            invariant forall e :: 0 <= e < i * 32 + j ==> Has(e)
          {
            assert (i * 32 + j) / 32 == i && (i * 32 + j) % 32 == j;
            if !Bit(field[i], j) {
              return i * 32 + j;
            }
            j := j + 1;
          }
        } else {
          forall e | i * 32 <= e < i * 32 + 32
            ensures Has(e)
          {
            assert e / 32 == i;
            AllBitsSet(e % 32);
          }
        }
        i := i + 1;
      }
      return -1;
    }
  }
}
