/**
 Two versions of memmove within one memory: the kernel's, which does what the C
 library promises, and the loader's, which does not when it moves upward.
 */
module Memmove {

  type Byte = b: int | 0 <= b < 256

  /** What memmove promises: `count` bytes at `dest` are those that were at `src`, however the two overlap. */
  ghost function Moved(m: seq<Byte>, dest: nat, src: nat, count: nat): seq<Byte>
    requires dest + count <= |m| && src + count <= |m|
  {
    m[..dest] + m[src..src + count] + m[dest + count..]
  }

  lemma IsMoved(m: seq<Byte>, dest: nat, src: nat, count: nat, t: seq<Byte>)
    requires dest + count <= |m| && src + count <= |m| && |t| == |m|
    requires forall j {:trigger t[j]} :: 0 <= j < |m| ==>
               t[j] == if dest <= j < dest + count then m[j - dest + src] else m[j]
    ensures t == Moved(m, dest, src, count)
  {
    var r := Moved(m, dest, src, count);
    assert |r| == |m|;
    forall j | 0 <= j < |m|
      ensures r[j] == t[j]
    {
      if dest <= j < dest + count { assert r[j] == m[src..src + count][j - dest]; }
    }
  }

  /** Ascending copy, right for a destination below the source. */
  method CopyUpward(mem: array<Byte>, dest: nat, src: nat, count: nat)
    requires dest <= src && src + count <= mem.Length
    modifies mem
    ensures forall j {:trigger mem[j]} :: 0 <= j < mem.Length ==>
              mem[j] == if dest <= j < dest + count then old(mem[j - dest + src]) else old(mem[j])
  {
    var k := 0;
    while k < count
      invariant 0 <= k <= count
      invariant forall j {:trigger mem[j]} :: 0 <= j < mem.Length ==>
                  mem[j] == if dest <= j < dest + k then old(mem[j - dest + src]) else old(mem[j])
    {
      mem[dest + k] := mem[src + k];
      k := k + 1;
    }
  }

  /** Descending copy of the offsets `top` to `top - count + 1`. */
  method CopyDownward(mem: array<Byte>, dest: nat, src: nat, top: int, count: nat)
    requires src <= dest && count <= top + 1 && (count > 0 ==> dest + top < mem.Length)
    modifies mem
    ensures forall j {:trigger mem[j]} :: 0 <= j < mem.Length ==>
              mem[j] == if dest + top - count < j <= dest + top then old(mem[j - dest + src]) else old(mem[j])
  {
    var k := 0;
    while k < count
      invariant 0 <= k <= count
      invariant forall j {:trigger mem[j]} :: 0 <= j < mem.Length ==>
                  mem[j] == if dest + top - k < j <= dest + top then old(mem[j - dest + src]) else old(mem[j])
    {
      mem[dest + top - k] := mem[src + top - k];
      k := k + 1;
    }
  }

  /** The kernel's version keeps the promise for every overlap. */
  method KernelMemmove(mem: array<Byte>, dest: nat, src: nat, count: nat)
    requires dest + count <= mem.Length && src + count <= mem.Length
    modifies mem
    ensures mem[..] == Moved(old(mem[..]), dest, src, count)
    ensures mem[..] == old(mem[..dest] + mem[src..src + count] + mem[dest + count..])
  {
    ghost var before := mem[..];
    if src != dest {
      if src > dest {
        CopyUpward(mem, dest, src, count);
      } else {
        CopyDownward(mem, dest, src, count - 1, count);
      }
    }
    IsMoved(before, dest, src, count, mem[..]);
    assert before[..dest] == old(mem[..dest]) && before[src..src + count] == old(mem[src..src + count]);
    assert before[dest + count..] == old(mem[dest + count..]);
  }

  /**
     What the loader's version leaves when it moves upward: it starts one byte too
     high and stops one byte too early.
   */
  ghost function MovedByLoader(m: seq<Byte>, dest: nat, src: nat, count: nat): seq<Byte>
    requires src <= dest && dest + count < |m|
  {
    Moved(m, dest + 1, src + 1, count)
  }

  lemma IsMovedByLoader(m: seq<Byte>, dest: nat, src: nat, count: nat, t: seq<Byte>)
    requires src <= dest && |t| == |m| && (count > 0 ==> dest + count < |m|)
    requires forall j {:trigger t[j]} :: 0 <= j < |m| ==>
               t[j] == if dest < j <= dest + count then m[j - dest + src] else m[j]
    ensures if count == 0 then t == m else t == MovedByLoader(m, dest, src, count)
  {
    if count > 0 {
      IsMoved(m, dest + 1, src + 1, count, t);
    }
  }

  /** The loader's version; moving upward it also touches the byte behind either range. */
  method LoaderMemmove(mem: array<Byte>, dest: nat, src: nat, count: nat)
    requires dest + count <= mem.Length && src + count <= mem.Length
    requires src <= dest && count > 0 ==> dest + count < mem.Length
    modifies mem
    ensures dest < src ==> mem[..] == Moved(old(mem[..]), dest, src, count)
    ensures src <= dest && count == 0 ==> mem[..] == old(mem[..])
    ensures src <= dest && count > 0 ==> mem[..] == MovedByLoader(old(mem[..]), dest, src, count)
    ensures forall j {:trigger mem[j]} :: 0 <= j < mem.Length ==>
              mem[j] == if dest < src && dest <= j < dest + count then old(mem[j - dest + src])
                        else if src <= dest && dest < j <= dest + count then old(mem[j - dest + src]) else old(mem[j])
  {
    ghost var before := mem[..];
    if dest < src {
      CopyUpward(mem, dest, src, count);
      IsMoved(before, dest, src, count, mem[..]);
    } else {
      CopyDownward(mem, dest, src, count, count);
      IsMovedByLoader(before, dest, src, count, mem[..]);
    }
  }

  /** Moving upward, the loader's version is right exactly when the two bytes it gets wrong happen to agree. */
  lemma LoaderMemmoveRight(m: seq<Byte>, dest: nat, src: nat, count: nat)
    requires src <= dest && dest + count < |m| && count > 0
    ensures MovedByLoader(m, dest, src, count) == Moved(m, dest, src, count)
            <==> m[dest] == m[src] && m[dest + count] == m[src + count]
  {
    var wrong, right := MovedByLoader(m, dest, src, count), Moved(m, dest, src, count);
    assert wrong[dest] == m[dest] && right[dest] == m[src];
    assert wrong[dest + count] == m[src + count] && right[dest + count] == m[dest + count];
    assert forall j :: dest < j < dest + count ==> wrong[j] == right[j];
    assert forall j :: (0 <= j < dest || dest + count < j < |m|) ==> wrong[j] == right[j];
  }

  /**
     The memory map's shift by one entry of `size` bytes with the loader's memmove:
     the entry that moves to `src + size` keeps the first byte, the low byte of the
     type, of the entry that was there; the other entries moved arrive whole.
   */
  lemma ShiftLosesTypeByte(m: seq<Byte>, src: nat, size: nat, count: nat, at: nat)
    requires 0 < size <= count && src + size + count < |m|
    requires src + size <= at && at + size <= src + size + count
    ensures var t := MovedByLoader(m, src + size, src, count);
            && |t| == |m|
            && t[at..at + size] == (if at == src + size then [m[at]] else [m[at - size]]) + m[at - size + 1..at]
  {
    var t := MovedByLoader(m, src + size, src, count);
    var r := (if at == src + size then [m[at]] else [m[at - size]]) + m[at - size + 1..at];
    forall j | 0 <= j < size
      ensures t[at + j] == r[j]
    {
      assert at + j > src + size ==> t[at + j] == m[at + j - size];
    }
  }
}
