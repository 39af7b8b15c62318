/**
 The firmware memory map of the loader: a table of page ranges, terminated by an
 entry without pages, into which new ranges are inserted around the old ones. To
 make room entries are moved up by memmove; the map is modelled with what memmove
 promises, and with what the loader's own version does.
 */
module MemoryMap {
  import opened MemoryTypes
  import opened MapEntries
  import opened MapFill

  // ---------------------------------------------------------------------------
  // Moving entries up
  // ---------------------------------------------------------------------------

  /** What memmove promises, and what the loader's memmove does when it moves upward. */
  datatype Shift = Promised | Loaders

  /**
     Entry `j` once entries `i` to `c - 1` are one place further on. With the
     loader's memmove the entry that moves to `i + 1` gets the type that was there,
     and the type of entry `c` is copied to entry `c + 1`.
   */
  function ShiftedEntry(s: seq<Entry>, i: nat, c: nat, shift: Shift, j: nat): Entry
    requires i < c < |s| && j < |s|
  {
    if i < j <= c then
      if shift.Loaders? && j == i + 1 then s[i].(kind := s[i + 1].kind) else s[j - 1]
    else
      if shift.Loaders? && j == c + 1 then s[j].(kind := s[c].kind) else s[j]
  }

  function Shifted(s: seq<Entry>, i: nat, c: nat, shift: Shift): seq<Entry>
    requires i < c < |s|
  {
    seq(|s|, j requires 0 <= j < |s| => ShiftedEntry(s, i, c, shift, j))
  }

  method MoveUp(entries: array<Entry>, i: nat, c: nat, shift: Shift)
    requires i < c < entries.Length
    modifies entries
    ensures entries[..] == Shifted(old(entries[..]), i, c, shift)
  {
    ghost var s := entries[..];
    var kept, spilt := entries[i + 1].kind, entries[c].kind;
    MoveUpWhole(entries, i, c);
    if shift.Loaders? {
      entries[i + 1] := entries[i + 1].(kind := kept);
      if c + 1 < entries.Length {
        entries[c + 1] := entries[c + 1].(kind := spilt);
      }
    }
    assert forall j {:trigger entries[j]} :: 0 <= j < entries.Length ==> entries[j] == ShiftedEntry(s, i, c, shift, j);
  }

  method MoveUpWhole(entries: array<Entry>, i: nat, c: nat)
    requires i < c < entries.Length
    modifies entries
    ensures forall j {:trigger entries[j]} :: 0 <= j < entries.Length ==>
              entries[j] == if i < j <= c then old(entries[j - 1]) else old(entries[j])
  {
    var k := c;
    while k > i
      invariant i <= k <= c
      invariant forall j {:trigger entries[j]} :: 0 <= j < entries.Length ==>
                  entries[j] == if k < j <= c then old(entries[j - 1]) else old(entries[j])
    {
      entries[k] := entries[k - 1];
      k := k - 1;
    }
  }

  // ---------------------------------------------------------------------------
  // What adding a range does
  // ---------------------------------------------------------------------------

  /** Some page of the range from `base` up to `cut` lies in the gap just below entry `j`. */
  predicate InGapBelow(s: seq<Entry>, j: nat, base: nat, cut: nat)
    requires j < |s|
  {
    base < s[j].base && base < cut && (j > 0 ==> s[j - 1].End() < s[j].base && s[j - 1].End() < cut)
  }

  /** The type that entry `j` ends up with: its own, unless the loader's memmove made room just below it. */
  function KindAfter(slots: seq<Entry>, j: nat, base: nat, cut: nat, shift: Shift): MemoryType
    requires j < |slots|
  {
    if shift.Loaders? && j + 1 < |slots| && InGapBelow(slots, j, base, cut) then slots[j + 1].kind else slots[j].kind
  }

  /**
     The range from `base` up to `cut` has been added to a table of `n` entries: each
     page has the type its entry ends up with, or the range's type if nothing covered it.
   */
  ghost predicate Added(slots: seq<Entry>, n: nat, t: seq<Entry>, base: nat, cut: nat, kind: MemoryType, shift: Shift)
    requires n <= |slots|
  {
    && (forall j, p: nat :: 0 <= j < n && slots[j].Covers(p) ==>
        KindAt(t, p) == Some(KindAfter(slots, j, base, cut, shift)))
    && (forall p: nat :: KindAt(slots[..n], p).None? ==> KindAt(t, p) == if base <= p < cut then Some(kind) else None)
  }

  /** No entry takes on a type that is not its own. */
  predicate TypesStay(slots: seq<Entry>, n: nat, base: nat, cut: nat, shift: Shift)
    requires n <= |slots|
  {
    shift.Loaders? ==>
      forall j :: 0 <= j < n && j + 1 < |slots| && InGapBelow(slots, j, base, cut) ==>
          slots[j].kind == slots[j + 1].kind
  }

  /** First writer wins exactly if each entry that room is made below has the type of the slot above it. */
  lemma {:induction false} FirstWriterWins(slots: seq<Entry>, n: nat, t: seq<Entry>, base: nat, cut: nat,
          kind: MemoryType, shift: Shift)
    requires Table(slots, n) && Added(slots, n, t, base, cut, kind, shift)
    ensures Extended(slots[..n], t, base, cut, kind) <==> TypesStay(slots, n, base, cut, shift)
  {
    var s := slots[..n];
    forall j | 0 <= j < n
      ensures KindAt(s, slots[j].base) == Some(slots[j].kind)
      ensures KindAt(t, slots[j].base) == Some(KindAfter(slots, j, base, cut, shift))
    {
      assert s[j] == slots[j] && s[j].count > 0 && slots[j].Covers(slots[j].base);
      KindOfCover(s, j, slots[j].base);
    }
    if TypesStay(slots, n, base, cut, shift) {
      forall p: nat
        ensures KindAt(t, p) == if KindAt(s, p).Some? then KindAt(s, p) else if base <= p < cut then Some(kind)
                  else None
      {
        Covered(s, p);
        if j :| 0 <= j < |s| && s[j].Covers(p) {
          assert slots[j].Covers(p);
          KindOfCover(s, j, p);
        }
      }
    } else {
      var j :| 0 <= j < n && j + 1 < |slots| && InGapBelow(slots, j, base, cut) && slots[j].kind != slots[j + 1].kind;
      assert KindAt(s, slots[j].base) != KindAt(t, slots[j].base);
    }
  }

  /** A page of the range in a gap is not covered. */
  lemma {:induction false} GapIsFree(s: seq<Entry>, j: nat, base: nat, cut: nat) returns (p: nat)
    requires Sorted(s) && j < |s| && InGapBelow(s, j, base, cut)
    ensures base <= p < cut && p < s[j].base && KindAt(s, p).None?
    ensures j > 0 ==> s[j - 1].End() <= p
  {
    p := if j > 0 && s[j - 1].End() > base then s[j - 1].End() else base;
    Covered(s, p);
    forall k | 0 <= k < |s| ensures !s[k].Covers(p) {
      if k < j - 1 { assert s[k].End() <= s[j - 1].base; }
      if k > j { assert s[j].End() <= s[k].base; }
    }
  }

  /** A range of covered pages, or none, adds nothing. */
  lemma {:induction false} NothingNew(slots: seq<Entry>, n: nat, base: nat, cut: nat, kind: MemoryType, shift: Shift)
    requires Table(slots, n) && forall p: nat :: base <= p < cut ==> KindAt(slots[..n], p).Some?
    ensures Added(slots, n, slots[..n], base, cut, kind, shift)
  {
    var s := slots[..n];
    forall j | 0 <= j < n ensures !InGapBelow(slots, j, base, cut) {
      if InGapBelow(slots, j, base, cut) {
        assert InGapBelow(s, j, base, cut);
        var p := GapIsFree(s, j, base, cut);
      }
    }
    forall j, p: nat | 0 <= j < n && slots[j].Covers(p) ensures KindAt(s, p) == Some(slots[j].kind) {
      assert s[j] == slots[j];
      KindOfCover(s, j, p);
    }
  }

  /** Pages before `base` are covered already, so the range may as well begin earlier. */
  lemma {:induction false} AddedFromEarlier(slots: seq<Entry>, n: nat, t: seq<Entry>, from: nat, base: nat, cut: nat,
          kind: MemoryType,
          shift: Shift)
    requires Table(slots, n) && from <= base && Added(slots, n, t, base, cut, kind, shift)
    requires forall p: nat :: from <= p < base ==> KindAt(slots[..n], p).Some?
    ensures Added(slots, n, t, from, cut, kind, shift)
  {
    var s := slots[..n];
    forall j | 0 <= j < n ensures InGapBelow(slots, j, base, cut) == InGapBelow(slots, j, from, cut) {
      if InGapBelow(slots, j, from, cut) {
        assert InGapBelow(s, j, from, cut);
        var p := GapIsFree(s, j, from, cut);
        assert p >= base;
      }
    }
  }

  // ---------------------------------------------------------------------------
  // One entry put in
  // ---------------------------------------------------------------------------

  /** Entry `e` fits before the `i`-th of `n` entries. */
  ghost predicate FitsAt(slots: seq<Entry>, n: nat, i: nat, e: Entry) {
    && i <= n < |slots|
    && (forall k :: 0 <= k < i ==> slots[k].End() <= e.base)
    && (i < n ==> e.base < slots[i].base && e.End() <= slots[i].base)
  }

  /** The table with an entry put in before its `i`-th. */
  function PutIn(slots: seq<Entry>, n: nat, i: nat, e: Entry, shift: Shift): seq<Entry>
    requires i <= n < |slots|
  {
    if i < n then Shifted(slots, i, n, shift)[i := e] else slots[n := e]
  }

  /** Where each slot comes from. */
  lemma {:induction false} PutInAt(slots: seq<Entry>, n: nat, i: nat, e: Entry, shift: Shift)
    requires i <= n < |slots|
    ensures var t := PutIn(slots, n, i, e, shift);
            && |t| == |slots| && t[i] == e
            && (forall k :: 0 <= k < i ==> t[k] == slots[k])
            && (forall k {:trigger t[k]} :: i < k <= n ==>
                t[k].base == slots[k - 1].base && t[k].count == slots[k - 1].count)
            && (forall k {:trigger t[k]} :: i < k <= n ==>
                  t[k].kind == if shift.Loaders? && k == i + 1 then slots[k].kind else slots[k - 1].kind)
            && (forall k :: n < k < |t| ==> t[k].base == slots[k].base && t[k].count == slots[k].count)
            && (forall k :: n < k < |t| ==>
                  t[k].kind == if shift.Loaders? && i < n && k == n + 1 then slots[n].kind else slots[k].kind)
  {
  }

  /** An entry that fits between its neighbours keeps the entries in order and apart. */
  lemma {:induction false} InsertKeepsOrder(s: seq<Entry>, i: nat, e: Entry)
    requires Sorted(s) && i <= |s| && e.count > 0
    requires forall k :: 0 <= k < i ==> s[k].End() <= e.base
    requires i < |s| ==> e.End() <= s[i].base
    ensures Sorted(s[..i] + [e] + s[i..])
  {
    var t := s[..i] + [e] + s[i..];
    assert forall k :: 0 <= k < |t| ==> t[k] == if k < i then s[k] else if k == i then e else s[k - 1];
    forall a, b | 0 <= a < b < |t| ensures t[a].End() <= t[b].base {
      if a == i && b > i + 1 { assert s[i].End() <= s[b - 1].base; }
    }
  }

  /** Only the pages matter to the order. */
  lemma {:induction false} SamePages(s: seq<Entry>, t: seq<Entry>)
    requires Sorted(s) && |t| == |s|
    requires forall k {:trigger t[k]} :: 0 <= k < |s| ==> t[k].base == s[k].base && t[k].count == s[k].count
    ensures Sorted(t)
  {
  }

  /** In a list of their own: the entries with `e` before the `i`-th, but for the types. */
  lemma {:induction false} PutInSpans(slots: seq<Entry>, n: nat, i: nat, e: Entry, shift: Shift)
    requires i <= n < |slots|
    ensures SameSpans(slots[..n][..i] + [e] + slots[..n][i..], PutIn(slots, n, i, e, shift)[..n + 1])
    ensures shift.Promised? ==> slots[..n][..i] + [e] + slots[..n][i..] == PutIn(slots, n, i, e, shift)[..n + 1]
  {
    hide PutIn;
    PutInAt(slots, n, i, e, shift);
    var s, t := slots[..n], PutIn(slots, n, i, e, shift)[..n + 1];
    var g := s[..i] + [e] + s[i..];
    assert forall k :: 0 <= k < |g| ==> g[k] == if k < i then slots[k] else if k == i then e else slots[k - 1];
  }

  lemma {:induction false} PutInIsTable(slots: seq<Entry>, n: nat, i: nat, e: Entry, shift: Shift)
    requires Table(slots, n) && FitsAt(slots, n, i, e) && e.Proper()
    ensures Table(PutIn(slots, n, i, e, shift), n + 1)
  {
    hide PutIn, Sorted;
    PutInAt(slots, n, i, e, shift);
    var s, t := slots[..n], PutIn(slots, n, i, e, shift)[..n + 1];
    assert forall k :: 0 <= k < n ==> s[k] == slots[k];
    InsertKeepsOrder(s, i, e);
    SamePages(s[..i] + [e] + s[i..], t);
  }

  /** One entry put in is one gap filled from below, as far as the entry goes. */
  lemma {:induction false} PutInAdds(slots: seq<Entry>, n: nat, i: nat, e: Entry, shift: Shift)
    requires Table(slots, n) && FitsAt(slots, n, i, e) && e.Proper()
    ensures Added(slots, n, PutIn(slots, n, i, e, shift)[..n + 1], e.base, e.End(), e.kind, shift)
    ensures TypesStay(slots, n, e.base, e.End(), shift) <==>
              shift.Promised? || i == n || slots[i].kind == slots[i + 1].kind
  {
    hide PutIn, KindAt, Sorted;
    PutInIsTable(slots, n, i, e, shift);
    PutInAt(slots, n, i, e, shift);
    var s, t := slots[..n], PutIn(slots, n, i, e, shift)[..n + 1];
    forall j | 0 <= j < n ensures InGapBelow(slots, j, e.base, e.End()) <==> j == i {
      GapOfEntry(slots, n, i, e, j);
    }
    forall j, p: nat | 0 <= j < n && slots[j].Covers(p)
      ensures KindAt(t, p) == Some(KindAfter(slots, j, e.base, e.End(), shift))
    {
      var k := if j < i then j else j + 1;
      assert t[k].Covers(p);
      KindOfCover(t, k, p);
    }
    forall p: nat | KindAt(s, p).None?
      ensures KindAt(t, p) == if e.base <= p < e.End() then Some(e.kind) else None
    {
      NewlyCovered(slots, n, i, e, shift, p);
    }
  }

  lemma {:induction false} NewlyCovered(slots: seq<Entry>, n: nat, i: nat, e: Entry, shift: Shift, p: nat)
    requires Table(slots, n) && FitsAt(slots, n, i, e) && e.Proper() && KindAt(slots[..n], p).None?
    ensures KindAt(PutIn(slots, n, i, e, shift)[..n + 1], p) == if e.base <= p < e.End() then Some(e.kind) else None
  {
    hide PutIn, KindAt;
    PutInIsTable(slots, n, i, e, shift);
    PutInAt(slots, n, i, e, shift);
    var s, t := slots[..n], PutIn(slots, n, i, e, shift)[..n + 1];
    Covered(s, p);
    if e.Covers(p) {
      KindOfCover(t, i, p);
    } else {
      Covered(t, p);
      forall k | 0 <= k < |t| ensures !t[k].Covers(p) {
        if k < i { assert !s[k].Covers(p); }
        if k > i { assert !s[k - 1].Covers(p); }
      }
    }
  }

  lemma {:induction false} GapOfEntry(slots: seq<Entry>, n: nat, i: nat, e: Entry, j: nat)
    requires Table(slots, n) && FitsAt(slots, n, i, e) && e.Proper() && j < n
    ensures InGapBelow(slots, j, e.base, e.End()) <==> j == i
  {
    var s := slots[..n];
    assert forall k :: 0 <= k < n ==> s[k] == slots[k];
    if j > i {
      assert s[i].End() <= s[j - 1].End() by { if i < j - 1 { assert s[i].End() <= s[j - 1].base; } }
    }
  }

  /** The entry and then the rest of the range, added above it. */
  lemma {:induction false} ThenTheRest(slots: seq<Entry>, n: nat, i: nat, e: Entry, t: seq<Entry>, cut: nat,
          shift: Shift)
    requires Table(slots, n) && FitsAt(slots, n, i, e) && e.Proper() && i < n && e.End() == slots[i].base
    requires e.End() <= cut && (n + 1 == |slots| ==> !InGapBelow(PutIn(slots, n, i, e, shift), n, e.End(), cut))
    requires Added(PutIn(slots, n, i, e, shift), n + 1, t, e.End(), cut, e.kind, shift)
    ensures Added(slots, n, t, e.base, cut, e.kind, shift)
  {
    hide PutIn, KindAt, Sorted;
    PutInIsTable(slots, n, i, e, shift);
    PutInAt(slots, n, i, e, shift);
    var s, g := slots[..n], PutIn(slots, n, i, e, shift);
    forall j, p: nat | 0 <= j < n && slots[j].Covers(p)
      ensures KindAt(t, p) == Some(KindAfter(slots, j, e.base, cut, shift))
    {
      var k := if j < i then j else j + 1;
      assert g[k].Covers(p);
      RestGap(slots, n, i, e, cut, shift, j);
    }
    forall p: nat | KindAt(s, p).None?
      ensures KindAt(t, p) == if e.base <= p < cut then Some(e.kind) else None
    {
      NewlyCovered(slots, n, i, e, shift, p);
      if e.Covers(p) {
        assert g[i].Covers(p) && !InGapBelow(g, i, e.End(), cut);
      }
    }
  }

  lemma {:induction false} RestGap(slots: seq<Entry>, n: nat, i: nat, e: Entry, cut: nat, shift: Shift, j: nat)
    requires Table(slots, n) && FitsAt(slots, n, i, e) && e.Proper() && i < n && e.End() == slots[i].base
    requires e.End() <= cut && (n + 1 == |slots| ==> !InGapBelow(PutIn(slots, n, i, e, shift), n, e.End(), cut))
    requires j < n
    ensures var g := PutIn(slots, n, i, e, shift); var k := if j < i then j else j + 1;
            && |g| == |slots|
            && KindAfter(g, k, e.End(), cut, shift) == KindAfter(slots, j, e.base, cut, shift)
  {
    hide PutIn, Table;
    PutInAt(slots, n, i, e, shift);
    InOrder(slots, n, i, j);
    var g := PutIn(slots, n, i, e, shift);
    if j < i {
      assert !InGapBelow(g, j, e.End(), cut) && !InGapBelow(slots, j, e.base, cut);
    } else {
      assert InGapBelow(g, j + 1, e.End(), cut) == (j > i && InGapBelow(slots, j, e.base, cut));
    }
  }

  /**
     `t` is what adding the range from `base` up to `end` makes of the `n` entries: it
     has their ranges with the gaps filled, in full if memmove keeps its promise, and
     each page has the type its entry ends up with.
   */
  ghost predicate TakenIn(slots: seq<Entry>, n: nat, t: seq<Entry>, base: nat, end: nat, kind: MemoryType, shift: Shift)
    requires n <= |slots|
  {
    var s, room := slots[..n], |slots| - n;
    && SameSpans(Fill(s, room, base, end, kind), t) && (shift.Promised? ==> t == Fill(s, room, base, end, kind))
    && Added(slots, n, t, base, Reach(s, room, base, end), kind, shift)
  }

  /** First writer wins as far as the range reaches. */
  ghost predicate FirstWins(slots: seq<Entry>, n: nat, t: seq<Entry>, base: nat, end: nat, kind: MemoryType)
    requires n <= |slots|
  {
    Extended(slots[..n], t, base, Reach(slots[..n], |slots| - n, base, end), kind)
  }

  /** No type changes for the range as far as it reaches. */
  predicate KeepsTypes(slots: seq<Entry>, n: nat, base: nat, end: nat, shift: Shift)
    requires n <= |slots|
  {
    TypesStay(slots, n, base, Reach(slots[..n], |slots| - n, base, end), shift)
  }

  /** Where there is no room, or all of the range is covered. */
  lemma {:induction false} NothingToDo(slots: seq<Entry>, n: nat, base: nat, end: nat, kind: MemoryType, shift: Shift)
    requires Table(slots, n) && (n == |slots| || forall p: nat :: base <= p < end ==> KindAt(slots[..n], p).Some?)
    requires base < end
    ensures TakenIn(slots, n, slots[..n], base, end, kind, shift)
    ensures FirstWins(slots, n, slots[..n], base, end, kind) <==> KeepsTypes(slots, n, base, end, shift)
    ensures n == |slots| || Gaps(slots[..n], base, end) == 0
  {
    hide Added, Extended, TypesStay, Sorted, Fill, Reach, Gaps;
    var s, cut := slots[..n], Reach(slots[..n], |slots| - n, base, end);
    if n == |slots| {
      NoRoom(s, base, end, kind);
    } else {
      FillFromEarlier(s, |slots| - n, base, end, end, kind);
      FillBeyond(s, |slots| - n, end, end, kind);
    }
    NothingNew(slots, n, base, cut, kind, shift);
    FirstWriterWins(slots, n, s, base, cut, kind, shift);
  }

  /** The lowest gap of the range filled, and then the rest of the range added. */
  lemma {:induction false} GapThenRest(slots: seq<Entry>, n: nat, i: nat, from: nat, base: nat, end: nat, e: Entry,
          t: seq<Entry>,
          kind: MemoryType, shift: Shift)
    requires Table(slots, n) && FitsAt(slots, n, i, e) && e.Proper() && from <= base < end
    requires forall p: nat :: from <= p < base ==> KindAt(slots[..n], p).Some?
    requires e.base == base && e.kind == kind && e.End() <= end
    requires e.End() < end ==> i < n && e.End() == slots[i].base
    requires if e.End() < end then TakenIn(PutIn(slots, n, i, e, shift), n + 1, t, e.End(), end, kind, shift)
             else t == PutIn(slots, n, i, e, shift)[..n + 1]
    ensures TakenIn(slots, n, t, from, end, kind, shift)
    ensures FirstWins(slots, n, t, from, end, kind) <==> KeepsTypes(slots, n, from, end, shift)
    ensures Gaps(slots[..n], from, end)
            == 1 + if e.End() < end then Gaps(PutIn(slots, n, i, e, shift)[..n + 1], e.End(), end) else 0
  {
    hide Sorted, Fill, Reach, Gaps, SameSpans, PutIn, KindAt, Added, Extended, TypesStay;
    PutInAt(slots, n, i, e, shift);
    var s, room, g := slots[..n], |slots| - n, PutIn(slots, n, i, e, shift)[..n + 1];
    var cut := Reach(s, room, base, end);
    OneGapLess(slots, n, i, base, end, e, g, kind, shift);
    FillFromEarlier(s, room, from, base, end, kind);
    if e.End() < end {
      ThenTheRest(slots, n, i, e, t, cut, shift);
      SpansOn(Fill(s, room, base, end, kind), Fill(g, room - 1, e.End(), end, kind), t);
    } else {
      PutInAdds(slots, n, i, e, shift);
    }
    AddedFromEarlier(slots, n, t, from, base, cut, kind, shift);
    FirstWriterWins(slots, n, t, from, cut, kind, shift);
  }

  /** Once the lowest gap of the range has been filled, adding the rest is all that is left to do. */
  lemma {:induction false} OneGapLess(slots: seq<Entry>, n: nat, i: nat, base: nat, end: nat, e: Entry, g: seq<Entry>,
          kind: MemoryType,
          shift: Shift)
    requires Table(slots, n) && FitsAt(slots, n, i, e) && e.Proper() && base < end
    requires e.base == base && e.kind == kind && e.End() <= end
    requires e.End() < end ==> i < n && e.End() == slots[i].base
    requires g == PutIn(slots, n, i, e, shift)[..n + 1]
    ensures var s, room, rest := slots[..n], |slots| - n, Fill(g, |slots| - n - 1, e.End(), end, kind);
            && SameSpans(Fill(s, room, base, end, kind), rest)
            && (shift.Promised? ==> Fill(s, room, base, end, kind) == rest)
            && Reach(s, room, base, end) == Reach(g, room - 1, e.End(), end) >= e.End()
            && Gaps(s, base, end) == 1 + Gaps(g, e.End(), end)
            && (e.End() == end ==> rest == g && Reach(s, room, base, end) == end && Gaps(s, base, end) == 1)
            && (room == 1 && e.End() < end ==>
                !InGapBelow(PutIn(slots, n, i, e, shift), n, e.End(), Reach(s, room, base, end)))
  {
    hide Sorted, Fill, Reach, Gaps, SameSpans, PutIn, KindAt;
    var s, room := slots[..n], |slots| - n;
    var h := s[..i] + [e] + s[i..];
    assert forall k :: 0 <= k < n ==> s[k] == slots[k];
    assert e == Piece(s, i, base, end, kind);
    FillGap(s, i, room, base, end, kind);
    PutInSpans(slots, n, i, e, shift);
    FillSpans(h, g, room - 1, e.End(), end, kind);
    FillBeyond(g, room - 1, e.End(), end, kind);
    FillLength(g, room - 1, e.End(), end, kind);
    if room == 1 && e.End() < end {
      PutInIsTable(slots, n, i, e, shift);
      NoRoom(g, e.End(), end, kind);
      var t, cut := PutIn(slots, n, i, e, shift), Reach(g, 0, e.End(), end);
      assert InGapBelow(t, n, e.End(), cut) ==> InGapBelow(g, n, e.End(), cut) by {
        PutInAt(slots, n, i, e, shift);
        assert t[..n + 1][n] == t[n];
      }
      if InGapBelow(g, n, e.End(), cut) {
        var p := GapIsFree(g, n, e.End(), cut);
      }
    }
  }

  lemma {:induction false} InOrder(slots: seq<Entry>, n: nat, i: nat, j: nat)
    requires Table(slots, n) && i < n && j < n
    ensures slots[j].count > 0
    ensures i < j ==> slots[i].End() <= slots[j - 1].End() <= slots[j].base
  {
    var s := slots[..n];
    assert s[i] == slots[i] && s[j] == slots[j];
    if i < j {
      assert s[j - 1] == slots[j - 1];
      if i < j - 1 { assert s[i].End() <= s[j - 1].base; }
    }
  }

  /** Where a range that begins at `base` belongs, and how many entries there are. */
  method FindPlace(entries: array<Entry>, maxEntries: nat, base: nat, ghost n: nat) returns (i: nat, c: nat)
    requires maxEntries <= entries.Length && Table(entries[..maxEntries], n)
    ensures c == n && i <= c
    ensures forall k :: 0 <= k < i ==> entries[k].End() <= base
    ensures i < c ==> base < entries[i].End()
  {
    i, c := 0, 0;
    ghost var s := entries[..maxEntries];
    assert forall k :: 0 <= k < n ==> s[..n][k] == entries[k] && entries[k].count > 0;
    assert forall k :: n <= k < maxEntries ==> s[k] == entries[k] && entries[k].count == 0;
    while c < maxEntries && entries[c].count != 0
      invariant 0 <= i <= c <= n
      invariant forall k :: 0 <= k < i ==> entries[k].End() <= base
      invariant i < c ==> base < entries[i].End()
    {
      if entries[i].base + entries[i].count <= base { i := i + 1; }
      c := c + 1;
    }
  }

  /** Past the entries that already cover what the range begins with. */
  method SkipCovered(entries: array<Entry>, i0: nat, c: nat, base0: nat, size0: nat)
    returns (i: nat, base: nat, size: nat, covered: bool)
    requires i0 <= c <= entries.Length && Sorted(entries[..c])
    requires forall k :: 0 <= k < i0 ==> entries[k].End() <= base0
    requires i0 < c ==> base0 < entries[i0].End()
    ensures i0 <= i <= c && base0 <= base
    ensures forall p: nat :: base0 <= p < base ==> KindAt(entries[..c], p).Some?
    ensures covered ==> base0 + size0 <= base
    ensures !covered ==> base + size == base0 + size0 && (size > 0 <==> size0 > 0)
    ensures size0 == 0 ==> (covered <==> KindAt(entries[..c], base0).Some?) && (!covered ==> i == i0 && base == base0)
    ensures !covered ==> forall k :: 0 <= k < i ==> entries[k].End() <= base
    ensures !covered ==> forall k :: i <= k < c ==> base < entries[k].base
  {
    i, base, size, covered := i0, base0, size0, false;
    ghost var s := entries[..c];
    assert forall k :: 0 <= k < c ==> s[k] == entries[k];
    while i < c && entries[i].base <= base
      invariant i0 <= i <= c && base0 <= base && base + size == base0 + size0 && (size > 0 <==> size0 > 0)
      invariant size0 == 0 ==> i == i0 && base == base0
      invariant forall k :: 0 <= k < i ==> entries[k].End() <= base
      invariant i < c ==> base < entries[i].End()
      invariant forall p: nat :: base0 <= p < base ==> KindAt(s, p).Some?
    {
      var nextBase := entries[i].base + entries[i].count;
      forall p: nat | base <= p < nextBase
        ensures KindAt(s, p).Some?
      {
        assert s[i].Covers(p);
        Covered(s, p);
      }
      if base + size <= nextBase {
        base, covered := nextBase, true;
        return;
      }
      size := size - (nextBase - base);
      base := nextBase;
      i := i + 1;
    }
    Covered(s, base0);
  }

  /**
     memory_add_map_entry: the range's pages that nothing covers are filled in, gap by
     gap, for as long as there is room. With the loader's memmove the types of old
     entries may change, and one byte behind the table is written. A range without
     pages should change nothing, but where it falls between or before entries it
     becomes a terminator there, and the entries above it are lost.
   */
  method AddMapEntry(entries: array<Entry>, maxEntries: nat, base0: nat, size0: nat, kind: MemoryType, shift: Shift,
          ghost n: nat)
    returns (c: nat)
    requires maxEntries <= entries.Length && Table(entries[..maxEntries], n)
    requires base0 + size0 < PAGE_LIMIT
    modifies entries
    ensures n <= c <= maxEntries
    ensures size0 > 0 ==> c == n + Min(maxEntries - n, Gaps(old(entries[..n]), base0, base0 + size0))
    ensures shift.Promised? ==> entries[maxEntries..] == old(entries[maxEntries..])
    ensures size0 > 0 ==> Table(entries[..maxEntries], c)
    ensures size0 > 0 ==>
              TakenIn(old(entries[..maxEntries]), n, entries[..c], base0, base0 + size0, kind, shift)
    ensures size0 > 0 ==> (FirstWins(old(entries[..maxEntries]), n, entries[..c], base0, base0 + size0, kind)
                           <==> KeepsTypes(old(entries[..maxEntries]), n, base0, base0 + size0, shift))
    ensures size0 == 0 ==> (Listed(entries[..maxEntries]) == old(entries[..n])
                            <==> EmptyRangeHarmless(old(entries[..n]), maxEntries, base0))
    decreases size0
  {
    hide Extended, KindAt, Listed, Sorted, Added, PutIn, FitsAt, TypesStay, Gaps, TakenIn, FirstWins, KeepsTypes;
    ghost var s, was, end := entries[..maxEntries], entries[..n], base0 + size0;
    assert s[..n] == was;
    ListedOfTable(s, n);
    var i;
    i, c := FindPlace(entries, maxEntries, base0, n);
    if c >= maxEntries {
      if size0 > 0 { NothingToDo(s, n, base0, end, kind, shift); }
      return;
    }
    var base, size, covered;
    i, base, size, covered := SkipCovered(entries, i, c, base0, size0);
    assert was == entries[..c];
    if covered {
      if size0 > 0 { NothingToDo(s, n, base0, end, kind, shift); }
      return;
    }
    assert forall k :: 0 <= k < n ==> was[k] == entries[k];
    var e := InsertAt(entries, maxEntries, i, c, base, size, kind, shift);
    c := c + 1;
    if size > 0 {
      assert entries[..c] == PutIn(s, n, i, e, shift)[..c];
      if size > e.count {
        c := AddMapEntry(entries, maxEntries, base + e.count, size - e.count, kind, shift, c);
      }
      GapThenRest(s, n, i, base0, base, end, e, entries[..c], kind, shift);
    }
  }

  /**
     A range without pages leaves the map alone exactly if there is no room, or a page
     covers it, or nothing lies above it.
   */
  ghost predicate EmptyRangeHarmless(s: seq<Entry>, maxEntries: nat, base: nat) {
    |s| == maxEntries || KindAt(s, base).Some? || forall k :: 0 <= k < |s| ==> s[k].End() <= base
  }

  lemma {:induction false} ListedStops(a: seq<Entry>, z: Entry, b: seq<Entry>)
    requires z.count == 0 && forall k :: 0 <= k < |a| ==> a[k].count > 0
    ensures Listed(a + [z] + b) == a
  {
    if a != [] {
      assert (a + [z] + b)[1..] == a[1..] + [z] + b;
      ListedStops(a[1..], z, b);
    }
  }

  /**
     The new entry takes as much of the range as there is room for before the next entry.
     With the loader's memmove first writer wins exactly if no entry had to move, or
     the first that did has the type of the slot above it.
   */
  method InsertAt(entries: array<Entry>, maxEntries: nat, i: nat, c: nat, base: nat, size: nat, kind: MemoryType,
          shift: Shift)
    returns (e: Entry)
    requires i <= c < maxEntries <= entries.Length && Table(entries[..maxEntries], c) && base + size < PAGE_LIMIT
    requires forall k :: 0 <= k < i ==> entries[k].End() <= base
    requires forall k :: i <= k < c ==> base < entries[k].base
    modifies entries
    ensures e.base == base && e.count <= size && e.kind == kind && (size > 0 ==> e.count > 0)
    ensures e.count < size ==> i < c && e.End() == old(entries[i].base)
    ensures shift.Promised? ==> entries[maxEntries..] == old(entries[maxEntries..])
    ensures FitsAt(old(entries[..maxEntries]), c, i, e)
    ensures entries[..maxEntries] == PutIn(old(entries[..maxEntries]), c, i, e, shift)
    ensures size > 0 ==> Table(entries[..maxEntries], c + 1)
    ensures size > 0 ==> Added(old(entries[..maxEntries]), c, entries[..c + 1], base, e.End(), kind, shift)
    ensures size > 0 ==> (Extended(old(entries[..c]), entries[..c + 1], base, e.End(), kind)
                          <==> shift.Promised? || i == c || old(entries[i].kind == entries[i + 1].kind))
    ensures size == 0 ==> Listed(entries[..maxEntries]) == old(entries[..i])
  {
    hide Extended, KindAt, Listed, Sorted, Added, Table, TypesStay, PutIn, FitsAt;
    ghost var s := entries[..maxEntries];
    e := WriteEntry(entries, maxEntries, i, c, base, size, kind, shift);
    assert entries[..maxEntries][..c + 1] == entries[..c + 1] && s[..c] == old(entries[..c]);
    assert s[..i] == old(entries[..i]);
    if size > 0 {
      PutInIsTable(s, c, i, e, shift);
      PutInAdds(s, c, i, e, shift);
      FirstWriterWins(s, c, entries[..c + 1], base, e.End(), kind, shift);
    } else {
      EmptyPutIn(s, c, i, e, shift);
    }
  }

  /** Makes room if there are entries above, and writes the new one. */
  method WriteEntry(entries: array<Entry>, maxEntries: nat, i: nat, c: nat, base: nat, size: nat, kind: MemoryType,
          shift: Shift)
    returns (e: Entry)
    requires i <= c < maxEntries <= entries.Length
    requires forall k :: 0 <= k < i ==> entries[k].End() <= base
    requires forall k :: i <= k < c ==> base < entries[k].base
    modifies entries
    ensures e.base == base && e.count <= size && e.kind == kind && (size > 0 ==> e.count > 0)
    ensures e.count < size ==> i < c && e.End() == old(entries[i].base)
    ensures shift.Promised? ==> entries[maxEntries..] == old(entries[maxEntries..])
    ensures FitsAt(old(entries[..maxEntries]), c, i, e)
    ensures entries[..maxEntries] == PutIn(old(entries[..maxEntries]), c, i, e, shift)
  {
    if i < c {
      MoveUp(entries, i, c, shift);
      entries[i] := Entry(base, if size < entries[i + 1].base - base then size else entries[i + 1].base - base, kind);
    } else {
      entries[i] := Entry(base, size, kind);
    }
    e := entries[i];
  }

  lemma {:induction false} EmptyPutIn(slots: seq<Entry>, n: nat, i: nat, e: Entry, shift: Shift)
    requires Table(slots, n) && i <= n < |slots| && e.count == 0
    ensures Listed(PutIn(slots, n, i, e, shift)) == slots[..i]
  {
    hide Listed, PutIn;
    PutInAt(slots, n, i, e, shift);
    var t := PutIn(slots, n, i, e, shift);
    assert t == slots[..i] + [e] + t[i + 1..];
    assert forall k :: 0 <= k < i ==> slots[..i][k] == slots[..n][k];
    ListedStops(slots[..i], e, t[i + 1..]);
  }

  // ---------------------------------------------------------------------------
  // A run of calls
  // ---------------------------------------------------------------------------

  /** No entry moves for a range in its turn, so none takes on a wrong type. */
  lemma {:induction false} InTurnKeepsTypes(s: seq<Entry>, slots: seq<Entry>, n: nat, ranges: seq<Range>, k: nat,
          shift: Shift)
    requires Table(slots, n) && k < |ranges| && FirstCome(s, slots[..n], ranges[..k]) && InTurn(s, ranges)
    ensures KeepsTypes(slots, n, ranges[k].base, ranges[k].End(), shift)
  {
    hide KindAt, FirstOf, Sorted, Reach;
    var t, base, end := slots[..n], ranges[k].base, ranges[k].End();
    var cut := Reach(t, |slots| - n, base, end);
    FillLength(t, |slots| - n, base, end, Free);
    forall j | 0 <= j < n ensures !InGapBelow(slots, j, base, cut) {
      if InGapBelow(slots, j, base, cut) {
        assert InGapBelow(t, j, base, cut);
        var p := GapIsFree(t, j, base, cut);
        NothingAbove(s, t, ranges, k, j, p);
      }
    }
  }

  /** What one more call makes of a table that has the ranges of pages the calls so far come to. */
  lemma {:induction false} OneCallMore(s: seq<Entry>, slots: seq<Entry>, n: nat, u: seq<Entry>, ranges: seq<Range>,
          k: nat, shift: Shift)
    requires n <= |slots| && k < |ranges| && |s| <= |slots|
    requires SameSpans(FillAll(s, |slots|, ranges[..k]), slots[..n])
    requires shift.Promised? ==> slots[..n] == FillAll(s, |slots|, ranges[..k])
    requires TakenIn(slots, n, u, ranges[k].base, ranges[k].End(), ranges[k].kind, shift)
    ensures SameSpans(FillAll(s, |slots|, ranges[..k + 1]), u)
    ensures shift.Promised? ==> u == FillAll(s, |slots|, ranges[..k + 1])
    ensures RoomFor(s, |slots|, ranges[..k + 1])
            <==> RoomFor(s, |slots|, ranges[..k]) && n + Gaps(slots[..n], ranges[k].base, ranges[k].End()) <= |slots|
  {
    hide SameSpans, Fill, Gaps, Reach, Added, FillAll, RoomFor;
    var r, t, f := ranges[k], slots[..n], FillAll(s, |slots|, ranges[..k]);
    FillAllStep(s, |slots|, ranges, k);
    SpansLength(f, t);
    FillSpans(f, t, |slots| - n, r.base, r.End(), r.kind);
    SpansOn(Fill(f, |slots| - n, r.base, r.End(), r.kind), Fill(t, |slots| - n, r.base, r.End(), r.kind), u);
  }

  /** Where the range gets in and no type changes, first writer wins after the call if it did before. */
  lemma {:induction false} RightAfterCall(s: seq<Entry>, slots: seq<Entry>, n: nat, u: seq<Entry>, ranges: seq<Range>,
          k: nat,
          shift: Shift)
    requires Table(slots, n) && k < |ranges| && FirstCome(s, slots[..n], ranges[..k])
    requires shift.Promised? || InTurn(s, ranges)
    requires n + Gaps(slots[..n], ranges[k].base, ranges[k].End()) <= |slots|
    requires FirstWins(slots, n, u, ranges[k].base, ranges[k].End(), ranges[k].kind)
             <==> KeepsTypes(slots, n, ranges[k].base, ranges[k].End(), shift)
    ensures FirstCome(s, u, ranges[..k + 1])
  {
    hide Gaps, Reach, InTurn, FirstCome, Extended, TypesStay, Sorted;
    var r := ranges[k];
    FillLength(slots[..n], |slots| - n, r.base, r.End(), r.kind);
    if shift.Promised? {
      PromiseKeepsTypes(slots, n, r.base);
    } else {
      InTurnKeepsTypes(s, slots, n, ranges, k, shift);
    }
    OneRangeMore(s, slots[..n], u, ranges, k);
  }

  lemma {:induction false} PromiseKeepsTypes(slots: seq<Entry>, n: nat, base: nat)
    requires n <= |slots|
    ensures forall cut :: TypesStay(slots, n, base, cut, Promised)
  {
  }

  /**
     The loop that adds the firmware's ranges. With a memmove that keeps its promise,
     and with the loader's if the ranges come in their turn, each page ends up with the
     type of the first range that covers it exactly if there is room for each gap.
   */
  method AddAll(entries: array<Entry>, maxEntries: nat, ranges: seq<Range>, shift: Shift, ghost n: nat)
    returns (ghost c: nat)
    requires maxEntries <= entries.Length && Table(entries[..maxEntries], n)
    requires forall r :: r in ranges ==> r.size > 0 && r.End() < PAGE_LIMIT
    modifies entries
    ensures c <= maxEntries && Table(entries[..maxEntries], c)
    ensures SameSpans(FillAll(old(entries[..n]), maxEntries, ranges), entries[..c])
    ensures shift.Promised? ==> entries[..c] == FillAll(old(entries[..n]), maxEntries, ranges)
    ensures shift.Promised? || InTurn(old(entries[..n]), ranges) ==>
              (FirstCome(old(entries[..n]), entries[..c], ranges)
               <==> RoomFor(old(entries[..n]), maxEntries, ranges))
  {
    hide Extended, KindAt, Listed, Sorted, Added, FirstCome, TypesStay, InTurn, Fill, Reach, Gaps, RoomFor;
    ghost var s := entries[..n];
    c := n;
    NoRanges(s, maxEntries);
    assert ranges[..0] == [];
    for k := 0 to |ranges|
      invariant c <= maxEntries && Table(entries[..maxEntries], c)
      invariant SameSpans(FillAll(s, maxEntries, ranges[..k]), entries[..c])
      invariant shift.Promised? ==> entries[..c] == FillAll(s, maxEntries, ranges[..k])
      invariant (shift.Promised? || InTurn(s, ranges)) && RoomFor(s, maxEntries, ranges[..k]) ==>
                  FirstCome(s, entries[..c], ranges[..k])
    {
      ghost var before := entries[..maxEntries];
      assert before[..c] == entries[..c];
      assert ranges[k] in ranges;
      var count := AddMapEntry(entries, maxEntries, ranges[k].base, ranges[k].size, ranges[k].kind, shift, c);
      OneCallMore(s, before, c, entries[..count], ranges, k, shift);
      if (shift.Promised? || InTurn(s, ranges)) && RoomFor(s, maxEntries, ranges[..k + 1]) {
        RightAfterCall(s, before, c, entries[..count], ranges, k, shift);
      }
      c := count;
    }
    assert ranges[..|ranges|] == ranges;
    if !RoomFor(s, maxEntries, ranges) {
      assert Sorted(s) by { assert old(entries[..maxEntries])[..n] == s; }
      MissedPage(s, maxEntries, ranges, entries[..c]);
    }
  }

  /** A type that is lost: a bad page turns free when the loader's memmove makes room for a range below it. */
  lemma {:induction false} LostType(t: seq<Entry>)
    requires TakenIn([Entry(5, 1, Bad), Entry(0, 0, Free)], 1, t, 0, 2, Special, Loaders)
    ensures KindAt([Entry(5, 1, Bad)], 5) == Some(Bad) && KindAt(t, 5) == Some(Free)
    ensures !FirstWins([Entry(5, 1, Bad), Entry(0, 0, Free)], 1, t, 0, 2, Special)
  {
    var slots := [Entry(5, 1, Bad), Entry(0, 0, Free)];
    assert slots[..1] == [Entry(5, 1, Bad)];
    assert Reach(slots[..1], 1, 0, 2) == 2;
    assert slots[0].Covers(5) && InGapBelow(slots, 0, 0, 2);
    assert KindAt(slots[..1], 5) == Some(Bad);
  }
}
