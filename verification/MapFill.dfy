/**
 What adding ranges of pages comes to: gaps are filled from below, one entry for each,
 for as long as there is room; who comes first keeps a page.
 */
module MapFill {
  import opened MemoryTypes
  import opened MapEntries

  function Min(a: nat, b: nat): nat { if a < b then a else b }

  function Max(a: nat, b: nat): nat { if a < b then b else a }

  // ---------------------------------------------------------------------------
  // One range
  // ---------------------------------------------------------------------------

  /** The entries once the pages from `base` up to `end` have been added with room for so many entries more. */
  function Fill(s: seq<Entry>, room: nat, base: nat, end: nat, kind: MemoryType): seq<Entry> {
    if base >= end then s
    else if s == [] then if room == 0 then [] else [Entry(base, end - base, kind)]
    else if s[0].base <= base then [s[0]] + Fill(s[1..], room, Max(base, s[0].End()), end, kind)
    else if room == 0 then s
    else
      [Entry(base, Min(end, s[0].base) - base, kind)]
      + ([s[0]] + Fill(s[1..], room - 1, Max(base, s[0].End()), end, kind))
  }

  /** The number of gaps in which the range has pages. */
  function Gaps(s: seq<Entry>, base: nat, end: nat): nat {
    if base >= end then 0
    else if s == [] then 1
    else (if base < s[0].base then 1 else 0) + Gaps(s[1..], Max(base, s[0].End()), end)
  }

  /** The first page of the range for which there is no room, or its end. */
  function Reach(s: seq<Entry>, room: nat, base: nat, end: nat): nat {
    if base >= end then end
    else if s == [] then if room == 0 then base else end
    else if s[0].base <= base then Reach(s[1..], room, Max(base, s[0].End()), end)
    else if room == 0 then base
    else Reach(s[1..], room - 1, Max(base, s[0].End()), end)
  }

  /** One entry for each gap while there is room; all of the range gets in exactly if there is room for each. */
  lemma {:induction false} FillLength(s: seq<Entry>, room: nat, base: nat, end: nat, kind: MemoryType)
    ensures |Fill(s, room, base, end, kind)| == |s| + Min(room, Gaps(s, base, end))
    ensures Reach(s, room, base, end) <= end && (Reach(s, room, base, end) == end <==> Gaps(s, base, end) <= room)
    ensures base < end ==> base <= Reach(s, room, base, end)
    ensures Gaps(s, base, end) <= |s| + 1
  {
    if base < end && s != [] {
      var rest := if s[0].base > base && room > 0 then room - 1 else room;
      FillLength(s[1..], rest, Max(base, s[0].End()), end, kind);
    }
  }

  lemma {:induction false} NotBelow(s: seq<Entry>, p: nat)
    requires Sorted(s) && s != [] && p < s[0].base
    ensures KindAt(s, p).None?
  {
    Covered(s, p);
    forall i | 0 <= i < |s| ensures s[0].base <= s[i].base {
      if i > 0 { assert s[0].End() <= s[i].base; }
    }
  }

  /** Page by page: what is covered stays, and the range covers the rest as far as it reaches. */
  lemma {:induction false} FillAt(s: seq<Entry>, room: nat, base: nat, end: nat, kind: MemoryType, p: nat)
    requires Sorted(s)
    ensures KindAt(Fill(s, room, base, end, kind), p)
            == if KindAt(s, p).Some? then KindAt(s, p)
               else if base <= p < Reach(s, room, base, end) then Some(kind) else None
  {
    hide KindAt, Sorted;
    if base < end && s == [] {
      KindAtFront(Entry(base, end - base, kind), [], p);
      assert [Entry(base, end - base, kind)] + [] == [Entry(base, end - base, kind)];
    } else if base < end {
      var next := Max(base, s[0].End());
      SortedTail(s);
      KindAtFront(s[0], s[1..], p);
      assert [s[0]] + s[1..] == s;
      if p < s[0].base { NotBelow(s, p); }
      if s[0].base <= base {
        FillAt(s[1..], room, next, end, kind, p);
        KindAtFront(s[0], Fill(s[1..], room, next, end, kind), p);
      } else if room > 0 {
        var t := Fill(s[1..], room - 1, next, end, kind);
        FillAt(s[1..], room - 1, next, end, kind, p);
        FillLength(s[1..], room - 1, next, end, kind);
        KindAtFront(s[0], t, p);
        KindAtFront(Entry(base, Min(end, s[0].base) - base, kind), [s[0]] + t, p);
      }
    }
  }

  lemma {:induction false} KindAtFront(e: Entry, s: seq<Entry>, p: nat)
    ensures KindAt([], p).None?
    ensures KindAt([e] + s, p) == if e.Covers(p) then Some(e.kind) else KindAt(s, p)
  {
    assert ([e] + s)[1..] == s;
  }

  lemma {:induction false} FillExtends(s: seq<Entry>, room: nat, base: nat, end: nat, kind: MemoryType)
    requires Sorted(s)
    ensures Extended(s, Fill(s, room, base, end, kind), base, Reach(s, room, base, end), kind)
  {
    forall p: nat { FillAt(s, room, base, end, kind, p); }
  }

  lemma {:induction false} FillSorted(s: seq<Entry>, room: nat, base: nat, end: nat, kind: MemoryType)
    requires Sorted(s)
    ensures var t := Fill(s, room, base, end, kind);
            Sorted(t) && (t != [] ==> t[0].base >= if s == [] || base < s[0].base then base else s[0].base)
  {
    hide Sorted;
    if s == [] && base < end && room > 0 {
      OneSorted(Entry(base, end - base, kind));
    } else if base < end && s != [] {
      var next := Max(base, s[0].End());
      var rest := if s[0].base > base && room > 0 then room - 1 else room;
      var t := Fill(s[1..], rest, next, end, kind);
      SortedTail(s);
      FillSorted(s[1..], rest, next, end, kind);
      if s[0].base <= base {
        InFront(s[0], t);
      } else if room > 0 {
        InFront(s[0], t);
        InFront(Entry(base, Min(end, s[0].base) - base, kind), [s[0]] + t);
      }
    }
  }

  lemma {:induction false} OneSorted(e: Entry)
    requires e.count > 0
    ensures Sorted([e])
  {
  }

  lemma {:induction false} SortedTail(s: seq<Entry>)
    requires Sorted(s) && s != []
    ensures Sorted(s[1..]) && s[0].count > 0 && (|s| > 1 ==> s[0].End() <= s[1].base)
  {
  }

  lemma {:induction false} FirstIsLeast(s: seq<Entry>)
    requires Sorted(s)
    ensures forall i :: 0 <= i < |s| ==> s[0].base <= s[i].base
  {
    forall i | 0 <= i < |s| ensures s[0].base <= s[i].base {
      if i > 0 { assert s[0].End() <= s[i].base; }
    }
  }

  lemma {:induction false} InFront(e: Entry, s: seq<Entry>)
    requires Sorted(s) && e.count > 0 && (s != [] ==> e.End() <= s[0].base)
    ensures Sorted([e] + s)
  {
    FirstIsLeast(s);
    var t := [e] + s;
    forall i, j | 0 <= i < j < |t| ensures t[i].End() <= t[j].base {
      if i > 0 { assert s[i - 1].End() <= s[j - 1].base; }
    }
  }

  /** Where nothing is left to do. */
  lemma {:induction false} NoRoom(s: seq<Entry>, base: nat, end: nat, kind: MemoryType)
    ensures Fill(s, 0, base, end, kind) == s
    ensures forall p: nat :: base <= p < Reach(s, 0, base, end) && base < end ==> KindAt(s, p).Some?
  {
    if base < end && s != [] && s[0].base <= base {
      NoRoom(s[1..], Max(base, s[0].End()), end, kind);
    }
  }

  /** If the pages before `base` are covered the range may as well begin earlier. */
  lemma {:induction false} FillFromEarlier(s: seq<Entry>, room: nat, from: nat, base: nat, end: nat, kind: MemoryType)
    requires Sorted(s) && from <= base
    requires forall p: nat :: from <= p < base ==> KindAt(s, p).Some?
    ensures Fill(s, room, from, end, kind) == Fill(s, room, base, end, kind)
    ensures Reach(s, room, from, end) == Reach(s, room, base, end) && Gaps(s, from, end) == Gaps(s, base, end)
  {
    assert from < base ==> KindAt(s, from).Some?;
    if from < base && s != [] {
      if from < s[0].base { NotBelow(s, from); }
      var next := Max(from, s[0].End());
      forall p: nat | next <= p < Max(base, s[0].End()) ensures KindAt(s[1..], p).Some? {
        assert KindAt(s, p).Some?;
      }
      if next <= Max(base, s[0].End()) {
        FillFromEarlier(s[1..], room, next, Max(base, s[0].End()), end, kind);
      }
    }
  }

  /** The entry that fills what the range has of a gap, put in before entry `i`. */
  function Piece(s: seq<Entry>, i: nat, base: nat, end: nat, kind: MemoryType): Entry
    requires i <= |s| && base < end && (i < |s| ==> base < s[i].base)
  {
    Entry(base, (if i < |s| then Min(end, s[i].base) else end) - base, kind)
  }

  /** Filling the gap below entry `i` and then going on from there. */
  lemma {:induction false} FillGap(s: seq<Entry>, i: nat, room: nat, base: nat, end: nat, kind: MemoryType)
    requires Sorted(s) && i <= |s| && room > 0 && base < end
    requires (forall k :: 0 <= k < i ==> s[k].End() <= base) && (i < |s| ==> base < s[i].base)
    ensures var e := Piece(s, i, base, end, kind); var g := s[..i] + [e] + s[i..];
            && Fill(s, room, base, end, kind) == Fill(g, room - 1, e.End(), end, kind)
            && Reach(s, room, base, end) == Reach(g, room - 1, e.End(), end)
            && Gaps(s, base, end) == 1 + Gaps(g, e.End(), end)
  {
    hide Fill, Reach, Gaps, Sorted;
    if i == 0 {
      var e := Piece(s, 0, base, end, kind);
      FillFirst(s, room, base, end, kind);
      FillPast(e, s, room - 1, e.End(), end, kind);
      assert s[..0] + [e] + s[0..] == [e] + s;
    } else {
      var e := Piece(s, i, base, end, kind);
      var h := s[1..][..i - 1] + [e] + s[1..][i - 1..];
      SortedTail(s);
      FillGap(s[1..], i - 1, room, base, end, kind);
      assert s[..i] + [e] + s[i..] == [s[0]] + h;
      FillPast(s[0], s[1..], room, base, end, kind);
      FillPast(s[0], h, room - 1, e.End(), end, kind);
      assert s == [s[0]] + s[1..];
    }
  }

  /** An entry that ends before the range begins does not count. */
  lemma {:induction false} FillPast(e: Entry, s: seq<Entry>, room: nat, base: nat, end: nat, kind: MemoryType)
    requires e.End() <= base
    ensures Fill([e] + s, room, base, end, kind) == [e] + Fill(s, room, base, end, kind)
    ensures Reach([e] + s, room, base, end) == Reach(s, room, base, end)
    ensures Gaps([e] + s, base, end) == Gaps(s, base, end)
  {
    assert ([e] + s)[1..] == s;
  }

  lemma {:induction false} FillFirst(s: seq<Entry>, room: nat, base: nat, end: nat, kind: MemoryType)
    requires room > 0 && base < end && (s != [] ==> base < s[0].base)
    ensures var e := Piece(s, 0, base, end, kind);
            && Fill(s, room, base, end, kind) == [e] + Fill(s, room - 1, e.End(), end, kind)
            && Reach(s, room, base, end) == Reach(s, room - 1, e.End(), end)
            && Gaps(s, base, end) == 1 + Gaps(s, e.End(), end)
  {
    if s != [] {
      var next := s[0].End();
      assert Max(base, next) == next && Max(s[0].base, next) == next;
      if end <= s[0].base {
        FillBeyond(s[1..], room - 1, next, end, kind);
        assert s == [s[0]] + s[1..];
      }
    }
  }

  lemma {:induction false} FillBeyond(s: seq<Entry>, room: nat, base: nat, end: nat, kind: MemoryType)
    ensures end <= base ==> Fill(s, room, base, end, kind) == s && Reach(s, room, base, end) == end
    ensures end <= base ==> Gaps(s, base, end) == 0
  {
  }

  // ---------------------------------------------------------------------------
  // Only the pages matter
  // ---------------------------------------------------------------------------

  /** The same ranges of pages, of whatever types. */
  ghost predicate SameSpans(s: seq<Entry>, t: seq<Entry>) {
    && |s| == |t|
    && forall i {:trigger t[i]} {:trigger s[i]} :: 0 <= i < |s| ==> s[i].base == t[i].base && s[i].count == t[i].count
  }

  lemma {:induction false} FillSpans(s: seq<Entry>, t: seq<Entry>, room: nat, base: nat, end: nat, kind: MemoryType)
    requires SameSpans(s, t)
    ensures SameSpans(Fill(s, room, base, end, kind), Fill(t, room, base, end, kind))
    ensures Reach(s, room, base, end) == Reach(t, room, base, end) && Gaps(s, base, end) == Gaps(t, base, end)
  {
    hide SameSpans;
    SpansTail(s, t);
    if base < end && s != [] {
      var rest := if s[0].base > base && room > 0 then room - 1 else room;
      var next := Max(base, s[0].End());
      var u, v := Fill(s[1..], rest, next, end, kind), Fill(t[1..], rest, next, end, kind);
      FillSpans(s[1..], t[1..], rest, next, end, kind);
      SpansFront(s[0], t[0], u, v);
      if s[0].base > base && room > 0 {
        var e := Entry(base, Min(end, s[0].base) - base, kind);
        SpansFront(e, e, [s[0]] + u, [t[0]] + v);
      }
    }
  }

  lemma {:induction false} SpansTail(s: seq<Entry>, t: seq<Entry>)
    requires SameSpans(s, t)
    ensures |s| == |t| && SameSpans([], []) && forall e: Entry :: SameSpans([e], [e])
    ensures SameSpans(s, s)
    ensures s != [] ==> s[0].base == t[0].base && s[0].count == t[0].count && SameSpans(s[1..], t[1..])
  {
  }

  lemma {:induction false} SpansFront(e: Entry, f: Entry, s: seq<Entry>, t: seq<Entry>)
    requires e.base == f.base && e.count == f.count && SameSpans(s, t)
    ensures SameSpans([e] + s, [f] + t)
  {
  }

  lemma {:induction false} SpansLength(s: seq<Entry>, t: seq<Entry>)
    requires SameSpans(s, t)
    ensures |s| == |t|
  {
  }

  lemma {:induction false} SpansOn(s: seq<Entry>, t: seq<Entry>, u: seq<Entry>)
    requires SameSpans(s, t) && SameSpans(t, u)
    ensures SameSpans(s, u)
  {
  }

  lemma {:induction false} SpansCover(s: seq<Entry>, t: seq<Entry>, p: nat)
    requires SameSpans(s, t)
    ensures KindAt(s, p).Some? <==> KindAt(t, p).Some?
  {
    Covered(s, p);
    Covered(t, p);
    if i :| 0 <= i < |s| && s[i].Covers(p) { assert t[i].Covers(p); }
    if i :| 0 <= i < |t| && t[i].Covers(p) { assert s[i].Covers(p); }
  }

  // ---------------------------------------------------------------------------
  // A run of ranges
  // ---------------------------------------------------------------------------

  datatype Range = Range(base: nat, size: nat, kind: MemoryType) {
    function End(): nat { base + size }
    predicate Covers(p: nat) { base <= p < End() }
  }

  /** The kind of page `p`, by the first range that covers it. */
  function FirstOf(ranges: seq<Range>, p: nat): Option<MemoryType> {
    if ranges == [] then None
    else
      var r := ranges[|ranges| - 1];
      var before := FirstOf(ranges[..|ranges| - 1], p);
      if before.Some? then before else if r.Covers(p) then Some(r.kind) else None
  }

  /** Each page has the kind it had, or else that of the first range that covers it. */
  ghost predicate FirstCome(s: seq<Entry>, t: seq<Entry>, ranges: seq<Range>) {
    forall p: nat :: KindAt(t, p) == if KindAt(s, p).Some? then KindAt(s, p) else FirstOf(ranges, p)
  }

  /** The ranges added one after the other to a table of so many entries. */
  function FillAll(s: seq<Entry>, maxEntries: nat, ranges: seq<Range>): (t: seq<Entry>)
    requires |s| <= maxEntries
    ensures |t| <= maxEntries
  {
    if ranges == [] then s
    else
      var r, t := ranges[|ranges| - 1], FillAll(s, maxEntries, ranges[..|ranges| - 1]);
      FillLength(t, maxEntries - |t|, r.base, r.End(), r.kind);
      Fill(t, maxEntries - |t|, r.base, r.End(), r.kind)
  }

  /** There is an entry left for each gap that a range has pages in. */
  predicate RoomFor(s: seq<Entry>, maxEntries: nat, ranges: seq<Range>)
    requires |s| <= maxEntries
  {
    ranges == []
    || var r, t := ranges[|ranges| - 1], FillAll(s, maxEntries, ranges[..|ranges| - 1]);
      RoomFor(s, maxEntries, ranges[..|ranges| - 1]) && |t| + Gaps(t, r.base, r.End()) <= maxEntries
  }

  lemma {:induction false} FillAllStep(s: seq<Entry>, maxEntries: nat, ranges: seq<Range>, k: nat)
    requires |s| <= maxEntries && k < |ranges|
    ensures var t, r := FillAll(s, maxEntries, ranges[..k]), ranges[k];
            && FillAll(s, maxEntries, ranges[..k + 1]) == Fill(t, maxEntries - |t|, r.base, r.End(), r.kind)
            && (RoomFor(s, maxEntries, ranges[..k + 1])
                <==> RoomFor(s, maxEntries, ranges[..k]) && |t| + Gaps(t, r.base, r.End()) <= maxEntries)
  {
    hide Fill, Gaps;
    assert ranges[..k + 1][..k] == ranges[..k];
  }

  lemma {:induction false} NoRanges(s: seq<Entry>, maxEntries: nat)
    requires |s| <= maxEntries
    ensures FirstCome(s, s, []) && SameSpans(s, s) && RoomFor(s, maxEntries, []) && FillAll(s, maxEntries, []) == s
  {
  }

  lemma {:induction false} OneRangeMore(s: seq<Entry>, t: seq<Entry>, u: seq<Entry>, ranges: seq<Range>, k: nat)
    requires k < |ranges| && FirstCome(s, t, ranges[..k])
    requires Extended(t, u, ranges[k].base, ranges[k].End(), ranges[k].kind)
    ensures FirstCome(s, u, ranges[..k + 1])
  {
    hide KindAt;
    assert ranges[..k + 1][..k] == ranges[..k];
  }

  /** Without the room a page of some range stays uncovered, and the table is full. */
  lemma {:induction false} NoRoomFor(s: seq<Entry>, maxEntries: nat, ranges: seq<Range>) returns (p: nat)
    requires |s| <= maxEntries && Sorted(s) && !RoomFor(s, maxEntries, ranges)
    ensures |FillAll(s, maxEntries, ranges)| == maxEntries
    ensures KindAt(FillAll(s, maxEntries, ranges), p).None? && FirstOf(ranges, p).Some?
  {
    hide Fill, Gaps, Reach, Sorted, KindAt;
    var front, r := ranges[..|ranges| - 1], ranges[|ranges| - 1];
    var t := FillAll(s, maxEntries, front);
    var room := maxEntries - |t|;
    FillLength(t, room, r.base, r.End(), r.kind);
    FillAllSorted(s, maxEntries, front);
    if RoomFor(s, maxEntries, front) {
      p := Reach(t, room, r.base, r.End());
      NotReached(t, room, r.base, r.End());
    } else {
      p := NoRoomFor(s, maxEntries, front);
      NoRoom(t, r.base, r.End(), r.kind);
    }
    FillAt(t, room, r.base, r.End(), r.kind, p);
  }

  lemma {:induction false} NotReached(s: seq<Entry>, room: nat, base: nat, end: nat)
    requires Sorted(s) && Reach(s, room, base, end) < end
    ensures base <= Reach(s, room, base, end) && KindAt(s, Reach(s, room, base, end)).None?
  {
    if base < end && s != [] {
      var rest := if s[0].base > base && room > 0 then room - 1 else room;
      if s[0].base > base && room == 0 {
        NotBelow(s, base);
      } else {
        NotReached(s[1..], rest, Max(base, s[0].End()), end);
      }
    }
  }

  lemma {:induction false} FillAllSorted(s: seq<Entry>, maxEntries: nat, ranges: seq<Range>)
    requires |s| <= maxEntries && Sorted(s)
    ensures Sorted(FillAll(s, maxEntries, ranges))
  {
    hide Fill, Sorted;
    if ranges != [] {
      var front, r := ranges[..|ranges| - 1], ranges[|ranges| - 1];
      var t := FillAll(s, maxEntries, front);
      FillAllSorted(s, maxEntries, front);
      FillLength(t, maxEntries - |t|, r.base, r.End(), r.kind);
      FillSorted(t, maxEntries - |t|, r.base, r.End(), r.kind);
    }
  }

  /** First come, first served exactly if there is room for each gap. */
  lemma {:induction false} FillAllExactly(s: seq<Entry>, maxEntries: nat, ranges: seq<Range>)
    requires |s| <= maxEntries && Sorted(s)
    ensures FirstCome(s, FillAll(s, maxEntries, ranges), ranges) <==> RoomFor(s, maxEntries, ranges)
  {
    hide Fill, Gaps, Reach, Sorted, KindAt, FirstOf, Extended, FirstCome;
    if !RoomFor(s, maxEntries, ranges) {
      var p := NoRoomFor(s, maxEntries, ranges);
      NotFirstCome(s, FillAll(s, maxEntries, ranges), ranges, p);
    } else if ranges == [] {
      NoRanges(s, maxEntries);
    } else {
      var k := |ranges| - 1;
      var t, r := FillAll(s, maxEntries, ranges[..k]), ranges[k];
      FillAllExactly(s, maxEntries, ranges[..k]);
      FillAllSorted(s, maxEntries, ranges[..k]);
      FillLength(t, maxEntries - |t|, r.base, r.End(), r.kind);
      FillExtends(t, maxEntries - |t|, r.base, r.End(), r.kind);
      OneRangeMore(s, t, FillAll(s, maxEntries, ranges), ranges, k);
      assert ranges[..k + 1] == ranges;
    }
  }

  lemma {:induction false} MissedPage(s: seq<Entry>, maxEntries: nat, ranges: seq<Range>, t: seq<Entry>)
    requires |s| <= maxEntries && Sorted(s) && !RoomFor(s, maxEntries, ranges)
    requires SameSpans(FillAll(s, maxEntries, ranges), t)
    ensures !FirstCome(s, t, ranges)
  {
    var p := NoRoomFor(s, maxEntries, ranges);
    SpansCover(FillAll(s, maxEntries, ranges), t, p);
    NotFirstCome(s, t, ranges, p);
  }

  lemma {:induction false} NotFirstCome(s: seq<Entry>, t: seq<Entry>, ranges: seq<Range>, p: nat)
    requires KindAt(t, p).None? && FirstOf(ranges, p).Some?
    ensures !FirstCome(s, t, ranges)
  {
  }

  lemma {:induction false} SomeRange(ranges: seq<Range>, p: nat)
    requires FirstOf(ranges, p).Some?
    ensures exists k :: 0 <= k < |ranges| && ranges[k].Covers(p)
  {
    var n := |ranges| - 1;
    if FirstOf(ranges[..n], p).Some? {
      SomeRange(ranges[..n], p);
      var k :| 0 <= k < n && ranges[..n][k].Covers(p);
      assert ranges[k].Covers(p);
    } else {
      assert ranges[n].Covers(p);
    }
  }

  /** Each page that a range newly covers lies above the entries there were and the ranges before it. */
  ghost predicate InTurn(s: seq<Entry>, ranges: seq<Range>) {
    forall k, p: nat {:trigger ranges[k], KindAt(s, p)} ::
        0 <= k < |ranges| && ranges[k].Covers(p) && KindAt(s, p).None? && FirstOf(ranges[..k], p).None? ==>
          && (forall i :: 0 <= i < |s| ==> s[i].End() <= p)
          && (forall j :: 0 <= j < k ==> ranges[j].End() <= p)
  }

  lemma {:induction false} NothingAbove(s: seq<Entry>, t: seq<Entry>, ranges: seq<Range>, k: nat, j: nat, p: nat)
    requires Sorted(t) && k < |ranges| && FirstCome(s, t, ranges[..k]) && InTurn(s, ranges)
    requires ranges[k].Covers(p) && KindAt(t, p).None? && j < |t|
    ensures t[j].base <= p
  {
    hide KindAt, FirstOf;
    var q := t[j].base;
    assert t[j].Covers(q);
    KindOfCover(t, j, q);
    Covered(s, q);
    if KindAt(s, q).Some? {
      var i :| 0 <= i < |s| && s[i].Covers(q);
      assert s[i].End() <= p;
    } else {
      SomeRange(ranges[..k], q);
      var r :| 0 <= r < k && ranges[..k][r].Covers(q);
      assert ranges[r].End() <= p;
    }
  }

  // ---------------------------------------------------------------------------
  // How much room is enough
  // ---------------------------------------------------------------------------

  /** The gaps that the entries leave from page `low` on, the one above the last included. */
  function Holes(s: seq<Entry>, low: nat): (h: nat)
    ensures 0 < h <= |s| + 1
  {
    if s == [] then 1 else (if low < s[0].base then 1 else 0) + Holes(s[1..], s[0].End())
  }

  lemma {:induction false} GapsAreHoles(s: seq<Entry>, low: nat, base: nat, end: nat)
    requires low <= base
    ensures Gaps(s, base, end) <= Holes(s, low)
  {
    if base < end && s != [] {
      GapsAreHoles(s[1..], s[0].End(), Max(base, s[0].End()), end);
    }
  }

  /** Each gap filled is one entry more and one gap less, but for what is left of the first and of the last. */
  lemma {:induction false} FillHoles(s: seq<Entry>, room: nat, low: nat, base: nat, end: nat, kind: MemoryType)
    requires Sorted(s) && low <= base && (s != [] ==> low <= s[0].base)
    ensures var t := Fill(s, room, base, end, kind);
            |t| + Holes(t, low) <= |s| + Holes(s, low) + if low < base then 2 else 1
  {
    if base < end && s == [] && room > 0 {
      var e := Entry(base, end - base, kind);
      assert [e][1..] == [] && Holes([e], low) == (if low < base then 1 else 0) + Holes([], e.End());
    } else if base < end && s != [] {
      var next := Max(base, s[0].End());
      SortedTail(s);
      if s[0].base <= base {
        FillHoles(s[1..], room, s[0].End(), next, end, kind);
        HolesFront(s[0], Fill(s[1..], room, next, end, kind), low);
      } else if room > 0 {
        var t, e := Fill(s[1..], room - 1, next, end, kind), Entry(base, Min(end, s[0].base) - base, kind);
        FillHoles(s[1..], room - 1, s[0].End(), next, end, kind);
        HolesFront(s[0], t, e.End());
        HolesFront(e, [s[0]] + t, low);
        if end <= s[0].base { FillBeyond(s[1..], room - 1, next, end, kind); }
      }
    }
  }

  lemma {:induction false} HolesFront(e: Entry, s: seq<Entry>, low: nat)
    ensures Holes([e] + s, low) == (if low < e.base then 1 else 0) + Holes(s, e.End())
  {
    assert ([e] + s)[1..] == s;
  }

  lemma {:induction false} FillAllHoles(s: seq<Entry>, maxEntries: nat, ranges: seq<Range>)
    requires Sorted(s) && |s| <= maxEntries
    ensures var t := FillAll(s, maxEntries, ranges); |t| + Holes(t, 0) <= |s| + Holes(s, 0) + 2 * |ranges|
  {
    hide Fill, Holes, Sorted;
    if ranges != [] {
      var k := |ranges| - 1;
      var t, r := FillAll(s, maxEntries, ranges[..k]), ranges[k];
      FillAllHoles(s, maxEntries, ranges[..k]);
      FillAllSorted(s, maxEntries, ranges[..k]);
      FillHoles(t, maxEntries - |t|, 0, r.base, r.End(), r.kind);
    }
  }

  /** Whatever the ranges are, one entry for each gap there is and two for each range but the last are enough. */
  lemma {:induction false} EnoughRoom(s: seq<Entry>, maxEntries: nat, ranges: seq<Range>)
    requires Sorted(s) && |s| <= maxEntries && |s| + Holes(s, 0) + 2 * |ranges| <= maxEntries + 2
    ensures RoomFor(s, maxEntries, ranges)
  {
    hide Fill, Holes, Sorted, Gaps;
    if ranges != [] {
      var k := |ranges| - 1;
      EnoughRoom(s, maxEntries, ranges[..k]);
      FillAllHoles(s, maxEntries, ranges[..k]);
      GapsAreHoles(FillAll(s, maxEntries, ranges[..k]), 0, ranges[k].base, ranges[k].End());
    }
  }

  /** A range whose free pages all lie above the entries is one entry at most. */
  lemma {:induction false} OneGapAbove(t: seq<Entry>, base: nat, end: nat)
    requires Sorted(t)
    requires forall p: nat, j :: base <= p < end && KindAt(t, p).None? && 0 <= j < |t| ==> t[j].base <= p
    ensures Gaps(t, base, end) <= 1
  {
    if base < end && t != [] {
      var next := Max(base, t[0].End());
      if base < t[0].base { NotBelow(t, base); }
      forall p: nat, j | next <= p < end && KindAt(t[1..], p).None? && 0 <= j < |t[1..]|
        ensures t[1..][j].base <= p
      {
        assert KindAt(t, p).None? && t[1..][j] == t[j + 1];
      }
      OneGapAbove(t[1..], next, end);
    }
  }

  /** Ranges in their turn take one entry each at most. */
  lemma {:induction false} InTurnRoom(s: seq<Entry>, maxEntries: nat, ranges: seq<Range>)
    requires Sorted(s) && InTurn(s, ranges) && |s| + |ranges| <= maxEntries
    ensures RoomFor(s, maxEntries, ranges) && |FillAll(s, maxEntries, ranges)| <= |s| + |ranges|
  {
    hide Fill, Gaps, Sorted, KindAt, FirstOf, FirstCome;
    if ranges != [] {
      var k := |ranges| - 1;
      var t, r := FillAll(s, maxEntries, ranges[..k]), ranges[k];
      InTurnFront(s, ranges);
      InTurnRoom(s, maxEntries, ranges[..k]);
      FillAllExactly(s, maxEntries, ranges[..k]);
      FillAllSorted(s, maxEntries, ranges[..k]);
      forall p: nat, j | r.base <= p < r.End() && KindAt(t, p).None? && 0 <= j < |t|
        ensures t[j].base <= p
      {
        NothingAbove(s, t, ranges, k, j, p);
      }
      OneGapAbove(t, r.base, r.End());
      FillLength(t, maxEntries - |t|, r.base, r.End(), r.kind);
    }
  }

  lemma {:induction false} InTurnFront(s: seq<Entry>, ranges: seq<Range>)
    requires InTurn(s, ranges) && ranges != []
    ensures InTurn(s, ranges[..|ranges| - 1])
  {
    hide KindAt, FirstOf;
    var front := ranges[..|ranges| - 1];
    forall k, p: nat | 0 <= k < |front| && front[k].Covers(p) && KindAt(s, p).None? && FirstOf(front[..k], p).None?
      ensures forall i :: 0 <= i < |s| ==> s[i].End() <= p
      ensures forall j :: 0 <= j < k ==> front[j].End() <= p
    {
      assert front[k] == ranges[k] && front[..k] == ranges[..k];
    }
  }

  // ---------------------------------------------------------------------------
  // The loader's own table
  // ---------------------------------------------------------------------------

  const MAX_MEMORY_MAP_ENTRIES: nat := 32

  /** The table before the firmware is asked: the loader's buffers and stacks, and its `n` pages of code. */
  function LoadersTable(n: nat): seq<Entry> {
    [Entry(0, 1, LoaderTemporary), Entry(1, 6, LoaderTemporary), Entry(7, 1, LoaderStack), Entry(8, 1, LoaderStack),
     Entry(9, n, LoaderExecutable)]
  }

  /** There, ranges that ascend come in their turn, even if the first begins at page 0, and 27 of them have room. */
  lemma {:induction false} AscendingRanges(n: nat, ranges: seq<Range>)
    requires n > 0 && forall j, k :: 0 <= j < k < |ranges| ==> ranges[j].End() <= ranges[k].base
    ensures Sorted(LoadersTable(n)) && InTurn(LoadersTable(n), ranges)
    ensures |ranges| <= 27 ==> RoomFor(LoadersTable(n), MAX_MEMORY_MAP_ENTRIES, ranges)
  {
    hide KindAt, FirstOf;
    var s := LoadersTable(n);
    forall p: nat | KindAt(s, p).None?
      ensures p >= 9 + n
    {
      Covered(s, p);
      assert !s[0].Covers(p) && !s[1].Covers(p) && !s[2].Covers(p) && !s[3].Covers(p) && !s[4].Covers(p);
    }
    if |ranges| <= 27 { InTurnRoom(s, MAX_MEMORY_MAP_ENTRIES, ranges); }
  }
}
