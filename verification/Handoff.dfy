/**
 From the loader's page table to the kernel's frame allocator: pages of one type
 are run-length encoded into the descriptors of the loader block, and the kernel
 marks the frames of those descriptors whose type it lists.
 */
module Handoff {
  import opened MemoryTypes
  import opened Outcome
  import opened FrameAllocator

  /** Adjacent pages of one type. */
  datatype Run = Run(start: nat, length: nat, kind: MemoryType) {
    function End(): nat { start + length }
  }

  /** A memory descriptor as it stands in the loader block, its type a number. */
  datatype Descriptor = Descriptor(start: nat, length: nat, code: nat) {
    predicate Covers(i: nat) { start <= i < start + length }
  }

  const MAX_DESCRIPTORS: nat := 32

  // ---------------------------------------------------------------------------
  // Runs
  // ---------------------------------------------------------------------------

  /** Page `n` of the given type joins the last run, or begins one. */
  function AddPage(rs: seq<Run>, n: nat, kind: MemoryType): seq<Run> {
    if rs != [] && rs[|rs| - 1].kind == kind
    then rs[..|rs| - 1] + [rs[|rs| - 1].(length := rs[|rs| - 1].length + 1)]
    else rs + [Run(n, 1, kind)]
  }

  /** The longest runs of equal types. */
  function Runs(kinds: seq<MemoryType>): seq<Run> {
    if kinds == [] then []
    else
      var n := |kinds| - 1;
      AddPage(Runs(kinds[..n]), n, kinds[n])
  }

  /** The runs follow each other from 0 to `n`, none is empty, and no two neighbours have the same type. */
  ghost predicate Tiling(rs: seq<Run>, n: nat) {
    && (rs == [] <==> n == 0)
    && (rs != [] ==> rs[0].start == 0 && rs[|rs| - 1].End() == n)
    && (forall j :: 0 <= j < |rs| ==> rs[j].length > 0)
    && (forall j, k :: 0 <= j && k == j + 1 && k < |rs| ==> rs[k].start == rs[j].End() && rs[k].kind != rs[j].kind)
  }

  /** Every page of a run has the run's type. */
  ghost predicate Uniform(rs: seq<Run>, kinds: seq<MemoryType>) {
    forall j, i :: 0 <= j < |rs| && rs[j].start <= i < rs[j].End() && i < |kinds| ==> kinds[i] == rs[j].kind
  }

  lemma {:induction false} RunsTile(kinds: seq<MemoryType>)
    ensures Tiling(Runs(kinds), |kinds|) && Uniform(Runs(kinds), kinds)
  {
    hide Tiling, Uniform, AddPage;
    if kinds == [] {
      NoRuns();
    } else {
      var n := |kinds| - 1;
      RunsTile(kinds[..n]);
      PageAdded(Runs(kinds[..n]), kinds[..n], kinds[n]);
      assert kinds == kinds[..n] + [kinds[n]];
    }
  }

  lemma NoRuns()
    ensures Tiling([], 0) && Uniform([], [])
  {
  }

  lemma PageAdded(rs: seq<Run>, kinds: seq<MemoryType>, kind: MemoryType)
    requires Tiling(rs, |kinds|) && Uniform(rs, kinds)
    ensures Tiling(AddPage(rs, |kinds|, kind), |kinds| + 1)
    ensures Uniform(AddPage(rs, |kinds|, kind), kinds + [kind])
  {
    var t := AddPage(rs, |kinds|, kind);
    var m := |t| - 1;
    assert forall j :: 0 <= j < m ==> t[j] == rs[j];
    forall j, i | 0 <= j < |t| && t[j].start <= i < t[j].End() && i < |kinds| + 1
      ensures (kinds + [kind])[i] == t[j].kind
    {
      if j < |rs| - 1 { RunsOrdered(rs, |kinds|, j, |rs| - 1); }
      if i < |kinds| && j < |rs| { assert kinds[i] == rs[j].kind; }
    }
  }

  lemma {:induction false} RunsOrdered(rs: seq<Run>, n: nat, j: nat, k: nat)
    requires Tiling(rs, n) && j < k < |rs|
    ensures rs[j].End() <= rs[k].start
    decreases k - j
  {
    if j + 1 < k { RunsOrdered(rs, n, j, k - 1); }
  }

  lemma {:induction false} RunOf(rs: seq<Run>, n: nat, i: nat, k: nat) returns (j: nat)
    requires Tiling(rs, n) && k < |rs| && i < rs[k].End()
    ensures j <= k && rs[j].start <= i < rs[j].End()
    decreases k
  {
    if rs[k].start <= i { j := k; } else { j := RunOf(rs, n, i, k - 1); }
  }

  // ---------------------------------------------------------------------------
  // Encoding
  // ---------------------------------------------------------------------------

  /** The descriptors that a sequence of runs leaves in the loader block. */
  function Described(rs: seq<Run>): seq<Descriptor> {
    if rs == [] then []
    else
      var r := rs[|rs| - 1];
      Described(rs[..|rs| - 1]) + if Recorded(r.kind) then [Descriptor(r.start, r.length, Code(r.kind))] else []
  }

  /**
     The runs the loader writes out: those of all pages but the last. A table of one
     page yields one run, of no length.
   */
  function Flushed(kinds: seq<MemoryType>): seq<Run> {
    if kinds == [] then []
    else if |kinds| == 1 then [Run(0, 0, kinds[0])]
    else Runs(kinds[..|kinds| - 1])
  }

  /** The loader stops if a run ends when the block is full already, whether or not the run would be recorded. */
  ghost predicate TooMany(rs: seq<Run>) {
    exists j :: 0 <= j < |rs| && |Described(rs[..j])| >= MAX_DESCRIPTORS
  }

  /** Those of the first `j` runs that are not of a type the loader keeps to itself. */
  ghost function RunsToRecord(rs: seq<Run>, j: nat): set<nat>
    requires j <= |rs|
  {
    set i: nat | i < j && !(rs[i].kind.Free? || rs[i].kind.LoaderExecutable? || rs[i].kind.LoaderTemporary?
                            || rs[i].kind.LoaderStack? || rs[i].kind.LoaderHeap? || rs[i].kind.PageLookupTable?)
  }

  /** There is a descriptor for each of them. */
  lemma {:induction false} DescribedCount(rs: seq<Run>, j: nat)
    requires j <= |rs|
    ensures |Described(rs[..j])| == |RunsToRecord(rs, j)|
  {
    if j > 0 {
      DescribedCount(rs, j - 1);
      assert rs[..j][..j - 1] == rs[..j - 1];
      assert RunsToRecord(rs, j) == RunsToRecord(rs, j - 1) + if Recorded(rs[j - 1].kind) then {j - 1} else {};
    } else {
      assert RunsToRecord(rs, 0) == {};
    }
  }

  /** The block is too small exactly if 32 runs have been recorded and another one follows. */
  lemma {:induction false} TooManyMeans(rs: seq<Run>)
    ensures TooMany(rs) <==> exists j :: 0 <= j < |rs| && |RunsToRecord(rs, j)| >= 32
  {
    forall j | 0 <= j < |rs| { DescribedCount(rs, j); }
  }

  lemma {:induction false} DescribedPrefix(rs: seq<Run>, j: nat)
    requires j <= |rs|
    ensures Described(rs[..j]) <= Described(rs)
  {
    if j < |rs| {
      DescribedPrefix(rs[..|rs| - 1], j);
      assert rs[..|rs| - 1][..j] == rs[..j];
    } else {
      assert rs[..j] == rs;
    }
  }

  class LoaderBlock {
    var memoryDescriptorCount: nat
    const memoryDescriptors: array<Descriptor>

    ghost predicate Valid()
      reads this
    {
      memoryDescriptors.Length == MAX_DESCRIPTORS && memoryDescriptorCount <= MAX_DESCRIPTORS
    }

    function Descriptors(): seq<Descriptor>
      requires Valid()
      reads this, memoryDescriptors
    {
      memoryDescriptors[..memoryDescriptorCount]
    }

    constructor ()
      ensures Valid() && Descriptors() == [] && fresh(memoryDescriptors)
    {
      memoryDescriptorCount := 0;
      memoryDescriptors := new Descriptor[MAX_DESCRIPTORS](_ => Descriptor(0, 0, 0));
    }

    method AddPhysicalMemoryBlock(start: nat, length: nat, kind: MemoryType) returns (r: Outcome<()>)
      requires Valid()
      modifies this, memoryDescriptors
      ensures Valid()
      ensures r.Panic? <==> |old(Descriptors())| == 32
      ensures r.Panic? ==> Descriptors() == old(Descriptors())
      ensures r.Returned? ==>
                Descriptors() == old(Descriptors())
                                 + if Recorded(kind) then [Descriptor(start, length, Code(kind))] else []
    {
      if memoryDescriptorCount >= MAX_DESCRIPTORS {
        return Panic;
      }
      if Recorded(kind) {
        memoryDescriptors[memoryDescriptorCount] := Descriptor(start, length, Code(kind));
        memoryDescriptorCount := memoryDescriptorCount + 1;
      }
      return Returned(());
    }

    method BuildPhysicalMemoryMap(mmap: array<MemoryType>) returns (r: Outcome<()>)
      requires Valid() && Descriptors() == [] && mmap.Length > 0
      modifies this, memoryDescriptors
      ensures Valid()
      ensures r.Panic? <==> TooMany(Flushed(mmap[..]))
      ensures r.Returned? ==> Descriptors() == Described(Flushed(mmap[..]))
    {
      ghost var kinds, all := mmap[..], Flushed(mmap[..]);
      var pagesCount, lastPageIndex, lastPageType := 0, 0, mmap[0];
      ghost var done: seq<Run> := [];
      var i := 0;
      while i < mmap.Length
        invariant 0 <= i <= mmap.Length && Valid()
        invariant mmap[..] == kinds
        invariant i == 0 ==> pagesCount == 0 && lastPageIndex == 0 && lastPageType == kinds[0] && done == []
        invariant 0 < i < mmap.Length ==> Runs(kinds[..i]) == done + [Run(lastPageIndex, pagesCount, lastPageType)]
        invariant i == mmap.Length ==> done == all
        invariant 0 < i < mmap.Length ==> lastPageType == kinds[i - 1]
        invariant Descriptors() == Described(done)
        invariant !TooMany(done)
      {
        assert kinds[..i + 1][..i] == kinds[..i] && kinds[..i + 1][i] == mmap[i];
        if mmap[i] == lastPageType && i != mmap.Length - 1 {
          pagesCount := pagesCount + 1;
        } else {
          ghost var now := done + [Run(lastPageIndex, pagesCount, lastPageType)];
          FlushedSoFar(kinds, i, now);
          r := AddPhysicalMemoryBlock(lastPageIndex, pagesCount, lastPageType);
          OneMore(done, Run(lastPageIndex, pagesCount, lastPageType), all);
          if r.Panic? {
            return;
          }
          done := now;
          lastPageIndex, lastPageType, pagesCount := i, mmap[i], 1;
        }
        i := i + 1;
      }
      return Returned(());
    }
  }

  lemma OneMore(done: seq<Run>, r: Run, all: seq<Run>)
    requires done + [r] <= all && !TooMany(done)
    ensures |Described(done)| >= MAX_DESCRIPTORS ==> TooMany(all)
    ensures |Described(done)| < MAX_DESCRIPTORS ==> !TooMany(done + [r])
    ensures Described(done + [r])
            == Described(done) + if Recorded(r.kind) then [Descriptor(r.start, r.length, Code(r.kind))] else []
  {
    var now := done + [r];
    assert all[..|done|] == done;
    assert now[..|done|] == done;
    assert forall j :: 0 <= j < |done| ==> now[..j] == done[..j];
  }

  /** The runs that end before page `i` are those of the whole table, up to there. */
  lemma FlushedSoFar(kinds: seq<MemoryType>, i: nat, now: seq<Run>)
    requires i < |kinds|
    requires if i == 0 then now == [Run(0, 0, kinds[0])] else now == Runs(kinds[..i])
    requires i == 0 ==> |kinds| == 1
    requires i < |kinds| - 1 ==> i > 0 && kinds[i] != kinds[i - 1]
    ensures now <= Flushed(kinds)
    ensures i == |kinds| - 1 ==> now == Flushed(kinds)
  {
    if i < |kinds| - 1 {
      RunsExtend(kinds[..|kinds| - 1], i);
      assert kinds[..|kinds| - 1][..i] == kinds[..i];
    }
  }

  lemma LastRunKind(kinds: seq<MemoryType>)
    ensures kinds != [] ==> Runs(kinds) != [] && Runs(kinds)[|Runs(kinds)| - 1].kind == kinds[|kinds| - 1]
  {
  }

  lemma PrefixStays(t: seq<Run>, rs: seq<Run>, n: nat, kind: MemoryType)
    requires t < rs || (t == rs && (rs == [] || rs[|rs| - 1].kind != kind))
    ensures t < AddPage(rs, n, kind)
  {
  }

  /** Once the type has changed, the runs before the change stay. */
  lemma {:induction false} RunsExtend(kinds: seq<MemoryType>, i: nat)
    requires 0 < i < |kinds| && kinds[i] != kinds[i - 1]
    ensures Runs(kinds[..i]) < Runs(kinds)
  {
    hide AddPage;
    var n := |kinds| - 1;
    var front := kinds[..n];
    assert front[..i] == kinds[..i];
    if i < n {
      RunsExtend(front, i);
    } else {
      LastRunKind(front);
    }
    PrefixStays(Runs(kinds[..i]), Runs(front), n, kinds[n]);
  }

  // ---------------------------------------------------------------------------
  // Decoding
  // ---------------------------------------------------------------------------

  /** Some descriptor of a type the kernel lists covers page `i`. */
  ghost predicate Marked(ds: seq<Descriptor>, i: nat) {
    exists k :: 0 <= k < |ds| && Marks(ds[k].code) && ds[k].Covers(i)
  }

  /** No page is in two descriptors, and they ascend. */
  ghost predicate Ordered(ds: seq<Descriptor>) {
    forall j, k :: 0 <= j < k < |ds| ==> ds[j].start + ds[j].length <= ds[k].start
  }

  /** Addresses have 32 bits, so page numbers a multiple of 2^20 apart share a frame. */
  function FrameOf(page: nat): nat {
    page * PAGE_SIZE % WORD_LIMIT / PAGE_SIZE
  }

  lemma FrameOfIsRemainder(page: nat)
    ensures FrameOf(page) == page % 0x10_0000
  {
    var q, r := page / 0x10_0000, page % 0x10_0000;
    Wrapped(page * PAGE_SIZE, q, r * PAGE_SIZE);
    assert r * 0x1000 / 0x1000 == r;
  }

  /** Frame `i` is that of one of the pages. */
  ghost predicate Hit(pages: set<nat>, i: nat) {
    exists p :: p in pages && FrameOf(p) == i
  }

  /** Marking the pages stops a kernel with `n` frames: one is the frame past the last, or two share a frame. */
  ghost predicate Trouble(pages: set<nat>, n: nat) {
    Hit(pages, n) || exists p, q :: p in pages && q in pages && p != q && FrameOf(p) == FrameOf(q) < n
  }

  lemma OneMorePage(pages: set<nat>, p: nat, n: nat)
    requires p !in pages
    ensures Trouble(pages + {p}, n) <==>
              Trouble(pages, n) || FrameOf(p) == n || (FrameOf(p) < n && Hit(pages, FrameOf(p)))
    ensures forall i :: Hit(pages + {p}, i) <==> Hit(pages, i) || FrameOf(p) == i
  {
    hide FrameOf;
    assert p in pages + {p};
    forall i ensures Hit(pages + {p}, i) <==> Hit(pages, i) || FrameOf(p) == i {
      if q :| q in pages && FrameOf(q) == i { assert q in pages + {p}; }
    }
    if q, r :| q in pages && r in pages && q != r && FrameOf(q) == FrameOf(r) < n {
      assert q in pages + {p} && r in pages + {p};
    }
    if FrameOf(p) < n && Hit(pages, FrameOf(p)) {
      var q :| q in pages && FrameOf(q) == FrameOf(p);
      assert q in pages + {p};
    }
  }

  lemma TroubleStays(some: set<nat>, more: set<nat>, n: nat)
    requires some <= more && Trouble(some, n)
    ensures Trouble(more, n)
  {
    hide FrameOf;
  }

  ghost function PagesFrom(start: nat, end: nat): set<nat> {
    set p: nat | p < end && From(start, p)
  }

  predicate From(start: nat, p: nat) { start <= p }

  ghost function PagesOf(d: Descriptor): set<nat> { PagesFrom(d.start, d.start + d.length) }

  /** The pages of the listed descriptors. */
  ghost function Pages(ds: seq<Descriptor>): set<nat> {
    if ds == [] then {}
    else Pages(ds[..|ds| - 1]) + if Marks(ds[|ds| - 1].code) then PagesOf(ds[|ds| - 1]) else {}
  }

  lemma {:induction false} PagesAreMarked(ds: seq<Descriptor>, p: nat)
    ensures p in Pages(ds) <==> Marked(ds, p)
  {
    hide Marks;
    if ds != [] {
      var k := |ds| - 1;
      PagesAreMarked(ds[..k], p);
      MarkedStep(ds, k, p);
      assert ds[..k + 1] == ds;
    }
  }

  /** The kernel's bitmap shows the frames of just these pages. */
  ghost predicate Shows(allocator: PhysicalAllocator, pages: set<nat>)
    requires allocator.Valid()
    reads allocator.frames.field
  {
    forall i :: 0 <= i < allocator.nFrames ==> (allocator.Used(i) <==> Hit(pages, i))
  }

  /** The frames of one descriptor's pages, none of which has been marked yet. */
  method MarkOne(allocator: PhysicalAllocator, d: Descriptor, ghost pages: set<nat>) returns (r: Outcome<()>)
    requires allocator.Valid() && Shows(allocator, pages) && !Trouble(pages, allocator.nFrames)
    requires PagesOf(d) !! pages && d.start + d.length < WORD_LIMIT
    modifies allocator.frames.field
    ensures r.Panic? <==> Trouble(pages + PagesOf(d), allocator.nFrames)
    ensures r.Returned? ==> Shows(allocator, pages + PagesOf(d))
  {
    hide PhysicalAllocator.Used, Trouble, Hit;
    var a := d.start;
    ghost var done := pages;
    while a < d.start + d.length
      invariant d.start <= a <= d.start + d.length
      invariant done == pages + PagesFrom(d.start, a)
      invariant Shows(allocator, done) && !Trouble(done, allocator.nFrames)
    {
      assert a in PagesOf(d) && a !in done;
      OneMorePage(done, a, allocator.nFrames);
      done := done + {a};
      r := allocator.MarkAsUsed(a * PAGE_SIZE % WORD_LIMIT);
      if r.Panic? {
        TroubleStays(done, pages + PagesOf(d), allocator.nFrames);
        return;
      }
      a := a + 1;
    }
    assert done == pages + PagesOf(d);
    r := Returned(());
  }

  /** The loop of x86HAL::Initialize: what stops it, and what it leaves. */
  method MarkDescriptors(allocator: PhysicalAllocator, ds: seq<Descriptor>) returns (r: Outcome<()>)
    requires allocator.Valid() && Ordered(ds)
    requires forall k :: 0 <= k < |ds| ==> ds[k].start + ds[k].length < WORD_LIMIT
    requires forall i :: 0 <= i < allocator.nFrames ==> !allocator.Used(i)
    modifies allocator.frames.field
    ensures r.Panic? <==> Trouble(Pages(ds), allocator.nFrames)
    ensures r.Returned? ==> Shows(allocator, Pages(ds))
  {
    hide PhysicalAllocator.Used, Marks, FrameOf;
    var k := 0;
    assert ds[..0] == [];
    while k < |ds|
      invariant 0 <= k <= |ds|
      invariant Shows(allocator, Pages(ds[..k])) && !Trouble(Pages(ds[..k]), allocator.nFrames)
    {
      PagesStep(ds, k);
      if Marks(ds[k].code) {
        r := MarkOne(allocator, ds[k], Pages(ds[..k]));
        if r.Panic? {
          TroubleStays(Pages(ds[..k + 1]), Pages(ds), allocator.nFrames);
          return;
        }
      }
      k := k + 1;
    }
    assert ds[..k] == ds;
    r := Returned(());
  }

  lemma PagesStep(ds: seq<Descriptor>, k: nat)
    requires k < |ds| && Ordered(ds)
    ensures Pages(ds[..k + 1]) == Pages(ds[..k]) + if Marks(ds[k].code) then PagesOf(ds[k]) else {}
    ensures PagesOf(ds[k]) !! Pages(ds[..k]) && Pages(ds[..k + 1]) <= Pages(ds)
  {
    hide Marks, Marked;
    assert ds[..k + 1][..k] == ds[..k];
    forall p: nat
      ensures p in PagesOf(ds[k]) ==> p !in Pages(ds[..k])
      ensures p in Pages(ds[..k + 1]) ==> p in Pages(ds)
    {
      PagesAreMarked(ds[..k], p);
      PagesAreMarked(ds[..k + 1], p);
      PagesAreMarked(ds, p);
      MarkedStep(ds, k, p);
      if Marked(ds[..k + 1], p) { MarkedPrefix(ds, k + 1, p); }
    }
  }

  lemma MarkedPrefix(ds: seq<Descriptor>, k: nat, p: nat)
    requires k <= |ds| && Marked(ds[..k], p)
    ensures Marked(ds, p)
  {
    hide Marks;
    var j :| 0 <= j < k && Marks(ds[..k][j].code) && ds[..k][j].Covers(p);
    assert ds[j].Covers(p);
  }

  lemma MarkedStep(ds: seq<Descriptor>, k: nat, i: nat)
    requires k < |ds|
    ensures Marked(ds[..k + 1], i) <==> Marked(ds[..k], i) || (Marks(ds[k].code) && ds[k].Covers(i))
    ensures Ordered(ds) && ds[k].Covers(i) ==> !Marked(ds[..k], i)
  {
    hide Marks;
    var s, t := ds[..k], ds[..k + 1];
    assert forall j :: 0 <= j < k ==> s[j] == ds[j] == t[j];
    assert t[k] == ds[k];
    if Marked(s, i) {
      var j :| 0 <= j < |s| && Marks(s[j].code) && s[j].Covers(i);
      assert t[j].Covers(i);
    }
  }

  // ---------------------------------------------------------------------------
  // The whole way
  // ---------------------------------------------------------------------------

  /**
     What becomes of a page of the given type: recorded by the loader, and marked by
     the kernel for the number recorded.
   */
  predicate EndsUpMarked(kind: MemoryType) {
    Recorded(kind) && Marks(Code(kind))
  }

  /** The descriptors of tiling runs mark exactly the pages whose type is recorded and listed. */
  lemma {:induction false} DescribedFrames(rs: seq<Run>, kinds: seq<MemoryType>, i: nat)
    requires Tiling(rs, |kinds|) && Uniform(rs, kinds)
    ensures Marked(Described(rs), i) <==> i < |kinds| && EndsUpMarked(kinds[i])
  {
    hide Marks, Recorded;
    forall j { DescribedRun(rs, j, i); }
    if Marked(Described(rs), i) {
      MarkedByRun(rs, i);
      var j :| 0 <= j < |rs| && EndsUpMarked(rs[j].kind) && rs[j].start <= i < rs[j].End();
      if j < |rs| - 1 { RunsOrdered(rs, |kinds|, j, |rs| - 1); }
    }
    if i < |kinds| && EndsUpMarked(kinds[i]) {
      var j := RunOf(rs, |kinds|, i, |rs| - 1);
      DescribedRun(rs, j, i);
    }
  }

  lemma {:induction false} DescribedRun(rs: seq<Run>, j: int, i: nat)
    ensures 0 <= j < |rs| && EndsUpMarked(rs[j].kind) && rs[j].start <= i < rs[j].End() ==> Marked(Described(rs), i)
  {
    hide Marks, Recorded;
    if 0 <= j < |rs| {
      var n := |rs| - 1;
      var front := Described(rs[..n]);
      if j < n {
        DescribedRun(rs[..n], j, i);
        if Marked(front, i) {
          var k :| 0 <= k < |front| && Marks(front[k].code) && front[k].Covers(i);
          assert Described(rs)[k] == front[k];
        }
      } else if Recorded(rs[j].kind) {
        assert Described(rs)[|front|] == Descriptor(rs[j].start, rs[j].length, Code(rs[j].kind));
      }
    }
  }

  lemma {:induction false} MarkedByRun(rs: seq<Run>, i: nat)
    requires Marked(Described(rs), i)
    ensures exists j :: 0 <= j < |rs| && EndsUpMarked(rs[j].kind) && rs[j].start <= i < rs[j].End()
  {
    hide Marks, Recorded;
    var n := |rs| - 1;
    var front := Described(rs[..n]);
    var k :| 0 <= k < |Described(rs)| && Marks(Described(rs)[k].code) && Described(rs)[k].Covers(i);
    if k < |front| {
      assert front[k].Covers(i);
      MarkedByRun(rs[..n], i);
      var j :| 0 <= j < n && EndsUpMarked(rs[..n][j].kind) && rs[..n][j].start <= i < rs[..n][j].End();
      assert rs[j] == rs[..n][j];
    } else {
      assert EndsUpMarked(rs[n].kind);
    }
  }

  lemma {:induction false} DescribedOrdered(rs: seq<Run>, n: nat)
    requires Tiling(rs, n)
    ensures Ordered(Described(rs))
    ensures forall k :: 0 <= k < |Described(rs)| ==> Described(rs)[k].start + Described(rs)[k].length <= n
  {
    hide Recorded, Code;
    if rs != [] {
      var m := |rs| - 1;
      assert m > 0 ==> rs[m].start == rs[m - 1].End();
      DescribedOrdered(rs[..m], rs[m].start);
    }
  }

  /** The pages that are to be marked: all but the last whose type survives both selections. */
  ghost function Survivors(kinds: seq<MemoryType>): set<nat>
    requires kinds != []
  {
    set p: nat | p < |kinds| - 1 && EndsUpMarked(kinds[p])
  }

  /**
     The loader's page table, written to descriptors and read back by the kernel:
     frame `i` ends up marked exactly if it is that of a page which is not the last
     one and whose type is recorded, and listed under the number recorded. The
     number of entries is a 32-bit number; that of a page's frame is what 32-bit
     addresses leave of the page number.
   */
  method HandOver(mmap: array<MemoryType>, memorySize: nat) returns (r: Outcome<PhysicalAllocator>)
    requires 0 < mmap.Length < WORD_LIMIT
    ensures r.Panic? <==> TooMany(Flushed(mmap[..])) || Trouble(Survivors(mmap[..]), FrameCount(memorySize))
    ensures r.Returned? ==> r.value.Valid() && r.value.nFrames == FrameCount(memorySize)
    ensures r.Returned? ==> Shows(r.value, Survivors(mmap[..]))
    ensures r.Returned? ==> forall i :: 0 <= i < r.value.nFrames ==>
              (r.value.Used(i) <==>
                exists p :: 0 <= p < mmap.Length - 1 && p % 0x10_0000 == i
                            && (mmap[p].Bad? || mmap[p].Unusable? || mmap[p].PageDirectory? || mmap[p].KernelStack?
                                || mmap[p].KernelEnvironmentInformation? || mmap[p].KernelExecutable?))
  {
    hide Recorded, Marks, Code, PhysicalAllocator.Used, TooMany, FrameCount, Trouble, Hit, EndsUpMarked, Shows;
    hide Survivors, Flushed, Described, Pages;
    ghost var kinds, rs := mmap[..], Flushed(mmap[..]);
    var block := new LoaderBlock();
    var built := block.BuildPhysicalMemoryMap(mmap);
    if built.Panic? {
      return Panic;
    }
    var allocator := new PhysicalAllocator(memorySize);
    FlushedFacts(kinds);
    var marked := MarkDescriptors(allocator, block.Descriptors());
    if marked.Panic? {
      return Panic;
    }
    ShownByName(allocator, mmap);
    return Returned(allocator);
  }

  lemma ShownByName(allocator: PhysicalAllocator, mmap: array<MemoryType>)
    requires mmap.Length > 0 && allocator.Valid() && Shows(allocator, Survivors(mmap[..]))
    ensures forall i :: 0 <= i < allocator.nFrames ==>
              (allocator.Used(i) <==>
                exists p :: 0 <= p < mmap.Length - 1 && p % 0x10_0000 == i
                            && (mmap[p].Bad? || mmap[p].Unusable? || mmap[p].PageDirectory? || mmap[p].KernelStack?
                                || mmap[p].KernelEnvironmentInformation? || mmap[p].KernelExecutable?))
  {
    hide PhysicalAllocator.Used, Hit, Survivors;
    ByName(mmap[..]);
  }

  /** The frames hit, with the types by name. */
  lemma ByName(kinds: seq<MemoryType>)
    requires kinds != []
    ensures forall i :: Hit(Survivors(kinds), i) <==>
              exists p :: 0 <= p < |kinds| - 1 && p % 0x10_0000 == i
                          && (kinds[p].Bad? || kinds[p].Unusable? || kinds[p].PageDirectory? || kinds[p].KernelStack?
                              || kinds[p].KernelEnvironmentInformation? || kinds[p].KernelExecutable?)
  {
    hide FrameOf, Recorded, Marks, Code;
    forall p | 0 <= p < |kinds| - 1
      ensures p in Survivors(kinds) <==>
                kinds[p].Bad? || kinds[p].Unusable? || kinds[p].PageDirectory? || kinds[p].KernelStack?
                || kinds[p].KernelEnvironmentInformation? || kinds[p].KernelExecutable?
    {
      MarkedTypes(kinds[p]);
    }
    forall p: nat ensures FrameOf(p) == p % 0x10_0000 { FrameOfIsRemainder(p); }
    forall i
      ensures Hit(Survivors(kinds), i) <==>
                exists p :: 0 <= p < |kinds| - 1 && p % 0x10_0000 == i
                            && (kinds[p].Bad? || kinds[p].Unusable? || kinds[p].PageDirectory? || kinds[p].KernelStack?
                                || kinds[p].KernelEnvironmentInformation? || kinds[p].KernelExecutable?)
    {
      if Hit(Survivors(kinds), i) {
        var p :| p in Survivors(kinds) && FrameOf(p) == i;
        assert p % 0x10_0000 == i;
      }
      if p :| 0 <= p < |kinds| - 1 && p % 0x10_0000 == i
              && (kinds[p].Bad? || kinds[p].Unusable? || kinds[p].PageDirectory? || kinds[p].KernelStack?
                  || kinds[p].KernelEnvironmentInformation? || kinds[p].KernelExecutable?) {
        assert p in Survivors(kinds) && FrameOf(p) == i;
      }
    }
  }

  /** Up to 4 GiB a page's frame has its number, and only the frame past the allocator's last stops the kernel. */
  lemma WithinFourGigabytes(kinds: seq<MemoryType>, n: nat)
    requires 0 < |kinds| <= 0x10_0001
    ensures forall i :: Hit(Survivors(kinds), i) <==> i in Survivors(kinds)
    ensures Trouble(Survivors(kinds), n) <==> n in Survivors(kinds)
  {
    hide FrameOf, EndsUpMarked;
    forall p | p in Survivors(kinds) ensures FrameOf(p) == p { FrameOfIsRemainder(p); }
  }

  /**
     Beyond 4 GiB, where marking is not stopped, the kernel's bitmap is right exactly
     if no page of number 2^20 or more that is to be marked has one of its frames.
   */
  lemma RightExactly(kinds: seq<MemoryType>, n: nat)
    requires kinds != [] && n <= 0x10_0000 && !Trouble(Survivors(kinds), n)
    ensures (forall i :: 0 <= i < n ==> (Hit(Survivors(kinds), i) <==> i in Survivors(kinds)))
            <==> forall p :: p in Survivors(kinds) && p >= 0x10_0000 ==> FrameOf(p) >= n
  {
    hide FrameOf, EndsUpMarked;
    var s := Survivors(kinds);
    forall p | p in s ensures p < 0x10_0000 ==> FrameOf(p) == p { FrameOfIsRemainder(p); }
    if p :| p in s && p >= 0x10_0000 && FrameOf(p) < n {
      var i := FrameOf(p);
      assert Hit(s, i);
      FrameOfIsRemainder(i);
      assert i in s ==> FrameOf(i) == FrameOf(p) && i != p;
    }
  }

  lemma FlushedFacts(kinds: seq<MemoryType>)
    requires kinds != []
    ensures var ds := Described(Flushed(kinds));
            && Ordered(ds) && Pages(ds) == Survivors(kinds)
            && forall k :: 0 <= k < |ds| ==> ds[k].start + ds[k].length < |kinds|
  {
    hide Recorded, Marks, Code, Pages, Described, EndsUpMarked, Marked, Ordered, Tiling, Uniform;
    var rs, most := Flushed(kinds), kinds[..|kinds| - 1];
    if |kinds| == 1 {
      EmptyRun(kinds[0]);
    } else {
      RunsTile(most);
      DescribedOrdered(rs, |most|);
      forall i: nat
        ensures Marked(Described(rs), i) <==> i < |kinds| - 1 && EndsUpMarked(kinds[i])
      {
        DescribedFrames(rs, most, i);
      }
    }
    forall p: nat { PagesAreMarked(Described(rs), p); }
  }

  lemma EmptyRun(kind: MemoryType)
    ensures var ds := Described([Run(0, 0, kind)]);
            && Ordered(ds) && (forall i :: !Marked(ds, i))
            && forall k :: 0 <= k < |ds| ==> ds[k].start + ds[k].length == 0
  {
    hide Recorded, Marks, Code;
    var rs := [Run(0, 0, kind)];
    assert rs[..0] == [];
  }
}
