/** The loader's page lookup table, and the allocation of pages from it. */
module PageTable {
  import opened MemoryTypes
  import opened Outcome

  const PAGE_SIZE: nat := 0x1000
  const WORD64: nat := 0x1_0000_0000_0000_0000
  const ADDRESS_LIMIT: nat := 0xFFFF_FFFF

  datatype Item = Item(kind: MemoryType, length: nat)

  function ItemOf(kind: MemoryType): Item {
    Item(kind, if kind.Free? then 0 else 1)
  }

  /** `items` with entries `from` to `from + count - 1` of the given type. */
  function Marking(items: seq<Item>, from: nat, count: nat, kind: MemoryType): seq<Item>
    requires from + count <= |items|
  {
    items[..from] + seq(count, _ => ItemOf(kind)) + items[from + count..]
  }

  /** `count` free entries begin at `k`. */
  ghost predicate FreeRun(items: seq<Item>, k: int, count: nat) {
    0 <= k && k + count <= |items| && forall i :: k <= i < k + count ==> items[i].kind.Free?
  }

  /** The earliest run of `count` free entries begins at `k`. */
  ghost predicate FirstFit(items: seq<Item>, count: nat, k: nat) {
    FreeRun(items, k, count) && forall j :: 0 <= j < k ==> !FreeRun(items, j, count)
  }

  /** The test at the head of memory_mark_pages, in 64-bit arithmetic. */
  predicate MarkAccepted(lowest: nat, highest: nat, start: nat, count: nat) {
    !(start < lowest || (start + count + (WORD64 - 1)) % WORD64 > highest)
  }

  /**
     The test lets through, besides the ranges inside the table, those that end with
     the page one past it, and those whose end wraps around to a number it allows.
   */
  lemma MarkAcceptsOneTooMany(lowest: nat, highest: nat, start: nat, count: nat)
    requires lowest <= highest < WORD64 - 1 && start < WORD64 && count < WORD64
    ensures MarkAccepted(lowest, highest, start, count) <==>
              && lowest <= start && 0 < start + count
              && (start + count <= highest || start + count == highest + 1
                  || WORD64 < start + count <= WORD64 + highest + 1)
  {
    if start + count > WORD64 {
      assert (start + count + (WORD64 - 1)) % WORD64 == start + count - 1 - WORD64;
    } else if start + count > 0 {
      assert (start + count + (WORD64 - 1)) % WORD64 == start + count - 1;
    }
  }

  /** Where memory_allocate finds its pages; asked for none, the first page or, if that is in use, the second. */
  ghost predicate Found(items: seq<Item>, count: nat, k: nat) {
    if count == 0 then |items| > 0 && k == if items[0].kind.Free? then 0 else 1
    else FirstFit(items, count, k)
  }

  /** `PAGE_START(s) / arch_pagesize`: whole pages, rounded down. */
  function PagesNeeded(s: nat): (n: nat)
    ensures n <= s
  {
    s / PAGE_SIZE
  }

  function AddressOf(page: nat): nat { page * PAGE_SIZE }

  /** The place is granted unless it ends beyond what 32 bits can address, or is the empty range at page 0. */
  ghost predicate Grants(items: seq<Item>, lowest: nat, count: nat, k: nat) {
    Found(items, count, k) && 0 < lowest + k + count && AddressOf(lowest + k + count) <= ADDRESS_LIMIT
  }

  /** What taking `count` pages from page `first` on does to the table: free ones get the type, the others stay. */
  ghost predicate Takes(items: seq<Item>, first: nat, count: nat, kind: MemoryType, after: seq<Item>) {
    && |after| == |items| && first + count <= |items|
    && (forall i :: 0 <= i < |items| && first <= i < first + count ==> items[i].kind.Free? && after[i].kind == kind)
    && (forall i :: 0 <= i < |items| && !(first <= i < first + count) ==> after[i] == items[i])
  }

  /** Some page of those asked for is not free. */
  ghost predicate Blocked(items: seq<Item>, first: nat, count: nat) {
    exists i :: first <= i < first + count && i < |items| && !items[i].kind.Free?
  }

  /** The pages found are free, and there are no lower ones; marking them is all that happens. */
  lemma WhatIsTaken(table: seq<Item>, items: seq<Item>, lowest: nat, s: nat, k: nat, kind: MemoryType)
    requires table <= items && Found(table, PagesNeeded(s), k) && k + PagesNeeded(s) <= |items|
    ensures AddressOf(lowest + k) == (lowest + k) * 0x1000
    ensures Takes(items, k, s / 0x1000, kind, Marking(items, k, PagesNeeded(s), kind))
    ensures s >= 0x1000 ==> forall j :: 0 <= j < k ==> Blocked(items, j, s / 0x1000)
    ensures s < 0x1000 ==> items != [] && k == if items[0].kind.Free? then 0 else 1
  {
    if s >= 0x1000 {
      forall j | 0 <= j < k
        ensures Blocked(items, j, s / 0x1000)
      {
        assert !FreeRun(table, j, s / 0x1000);
      }
    }
  }

  /** A run is granted exactly if it ends at a 32-bit address, and not at address 0. */
  lemma GrantsMeans(items: seq<Item>, lowest: nat, count: nat, k: nat)
    ensures Grants(items, lowest, count, k) <==>
              Found(items, count, k) && 0 < (lowest + k + count) * 0x1000 < 0x1_0000_0000
  {
  }

  lemma NoneFound(items: seq<Item>, count: nat)
    requires if count == 0 then items == [] else forall k: nat :: !FreeRun(items, k, count)
    ensures forall k: nat :: !Found(items, count, k)
  {
  }

  lemma FoundOnce(items: seq<Item>, count: nat, k: nat, k': nat)
    requires Found(items, count, k) && Found(items, count, k')
    ensures k == k'
  {
    var a, b := k, k';
    if k < k' { b := k; } else { a := k'; }
  }

  class LoaderMemory {
    const lowestPhysicalPage: nat
    const highestPhysicalPage: nat
    /** The table, followed by one more item: the memory behind it. */
    const memory: array<Item>

    ghost predicate Valid() {
      && lowestPhysicalPage <= highestPhysicalPage < WORD64 - 1
      && memory.Length == Size() + 1
    }

    /** memory_count_usable_pages leaves out the last page. */
    function Size(): nat
      requires lowestPhysicalPage <= highestPhysicalPage
    {
      highestPhysicalPage - lowestPhysicalPage
    }

    /** The entries of the table. */
    function Table(): seq<Item>
      requires Valid()
      reads memory
    {
      memory[..Size()]
    }

    /** Marks the pages, the one behind the table included if the range reaches that far. */
    method MarkPages(start: nat, count: nat, kind: MemoryType) returns (r: Outcome<()>)
      requires Valid() && start + count < WORD64
      modifies memory
      ensures r.Panic? <==> start < lowestPhysicalPage || start + count == 0 || start + count > highestPhysicalPage + 1
      ensures r.Panic? ==> memory[..] == old(memory[..])
      ensures r.Returned? ==> memory[..] == Marking(old(memory[..]), start - lowestPhysicalPage, count, kind)
      ensures r.Returned? ==> forall j :: 0 <= j < memory.Length ==>
                if start <= lowestPhysicalPage + j < start + count
                then memory[j].kind == kind && memory[j].length == if kind.Free? then 0 else 1
                else memory[j] == old(memory[j])
    {
      MarkAcceptsOneTooMany(lowestPhysicalPage, highestPhysicalPage, start, count);
      if !MarkAccepted(lowestPhysicalPage, highestPhysicalPage, start, count) {
        return Panic;
      }
      var first := start - lowestPhysicalPage;
      var i := 0;
      while i < count
        invariant 0 <= i <= count
        invariant forall j :: 0 <= j < memory.Length ==>
                    memory[j] == if first <= j < first + i then ItemOf(kind) else old(memory[j])
      {
        memory[first + i] := ItemOf(kind);
        i := i + 1;
      }
      return Returned(());
    }

    method FindAvailablePages(count: nat) returns (r: Outcome<nat>)
      requires Valid()
      ensures r.Panic? <==> if count == 0 then Table() == [] else forall k: nat :: !FreeRun(Table(), k, count)
      ensures r.Returned? ==> r.value >= lowestPhysicalPage && Found(Table(), count, r.value - lowestPhysicalPage)
      ensures r.Returned? ==> forall j :: r.value <= lowestPhysicalPage + j < r.value + count ==>
                0 <= j < memory.Length - 1 && memory[j].kind.Free?
    {
      var currentFree, i := 0, 0;
      ghost var t := Table();
      while i < highestPhysicalPage - lowestPhysicalPage
        invariant 0 <= currentFree <= i <= |t|
        invariant forall j :: i - currentFree <= j < i ==> t[j].kind.Free?
        invariant currentFree < i ==> !t[i - currentFree - 1].kind.Free?
        invariant if count == 0 then i == 0 else currentFree < count
        invariant forall k {:trigger FreeRun(t, k, count)} :: count > 0 && k + count <= i ==> !FreeRun(t, k, count)
      {
        if memory[i].kind.Free? {
          currentFree := currentFree + 1;
        } else {
          currentFree := 0;
        }
        ghost var k := i - currentFree + 1;
        assert 0 < k <= i ==> !t[k - 1].kind.Free?;
        if currentFree >= count {
          assert FreeRun(t, k, count) || count == 0;
          return Returned(lowestPhysicalPage + (i - currentFree + 1));
        }
        i := i + 1;
      }
      return Panic;
    }

    /**
     memory_allocate: the pages of the first run of `s / PAGE_SIZE` free ones are
     marked, nothing else is, and their address is returned. It stops the machine
     exactly if there is no such run, or it is not granted.
     */
    method Allocate(s: nat, kind: MemoryType) returns (r: Outcome<nat>)
      requires Valid() && highestPhysicalPage + s < WORD64
      modifies memory
      ensures r.Returned? <==> s > 0 && exists k: nat :: Grants(old(Table()), lowestPhysicalPage, PagesNeeded(s), k)
      ensures r.Returned? ==> exists k: nat ::
                && Grants(old(Table()), lowestPhysicalPage, PagesNeeded(s), k) && k + PagesNeeded(s) <= memory.Length
                && r.value == AddressOf(lowestPhysicalPage + k)
                && memory[..] == Marking(old(memory[..]), k, PagesNeeded(s), kind)
      ensures r.Returned? ==> exists first: nat ::
                r.value == (lowestPhysicalPage + first) * 0x1000
                && Takes(old(memory[..]), first, s / 0x1000, kind, memory[..])
                && (s >= 0x1000 ==> forall j :: 0 <= j < first ==> Blocked(old(memory[..]), j, s / 0x1000))
                && (s < 0x1000 ==> first == if old(memory[..])[0].kind.Free? then 0 else 1)
    {
      hide PagesNeeded, AddressOf, Takes, Blocked, Marking;
      if s == 0 {
        return Panic;
      }
      ghost var t := Table();
      var pagesNeeded := PagesNeeded(s);
      var found := FindAvailablePages(pagesNeeded);
      if found.Panic? {
        assert t == Table();
        NoneFound(t, pagesNeeded);
        return Panic;
      }
      ghost var k := found.value - lowestPhysicalPage;
      forall k': nat | Found(t, pagesNeeded, k')
        ensures k' == k
      {
        FoundOnce(t, pagesNeeded, k, k');
      }
      var marked := MarkPages(found.value, pagesNeeded, kind);
      if marked.Panic? || AddressOf(found.value + pagesNeeded) > ADDRESS_LIMIT {
        return Panic;
      }
      assert Grants(t, lowestPhysicalPage, pagesNeeded, k);
      WhatIsTaken(t, old(memory[..]), lowestPhysicalPage, s, k, kind);
      return Returned(AddressOf(found.value));
    }
  }

  /** The bytes asked for all lie in pages that were marked exactly if whole pages were asked for. */
  lemma RoundedDown(s: nat, first: nat)
    requires s > 0
    ensures (forall b: nat :: AddressOf(first) <= b < AddressOf(first) + s ==>
              first <= b / PAGE_SIZE < first + PagesNeeded(s))
            <==> s % PAGE_SIZE == 0
  {
    var last := first * PAGE_SIZE + s - 1;
    assert last / PAGE_SIZE == first + (s - 1) / PAGE_SIZE;
    if s % PAGE_SIZE == 0 {
      forall b: nat | first * PAGE_SIZE <= b < first * PAGE_SIZE + s
        ensures first <= b / PAGE_SIZE < first + s / PAGE_SIZE
      {
      }
    }
  }

  /** An allocation never takes a page that is in use: whatever was not free before stays as it was. */
  lemma NoOverlap(items: seq<Item>, lowest: nat, count: nat, k: nat, kind: MemoryType, i: nat)
    requires Grants(items, lowest, count, k) && i < |items| && !items[i].kind.Free?
    ensures count > 0 ==> k + count <= |items| && Marking(items, k, count, kind)[i] == items[i]
  {
  }

  // ---------------------------------------------------------------------------
  // Runs of calls
  // ---------------------------------------------------------------------------

  /** A call: pages that are allocated, or marked outright, with the type they get. */
  datatype Call = Allocated(first: nat, count: nat, kind: MemoryType) | Marked(first: nat, count: nat, kind: MemoryType)
  {
    predicate Has(i: nat) { first <= i < first + count }
  }

  ghost predicate Step(items: seq<Item>, c: Call, after: seq<Item>) {
    match c
    case Allocated(first, count, kind) => Takes(items, first, count, kind, after)
    case Marked(first, count, kind) =>
      && |after| == |items|
      && (forall i :: 0 <= i < |items| ==> if c.Has(i) then after[i].kind == kind else after[i] == items[i])
  }

  /** The tables between the calls. */
  ghost predicate Run(tables: seq<seq<Item>>, calls: seq<Call>) {
    |tables| == |calls| + 1 && forall n :: 0 <= n < |calls| ==> Step(tables[n], calls[n], tables[n + 1])
  }

  /** Nothing marks page `i` between calls `m` and `n`. */
  ghost predicate Unmarked(calls: seq<Call>, m: nat, n: nat, i: nat) {
    forall j :: m < j < n && j < |calls| && calls[j].Marked? ==> !calls[j].Has(i)
  }

  /** A page that was given away stays what it is until it is marked. */
  lemma {:induction false} StaysTaken(tables: seq<seq<Item>>, calls: seq<Call>, m: nat, n: nat, i: nat)
    requires Run(tables, calls) && m < n <= |calls|
    requires calls[m].Allocated? && calls[m].Has(i) && !calls[m].kind.Free? && Unmarked(calls, m, n, i)
    ensures i < |tables[n]| && tables[n][i].kind == calls[m].kind
    decreases n
  {
    if m + 1 < n {
      StaysTaken(tables, calls, m, n - 1, i);
      assert Step(tables[n - 1], calls[n - 1], tables[n]);
    } else {
      assert Step(tables[m], calls[m], tables[n]);
    }
  }

  /** Over every run, no page is given away again before it has been marked. */
  lemma {:induction false} NeverGivenTwice(tables: seq<seq<Item>>, calls: seq<Call>, m: nat, n: nat, i: nat)
    requires Run(tables, calls) && m < n < |calls| && calls[m].Allocated? && calls[n].Allocated?
    requires !calls[m].kind.Free? && Unmarked(calls, m, n, i)
    ensures !(calls[m].Has(i) && calls[n].Has(i))
  {
    if calls[m].Has(i) {
      StaysTaken(tables, calls, m, n, i);
      assert Step(tables[n], calls[n], tables[n + 1]);
    }
  }
}
