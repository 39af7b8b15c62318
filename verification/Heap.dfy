/**
 The heap of the second-stage loader: an address-ordered free list with
 best-fit search, splitting, and coalescing on both sides.

 `HeapLayout` describes the arena as the sequence of its blocks, free and live,
 in address order; the two operations are functions on that sequence, and the
 whole-run results are about them. `StageTwoHeap` has the loader's own state
 (the words of the arena and the `Freelist` pointer), and its methods are shown
 to do exactly what those functions say.
 */
module HeapLayout {

  type WordSize = n: nat | n > 0 witness 4

  /** `sizeof(size_t)`, which is also the size of a pointer. Nothing depends on its value. */
  const W: WordSize

  /** `sizeof(struct __freelist)`: a size word and a link word. */
  const NODE_SIZE: nat := 2 * W

  /** `sizeof(Heap)`: a size, a pointer and two 32-bit counters. */
  const HEAP_SIZE: nat := 2 * W + 8

  /** A chunk of the arena: the size word is at `addr`, `size` bytes follow it. */
  datatype Block = Block(addr: int, size: int, free: bool) {
    function End(): int { addr + W + size }
    function Payload(): int { addr + W }
  }

  /** The blocks follow each other without gap or overlap from `lo` to `hi`, and each can hold a link. */
  ghost predicate Tiles(bs: seq<Block>, lo: int, hi: int) {
    && |bs| > 0
    && bs[0].addr == lo
    && bs[|bs| - 1].End() == hi
    && (forall i :: 0 <= i < |bs| ==> bs[i].size >= W)
    && (forall i, j :: 0 <= i && j == i + 1 && j < |bs| ==> bs[j].addr == bs[i].End())
  }

  /** Coalescing is complete: no free block touches another one. */
  ghost predicate Coalesced(bs: seq<Block>) {
    forall i, j :: 0 <= i && j == i + 1 && j < |bs| ==> !(bs[i].free && bs[j].free)
  }

  ghost predicate WellFormed(bs: seq<Block>, lo: int, hi: int) {
    Tiles(bs, lo, hi) && Coalesced(bs)
  }

  ghost predicate HasFree(bs: seq<Block>) {
    exists i :: 0 <= i < |bs| && bs[i].free
  }

  /** A block handed out to a caller. */
  ghost predicate Live(bs: seq<Block>, b: Block) {
    b in bs && !b.free
  }

  // ---------------------------------------------------------------------------
  // Order and disjointness
  // ---------------------------------------------------------------------------

  lemma {:induction false} Ordered(bs: seq<Block>, lo: int, hi: int, i: nat, j: nat)
    requires Tiles(bs, lo, hi)
    requires i < j < |bs|
    ensures bs[i].End() <= bs[j].addr
    decreases j - i
  {
    if i + 1 < j {
      Ordered(bs, lo, hi, i, j - 1);
    }
  }

  /** Every block lies inside the arena. */
  lemma InArena(bs: seq<Block>, lo: int, hi: int, i: nat)
    requires Tiles(bs, lo, hi)
    requires i < |bs|
    ensures lo <= bs[i].addr && bs[i].End() <= hi
  {
    if 0 < i { Ordered(bs, lo, hi, 0, i); }
    if i < |bs| - 1 { Ordered(bs, lo, hi, i, |bs| - 1); }
  }

  /** The byte ranges of different blocks, size words included, do not meet. */
  lemma BlocksDisjoint(bs: seq<Block>, lo: int, hi: int, i: nat, j: nat, byte: int)
    requires Tiles(bs, lo, hi)
    requires i < |bs| && j < |bs|
    requires bs[i].addr <= byte < bs[i].End()
    requires bs[j].addr <= byte < bs[j].End()
    ensures i == j
  {
    if i < j { Ordered(bs, lo, hi, i, j); }
    if j < i { Ordered(bs, lo, hi, j, i); }
  }

  /** Conservation: payload bytes plus one size word for each block make up the whole arena. */
  function TotalSize(bs: seq<Block>): int {
    if bs == [] then 0 else TotalSize(bs[..|bs| - 1]) + W + bs[|bs| - 1].size
  }

  lemma {:induction false} SizesMakeUpArena(bs: seq<Block>, lo: int, hi: int)
    requires Tiles(bs, lo, hi)
    ensures TotalSize(bs) == hi - lo
  {
    if |bs| == 1 {
      assert bs[..0] == [];
    } else {
      var front := bs[..|bs| - 1];
      SizesMakeUpArena(front, lo, front[|front| - 1].End());
    }
  }

  // ---------------------------------------------------------------------------
  // heap_alloc
  // ---------------------------------------------------------------------------

  /** A request is raised so that the block can hold a link once it is freed again. */
  function Request(len: nat): nat { if len < W then W else len }

  ghost predicate Fits(b: Block, len: nat) { b.free && b.size >= len }

  /** `k` is the earliest of the free blocks of least sufficient size. */
  ghost predicate BestFit(bs: seq<Block>, len: nat, k: nat) {
    && k < |bs|
    && Fits(bs[k], len)
    && (forall j :: 0 <= j < k && Fits(bs[j], len) ==> bs[k].size < bs[j].size)
    && (forall j :: k < j < |bs| && Fits(bs[j], len) ==> bs[k].size <= bs[j].size)
  }

  /** The block handed out when `len` bytes are taken from free block `b`. */
  function Taken(b: Block, len: nat): Block {
    if b.size - len < NODE_SIZE then b.(free := false)
    else Block(b.addr + b.size - len, len, false)
  }

  /** What remains on the free list of `b`. */
  function Rest(b: Block, len: nat): seq<Block> {
    if b.size - len < NODE_SIZE then [] else [Block(b.addr, b.size - len - W, true)]
  }

  function AllocAt(bs: seq<Block>, k: nat, len: nat): seq<Block>
    requires k < |bs|
  {
    bs[..k] + Rest(bs[k], len) + [Taken(bs[k], len)] + bs[k + 1..]
  }

  /** The block returned holds the request and wastes less than one list node. */
  lemma TakenSize(b: Block, len: nat)
    requires Fits(b, len)
    ensures !Taken(b, len).free
    ensures len <= Taken(b, len).size < len + NODE_SIZE
    ensures b.addr <= Taken(b, len).addr && Taken(b, len).End() == b.End()
  {
  }

  /**
     What a caller gets who asks for `length` bytes: a block that holds them and wastes
     less than a list node, from the earliest of the smallest free blocks that do.
   */
  lemma WhatIsServed(bs: seq<Block>, length: nat, k: nat)
    requires BestFit(bs, Request(length), k)
    ensures var t := Taken(bs[k], Request(length));
            && t in AllocAt(bs, k, Request(length)) && !t.free
            && length <= t.size && (t.size < length + 2 * W || t.size < 3 * W)
            && bs[k].free && bs[k].Payload() <= t.Payload() && t.Payload() + length <= bs[k].End()
    ensures exists j :: 0 <= j < |bs| && Fits(bs[j], Request(length))
    ensures forall j :: 0 <= j < |bs| && bs[j].free && j != k && bs[j].size >= length && bs[j].size >= W ==>
              bs[k].size <= bs[j].size && (j < k ==> bs[k].size < bs[j].size)
  {
    forall j | 0 <= j < |bs| && bs[j].free && j != k && bs[j].size >= length && bs[j].size >= W
      ensures bs[k].size <= bs[j].size && (j < k ==> bs[k].size < bs[j].size)
    {
      assert Fits(bs[j], Request(length));
    }
  }

  /** Replacing block `k` by blocks that fill the same space keeps the tiling. */
  lemma ReplaceKeepsTiling(bs: seq<Block>, lo: int, hi: int, k: nat, ms: seq<Block>)
    requires Tiles(bs, lo, hi) && k < |bs|
    requires Tiles(ms, bs[k].addr, bs[k].End())
    ensures Tiles(bs[..k] + ms + bs[k + 1..], lo, hi)
  {
    var ns, d := bs[..k] + ms + bs[k + 1..], |ms| - 1;
    forall i, j | 0 <= i && j == i + 1 && j < |ns|
      ensures ns[j].addr == ns[i].End()
    {
      if j < k {
        assert ns[i] == bs[i] && ns[j] == bs[j];
      } else if j == k {
        assert ns[i] == bs[i] && ns[j] == ms[0];
      } else if j <= k + d {
        assert ns[i] == ms[i - k] && ns[j] == ms[j - k];
      } else if i == k + d {
        assert ns[i] == ms[d] && ns[j] == bs[k + 1];
      } else {
        assert ns[i] == bs[i - d] && ns[j] == bs[j - d];
      }
    }
  }

  lemma AllocKeepsLayout(bs: seq<Block>, lo: int, hi: int, len: nat, k: nat)
    requires WellFormed(bs, lo, hi)
    requires len >= W && k < |bs| && Fits(bs[k], len)
    ensures WellFormed(AllocAt(bs, k, len), lo, hi)
  {
    var ms, ns := Rest(bs[k], len) + [Taken(bs[k], len)], AllocAt(bs, k, len);
    assert ns == bs[..k] + ms + bs[k + 1..];
    ReplaceKeepsTiling(bs, lo, hi, k, ms);
    var d := |ms| - 1;
    forall i, j | 0 <= i && j == i + 1 && j < |ns|
      ensures !(ns[i].free && ns[j].free)
    {
      if j <= k {
        assert ns[i] == bs[i] && (ns[j].free ==> bs[j].free);
      } else if i > k + d {
        assert ns[i] == bs[i - d] && ns[j] == bs[j - d];
      }
    }
  }

  /** Allocation adds exactly one live block and takes none away. */
  lemma AllocAddsOneLive(bs: seq<Block>, lo: int, hi: int, len: nat, k: nat, b: Block)
    requires WellFormed(bs, lo, hi)
    requires len >= W && k < |bs| && Fits(bs[k], len)
    ensures Live(AllocAt(bs, k, len), b) <==> Live(bs, b) || b == Taken(bs[k], len)
    ensures !Live(bs, Taken(bs[k], len))
  {
    var t := Taken(bs[k], len);
    assert bs == bs[..k] + [bs[k]] + bs[k + 1..];
    if Live(bs, t) {
      var i :| 0 <= i < |bs| && bs[i] == t;
      BlocksDisjoint(bs, lo, hi, i, k, t.addr);
    }
  }

  // ---------------------------------------------------------------------------
  // heap_free
  // ---------------------------------------------------------------------------

  function Joined(a: Block, b: Block): Block { Block(a.addr, a.size + W + b.size, true) }

  /** Block `k` becomes free and absorbs its upper neighbour if that is free. */
  function MergeUp(bs: seq<Block>, k: nat): seq<Block>
    requires k < |bs|
  {
    if k + 1 < |bs| && bs[k + 1].free
    then bs[..k] + [Joined(bs[k], bs[k + 1])] + bs[k + 2..]
    else bs[k := bs[k].(free := true)]
  }

  /** Block `k` is absorbed by its lower neighbour if that is free. */
  function MergeDown(bs: seq<Block>, k: nat): seq<Block>
    requires k < |bs|
  {
    if k > 0 && bs[k - 1].free
    then bs[..k - 1] + [Joined(bs[k - 1], bs[k])] + bs[k + 1..]
    else bs
  }

  function FreeAt(bs: seq<Block>, k: nat): seq<Block>
    requires k < |bs|
  {
    MergeDown(MergeUp(bs, k), k)
  }

  /** The layout after a free, neighbours merged as far as they are free. */
  lemma FreeAtShape(bs: seq<Block>, k: nat)
    requires k < |bs| && !bs[k].free
    ensures var up, down := k + 1 < |bs| && bs[k + 1].free, k > 0 && bs[k - 1].free;
            var m := if up then Joined(bs[k], bs[k + 1]) else bs[k].(free := true);
            FreeAt(bs, k) == bs[..if down then k - 1 else k]
                             + [if down then Joined(bs[k - 1], m) else m]
                             + bs[if up then k + 2 else k + 1..]
  {
    var ms := MergeUp(bs, k);
    assert ms[..k] == bs[..k];
    assert ms[k + 1..] == bs[if k + 1 < |bs| && bs[k + 1].free then k + 2 else k + 1..];
  }

  lemma MergeUpKeepsLayout(bs: seq<Block>, lo: int, hi: int, k: nat)
    requires WellFormed(bs, lo, hi)
    requires k < |bs| && !bs[k].free
    ensures Tiles(MergeUp(bs, k), lo, hi)
    ensures k < |MergeUp(bs, k)| && MergeUp(bs, k)[k].free
    ensures forall i, j :: 0 <= i && j == i + 1 && j < |MergeUp(bs, k)| && j != k
                           ==> !(MergeUp(bs, k)[i].free && MergeUp(bs, k)[j].free)
  {
    var ns := MergeUp(bs, k);
    var d := |bs| - |ns|;
    forall i, j | 0 <= i && j == i + 1 && j < |ns|
      ensures ns[j].addr == ns[i].End() && (j != k ==> !(ns[i].free && ns[j].free))
    {
      if j < k {
        assert ns[i] == bs[i] && ns[j] == bs[j];
      } else if j == k {
        assert ns[i] == bs[i] && ns[j].addr == bs[j].addr;
      } else {
        assert ns[j] == bs[j + d] && ns[i].End() == bs[i + d].End();
        assert bs[i + d].free ==> !bs[j + d].free;
        if i == k && d == 0 { assert !bs[j].free; }
        if i == k && d == 1 { assert bs[k + 1].free; }
      }
    }
  }

  lemma MergeDownKeepsLayout(ms: seq<Block>, lo: int, hi: int, k: nat)
    requires Tiles(ms, lo, hi)
    requires k < |ms| && ms[k].free
    requires forall i, j :: 0 <= i && j == i + 1 && j < |ms| && j != k ==> !(ms[i].free && ms[j].free)
    ensures WellFormed(MergeDown(ms, k), lo, hi)
  {
    var ns := MergeDown(ms, k);
    if k > 0 && ms[k - 1].free {
      assert |ns| == |ms| - 1;
      assert ns[k - 1] == Joined(ms[k - 1], ms[k]);
      assert forall i :: 0 <= i < k - 1 ==> ns[i] == ms[i];
      assert forall i :: k <= i < |ns| ==> ns[i] == ms[i + 1];
      forall i, j | 0 <= i && j == i + 1 && j < |ns|
        ensures ns[j].addr == ns[i].End() && !(ns[i].free && ns[j].free)
      {
        var i', j' := if i < k then i else i + 1, if j < k - 1 then j else j + 1;
        assert ms[j'].free == ns[j].free;
      }
    }
  }

  lemma FreeKeepsLayout(bs: seq<Block>, lo: int, hi: int, k: nat)
    requires WellFormed(bs, lo, hi)
    requires k < |bs| && !bs[k].free
    ensures WellFormed(FreeAt(bs, k), lo, hi)
  {
    MergeUpKeepsLayout(bs, lo, hi, k);
    MergeDownKeepsLayout(MergeUp(bs, k), lo, hi, k);
  }

  lemma SameBlock(bs: seq<Block>, lo: int, hi: int, i: nat, j: nat)
    requires Tiles(bs, lo, hi) && i < |bs| && j < |bs| && bs[i] == bs[j]
    ensures i == j
  {
    BlocksDisjoint(bs, lo, hi, i, j, bs[i].addr);
  }

  lemma MergeUpLive(bs: seq<Block>, lo: int, hi: int, k: nat, b: Block)
    requires Tiles(bs, lo, hi)
    requires k < |bs| && !bs[k].free
    ensures Live(MergeUp(bs, k), b) <==> Live(bs, b) && b != bs[k]
  {
    hide Tiles;
    var ms := MergeUp(bs, k);
    var d := |bs| - |ms|;
    if Live(ms, b) {
      var i :| 0 <= i < |ms| && ms[i] == b;
      assert i != k;
      var i' := if i < k then i else i + d;
      assert bs[i'] == b;
      if b == bs[k] { SameBlock(bs, lo, hi, i', k); }
    }
    if Live(bs, b) && b != bs[k] {
      var i :| 0 <= i < |bs| && bs[i] == b;
      assert ms[if i < k then i else i - d] == b;
    }
  }

  lemma MergeDownLive(ms: seq<Block>, k: nat, b: Block)
    requires k < |ms| && ms[k].free
    ensures Live(MergeDown(ms, k), b) <==> Live(ms, b)
  {
    if k > 0 && ms[k - 1].free {
      assert ms == ms[..k - 1] + [ms[k - 1], ms[k]] + ms[k + 1..];
    }
  }

  /** Freeing takes exactly the given block out of the live ones. */
  lemma FreeRemovesOneLive(bs: seq<Block>, lo: int, hi: int, k: nat, b: Block)
    requires WellFormed(bs, lo, hi)
    requires k < |bs| && !bs[k].free
    ensures Live(FreeAt(bs, k), b) <==> Live(bs, b) && b != bs[k]
  {
    MergeUpKeepsLayout(bs, lo, hi, k);
    MergeUpLive(bs, lo, hi, k, b);
    MergeDownLive(MergeUp(bs, k), k, b);
  }

  // ---------------------------------------------------------------------------
  // Whole runs
  // ---------------------------------------------------------------------------

  /** A call together with the address it returned, or was given. */
  datatype Call = Alloc(len: nat, result: int) | Free(payload: int)

  /** One call that returns normally; a free never meets an empty free list. */
  ghost predicate Step(bs: seq<Block>, c: Call, bs': seq<Block>) {
    match c
    case Alloc(len, p) =>
      exists k: nat :: BestFit(bs, Request(len), k)
                       && bs' == AllocAt(bs, k, Request(len)) && p == Taken(bs[k], Request(len)).Payload()
    case Free(p) =>
      HasFree(bs) && exists k: nat :: k < |bs| && !bs[k].free && bs[k].Payload() == p && bs' == FreeAt(bs, k)
  }

  ghost predicate Run(bs: seq<Block>, calls: seq<Call>, bs': seq<Block>)
    decreases |calls|
  {
    if calls == [] then bs == bs'
    else
      var before, last := calls[..|calls| - 1], calls[|calls| - 1];
      exists mid :: Run(bs, before, mid) && Step(mid, last, bs')
  }

  /** The addresses handed out and not yet given back, read off the calls alone. */
  function Outstanding(calls: seq<Call>): set<int> {
    if calls == [] then {}
    else
      var before := Outstanding(calls[..|calls| - 1]);
      match calls[|calls| - 1]
      case Alloc(_, p) => before + {p}
      case Free(p) => before - {p}
  }

  function Fresh(lo: int, hi: int): seq<Block> { [Block(lo, hi - lo - W, true)] }

  lemma StepKeepsLayout(bs: seq<Block>, lo: int, hi: int, c: Call, bs': seq<Block>)
    requires WellFormed(bs, lo, hi)
    requires Step(bs, c, bs')
    ensures WellFormed(bs', lo, hi)
  {
    match c
    case Alloc(len, p) =>
      var k: nat :| BestFit(bs, Request(len), k) && bs' == AllocAt(bs, k, Request(len));
      AllocKeepsLayout(bs, lo, hi, Request(len), k);
    case Free(p) =>
      var k: nat :| k < |bs| && !bs[k].free && bs[k].Payload() == p && bs' == FreeAt(bs, k);
      FreeKeepsLayout(bs, lo, hi, k);
  }

  ghost predicate LiveAt(bs: seq<Block>, p: int) {
    exists b :: Live(bs, b) && b.Payload() == p
  }

  lemma StepUpdatesLive(bs: seq<Block>, lo: int, hi: int, c: Call, bs': seq<Block>, p: int)
    requires WellFormed(bs, lo, hi)
    requires Step(bs, c, bs')
    ensures match c
            case Alloc(_, q) => LiveAt(bs', p) <==> LiveAt(bs, p) || p == q
            case Free(q) => LiveAt(bs', p) <==> LiveAt(bs, p) && p != q
    ensures c.Alloc? ==> !LiveAt(bs, c.result)
  {
    match c
    case Alloc(len, q) =>
      var k: nat :| BestFit(bs, Request(len), k) && bs' == AllocAt(bs, k, Request(len)) &&
          q == Taken(bs[k], Request(len)).Payload();
      var t := Taken(bs[k], Request(len));
      forall b { AllocAddsOneLive(bs, lo, hi, Request(len), k, b); }
      assert Live(bs', t);
      if LiveAt(bs, q) {
        var b :| Live(bs, b) && b.Payload() == q;
        var i :| 0 <= i < |bs| && bs[i] == b;
        BlocksDisjoint(bs, lo, hi, i, k, b.addr);
      }
    case Free(q) =>
      var k: nat :| k < |bs| && !bs[k].free && bs[k].Payload() == q && bs' == FreeAt(bs, k);
      forall b { FreeRemovesOneLive(bs, lo, hi, k, b); }
      if LiveAt(bs', q) {
        var b :| Live(bs', b) && b.Payload() == q;
        var i :| 0 <= i < |bs| && bs[i] == b;
        BlocksDisjoint(bs, lo, hi, i, k, b.addr);
      }
  }

  /** Over every run the layout stays a coalesced tiling of the arena, and the live blocks are the outstanding ones. */
  lemma {:induction false} RunKeepsHeap(lo: int, hi: int, calls: seq<Call>, bs: seq<Block>)
    requires lo + W + W <= hi
    requires Run(Fresh(lo, hi), calls, bs)
    ensures WellFormed(bs, lo, hi)
    ensures forall p :: LiveAt(bs, p) <==> p in Outstanding(calls)
    decreases |calls|
  {
    if calls != [] {
      var before, c := calls[..|calls| - 1], calls[|calls| - 1];
      var mid :| Run(Fresh(lo, hi), before, mid) && Step(mid, c, bs);
      RunKeepsHeap(lo, hi, before, mid);
      StepKeepsLayout(mid, lo, hi, c, bs);
      forall p { StepUpdatesLive(mid, lo, hi, c, bs, p); }
    }
  }

  /** No run hands out an address that is still outstanding. */
  lemma NeverHandedOutTwice(lo: int, hi: int, calls: seq<Call>, len: nat, p: int, bs: seq<Block>)
    requires lo + W + W <= hi
    requires Run(Fresh(lo, hi), calls + [Alloc(len, p)], bs)
    ensures p !in Outstanding(calls)
  {
    var all := calls + [Alloc(len, p)];
    assert all[..|all| - 1] == calls;
    var mid :| Run(Fresh(lo, hi), calls, mid) && Step(mid, Alloc(len, p), bs);
    RunKeepsHeap(lo, hi, calls, mid);
    StepUpdatesLive(mid, lo, hi, Alloc(len, p), bs, p);
  }

  lemma AllFreeIsOneBlock(bs: seq<Block>, lo: int, hi: int)
    requires WellFormed(bs, lo, hi)
    requires forall b :: b in bs ==> b.free
    ensures bs == Fresh(lo, hi)
  {
    var second := if |bs| > 1 then bs[1] else bs[0];
    assert second in bs;
  }

  /** Once everything is given back, in whatever order, the heap is as heap_create made it. */
  lemma AllFreedRestoresHeap(lo: int, hi: int, calls: seq<Call>, bs: seq<Block>)
    requires lo + W + W <= hi
    requires Run(Fresh(lo, hi), calls, bs)
    requires Outstanding(calls) == {}
    ensures bs == Fresh(lo, hi)
  {
    RunKeepsHeap(lo, hi, calls, bs);
    forall b | b in bs
      ensures b.free
    {
      assert LiveAt(bs, b.Payload()) <== Live(bs, b);
    }
    AllFreeIsOneBlock(bs, lo, hi);
  }
}

/** The loader's heap as it is: a free list threaded through the arena's own words. */
module StageTwoHeap {
  import opened HeapLayout
  import opened Outcome

  const NULL: int := 0

  /** The free blocks, in address order. */
  ghost function FreeList(bs: seq<Block>): seq<Block> {
    if bs == [] then []
    else (if bs[0].free then [bs[0]] else []) + FreeList(bs[1..])
  }

  ghost function Head(fs: seq<Block>): int {
    if fs == [] then NULL else fs[0].addr
  }

  /** The pointers spell out exactly `fs`. */
  ghost predicate Chain(fs: seq<Block>, head: int, nx: map<int, int>) {
    && head == Head(fs)
    && (forall i {:trigger fs[i].addr in nx} {:trigger nx[fs[i].addr]} :: 0 <= i < |fs| ==>
          fs[i].addr in nx && nx[fs[i].addr] == Head(fs[i + 1..]))
  }

  /** The nodes whose link word is one of these. */
  ghost function NodesOf(links: set<int>): (nodes: set<int>)
    ensures forall node :: node in nodes ==> node + W in links
  {
    set x | x in links :: x - W
  }

  /** The link words, by the address of the node they belong to: the word after its size. */
  ghost function Links(words: map<int, int>): map<int, int> {
    map node | node in NodesOf(words.Keys) :: words[node + W]
  }

  lemma {:induction false} IsNode(links: set<int>, p: int)
    requires p in links
    ensures p - W in NodesOf(links)
  {
  }

  lemma {:induction false} LinkAt(words: map<int, int>, node: int)
    ensures node in Links(words) <==> node + W in words
    ensures node + W in words ==> Links(words)[node] == words[node + W]
  {
    hide NodesOf;
    if node + W in words {
      IsNode(words.Keys, node + W);
      assert node + W - W == node;
    }
  }

  lemma {:induction false} Stored(words: map<int, int>, p: int, v: int)
    ensures Links(words[p := v]) == Links(words)[p - W := v]
  {
    hide Links;
    var after, same := Links(words[p := v]), Links(words)[p - W := v];
    forall node
      ensures node in after <==> node in same
      ensures node in after ==> after[node] == same[node]
    {
      LinkAt(words[p := v], node);
      LinkAt(words, node);
    }
    assert after == same;
  }

  /** A word that is no block's size may be written. */
  lemma {:induction false} SizesElsewhere(bs: seq<Block>, words: map<int, int>, p: int, v: int)
    requires Sizes(bs, words) && forall i :: 0 <= i < |bs| ==> bs[i].addr != p
    ensures Sizes(bs, words[p := v])
  {
  }

  ghost predicate Sizes(bs: seq<Block>, sz: map<int, int>) {
    forall i :: 0 <= i < |bs| ==> bs[i].addr in sz && sz[bs[i].addr] == bs[i].size
  }

  /** The node a walk has just left when it stands at entry `i`. */
  ghost function Before(fs: seq<Block>, i: nat): int
    requires i <= |fs|
  {
    if i == 0 then NULL else fs[i - 1].addr
  }

  lemma {:induction false} FreeListConcat(a: seq<Block>, b: seq<Block>)
    ensures FreeList(a + b) == FreeList(a) + FreeList(b)
  {
    if a == [] {
      assert a + b == b;
    } else {
      FreeListConcat(a[1..], b);
      assert (a + b)[0] == a[0] && (a + b)[1..] == a[1..] + b;
      var first := if a[0].free then [a[0]] else [];
      assert first + (FreeList(a[1..]) + FreeList(b)) == first + FreeList(a[1..]) + FreeList(b);
    }
  }

  lemma {:induction false} FreeListHas(bs: seq<Block>, b: Block)
    ensures b in FreeList(bs) <==> b in bs && b.free
  {
    if bs != [] { FreeListHas(bs[1..], b); }
  }

  lemma {:induction false} FreeListAroundOne(a: seq<Block>, b: Block, c: seq<Block>)
    ensures FreeList(a + [b] + c) == FreeList(a) + (if b.free then [b] else []) + FreeList(c)
  {
    assert a + [b] + c == a + ([b] + c);
    FreeListConcat(a, [b] + c);
    assert ([b] + c)[1..] == c;
  }

  /** Block `k` of the layout is entry `i` of the free list. */
  ghost predicate IsEntry(bs: seq<Block>, i: nat, k: nat) {
    && k < |bs| && i < |FreeList(bs)|
    && bs[k] == FreeList(bs)[i] && bs[k].free
    && FreeList(bs[..k]) == FreeList(bs)[..i]
    && FreeList(bs[k + 1..]) == FreeList(bs)[i + 1..]
  }

  lemma {:induction false} Locate(bs: seq<Block>, i: nat) returns (k: nat)
    requires i < |FreeList(bs)|
    ensures IsEntry(bs, i, k)
  {
    var d := if bs[0].free then 1 else 0;
    if i < d {
      k := 0;
    } else {
      k := Locate(bs[1..], i - d);
      k := k + 1;
      assert bs[..k] == [bs[0]] + bs[1..][..k - 1];
      assert bs[k + 1..] == bs[1..][k..];
    }
  }

  lemma FreeListOrdered(bs: seq<Block>, lo: int, hi: int, i: nat, j: nat)
    requires Tiles(bs, lo, hi)
    requires i < j < |FreeList(bs)|
    ensures FreeList(bs)[i].End() <= FreeList(bs)[j].addr
  {
    var k := Locate(bs, j);
    FreeListHas(bs[..k], FreeList(bs)[i]);
    assert FreeList(bs)[i] in FreeList(bs)[..j];
    var m :| 0 <= m < k && bs[m] == FreeList(bs)[i];
    Ordered(bs, lo, hi, m, k);
  }

  ghost predicate SizesOfList(fs: seq<Block>, sz: map<int, int>) {
    forall i :: 0 <= i < |fs| ==> fs[i].addr > NULL && fs[i].addr in sz && sz[fs[i].addr] == fs[i].size
  }

  /** The entries ascend without overlap, and each has its two words. */
  ghost predicate Apart(fs: seq<Block>) {
    && (forall i :: 0 <= i < |fs| ==> fs[i].size >= W)
    && (forall i, j :: 0 <= i < j < |fs| ==> fs[i].End() <= fs[j].addr)
  }

  /** The list is strictly address-ordered, and its nodes hold their sizes. */
  lemma FreeListFacts(bs: seq<Block>, lo: int, hi: int, sz: map<int, int>)
    requires WellFormed(bs, lo, hi) && 0 < lo && Sizes(bs, sz)
    ensures Apart(FreeList(bs)) && SizesOfList(FreeList(bs), sz)
  {
    var fs := FreeList(bs);
    forall i, j | 0 <= i < j < |fs|
      ensures fs[i].End() <= fs[j].addr
    {
      FreeListOrdered(bs, lo, hi, i, j);
    }
    forall i | 0 <= i < |fs|
      ensures fs[i].size >= W && fs[i].addr > NULL && fs[i].addr in sz && sz[fs[i].addr] == fs[i].size
    {
      var k := Locate(bs, i);
      InArena(bs, lo, hi, k);
    }
  }

  lemma NoFitInLayout(bs: seq<Block>, len: nat)
    requires forall j :: 0 <= j < |FreeList(bs)| ==> FreeList(bs)[j].size < len
    ensures forall k :: 0 <= k < |bs| ==> !Fits(bs[k], len)
  {
    forall k | 0 <= k < |bs|
      ensures !Fits(bs[k], len)
    {
      FreeListHas(bs, bs[k]);
    }
  }

  /** Taking entry `i` out of the list needs one pointer changed: the one that led to it. */
  lemma {:induction false} ChainWithout(fs: seq<Block>, i: nat, head: int, nx: map<int, int>)
    requires Chain(fs, head, nx) && Apart(fs) && i < |fs|
    ensures i == 0 ==> Chain(fs[1..], Head(fs[1..]), nx)
    ensures i > 0 ==> Chain(fs[..i] + fs[i + 1..], head, nx[fs[i - 1].addr := Head(fs[i + 1..])])
  {
    var ns := fs[..i] + fs[i + 1..];
    if i > 0 {
      forall t | 0 <= t < |ns|
        ensures var nx' := nx[fs[i - 1].addr := Head(fs[i + 1..])];
                ns[t].addr in nx' && nx'[ns[t].addr] == Head(ns[t + 1..])
      {
        if t + 1 < i {
          assert ns[t] == fs[t] && ns[t + 1] == fs[t + 1];
        } else if t + 1 > i {
          assert ns[t + 1..] == fs[t + 2..];
        }
      }
    }
  }

  /** Entries `i` to `j - 1` give way to `m`: the pointer before it and its own are all that matters. */
  lemma {:induction false} ChainSplice(fs: seq<Block>, i: nat, m: Block, j: nat, head: int, nx: map<int, int>,
          head': int, nx': map<int, int>)
    requires Chain(fs, head, nx) && i <= j <= |fs|
    requires forall t :: 0 <= t < |fs| && (t + 1 < i || j <= t) ==>
               fs[t].addr in nx' && nx'[fs[t].addr] == nx[fs[t].addr]
    requires i > 0 ==> fs[i - 1].addr in nx' && nx'[fs[i - 1].addr] == m.addr
    requires head' == if i == 0 then m.addr else head
    requires m.addr in nx' && nx'[m.addr] == Head(fs[j..])
    ensures Chain(fs[..i] + [m] + fs[j..], head', nx')
  {
    var ns := fs[..i] + [m] + fs[j..];
    forall t | 0 <= t < |ns|
      ensures ns[t].addr in nx' && nx'[ns[t].addr] == Head(ns[t + 1..])
    {
      if t + 1 < i {
        assert ns[t] == fs[t] && ns[t + 1] == fs[t + 1];
      } else if t >= i {
        assert ns[t + 1..] == fs[j + t - i..];
      }
    }
  }

  /** The words of the entry that a walk stands at. */
  lemma {:induction false} AtEntry(fs: seq<Block>, c: nat, head: int, words: map<int, int>)
    requires Chain(fs, head, Links(words)) && SizesOfList(fs, words) && c < |fs|
    ensures Head(fs[c..]) == fs[c].addr > NULL && fs[c].addr in words && words[fs[c].addr] == fs[c].size
    ensures fs[c].addr + W in words && words[fs[c].addr + W] == Head(fs[c + 1..])
  {
    hide Links;
    assert fs[c].addr in Links(words);
    LinkAt(words, fs[c].addr);
  }

  lemma {:induction false} ListBegins(fs: seq<Block>, head: int, words: map<int, int>)
    requires Chain(fs, head, Links(words))
    ensures head == Head(fs)
  {
    hide Links;
  }

  ghost predicate BestOf(fs: seq<Block>, len: nat, i: nat) {
    && i < |fs| && fs[i].size >= len
    && forall j :: 0 <= j < |fs| && fs[j].size >= len ==>
        fs[i].size <= fs[j].size && (j < i ==> fs[i].size < fs[j].size)
  }

  lemma BestOfExtend(fs: seq<Block>, len: nat, i: nat, b: Block)
    ensures BestOf(fs, len, i) && (b.size < len || fs[i].size <= b.size) ==> BestOf(fs + [b], len, i)
    ensures BestOf(fs, len, i) && len <= b.size < fs[i].size ==> BestOf(fs + [b], len, |fs|)
    ensures b.size >= len && (forall j :: 0 <= j < |fs| ==> fs[j].size < len) ==> BestOf(fs + [b], len, |fs|)
  {
  }

  lemma ExactIsBest(fs: seq<Block>, len: nat, i: nat)
    requires i < |fs| && fs[i].size == len
    requires forall j :: 0 <= j < i ==> fs[j].size != len
    ensures BestOf(fs, len, i)
  {
  }

  /** The list entry `i` is block `k`; if the list has no better entry, the layout has no better block. */
  lemma ListFitIsBlockFit(bs: seq<Block>, i: nat, k: nat, len: nat)
    requires IsEntry(bs, i, k) && Fits(bs[k], len)
    requires BestOf(FreeList(bs), len, i)
    ensures BestFit(bs, len, k)
  {
    forall m | 0 <= m < |bs| && m != k && Fits(bs[m], len)
      ensures if m < k then bs[k].size < bs[m].size else bs[k].size <= bs[m].size
    {
      if m < k {
        FreeListHas(bs[..k], bs[m]);
        assert bs[m] in FreeList(bs)[..i];
      } else {
        FreeListHas(bs[k + 1..], bs[m]);
        assert bs[k + 1..][m - k - 1] == bs[m];
        assert bs[m] in FreeList(bs)[i + 1..];
      }
    }
  }

  /** The size words once block `b` has been taken from. */
  ghost function SizeWordsAfter(sz: map<int, int>, b: Block, len: nat): map<int, int> {
    if b.size - len < NODE_SIZE then sz else sz[b.addr + b.size - len := len][b.addr := b.size - len - W]
  }

  /** The words once list entry `i` has been taken from: two sizes if it is split, else the link that led to it. */
  ghost function WordsAfterAlloc(words: map<int, int>, fs: seq<Block>, i: nat, len: nat): map<int, int>
    requires i < |fs|
  {
    if fs[i].size - len >= NODE_SIZE || i == 0 then SizeWordsAfter(words, fs[i], len)
    else words[fs[i - 1].addr + W := Head(fs[i + 1..])]
  }

  /** What allocation does to the sizes written in the arena. */
  lemma SizesAfterAlloc(bs: seq<Block>, lo: int, hi: int, k: nat, len: nat, sz: map<int, int>)
    requires WellFormed(bs, lo, hi) && Sizes(bs, sz)
    requires len >= W && k < |bs| && Fits(bs[k], len)
    ensures Sizes(AllocAt(bs, k, len), SizeWordsAfter(sz, bs[k], len))
  {
    var ns := AllocAt(bs, k, len);
    var d := |ns| - |bs|;
    forall i | 0 <= i < |ns| && (i < k || k + d < i)
      ensures ns[i] == bs[if i < k then i else i - d]
      ensures ns[i].addr < bs[k].addr || bs[k].End() <= ns[i].addr
    {
      if i < k { Ordered(bs, lo, hi, i, k); } else { Ordered(bs, lo, hi, k, i - d); }
    }
  }

  lemma FreeListAfterAlloc(bs: seq<Block>, i: nat, k: nat, len: nat)
    requires IsEntry(bs, i, k) && Fits(bs[k], len)
    ensures FreeList(AllocAt(bs, k, len)) == FreeList(bs)[..i] + Rest(bs[k], len) + FreeList(bs)[i + 1..]
  {
    var r, t := Rest(bs[k], len), Taken(bs[k], len);
    FreeListAroundOne(bs[..k] + r, t, bs[k + 1..]);
    if r != [] {
      FreeListAroundOne(bs[..k], r[0], []);
      assert bs[..k] + r + [] == bs[..k] + r;
    } else {
      assert bs[..k] + r == bs[..k];
    }
  }

  /** All that allocation from list entry `i` changes, as seen from the layout. */
  lemma AllocFacts(bs: seq<Block>, lo: int, hi: int, i: nat, len: nat, sz: map<int, int>) returns (k: nat)
    requires WellFormed(bs, lo, hi) && Sizes(bs, sz)
    requires BestOf(FreeList(bs), len, i) && len >= W
    ensures BestFit(bs, len, k) && bs[k] == FreeList(bs)[i]
    ensures WellFormed(AllocAt(bs, k, len), lo, hi)
    ensures FreeList(AllocAt(bs, k, len)) == FreeList(bs)[..i] + Rest(bs[k], len) + FreeList(bs)[i + 1..]
    ensures Sizes(AllocAt(bs, k, len), SizeWordsAfter(sz, bs[k], len))
  {
    k := Locate(bs, i);
    ListFitIsBlockFit(bs, i, k, len);
    AllocKeepsLayout(bs, lo, hi, len, k);
    SizesAfterAlloc(bs, lo, hi, k, len, sz);
    FreeListAfterAlloc(bs, i, k, len);
  }

  lemma ChainElsewhere(fs: seq<Block>, head: int, nx: map<int, int>, p: int, v: int)
    requires Chain(fs, head, nx) && forall i :: 0 <= i < |fs| ==> fs[i].addr != p
    ensures Chain(fs, head, nx[p := v])
  {
  }

  lemma ChainTail(fs: seq<Block>, head: int, nx: map<int, int>)
    requires Chain(fs, head, nx) && fs != []
    ensures head in nx && Chain(fs[1..], nx[head], nx)
  {
    assert fs[0].addr in nx;
    var ts := fs[1..];
    forall i | 0 <= i < |ts|
      ensures ts[i].addr in nx && nx[ts[i].addr] == Head(ts[i + 1..])
    {
      assert fs[i + 1].addr in nx && ts[i + 1..] == fs[i + 2..];
    }
  }

  /** A node linked to itself begins no finite list, whatever the rest of the arena holds. */
  lemma {:induction false} SelfLinkIsNoList(fs: seq<Block>, p: int, nx: map<int, int>)
    requires p != NULL && p in nx && nx[p] == p
    ensures !Chain(fs, p, nx)
  {
    if fs != [] && Chain(fs, p, nx) {
      ChainTail(fs, p, nx);
      SelfLinkIsNoList(fs[1..], p, nx);
    }
  }

  // What freeing block `b` between list entries `i - 1` and `i` does to the list and the size words.

  ghost predicate IsPosition(fs: seq<Block>, i: nat, b: Block) {
    && i <= |fs| && b.size >= W
    && (forall j :: 0 <= j < i ==> fs[j].addr < fs[j].End() <= b.addr)
    && (forall j :: i <= j < |fs| ==> b.addr < b.End() <= fs[j].addr)
  }

  ghost predicate MergesUp(fs: seq<Block>, i: nat, b: Block) {
    i < |fs| && b.End() == fs[i].addr
  }

  ghost predicate MergesDown(fs: seq<Block>, i: nat, b: Block) {
    0 < i <= |fs| && fs[i - 1].End() == b.addr
  }

  ghost function AfterUp(fs: seq<Block>, i: nat, b: Block): Block {
    if MergesUp(fs, i, b) then Joined(b, fs[i]) else b.(free := true)
  }

  ghost function AfterDown(fs: seq<Block>, i: nat, b: Block): Block {
    if MergesDown(fs, i, b) then Joined(fs[i - 1], AfterUp(fs, i, b)) else AfterUp(fs, i, b)
  }

  ghost function ListAfterFree(fs: seq<Block>, i: nat, b: Block): seq<Block>
    requires i <= |fs|
  {
    fs[..if MergesDown(fs, i, b) then i - 1 else i] + [AfterDown(fs, i, b)]
        + fs[if MergesUp(fs, i, b) then i + 1 else i..]
  }

  ghost function SizeWordsAfterFree(sz: map<int, int>, fs: seq<Block>, i: nat, b: Block): map<int, int> {
    var up := if MergesUp(fs, i, b) then sz[b.addr := AfterUp(fs, i, b).size] else sz;
    if MergesDown(fs, i, b) then up[fs[i - 1].addr := AfterDown(fs, i, b).size] else up
  }

  /** The words once the links of the new node and of the one below it have been written. */
  ghost function LinkWordsAfterFree(words: map<int, int>, fs: seq<Block>, i: nat, b: Block): map<int, int>
    requires i <= |fs|
  {
    var above := Head(fs[if MergesUp(fs, i, b) then i + 1 else i..]);
    var up := words[b.addr + W := above];
    if i == 0 then up else up[fs[i - 1].addr + W := if MergesDown(fs, i, b) then above else b.addr]
  }

  ghost function WordsAfterFree(words: map<int, int>, fs: seq<Block>, i: nat, b: Block): map<int, int>
    requires i <= |fs|
  {
    LinkWordsAfterFree(SizeWordsAfterFree(words, fs, i, b), fs, i, b)
  }

  /** The link of an entry other than the one below the new node is not written. */
  lemma {:induction false} LinkKept(fs: seq<Block>, i: nat, b: Block, words: map<int, int>, t: nat)
    requires Apart(fs) && IsPosition(fs, i, b) && t < |fs| && t + 1 != i && fs[t].addr in Links(words)
    ensures var nx, after := Links(words), Links(WordsAfterFree(words, fs, i, b));
            fs[t].addr in after && after[fs[t].addr] == nx[fs[t].addr]
  {
    hide Links;
    LinkAt(words, fs[t].addr);
    LinkAt(WordsAfterFree(words, fs, i, b), fs[t].addr);
    if t + 1 < i { assert fs[t].End() <= fs[i - 1].addr; }
    if i > 0 && i <= t { assert fs[i - 1].End() <= fs[t].addr; }
  }

  /** These words spell out the list with the new node in it. */
  lemma {:induction false} ListAfterFreeIsThere(fs: seq<Block>, i: nat, b: Block, head: int, words: map<int, int>,
          head': int)
    requires Chain(fs, head, Links(words)) && Apart(fs) && IsPosition(fs, i, b)
    requires head' == if i == 0 then b.addr else head
    ensures Chain(ListAfterFree(fs, i, b), head', Links(WordsAfterFree(words, fs, i, b)))
  {
    hide Links, Apart, ListAfterFree;
    var after := WordsAfterFree(words, fs, i, b);
    var nx, nx' := Links(words), Links(after);
    forall t | 0 <= t < |fs| && t + 1 != i
      ensures fs[t].addr in nx' && nx'[fs[t].addr] == nx[fs[t].addr]
    {
      assert fs[t].addr in nx;
      LinkKept(fs, i, b, words, t);
    }
    LinkAt(after, b.addr);
    if i > 0 { LinkAt(after, fs[i - 1].addr); }
    ListSplice(fs, i, b, head, nx, head', nx');
  }

  lemma {:induction false} ListSplice(fs: seq<Block>, i: nat, b: Block, head: int, nx: map<int, int>, head': int,
          nx': map<int, int>)
    requires Chain(fs, head, nx) && Apart(fs) && IsPosition(fs, i, b)
    requires forall t :: 0 <= t < |fs| && t + 1 != i ==> fs[t].addr in nx' && nx'[fs[t].addr] == nx[fs[t].addr]
    requires head' == if i == 0 then b.addr else head
    requires b.addr in nx' && nx'[b.addr] == Head(fs[if MergesUp(fs, i, b) then i + 1 else i..])
    requires i > 0 ==> fs[i - 1].addr in nx' && nx'[fs[i - 1].addr] == if MergesDown(fs, i, b) then nx'[b.addr]
               else b.addr
    ensures Chain(ListAfterFree(fs, i, b), head', nx')
  {
    hide Apart;
    var m, j := AfterDown(fs, i, b), if MergesUp(fs, i, b) then i + 1 else i;
    if MergesDown(fs, i, b) {
      if i > 1 { assert fs[i - 2].addr in nx; assert fs[i - 2].addr in nx'; }
      ChainSplice(fs, i - 1, m, j, head, nx, head', nx');
    } else {
      ChainSplice(fs, i, m, j, head, nx, head', nx');
    }
  }

  /** The nodes on either side of the freed one have their words, and are not the freed one. */
  lemma Neighbours(fs: seq<Block>, i: nat, b: Block, sz: map<int, int>, head: int, nx: map<int, int>)
    requires Chain(fs, head, nx) && SizesOfList(fs, sz) && IsPosition(fs, i, b)
    ensures i < |fs| ==> fs[i].addr in sz && sz[fs[i].addr] == fs[i].size && fs[i].addr > NULL
    ensures i < |fs| ==> fs[i].addr in nx && nx[fs[i].addr] == Head(fs[i + 1..])
    ensures i > 0 ==> fs[i - 1].addr in sz && sz[fs[i - 1].addr] == fs[i - 1].size && fs[i - 1].addr > NULL
    ensures forall t {:trigger fs[t].addr in nx} :: 0 <= t < |fs| ==> fs[t].addr in nx && fs[t].addr != b.addr
  {
    if i < |fs| { assert fs[i].addr in nx; }
  }

  lemma EmptyList(bs: seq<Block>)
    ensures HasFree(bs) <==> FreeList(bs) != []
  {
    if HasFree(bs) {
      var i :| 0 <= i < |bs| && bs[i].free;
      FreeListHas(bs, bs[i]);
    }
    if FreeList(bs) != [] {
      var k := Locate(bs, 0);
    }
  }

  /** Free blocks above block `k` start at or after its end; only its neighbour starts right there. */
  lemma Above(bs: seq<Block>, lo: int, hi: int, k: nat, b: Block)
    requires WellFormed(bs, lo, hi) && k < |bs| && b in FreeList(bs[k + 1..])
    ensures bs[k].End() <= b.addr
    ensures b.addr == bs[k].End() ==> b == bs[k + 1] && b.free
  {
    FreeListHas(bs[k + 1..], b);
    var m :| 0 <= m < |bs[k + 1..]| && bs[k + 1..][m] == b;
    Ordered(bs, lo, hi, k, k + 1 + m);
    if m > 0 { Ordered(bs, lo, hi, k + 1, k + 1 + m); }
  }

  lemma Below(bs: seq<Block>, lo: int, hi: int, k: nat, b: Block)
    requires WellFormed(bs, lo, hi) && k < |bs| && b in FreeList(bs[..k])
    ensures b.addr < b.End() <= bs[k].addr
    ensures b.End() == bs[k].addr ==> b == bs[k - 1] && b.free
  {
    FreeListHas(bs[..k], b);
    var m :| 0 <= m < k && bs[m] == b;
    Ordered(bs, lo, hi, m, k);
    if m < k - 1 { Ordered(bs, lo, hi, m, k - 1); }
  }

  lemma FreeListEnds(a: seq<Block>)
    ensures a != [] && a[0].free ==> FreeList(a) == [a[0]] + FreeList(a[1..])
    ensures a != [] && a[|a| - 1].free ==> FreeList(a) == FreeList(a[..|a| - 1]) + [a[|a| - 1]]
  {
    if a != [] {
      var n := |a| - 1;
      FreeListAroundOne(a[..n], a[n], []);
      assert a == a[..n] + [a[n]] + [];
    }
  }

  /** The list around live block `k`: the entries below it, then those above. */
  lemma ListSplits(bs: seq<Block>, lo: int, hi: int, k: nat)
    requires WellFormed(bs, lo, hi) && k < |bs| && !bs[k].free
    ensures FreeList(bs) == FreeList(bs[..k]) + FreeList(bs[k + 1..])
    ensures IsPosition(FreeList(bs), |FreeList(bs[..k])|, bs[k])
  {
    var a, b, c := bs[..k], bs[k], bs[k + 1..];
    assert bs == a + [b] + c;
    FreeListAroundOne(a, b, c);
    var fs, i := FreeList(bs), |FreeList(a)|;
    forall j | 0 <= j < |fs|
      ensures if j < i then fs[j].addr < fs[j].End() <= b.addr else b.addr < b.End() <= fs[j].addr
    {
      if j < i { Below(bs, lo, hi, k, fs[j]); } else { Above(bs, lo, hi, k, fs[j]); }
    }
  }

  /** The list entry that touches the block from above is its neighbour in the layout. */
  lemma NeighbourAbove(bs: seq<Block>, lo: int, hi: int, k: nat)
    requires WellFormed(bs, lo, hi) && k < |bs| && !bs[k].free
    ensures var fs, i := FreeList(bs), |FreeList(bs[..k])|;
            && (MergesUp(fs, i, bs[k]) <==> k + 1 < |bs| && bs[k + 1].free)
            && (MergesUp(fs, i, bs[k]) ==> fs[i] == bs[k + 1] && FreeList(bs[k + 2..]) == fs[i + 1..])
            && i <= |fs| && FreeList(bs[k + 1..]) == fs[i..]
  {
    ListSplits(bs, lo, hi, k);
    FreeListEnds(bs[k + 1..]);
    var fs, i, b := FreeList(bs), |FreeList(bs[..k])|, bs[k];
    if i < |fs| { Above(bs, lo, hi, k, fs[i]); }
    if k + 1 < |bs| && bs[k + 1].free {
      assert bs[k + 1..][1..] == bs[k + 2..];
      assert fs[i..] == FreeList(bs[k + 1..]);
    }
  }

  /** The list entry that touches the block from below is its neighbour in the layout. */
  lemma NeighbourBelow(bs: seq<Block>, lo: int, hi: int, k: nat)
    requires WellFormed(bs, lo, hi) && k < |bs| && !bs[k].free
    ensures var fs, i := FreeList(bs), |FreeList(bs[..k])|;
            && (MergesDown(fs, i, bs[k]) <==> k > 0 && bs[k - 1].free)
            && (MergesDown(fs, i, bs[k]) ==> fs[i - 1] == bs[k - 1] && FreeList(bs[..k - 1]) == fs[..i - 1])
            && i <= |fs| && FreeList(bs[..k]) == fs[..i]
  {
    ListSplits(bs, lo, hi, k);
    FreeListEnds(bs[..k]);
    var fs, i, b := FreeList(bs), |FreeList(bs[..k])|, bs[k];
    assert fs[..i] == FreeList(bs[..k]);
    if i > 0 {
      assert fs[i - 1] in FreeList(bs[..k]);
      Below(bs, lo, hi, k, fs[i - 1]);
    }
    if k > 0 && bs[k - 1].free {
      assert bs[..k][..k - 1] == bs[..k - 1];
    }
  }

  lemma FreeListAfterFree(bs: seq<Block>, lo: int, hi: int, k: nat)
    requires WellFormed(bs, lo, hi) && k < |bs| && !bs[k].free
    ensures |FreeList(bs[..k])| <= |FreeList(bs)|
    ensures FreeList(FreeAt(bs, k)) == ListAfterFree(FreeList(bs), |FreeList(bs[..k])|, bs[k])
  {
    hide FreeList, FreeAt, WellFormed;
    NeighbourAbove(bs, lo, hi, k);
    NeighbourBelow(bs, lo, hi, k);
    var fs, i, b := FreeList(bs), |FreeList(bs[..k])|, bs[k];
    var a := bs[..if MergesDown(fs, i, b) then k - 1 else k];
    var c := bs[if MergesUp(fs, i, b) then k + 2 else k + 1..];
    var m := AfterDown(fs, i, b);
    FreeListAroundOne(a, m, c);
    FreedLayout(bs, lo, hi, k);
  }

  /** The layout after a free, in terms of the merges the list sees. */
  lemma FreedLayout(bs: seq<Block>, lo: int, hi: int, k: nat)
    requires WellFormed(bs, lo, hi) && k < |bs| && !bs[k].free
    ensures var fs, i := FreeList(bs), |FreeList(bs[..k])|;
            var down, up := MergesDown(fs, i, bs[k]), MergesUp(fs, i, bs[k]);
            && (down ==> k > 0) && (up ==> k + 1 < |bs|)
            && FreeAt(bs, k) == bs[..if down then k - 1 else k] + [AfterDown(fs, i, bs[k])]
                + bs[if up then k + 2 else k + 1..]
  {
    NeighbourAbove(bs, lo, hi, k);
    NeighbourBelow(bs, lo, hi, k);
    FreeAtShape(bs, k);
  }

  /** Blocks `a` to `c - 1` give way to `m`, and no size word outside them changes. */
  lemma SizesReplaced(bs: seq<Block>, lo: int, hi: int, a: nat, m: Block, c: nat, sz: map<int, int>, sz': map<int, int>)
    requires Tiles(bs, lo, hi) && Sizes(bs, sz) && a < c <= |bs|
    requires m.addr in sz' && sz'[m.addr] == m.size
    requires forall x :: x in sz && (x < bs[a].addr || bs[c - 1].End() <= x) ==> x in sz' && sz'[x] == sz[x]
    ensures Sizes(bs[..a] + [m] + bs[c..], sz')
  {
    var ns := bs[..a] + [m] + bs[c..];
    forall n | 0 <= n < |ns|
      ensures ns[n].addr in sz' && sz'[ns[n].addr] == ns[n].size
    {
      if n < a {
        Ordered(bs, lo, hi, n, a);
      } else if n > a {
        Ordered(bs, lo, hi, c - 1, n - a - 1 + c);
      }
    }
  }

  lemma SizeWordsOfMerged(sz: map<int, int>, fs: seq<Block>, i: nat, b: Block)
    requires i <= |fs| && b.addr in sz && sz[b.addr] == b.size
    ensures var sz', m := SizeWordsAfterFree(sz, fs, i, b), AfterDown(fs, i, b);
            && m.addr in sz' && sz'[m.addr] == m.size
            && forall x :: x in sz && x != b.addr && x != m.addr ==> x in sz' && sz'[x] == sz[x]
  {
  }

  lemma SizesAfterFree(bs: seq<Block>, lo: int, hi: int, k: nat, sz: map<int, int>)
    requires WellFormed(bs, lo, hi) && Sizes(bs, sz) && k < |bs| && !bs[k].free
    ensures Sizes(FreeAt(bs, k), SizeWordsAfterFree(sz, FreeList(bs), |FreeList(bs[..k])|, bs[k]))
  {
    NeighbourAbove(bs, lo, hi, k);
    NeighbourBelow(bs, lo, hi, k);
    FreedLayout(bs, lo, hi, k);
    var fs, i, b := FreeList(bs), |FreeList(bs[..k])|, bs[k];
    var a, c := if MergesDown(fs, i, b) then k - 1 else k, if MergesUp(fs, i, b) then k + 2 else k + 1;
    if a < k { Ordered(bs, lo, hi, a, k); }
    if k < c - 1 { Ordered(bs, lo, hi, k, c - 1); }
    SizeWordsOfMerged(sz, fs, i, b);
    assert bs[a].addr <= b.addr < bs[c - 1].End() && AfterDown(fs, i, b).addr == bs[a].addr;
    SizesReplaced(bs, lo, hi, a, AfterDown(fs, i, b), c, sz, SizeWordsAfterFree(sz, fs, i, b));
  }

  // ---------------------------------------------------------------------------
  // One memory: no word serves two purposes
  // ---------------------------------------------------------------------------

  /** The start of an entry, and what lies behind its two words, is no entry's link. */
  lemma {:induction false} NoLinkAt(fs: seq<Block>, i: nat, p: int)
    requires Apart(fs) && i < |fs|
    requires p == fs[i].addr || fs[i].addr + NODE_SIZE <= p < fs[i].End()
    ensures forall t :: 0 <= t < |fs| ==> fs[t].addr != p - W
  {
    forall t | 0 <= t < |fs|
      ensures fs[t].addr != p - W
    {
      if t < i { assert fs[t].End() <= fs[i].addr; }
      if i < t { assert fs[i].End() <= fs[t].addr; }
    }
  }

  /** The two sizes that a split writes leave the links alone, and what remains of the entry keeps its own. */
  lemma {:induction false} SplitInPlace(fs: seq<Block>, i: nat, len: nat, head: int, words: map<int, int>)
    requires Chain(fs, head, Links(words)) && Apart(fs) && i < |fs| && fs[i].size - len >= NODE_SIZE
    ensures Chain(fs[..i] + Rest(fs[i], len) + fs[i + 1..], head, Links(SizeWordsAfter(words, fs[i], len)))
  {
    hide Links, Chain, Apart;
    var node, cp, rest, nx := fs[i].addr, fs[i].addr + fs[i].size - len, Rest(fs[i], len), Links(words);
    var ns := fs[..i] + rest + fs[i + 1..];
    assert |rest| == 1 && rest[0].addr == node;
    assert forall t :: 0 <= t < |ns| ==> ns[t].addr == fs[t].addr;
    SameStarts(fs, ns, head, nx);
    NoLinkAt(fs, i, cp);
    NoLinkAt(fs, i, node);
    Stored(words, cp, len);
    Stored(words[cp := len], node, rest[0].size);
    ChainElsewhere(ns, head, nx, cp - W, len);
    ChainElsewhere(ns, head, nx[cp - W := len], node - W, rest[0].size);
  }

  lemma {:induction false} SameStarts(fs: seq<Block>, ns: seq<Block>, head: int, nx: map<int, int>)
    requires Chain(fs, head, nx) && |ns| == |fs| && forall t :: 0 <= t < |ns| ==> ns[t].addr == fs[t].addr
    ensures Chain(ns, head, nx)
  {
    forall t | 0 <= t < |ns|
      ensures ns[t].addr in nx && nx[ns[t].addr] == Head(ns[t + 1..])
    {
      assert fs[t].addr in nx;
    }
  }

  /** The word at `q` lies in the payload of a live block. */
  ghost predicate OfLive(bs: seq<Block>, q: int) {
    exists k :: 0 <= k < |bs| && !bs[k].free && bs[k].Payload() <= q && q + W <= bs[k].End()
  }

  /** No word of a live block's payload is the size of a block or the link of a free one. */
  lemma PayloadIsApart(bs: seq<Block>, lo: int, hi: int, q: int)
    requires WellFormed(bs, lo, hi) && OfLive(bs, q)
    ensures forall j :: 0 <= j < |bs| ==> bs[j].addr != q
    ensures forall j :: 0 <= j < |FreeList(bs)| ==> FreeList(bs)[j].addr != q - W
  {
    var k :| 0 <= k < |bs| && !bs[k].free && bs[k].Payload() <= q && q + W <= bs[k].End();
    forall j | 0 <= j < |bs| ensures bs[j].addr != q && (bs[j].free ==> bs[j].addr != q - W) {
      if bs[j].addr == q { BlocksDisjoint(bs, lo, hi, j, k, q); }
      if bs[j].addr == q - W { BlocksDisjoint(bs, lo, hi, j, k, q - W); }
    }
    forall j | 0 <= j < |FreeList(bs)| ensures FreeList(bs)[j].addr != q - W {
      FreeListHas(bs, FreeList(bs)[j]);
    }
  }

  /** A word of block `m` behind its size is no block's size, and belongs to a live block only if `m` is live. */
  lemma {:induction false} WordOfBlock(bs: seq<Block>, lo: int, hi: int, m: nat, p: int)
    requires WellFormed(bs, lo, hi) && m < |bs| && bs[m].Payload() <= p < bs[m].End()
    ensures forall j :: 0 <= j < |bs| ==> bs[j].addr != p
    ensures OfLive(bs, p) ==> !bs[m].free
    ensures !OfLive(bs, bs[m].addr)
  {
    forall j | 0 <= j < |bs| ensures bs[j].addr != p {
      if bs[j].addr == p { BlocksDisjoint(bs, lo, hi, j, m, p); }
    }
    if OfLive(bs, p) {
      var k :| 0 <= k < |bs| && !bs[k].free && bs[k].Payload() <= p && p + W <= bs[k].End();
      BlocksDisjoint(bs, lo, hi, k, m, p);
    }
    if OfLive(bs, bs[m].addr) { PayloadIsApart(bs, lo, hi, bs[m].addr); }
  }

  /** Allocation writes no word of a live block, and leaves every block its size. */
  lemma {:induction false} AllocKeepsWords(bs: seq<Block>, lo: int, hi: int, i: nat, k: nat, len: nat, words: map<int,
          int>)
    requires WellFormed(bs, lo, hi) && i < |FreeList(bs)| && k < |bs| && bs[k] == FreeList(bs)[i] && Fits(bs[k], len)
    requires len >= W && Sizes(AllocAt(bs, k, len), SizeWordsAfter(words, bs[k], len))
    ensures var after := WordsAfterAlloc(words, FreeList(bs), i, len);
            && Sizes(AllocAt(bs, k, len), after)
            && forall q :: OfLive(bs, q) && q in words ==> q in after && after[q] == words[q]
  {
    hide OfLive, FreeList, Sizes, AllocAt;
    var fs := FreeList(bs);
    if bs[k].size - len >= NODE_SIZE {
      WordOfBlock(bs, lo, hi, k, bs[k].addr + bs[k].size - len);
    } else if i > 0 {
      var m := Locate(bs, i - 1);
      WordOfBlock(bs, lo, hi, m, bs[m].Payload());
      StartsAfterAlloc(bs, k, len, fs[i - 1].addr + W);
      SizesElsewhere(AllocAt(bs, k, len), words, fs[i - 1].addr + W, Head(fs[i + 1..]));
    }
  }

  lemma {:induction false} StartsAfterAlloc(bs: seq<Block>, k: nat, len: nat, p: int)
    requires k < |bs| && Fits(bs[k], len) && bs[k].size - len < NODE_SIZE
    requires forall j :: 0 <= j < |bs| ==> bs[j].addr != p
    ensures forall j :: 0 <= j < |AllocAt(bs, k, len)| ==> AllocAt(bs, k, len)[j].addr != p
  {
  }

  /** The blocks after a free start where blocks started before. */
  lemma {:induction false} StartsAfterFree(bs: seq<Block>, lo: int, hi: int, k: nat, p: int)
    requires WellFormed(bs, lo, hi) && k < |bs| && !bs[k].free
    requires forall j :: 0 <= j < |bs| ==> bs[j].addr != p
    ensures forall j :: 0 <= j < |FreeAt(bs, k)| ==> FreeAt(bs, k)[j].addr != p
  {
    FreeAtShape(bs, k);
  }

  /** Words of live blocks, those of block `k` aside, are as they were. */
  ghost predicate OthersKept(bs: seq<Block>, k: nat, words: map<int, int>, after: map<int, int>)
    requires k < |bs|
  {
    forall q :: OfLive(bs, q) && q in words && !(bs[k].Payload() <= q < bs[k].End()) ==>
      q in after && after[q] == words[q]
  }

  /** Freeing writes no word of another live block, and leaves every block its size. */
  lemma {:induction false} FreeKeepsWords(bs: seq<Block>, lo: int, hi: int, k: nat, words: map<int, int>)
    requires WellFormed(bs, lo, hi) && k < |bs| && !bs[k].free
    requires |FreeList(bs[..k])| <= |FreeList(bs)|
    requires Sizes(FreeAt(bs, k), SizeWordsAfterFree(words, FreeList(bs), |FreeList(bs[..k])|, bs[k]))
    ensures var after := WordsAfterFree(words, FreeList(bs), |FreeList(bs[..k])|, bs[k]);
            && Sizes(FreeAt(bs, k), after)
            && OthersKept(bs, k, words, after)
  {
    hide OfLive, FreeAt, FreeList, Sizes, IsPosition;
    var fs, i, b := FreeList(bs), |FreeList(bs[..k])|, bs[k];
    var sizes := SizeWordsAfterFree(words, fs, i, b);
    var above := Head(fs[if MergesUp(fs, i, b) then i + 1 else i..]);
    WordOfBlock(bs, lo, hi, k, b.Payload());
    StartsAfterFree(bs, lo, hi, k, b.Payload());
    SizesElsewhere(FreeAt(bs, k), sizes, b.Payload(), above);
    if i > 0 {
      var m := Locate(bs, i - 1);
      var p := fs[i - 1].Payload();
      WordOfBlock(bs, lo, hi, m, bs[m].Payload());
      StartsAfterFree(bs, lo, hi, k, p);
      SizesElsewhere(FreeAt(bs, k), sizes[b.Payload() := above], p, if MergesDown(fs, i, b) then above else b.addr);
    }
  }

  /** All that freeing block `k` needs and does, as seen from the layout and its words. */
  lemma {:induction false} FreeFacts(bs: seq<Block>, lo: int, hi: int, k: nat, words: map<int, int>)
    requires WellFormed(bs, lo, hi) && 0 < lo && Sizes(bs, words) && k < |bs| && !bs[k].free
    ensures var fs, i, b := FreeList(bs), |FreeList(bs[..k])|, bs[k];
            && Apart(fs) && SizesOfList(fs, words) && IsPosition(fs, i, b) && (HasFree(bs) <==> fs != [])
            && b.addr > NULL && b.addr in words && words[b.addr] == b.size
            && WellFormed(FreeAt(bs, k), lo, hi)
            && FreeList(FreeAt(bs, k)) == ListAfterFree(fs, i, b)
            && Sizes(FreeAt(bs, k), WordsAfterFree(words, fs, i, b))
            && OthersKept(bs, k, words, WordsAfterFree(words, fs, i, b))
            && OthersKept(bs, k, words, words[b.Payload() := b.addr])
  {
    hide FreeList, FreeAt, ListAfterFree, Apart, WordsAfterFree, OfLive;
    FreeListFacts(bs, lo, hi, words);
    EmptyList(bs);
    InArena(bs, lo, hi, k);
    FreeKeepsLayout(bs, lo, hi, k);
    ListSplits(bs, lo, hi, k);
    FreeListAfterFree(bs, lo, hi, k);
    SizesAfterFree(bs, lo, hi, k, words);
    FreeKeepsWords(bs, lo, hi, k, words);
  }

  /** Clearing the link first makes no difference. */
  lemma {:induction false} ClearedAgain(words: map<int, int>, fs: seq<Block>, i: nat, b: Block)
    requires IsPosition(fs, i, b)
    ensures WordsAfterFree(words[b.addr + W := NULL], fs, i, b) == WordsAfterFree(words, fs, i, b)
  {
  }

  class Heap {
    const base: int
    const maxSize: int
    var freelist: int
    var allocationCount: nat
    var deallocationCount: nat
    /** The arena's words, by their addresses. */
    var words: map<int, int>
    ghost var blocks: seq<Block>

    ghost function Lo(): int { base + HEAP_SIZE }
    ghost function Hi(): int { base + maxSize }

    ghost predicate Valid()
      reads this
    {
      && 0 < base
      && WellFormed(blocks, Lo(), Hi())
      && Sizes(blocks, words)
      && Chain(FreeList(blocks), freelist, Links(words))
    }

    /** heap_create, given the pages it was allocated and their total size. */
    constructor (address: int, size: int)
      requires 0 < address && HEAP_SIZE + NODE_SIZE <= size
      ensures Valid() && base == address && maxSize == size
      ensures blocks == Fresh(Lo(), Hi()) == [Block(address + 2 * W + 8, size - 3 * W - 8, true)]
    {
      hide Links;
      var dataSpace := size - HEAP_SIZE - W;
      var firstBlock := address + HEAP_SIZE;
      base := address;
      maxSize := size;
      allocationCount := 0;
      deallocationCount := 0;
      words := map[firstBlock := dataSpace, firstBlock + W := NULL];
      freelist := firstBlock;
      blocks := [Block(firstBlock, dataSpace, true)];
      new;
      FreeListAroundOne([], blocks[0], []);
      assert blocks == [] + [blocks[0]] + [];
      LinkAt(words, firstBlock);
    }

    /**
     The walk of heap_alloc over free list `fs`: it stops at the first exact fit,
     and otherwise remembers the earliest of the smallest chunks that are large enough.
     */
    method Search(len: nat, ghost fs: seq<Block>) returns (node: int, prev: int, ghost i: nat)
      requires Chain(fs, freelist, Links(words)) && Apart(fs) && SizesOfList(fs, words)
      requires len > 0
      ensures node == NULL ==> forall j :: 0 <= j < |fs| ==> fs[j].size < len
      ensures node != NULL ==> BestOf(fs, len, i) && node == fs[i].addr && prev == Before(fs, i)
    {
      hide Links, Chain, SizesOfList, Apart;
      assert freelist == Head(fs) && fs[0..] == fs by { ListBegins(fs, freelist, words); }
      ghost var c := 0;
      var s, fp1, fp2 := 0, freelist, NULL;
      node, prev, i := NULL, NULL, 0;
      while fp1 != NULL
        invariant 0 <= c <= |fs|
        invariant fp1 == Head(fs[c..]) && fp2 == Before(fs, c)
        invariant forall j :: 0 <= j < c ==> fs[j].size != len
        invariant s == 0 ==> node == NULL && forall j :: 0 <= j < c ==> fs[j].size < len
        invariant s != 0 ==> BestOf(fs[..c], len, i) && s == fs[i].size && node == fs[i].addr && prev == Before(fs, i)
        decreases |fs| - c
      {
        assert fs[..c + 1] == fs[..c] + [fs[c]];
        BestOfExtend(fs[..c], len, i, fs[c]);
        AtEntry(fs, c, freelist, words);
        if words[fp1] == len {
          ExactIsBest(fs, len, c);
          node, prev, i := fp1, fp2, c;
          return;
        } else if words[fp1] > len && (s == 0 || words[fp1] < s) {
          s, node, prev := words[fp1], fp1, fp2;
          i := c;
        }
        fp2, fp1 := fp1, words[fp1 + W];
        c := c + 1;
      }
      if c < |fs| { AtEntry(fs, c, freelist, words); }
      if s != 0 { AtEntry(fs, i, freelist, words); }
      assert fs[..c] == fs;
    }

    /** heap_alloc on the free list; an exact fit is a chunk whose remainder is too small to split, like any other. */
    method TakeFromList(len: nat, ghost fs: seq<Block>) returns (r: Outcome<int>, ghost i: nat)
      requires Chain(fs, freelist, Links(words)) && Apart(fs) && SizesOfList(fs, words)
      requires len > 0
      modifies `freelist, `words
      ensures r.Panic? ==> unchanged(this) && forall j :: 0 <= j < |fs| ==> fs[j].size < len
      ensures r.Returned? ==> BestOf(fs, len, i) && r.value == Taken(fs[i], len).Payload()
      ensures r.Returned? ==> Chain(fs[..i] + Rest(fs[i], len) + fs[i + 1..], freelist, Links(words))
      ensures r.Returned? ==> words == WordsAfterAlloc(old(words), fs, i, len)
    {
      hide Links;
      var node, prev;
      node, prev, i := Search(len, fs);
      if node == NULL {
        return Panic, 0;
      }
      if words[node] - len < NODE_SIZE {
        Unlink(node, prev, fs, i);
        r := Returned(node + W);
      } else {
        var cp := Split(node, len, fs, i);
        r := Returned(cp + W);
      }
    }

    method Alloc(length: nat) returns (r: Outcome<int>)
      requires Valid()
      modifies this
      ensures Valid()
      ensures r.Panic? <==> forall b :: b in old(blocks) && b.free ==> b.size < length || b.size < W
      ensures r.Panic? ==> unchanged(`freelist, `words, `blocks)
      ensures r.Returned? ==> exists b :: b in blocks && !b.free && b.Payload() == r.value
                                          && length <= b.size && (b.size < length + 2 * W || b.size < 3 * W)
      ensures r.Returned? ==>
                exists k :: 0 <= k < |old(blocks)| && old(blocks)[k].free && old(blocks)[k].Payload() <= r.value
                            && r.value + length <= old(blocks)[k].End()
                            && forall j :: 0 <= j < |old(blocks)| && old(blocks)[j].free && j != k
                                           && old(blocks)[j].size >= length && old(blocks)[j].size >= W ==>
                                 old(blocks)[k].size <= old(blocks)[j].size
                                 && (j < k ==> old(blocks)[k].size < old(blocks)[j].size)
      ensures r.Returned? ==> Step(old(blocks), Call.Alloc(length, r.value), blocks)
      ensures forall q :: OfLive(old(blocks), q) && q in old(words) ==> q in words && words[q] == old(words)[q]
      ensures allocationCount == (old(allocationCount) + 1) % 0x1_0000_0000
      ensures unchanged(`deallocationCount)
    {
      hide Links, Chain, Apart, SizesOfList, WordsAfterAlloc, AllocAt, Sizes, WellFormed, OfLive;
      hide FreeList, Taken;
      var len := if length < NODE_SIZE - W then NODE_SIZE - W else length;
      allocationCount := (allocationCount + 1) % 0x1_0000_0000;
      FreeListFacts(blocks, Lo(), Hi(), words);
      ghost var before, i := words, 0;
      r, i := TakeFromList(len, FreeList(blocks));
      if r.Panic? {
        NoFitInLayout(blocks, len);
        forall b | b in blocks && b.free ensures b.size < length || b.size < W {
          assert !Fits(b, len);
        }
      } else {
        ghost var k := AllocFacts(blocks, Lo(), Hi(), i, len, before);
        AllocKeepsWords(blocks, Lo(), Hi(), i, k, len, before);
        WhatIsServed(blocks, length, k);
        blocks := AllocAt(blocks, k, len);
      }
    }

    /** The lower part of the node stays on the list; the upper part gets a size word of its own. */
    method Split(node: int, len: nat, ghost fs: seq<Block>, ghost i: nat) returns (cp: int)
      requires Chain(fs, freelist, Links(words)) && Apart(fs) && SizesOfList(fs, words)
      requires i < |fs| && node == fs[i].addr && fs[i].size - len >= NODE_SIZE
      modifies `words
      ensures cp == node + fs[i].size - len
      ensures words == SizeWordsAfter(old(words), fs[i], len)
      ensures Chain(fs[..i] + Rest(fs[i], len) + fs[i + 1..], freelist, Links(words))
    {
      hide Links, Chain, Apart, SizesOfList;
      AtEntry(fs, i, freelist, words);
      SplitInPlace(fs, i, len, freelist, words);
      var s := words[node];
      s := s - len;
      cp := node + s;
      words := words[cp := len];
      words := words[node := s - W];
    }

    /** The pointer that led to `node` now leads past it. */
    method Unlink(node: int, prev: int, ghost fs: seq<Block>, ghost i: nat)
      requires Chain(fs, freelist, Links(words)) && Apart(fs) && SizesOfList(fs, words)
      requires i < |fs| && node == fs[i].addr && prev == Before(fs, i)
      modifies `freelist, `words
      ensures Chain(fs[..i] + [] + fs[i + 1..], freelist, Links(words))
      ensures words == if i == 0 then old(words) else old(words)[fs[i - 1].addr + W := Head(fs[i + 1..])]
    {
      hide Links, Chain, Apart, SizesOfList;
      AtEntry(fs, i, freelist, words);
      if i > 0 { AtEntry(fs, i - 1, freelist, words); }
      ChainWithout(fs, i, freelist, Links(words));
      assert fs[..i] + [] + fs[i + 1..] == if i == 0 then fs[1..] else fs[..i] + fs[i + 1..];
      Stored(words, prev + W, words[node + W]);
      if prev != NULL { words := words[prev + W := words[node + W]]; } else { freelist := words[node + W]; }
    }

    /** The walk of heap_free, up to the first node above the new one. */
    method Walk(fpnew: int, ghost fs: seq<Block>, ghost i: nat, ghost b: Block) returns (fp1: int, fp2: int)
      requires fpnew == b.addr && IsPosition(fs, i, b) && SizesOfList(fs, words)
      requires Chain(fs, freelist, Links(words))
      ensures fp1 == Head(fs[i..]) && fp2 == Before(fs, i)
    {
      hide Links, Chain, SizesOfList;
      assert freelist == Head(fs) && fs[0..] == fs by { ListBegins(fs, freelist, words); }
      fp1, fp2 := freelist, NULL;
      ghost var c := 0;
      while fp1 != NULL && fp1 < fpnew
        invariant 0 <= c <= i && fp1 == Head(fs[c..]) && fp2 == Before(fs, c)
        decreases i - c
      {
        AtEntry(fs, c, freelist, words);
        fp2, fp1 := fp1, words[fp1 + W];
        c := c + 1;
      }
      if c < |fs| { AtEntry(fs, c, freelist, words); }
    }

    /**
     heap_free on the free list. Entry `i` is where the walk stops: the first node above the new one.
     On an empty list the missing return lets the walk run over the list just made,
     and the node is linked to itself.
     */
    method PutOnList(fpnew: int, ghost fs: seq<Block>, ghost i: nat, ghost b: Block)
      requires Chain(fs, freelist, Links(words)) && Apart(fs) && SizesOfList(fs, words)
      requires fpnew == b.addr > NULL && fpnew in words && words[fpnew] == b.size
      requires IsPosition(fs, i, b)
      modifies `freelist, `words
      ensures fs == [] ==> freelist == fpnew && words == old(words)[fpnew + W := fpnew]
      ensures fs == [] ==> forall gs :: !Chain(gs, freelist, Links(words))
      ensures fs != [] ==> Chain(ListAfterFree(fs, i, b), freelist, Links(words))
      ensures fs != [] ==> words == WordsAfterFree(old(words), fs, i, b)
    {
      hide Links;
      ChainElsewhere(fs, freelist, Links(words), fpnew, NULL);
      Stored(words, fpnew + W, NULL);
      words := words[fpnew + W := NULL];
      ghost var head := freelist;
      if freelist == NULL {
        PutOnEmptyList(fpnew);
        return;
      }
      var fp1, fp2 := Walk(fpnew, fs, i, b);
      PutBetween(fpnew, fp1, fp2, fs, i, b);
      ListAfterFreeIsThere(fs, i, b, head, old(words), freelist);
      ClearedAgain(old(words), fs, i, b);
    }

    /** The new node is linked to the nodes on either side, and joined to those it touches. */
    method PutBetween(fpnew: int, fp1: int, fp2: int, ghost fs: seq<Block>, ghost i: nat, ghost b: Block)
      requires fs != [] && Chain(fs, freelist, Links(words)) && Apart(fs) && SizesOfList(fs, words)
      requires fpnew == b.addr > NULL && fpnew in words && words[fpnew] == b.size && IsPosition(fs, i, b)
      requires fp1 == Head(fs[i..]) && fp2 == Before(fs, i)
      requires fpnew + W in words && words[fpnew + W] == NULL
      modifies `freelist, `words
      ensures freelist == if i == 0 then fpnew else old(freelist)
      ensures words == WordsAfterFree(old(words), fs, i, b)
    {
      hide Chain, Links;
      Neighbours(fs, i, b, words, freelist, Links(words));
      if fp1 != NULL {
        LinkAt(words, fp1);
        LinkAbove(fpnew, fp1);
        if fp2 == NULL {
          freelist := fpnew;
          return;
        }
      }
      LinkBelow(fpnew, fp2);
    }

    /** The new node precedes `fp1`, and absorbs it if they touch. */
    method LinkAbove(fpnew: int, fp1: int)
      requires fpnew in words && fp1 in words && fp1 + W in words && fpnew + W < fp1
      modifies `words
      ensures words == if fpnew + W + old(words)[fpnew] == fp1
                       then old(words)[fpnew := old(words)[fpnew] + W + old(words)[fp1]]
                                      [fpnew + W := old(words)[fp1 + W]]
                       else old(words)[fpnew + W := fp1]
    {
      words := words[fpnew + W := fp1];
      if fpnew + W + words[fpnew] == fp1 {
        words := words[fpnew := words[fpnew] + (words[fp1] + W)];
        words := words[fpnew + W := words[fp1 + W]];
      }
    }

    /** The new node follows `fp2`, and is absorbed by it if they touch. */
    method LinkBelow(fpnew: int, fp2: int)
      requires fpnew in words && fp2 in words && fpnew + W in words && fp2 + W < fpnew
      modifies `words
      ensures words == if fp2 + W + old(words)[fp2] == fpnew
                       then old(words)[fp2 := old(words)[fp2] + W + old(words)[fpnew]]
                                      [fp2 + W := old(words)[fpnew + W]]
                       else old(words)[fp2 + W := fpnew]
    {
      words := words[fp2 + W := fpnew];
      if fp2 + W + words[fp2] == fpnew {
        words := words[fp2 := words[fp2] + (words[fpnew] + W)];
        words := words[fp2 + W := words[fpnew + W]];
      }
    }

    /**
       The walk over the list of one that was just made: the node is not below itself,
       so it becomes its own successor.
     */
    method PutOnEmptyList(fpnew: int)
      requires fpnew in words && words[fpnew] > 0 && fpnew != NULL
      modifies `freelist, `words
      ensures freelist == fpnew && words == old(words)[fpnew + W := fpnew]
      ensures forall fs :: !Chain(fs, freelist, Links(words))
    {
      hide Links;
      freelist := fpnew;
      var fp1 := freelist;
      words := words[fpnew + W := fp1];
      assert fpnew + W + words[fpnew] != fp1;
      LinkAt(words, fpnew);
      forall fs { SelfLinkIsNoList(fs, freelist, Links(words)); }
    }

    /** heap_free of an address that heap_alloc returned, or of NULL. */
    method Free(p: int, ghost k: nat)
      requires Valid()
      requires p != NULL ==> k < |blocks| && !blocks[k].free && blocks[k].Payload() == p
      modifies this
      ensures p == NULL ==> unchanged(this)
      ensures p != NULL && HasFree(old(blocks)) ==> Valid() && Step(old(blocks), Call.Free(p), blocks)
      ensures p != NULL && !HasFree(old(blocks)) ==> freelist == p - W && p in words && words[p] == p - W
      ensures p != NULL ==> (HasFree(old(blocks)) <==> exists fs :: Chain(fs, freelist, Links(words)))
      ensures p != NULL ==> OthersKept(old(blocks), k, old(words), words)
      ensures p != NULL ==> deallocationCount == (old(deallocationCount) + 1) % 0x1_0000_0000
      ensures unchanged(`allocationCount)
    {
      hide Links, Apart, SizesOfList, WordsAfterFree, OthersKept, IsPosition, FreeList, FreeAt, ListAfterFree;
      hide WellFormed;
      if p == NULL { return; }
      deallocationCount := (deallocationCount + 1) % 0x1_0000_0000;
      ghost var i, b := |FreeList(blocks[..k])|, blocks[k];
      FreeFacts(blocks, Lo(), Hi(), k, words);
      PutOnList(p - W, FreeList(blocks), i, b);
      blocks := FreeAt(blocks, k);
    }

    /** The owner of a live block may write any word of its payload, the one that was its link included. */
    method UserStore(q: int, word: int)
      requires Valid() && OfLive(blocks, q)
      modifies `words
      ensures Valid() && words == old(words)[q := word]
    {
      hide Links;
      PayloadIsApart(blocks, Lo(), Hi(), q);
      Stored(words, q, word);
      ChainElsewhere(FreeList(blocks), freelist, Links(words), q - W, word);
      words := words[q := word];
    }
  }

  /** A run that breaks the heap: all of it is allocated at once and given back, and what is left is no list. */
  method FillThenFree(address: int, size: int) returns (heap: Heap, p: int)
    requires 0 < address && HEAP_SIZE + NODE_SIZE <= size
    ensures p == address + HEAP_SIZE + W && heap.freelist == p - W
    ensures forall fs :: !Chain(fs, heap.freelist, Links(heap.words))
  {
    hide Links, Chain, OthersKept;
    heap := new Heap(address, size);
    ghost var whole := heap.blocks[0];
    var r := heap.Alloc(size - HEAP_SIZE - W);
    assert Fits(whole, Request(size - HEAP_SIZE - W));
    p := r.value;
    assert heap.blocks == [whole.(free := false)];
    heap.Free(p, 0);
  }
}
