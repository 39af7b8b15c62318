/** Entries of the memory map: ranges of pages, each with a type. */
module MapEntries {
  import opened MemoryTypes

  datatype Entry = Entry(base: nat, count: nat, kind: MemoryType) {
    function End(): nat { base + count }
    predicate Covers(p: nat) { base <= p < End() }
    predicate Proper() { count > 0 && End() < PAGE_LIMIT }
  }

  /** The entries up to the terminator. */
  function Listed(s: seq<Entry>): seq<Entry> {
    if s == [] || s[0].count == 0 then [] else [s[0]] + Listed(s[1..])
  }

  /** The kind of page `p`, by the first entry that covers it. */
  function KindAt(s: seq<Entry>, p: nat): Option<MemoryType> {
    if s == [] then None
    else if s[0].Covers(p) then Some(s[0].kind)
    else KindAt(s[1..], p)
  }

  /** In ascending order, and no page in two entries. */
  ghost predicate Sorted(s: seq<Entry>) {
    && (forall i :: 0 <= i < |s| ==> s[i].count > 0)
    && (forall i, j :: 0 <= i < j < |s| ==> s[i].End() <= s[j].base)
  }

  /**
     `t` is `s` with those pages from `base` up to `cut` that nothing covered yet:
     who comes first keeps the page, and nothing else becomes covered.
   */
  ghost predicate Extended(s: seq<Entry>, t: seq<Entry>, base: nat, cut: nat, kind: MemoryType) {
    forall p: nat :: KindAt(t, p) == if KindAt(s, p).Some? then KindAt(s, p) else if base <= p < cut then Some(kind)
        else None
  }

  const PAGE_LIMIT: nat := 0x1_0000_0000_0000_0000

  /** `n` listed entries, none of which passes 2^64, and nothing but terminators after them. */
  ghost predicate Table(s: seq<Entry>, n: nat) {
    && n <= |s| && Sorted(s[..n])
    && (forall i :: 0 <= i < n ==> s[i].End() < PAGE_LIMIT)
    && (forall i :: n <= i < |s| ==> s[i].count == 0)
  }

  lemma {:induction false} ListedOfTable(s: seq<Entry>, n: nat)
    requires Table(s, n)
    ensures Listed(s) == s[..n]
  {
    if n > 0 {
      assert s[..n][0] == s[0];
      assert s[1..][..n - 1] == s[..n][1..];
      ListedOfTable(s[1..], n - 1);
    }
  }

  lemma {:induction false} KindAtConcat(a: seq<Entry>, b: seq<Entry>, p: nat)
    ensures KindAt(a + b, p) == if KindAt(a, p).Some? then KindAt(a, p) else KindAt(b, p)
  {
    if a == [] {
      assert a + b == b;
    } else {
      assert (a + b)[1..] == a[1..] + b;
      KindAtConcat(a[1..], b, p);
    }
  }

  lemma {:induction false} Covered(s: seq<Entry>, p: nat)
    ensures KindAt(s, p).Some? <==> exists i :: 0 <= i < |s| && s[i].Covers(p)
  {
    if s != [] && !s[0].Covers(p) {
      Covered(s[1..], p);
      if KindAt(s[1..], p).Some? {
        var i :| 0 <= i < |s| - 1 && s[1..][i].Covers(p);
        assert s[i + 1].Covers(p);
      }
      if i :| 0 <= i < |s| && s[i].Covers(p) { assert s[1..][i - 1].Covers(p); }
    }
  }

  lemma {:induction false} KindOfCover(s: seq<Entry>, k: nat, p: nat)
    requires Sorted(s) && k < |s| && s[k].Covers(p)
    ensures KindAt(s, p) == Some(s[k].kind)
  {
    if k > 0 {
      assert s[0].End() <= s[k].base;
      KindOfCover(s[1..], k - 1, p);
    }
  }
}
