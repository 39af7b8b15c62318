/** The memory map as bytes: moving its entries up with either memmove is what the map's model says. */
module MapBytes {
  import opened Memmove
  import opened MapEntries
  import opened MemoryMap
  import opened MemoryTypes

  const RECORD: nat := 20

  /** A number of `k` bytes, little end first. */
  function Little(n: nat, k: nat): (bytes: seq<Byte>)
    ensures |bytes| == k
  {
    if k == 0 then [] else [n % 256] + Little(n / 256, k - 1)
  }

  function Pages(e: Entry): (bytes: seq<Byte>)
    ensures |bytes| == RECORD - 1
  {
    [0, 0, 0] + Little(e.base, 8) + Little(e.count, 8)
  }

  /** FirmwareMemoryMapItem: the type in four bytes, of which the first tells, then the pages. */
  function Record(e: Entry): (bytes: seq<Byte>)
    ensures |bytes| == RECORD
  {
    [Code(e.kind)] + Pages(e)
  }

  function Image(s: seq<Entry>): (bytes: seq<Byte>)
    ensures |bytes| == |s| * RECORD
  {
    if s == [] then [] else Image(s[..|s| - 1]) + Record(s[|s| - 1])
  }

  lemma {:induction false} ImageAt(s: seq<Entry>, k: nat, o: nat)
    requires k < |s| && o < RECORD
    ensures k * RECORD + o < |Image(s)| && Image(s)[k * RECORD + o] == Record(s[k])[o]
  {
    hide Record;
    if k < |s| - 1 {
      ImageAt(s[..|s| - 1], k, o);
    }
  }

  lemma MovedAt(m: seq<Byte>, dest: nat, src: nat, count: nat, b: nat)
    requires dest + count <= |m| && src + count <= |m| && b < |m|
    ensures |Moved(m, dest, src, count)| == |m|
    ensures Moved(m, dest, src, count)[b] == if dest <= b < dest + count then m[b - dest + src] else m[b]
  {
  }

  lemma SameBytes(a: seq<Byte>, b: seq<Byte>)
    requires |a| == |b| && forall k :: 0 <= k < |a| ==> a[k] == b[k]
    ensures a == b
  {
  }

  /** With a memmove that keeps its promise the bytes are those of the entries one place further on. */
  lemma PromisedShift(s: seq<Entry>, i: nat, c: nat)
    requires i < c < |s|
    ensures Moved(Image(s), (i + 1) * RECORD, i * RECORD, (c - i) * RECORD) == Image(Shifted(s, i, c, Promised))
  {
    hide Moved, Image, Record;
    var m, t := Image(s), Shifted(s, i, c, Promised);
    var dest, src, count := (i + 1) * RECORD, i * RECORD, (c - i) * RECORD;
    var r, u := Moved(m, dest, src, count), Image(t);
    MovedAt(m, dest, src, count, 0);
    forall b | 0 <= b < |m|
      ensures r[b] == u[b]
    {
      var k, o := b / RECORD, b % RECORD;
      MovedAt(m, dest, src, count, b);
      ImageAt(t, k, o);
      ImageAt(s, k, o);
      if i < k <= c { ImageAt(s, k - 1, o); }
    }
    SameBytes(r, u);
  }

  /** Entries moved keep their pages, and only the first byte of a record tells the type. */
  lemma RecordByte(s: seq<Entry>, i: nat, c: nat, k: nat, o: nat)
    requires i < c && c + 1 < |s| && k < |s| && o < RECORD
    ensures |Shifted(s, i, c, Loaders)| == |s|
    ensures Record(Shifted(s, i, c, Loaders)[k])[o]
            == Record(s[if (if o > 0 then i < k <= c else i + 1 < k <= c + 1) then k - 1 else k])[o]
  {
    var t, from := Shifted(s, i, c, Loaders)[k], s[if i < k <= c then k - 1 else k];
    assert Pages(t) == Pages(from);
    assert o > 0 ==> Record(t)[o] == Pages(t)[o - 1] && Record(from)[o] == Pages(from)[o - 1];
  }

  lemma LoadersByte(s: seq<Entry>, i: nat, c: nat, k: nat, o: nat)
    requires i < c && c + 1 < |s| && k < |s| && o < RECORD
    ensures var r := MovedByLoader(Image(s), (i + 1) * RECORD, i * RECORD, (c - i) * RECORD);
            var u := Image(Shifted(s, i, c, Loaders));
            |r| == |u| == |s| * RECORD && k * RECORD + o < |u| && r[k * RECORD + o] == u[k * RECORD + o]
  {
    hide Moved, Image, Record, Shifted;
    MovedAt(Image(s), (i + 1) * RECORD + 1, i * RECORD + 1, (c - i) * RECORD, k * RECORD + o);
    RecordByte(s, i, c, k, o);
    ImageAt(Shifted(s, i, c, Loaders), k, o);
    ImageAt(s, k, o);
    if i < k <= c + 1 { ImageAt(s, k - 1, o); }
  }

  /** With the loader's memmove they are those of the entries with the types it gets wrong. */
  lemma LoadersShift(s: seq<Entry>, i: nat, c: nat)
    requires i < c && c + 1 < |s|
    ensures MovedByLoader(Image(s), (i + 1) * RECORD, i * RECORD, (c - i) * RECORD) == Image(Shifted(s, i, c, Loaders))
  {
    hide MovedByLoader, Image, Shifted;
    var r, u := MovedByLoader(Image(s), (i + 1) * RECORD, i * RECORD, (c - i) * RECORD),
        Image(Shifted(s, i, c, Loaders));
    LoadersByte(s, i, c, 0, 0);
    forall b | 0 <= b < |u|
      ensures r[b] == u[b]
    {
      var k, o := b / RECORD, b % RECORD;
      LoadersByte(s, i, c, k, o);
    }
    SameBytes(r, u);
  }
}
