/**
 The file allocation table, in its three formats: entries of 12, 16 and 28 bits.
 See Microsoft's FAT specification (fatgen103), section "FAT Type Determination".
 */
module FatTable {
  import opened Bits

  type Byte = b: int | 0 <= b < 256

  datatype FatType = FAT12 | FAT16 | FAT32

  /** What the mount has found out about the volume. */
  datatype Volume = Volume(
    fatType: FatType,
    bytesPerSector: nat,
    sectorsPerCluster: nat,
    activeFatSectorStart: nat,
    rootDirSectorStart: nat,
    rootDirSectors: nat,
    rootDirStartCluster: nat,
    dataSectorStart: nat)
  {
    /** Sector sizes for which no 16-bit or 28-bit entry crosses a sector boundary. */
    predicate Valid() {
      && bytesPerSector >= 2 && sectorsPerCluster > 0
      && (fatType.FAT16? ==> bytesPerSector % 2 == 0)
      && (fatType.FAT32? ==> bytesPerSector % 4 == 0)
    }

    function BytesPerCluster(): (n: nat)
      ensures Valid() ==> n > 0
    {
      sectorsPerCluster * bytesPerSector
    }
  }

  /** The disk: every sector can be read, and has the volume's sector size. */
  type Sectors = nat -> seq<Byte>

  ghost predicate IsDisk(disk: Sectors, v: Volume) {
    forall n :: |disk(n)| == v.bytesPerSector
  }

  /** read_sectors. */
  function ReadSectors(disk: Sectors, start: nat, count: nat): seq<Byte> {
    if count == 0 then [] else ReadSectors(disk, start, count - 1) + disk(start + count - 1)
  }

  lemma {:induction false} ReadSectorsLength(disk: Sectors, v: Volume, start: nat, count: nat)
    requires IsDisk(disk, v)
    ensures |ReadSectors(disk, start, count)| == count * v.bytesPerSector
  {
    if count > 0 { ReadSectorsLength(disk, v, start, count - 1); }
  }

  /** Byte `offset` of the table on disk. */
  function FatByte(disk: Sectors, v: Volume, offset: nat): Byte
    requires v.bytesPerSector > 0
  {
    var sector := disk(v.activeFatSectorStart + offset / v.bytesPerSector);
    if offset % v.bytesPerSector < |sector| then sector[offset % v.bytesPerSector] else 0
  }

  /** A 16-bit little-endian number. */
  function Little(low: nat, high: nat): nat { low + 256 * high }

  /** Where a cluster's entry begins. */
  function FatOffset(t: FatType, cluster: nat): nat {
    match t
    case FAT12 => cluster + cluster / 2
    case FAT16 => cluster * 2
    case FAT32 => cluster * 4
  }

  /** A cluster's entry, from the bytes of the table as if there were no sectors. */
  function FatEntry(disk: Sectors, v: Volume, cluster: nat): nat
    requires v.bytesPerSector > 0
  {
    var at := FatOffset(v.fatType, cluster);
    var low := Little(FatByte(disk, v, at), FatByte(disk, v, at + 1));
    match v.fatType
    case FAT12 => if cluster % 2 == 1 then low / 16 else low % 0x1000
    case FAT16 => low
    case FAT32 => (low + 0x1_0000 * Little(FatByte(disk, v, at + 2), FatByte(disk, v, at + 3))) % 0x1000_0000
  }

  /** The marks that end a chain. */
  predicate IsEnd(t: FatType, cluster: nat) {
    match t
    case FAT12 => cluster >= 0xFF8
    case FAT16 => cluster >= 0xFFF8
    case FAT32 => cluster >= 0x0FFF_FFF8
  }

  /** Bytes of one sector are those of the table. */
  lemma ByteInSector(disk: Sectors, v: Volume, offset: nat, k: nat)
    requires v.bytesPerSector > 0 && IsDisk(disk, v) && offset % v.bytesPerSector + k < v.bytesPerSector
    ensures disk(v.activeFatSectorStart + offset / v.bytesPerSector)[offset % v.bytesPerSector + k] ==
              FatByte(disk, v, offset + k)
  {
    Advance(offset, k, v.bytesPerSector);
  }

  lemma ByteInNextSector(disk: Sectors, v: Volume, offset: nat)
    requires v.bytesPerSector > 0 && IsDisk(disk, v) && offset % v.bytesPerSector == v.bytesPerSector - 1
    ensures disk(v.activeFatSectorStart + offset / v.bytesPerSector + 1)[0] == FatByte(disk, v, offset + 1)
  {
    var m := v.bytesPerSector;
    assert offset + 1 == (offset / m + 1) * m;
    ModUnique(offset + 1, m, offset / m + 1, 0);
  }

  lemma Advance(offset: nat, k: nat, m: nat)
    requires m > 0 && offset % m + k < m
    ensures (offset + k) / m == offset / m && (offset + k) % m == offset % m + k
  {
    ModUnique(offset + k, m, offset / m, offset % m + k);
  }

  /** Where an entry is: the sector its first byte is in, and the offset there. */
  function SectorAt(v: Volume, offset: nat): nat
    requires v.bytesPerSector > 0
  {
    v.activeFatSectorStart + Quotient(offset, v.bytesPerSector)
  }

  /** One sector, and its bytes from those of the table. */
  lemma FromSector(disk: Sectors, v: Volume, offset: nat, k: nat)
    requires v.Valid() && IsDisk(disk, v) && Remainder(offset, v.bytesPerSector) + k < v.bytesPerSector
    ensures var buffer := ReadSectors(disk, SectorAt(v, offset), 1);
            && |buffer| == v.bytesPerSector
            && buffer[Remainder(offset, v.bytesPerSector) + k] == FatByte(disk, v, offset + k)
  {
    hide FatByte, ReadSectors;
    OneSector(disk, SectorAt(v, offset));
    ByteInSector(disk, v, offset, k);
  }

  /** Two sectors, for an entry that begins with the last byte of the first. */
  lemma FromTwoSectors(disk: Sectors, v: Volume, offset: nat)
    requires v.Valid() && IsDisk(disk, v) && Remainder(offset, v.bytesPerSector) == v.bytesPerSector - 1
    ensures var buffer, at := ReadSectors(disk, SectorAt(v, offset), 2), Remainder(offset, v.bytesPerSector);
            && |buffer| == 2 * v.bytesPerSector
            && buffer[at] == FatByte(disk, v, offset) && buffer[at + 1] == FatByte(disk, v, offset + 1)
  {
    hide FatByte, ReadSectors;
    TwoSectors(disk, v, SectorAt(v, offset));
    ByteInSector(disk, v, offset, 0);
    ByteInNextSector(disk, v, offset);
  }

  /**
     fat_getFatEntry: reads the sector, or for a 12-bit entry that begins with a
     sector's last byte the two sectors, and puts the entry together from there.
   */
  method GetFatEntry(disk: Sectors, v: Volume, cluster: nat) returns (result: nat)
    requires v.Valid() && IsDisk(disk, v)
    ensures result == FatEntry(disk, v, cluster)
  {
    hide FatByte, Little, ReadSectors, Quotient, Remainder, SectorAt, IsDisk;
    var fatOffset := FatOffset(v.fatType, cluster);
    var thisFatSecNum := SectorAt(v, fatOffset);
    var thisFatEntOffset := Remainder(fatOffset, v.bytesPerSector);
    var buffer;
    if v.fatType.FAT12? && thisFatEntOffset == v.bytesPerSector - 1 {
      buffer := ReadSectors(disk, thisFatSecNum, 2);
      FromTwoSectors(disk, v, fatOffset);
    } else {
      buffer := ReadSectors(disk, thisFatSecNum, 1);
      EntryFits(v, cluster);
      FromSector(disk, v, fatOffset, 0);
      FromSector(disk, v, fatOffset, 1);
      if v.fatType.FAT32? {
        FromSector(disk, v, fatOffset, 2);
        FromSector(disk, v, fatOffset, 3);
      }
    }
    var low := Little(buffer[thisFatEntOffset], buffer[thisFatEntOffset + 1]);
    assert low == Little(FatByte(disk, v, fatOffset), FatByte(disk, v, fatOffset + 1));
    match v.fatType
    case FAT12 =>
      result := if cluster % 2 == 1 then low / 16 else low % 0x1000;
    case FAT16 =>
      result := low;
    case FAT32 =>
      var high := Little(buffer[thisFatEntOffset + 2], buffer[thisFatEntOffset + 3]);
      assert high == Little(FatByte(disk, v, fatOffset + 2), FatByte(disk, v, fatOffset + 3));
      result := (low + 0x1_0000 * high) % 0x1000_0000;
  }

  /** The bytes that an entry takes part of. */
  function EntryBytes(t: FatType): nat {
    if t.FAT32? then 4 else 2
  }

  /** An entry lies in one sector, unless it has 12 bits and begins with the sector's last byte. */
  lemma EntryFits(v: Volume, cluster: nat)
    requires v.Valid()
    ensures var at := Remainder(FatOffset(v.fatType, cluster), v.bytesPerSector);
            at + EntryBytes(v.fatType) <= v.bytesPerSector || (v.fatType.FAT12? && at == v.bytesPerSector - 1)
  {
    match v.fatType
    case FAT12 =>
    case FAT16 => MultipleFits(cluster, 2, v.bytesPerSector);
    case FAT32 => MultipleFits(cluster, 4, v.bytesPerSector);
  }

  lemma OneSector(disk: Sectors, n: nat)
    ensures ReadSectors(disk, n, 1) == disk(n)
  {
    assert ReadSectors(disk, n, 0) == [];
  }

  lemma TwoSectors(disk: Sectors, v: Volume, n: nat)
    requires IsDisk(disk, v) && v.bytesPerSector > 0
    ensures |ReadSectors(disk, n, 2)| == 2 * v.bytesPerSector
    ensures ReadSectors(disk, n, 2)[v.bytesPerSector - 1] == disk(n)[v.bytesPerSector - 1]
    ensures ReadSectors(disk, n, 2)[v.bytesPerSector] == disk(n + 1)[0]
  {
    OneSector(disk, n);
    assert ReadSectors(disk, n, 2) == disk(n) + disk(n + 1);
  }

  /** An entry of `size` bytes does not cross the end of a sector whose size is a multiple of that. */
  lemma MultipleFits(k: nat, size: nat, m: nat)
    requires size > 0 && m > 0 && m % size == 0
    ensures (k * size) % m + size <= m
  {
    var q, r := (k * size) / m, (k * size) % m;
    var n := m / size;
    assert k * size == q * m + r;
    assert m == n * size;
    assert r == (k - q * n) * size by {
      assert q * m == (q * n) * size;
      assert (k - q * n) * size == k * size - (q * n) * size;
    }
    var x := k - q * n;
    assert x * size < n * size;
    if x >= n { MulMonotone(n, x, size); }
    MulMonotone(x + 1, n, size);
    assert (x + 1) * size == x * size + size;
  }

  lemma MulMonotone(a: int, b: int, m: int)
    requires m > 0
    ensures a <= b ==> a * m <= b * m
  {
    if a <= b { assert (b - a) * m >= 0; }
  }

  // ---------------------------------------------------------------------------
  // Packing of 12-bit entries
  // ---------------------------------------------------------------------------

  type Value12 = n: int | 0 <= n < 0x1000

  /** Two entries to three bytes, little end first. */
  function Pack12(values: seq<Value12>): seq<Byte> {
    if values == [] then []
    else if |values| == 1 then [values[0] % 256, values[0] / 256]
    else [values[0] % 256, values[0] / 256 + values[1] % 16 * 16, values[1] / 16] + Pack12(values[2..])
  }

  lemma {:induction false} Unpack12(values: seq<Value12>, k: nat)
    requires k < |values|
    ensures var at, p := k + k / 2, Pack12(values);
            && at + 1 < |p|
            && values[k] == if k % 2 == 1 then Little(p[at], p[at + 1]) / 16 else Little(p[at], p[at + 1]) % 0x1000
  {
    hide Little;
    if k >= 2 {
      Unpack12(values[2..], k - 2);
      assert (k - 2) + (k - 2) / 2 == k + k / 2 - 3 && (k - 2) % 2 == k % 2;
      OnePairOff(values, k + k / 2);
    } else if |values| == 1 {
      SinglePacked(values[0]);
    } else {
      PairPacked(values[0], values[1]);
    }
  }

  lemma {:induction false} OnePairOff(values: seq<Value12>, at: nat)
    requires |values| >= 2 && 3 <= at && at - 2 < |Pack12(values[2..])|
    ensures var p, q := Pack12(values), Pack12(values[2..]);
            at + 1 < |p| && p[at] == q[at - 3] && p[at + 1] == q[at - 2]
  {
    var x, y := values[0], values[1];
    assert Pack12(values) == [x % 256, x / 256 + y % 16 * 16, y / 16] + Pack12(values[2..]);
  }

  lemma SinglePacked(x: Value12)
    ensures Little(x % 256, x / 256) % 0x1000 == x
  {
  }

  lemma PairPacked(x: Value12, y: Value12)
    ensures Little(x % 256, x / 256 + y % 16 * 16) % 0x1000 == x
    ensures Little(x / 256 + y % 16 * 16, y / 16) / 16 == y
  {
    var a, b := x / 256, y / 16;
    assert x == 256 * a + x % 256 && y == 16 * b + y % 16;
  }

  type Value16 = n: int | 0 <= n < 0x1_0000
  type Value32 = n: int | 0 <= n < 0x1_0000_0000

  /** Entries of two bytes, little end first. */
  function Pack16(values: seq<Value16>): seq<Byte> {
    if values == [] then [] else [values[0] % 256, values[0] / 256] + Pack16(values[1..])
  }

  /** Entries of four bytes, little end first. */
  function Pack32(values: seq<Value32>): seq<Byte> {
    if values == [] then []
    else
      var v := values[0];
      [v % 256, v / 256 % 256, v / 0x1_0000 % 256, v / 0x100_0000] + Pack32(values[1..])
  }

  lemma {:induction false} Unpack16(values: seq<Value16>, k: nat)
    requires k < |values|
    ensures var p := Pack16(values); 2 * k + 1 < |p| && Little(p[2 * k], p[2 * k + 1]) == values[k]
  {
    if k > 0 { Unpack16(values[1..], k - 1); }
  }

  lemma FourBytes(v: Value32)
    ensures Little(v % 256, v / 256 % 256) + 0x1_0000 * Little(v / 0x1_0000 % 256, v / 0x100_0000) == v
  {
    var a, b := v / 256, v / 0x1_0000;
    assert b == a / 256 && v / 0x100_0000 == b / 256;
    assert v == 256 * a + v % 256 && a == 256 * b + a % 256 && b == 256 * (b / 256) + b % 256;
  }

  lemma {:induction false} Unpack32(values: seq<Value32>, k: nat)
    requires k < |values|
    ensures var p, at := Pack32(values), 4 * k;
            && at + 3 < |p|
            && Little(p[at], p[at + 1]) + 0x1_0000 * Little(p[at + 2], p[at + 3]) == values[k]
  {
    hide Little;
    if k > 0 {
      Unpack32(values[1..], k - 1);
      OneEntryOff(values, k);
    } else {
      FourBytes(values[0]);
    }
  }

  lemma {:induction false} OneEntryOff(values: seq<Value32>, k: nat)
    requires 0 < k < |values| && 4 * k - 1 < |Pack32(values[1..])|
    ensures var p, q, at := Pack32(values), Pack32(values[1..]), 4 * (k - 1);
            && at + 7 < |p| && p[at + 4] == q[at] && p[at + 5] == q[at + 1]
            && p[at + 6] == q[at + 2] && p[at + 7] == q[at + 3]
  {
    var v := values[0];
    assert Pack32(values) == [v % 256, v / 256 % 256, v / 0x1_0000 % 256, v / 0x100_0000] + Pack32(values[1..]);
  }

  /** The first sectors of the table hold these bytes. */
  ghost predicate TableHolds(disk: Sectors, v: Volume, bytes: seq<Byte>)
    requires v.bytesPerSector > 0 && IsDisk(disk, v)
  {
    forall i :: 0 <= i < |bytes| ==>
      disk(v.activeFatSectorStart + i / v.bytesPerSector)[i % v.bytesPerSector] == bytes[i]
  }

  lemma HeldByte(disk: Sectors, v: Volume, bytes: seq<Byte>, i: nat)
    requires v.bytesPerSector > 0 && IsDisk(disk, v) && TableHolds(disk, v, bytes) && i < |bytes|
    ensures FatByte(disk, v, i) == bytes[i]
  {
  }

  /** If the table on disk holds packed values, fat_getFatEntry gives them back, across sector boundaries too. */
  lemma {:induction false} PackedTableIsRead(disk: Sectors, v: Volume, values: seq<Value12>, k: nat)
    requires v.Valid() && v.fatType.FAT12? && IsDisk(disk, v) && k < |values|
    requires TableHolds(disk, v, Pack12(values))
    ensures FatEntry(disk, v, k) == values[k]
  {
    hide FatByte, TableHolds, Pack12;
    Unpack12(values, k);
    HeldByte(disk, v, Pack12(values), k + k / 2);
    HeldByte(disk, v, Pack12(values), k + k / 2 + 1);
  }

  lemma {:induction false} Packed16IsRead(disk: Sectors, v: Volume, values: seq<Value16>, k: nat)
    requires v.Valid() && v.fatType.FAT16? && IsDisk(disk, v) && k < |values|
    requires TableHolds(disk, v, Pack16(values))
    ensures FatEntry(disk, v, k) == values[k]
  {
    hide FatByte, TableHolds, Pack16;
    Unpack16(values, k);
    HeldByte(disk, v, Pack16(values), 2 * k);
    HeldByte(disk, v, Pack16(values), 2 * k + 1);
  }

  /** Of a 32-bit entry the upper four bits do not count. */
  lemma {:induction false} Packed28IsRead(disk: Sectors, v: Volume, values: seq<Value32>, k: nat)
    requires v.Valid() && v.bytesPerSector > 0 && v.fatType.FAT32? && IsDisk(disk, v) && k < |values|
    requires TableHolds(disk, v, Pack32(values))
    ensures FatEntry(disk, v, k) == values[k] % 0x1000_0000
  {
    hide FatByte, TableHolds, Pack32, Little, IsDisk, Volume.Valid;
    var p, at := Pack32(values), FatOffset(v.fatType, k);
    assert at == 4 * k;
    Unpack32(values, k);
    HeldByte(disk, v, p, at);
    HeldByte(disk, v, p, at + 1);
    HeldByte(disk, v, p, at + 2);
    HeldByte(disk, v, p, at + 3);
    assert FatEntry(disk, v, k) == (Little(p[at], p[at + 1]) + 0x1_0000 * Little(p[at + 2], p[at + 3])) % 0x1000_0000;
  }
}
