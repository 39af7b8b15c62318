/** Cluster chains, and reading files and directories along them. */
module FatFile {
  import opened Bits
  import opened FatTable

  // ---------------------------------------------------------------------------
  // Chains and what they hold
  // ---------------------------------------------------------------------------

  /** Following the table from `start` visits exactly the clusters `cs` and then meets an end mark. */
  ghost predicate Chain(disk: Sectors, v: Volume, start: nat, cs: seq<nat>)
    requires v.Valid()
    decreases |cs|
  {
    if cs == [] then IsEnd(v.fatType, start)
    else
      && start == cs[0] && !IsEnd(v.fatType, start)
      && Chain(disk, v, FatEntry(disk, v, start), cs[1..])
  }

  function SectorOf(v: Volume, cluster: nat): nat
    requires cluster >= 2
  {
    (cluster - 2) * v.sectorsPerCluster + v.dataSectorStart
  }

  /** The bytes of one data cluster. */
  function ClusterBytes(disk: Sectors, v: Volume, cluster: nat): seq<Byte> {
    if cluster < 2 then [] else ReadSectors(disk, SectorOf(v, cluster), v.sectorsPerCluster)
  }

  /** The clusters' bytes one after the other. */
  function Contents(disk: Sectors, v: Volume, cs: seq<nat>): seq<Byte> {
    if cs == [] then [] else ClusterBytes(disk, v, cs[0]) + Contents(disk, v, cs[1..])
  }

  /** Bytes `i` to `j - 1` of what the chain holds. */
  function Bytes(disk: Sectors, v: Volume, cs: seq<nat>, i: nat, j: nat): (bytes: seq<Byte>)
    requires i <= j <= |Contents(disk, v, cs)|
    ensures |bytes| == j - i
  {
    Contents(disk, v, cs)[i..j]
  }

  lemma ClusterLength(disk: Sectors, v: Volume, cluster: nat)
    requires IsDisk(disk, v) && cluster >= 2
    ensures |ClusterBytes(disk, v, cluster)| == v.BytesPerCluster()
  {
    ReadSectorsLength(disk, v, SectorOf(v, cluster), v.sectorsPerCluster);
  }

  /** None of them is one of the two numbers that no cluster has. */
  ghost predicate DataClusters(cs: seq<nat>) {
    forall i :: 0 <= i < |cs| ==> cs[i] >= 2
  }

  lemma {:induction false} ContentsLength(disk: Sectors, v: Volume, cs: seq<nat>)
    requires IsDisk(disk, v) && DataClusters(cs)
    ensures |Contents(disk, v, cs)| == |cs| * v.BytesPerCluster()
  {
    if cs != [] {
      ClusterLength(disk, v, cs[0]);
      ContentsLength(disk, v, cs[1..]);
      assert |cs| * v.BytesPerCluster() == (|cs| - 1) * v.BytesPerCluster() + v.BytesPerCluster();
    }
  }

  lemma {:induction false} ContentsConcat(disk: Sectors, v: Volume, a: seq<nat>, b: seq<nat>)
    ensures Contents(disk, v, a + b) == Contents(disk, v, a) + Contents(disk, v, b)
  {
    if a == [] {
      assert a + b == b;
    } else {
      assert (a + b)[1..] == a[1..] + b;
      ContentsConcat(disk, v, a[1..], b);
    }
  }

  /** Clusters `i` to `j - 1` hold bytes `i * bpc` to `j * bpc - 1` of the chain. */
  lemma ContentsSlice(disk: Sectors, v: Volume, cs: seq<nat>, i: nat, j: nat)
    requires IsDisk(disk, v) && DataClusters(cs) && i <= j <= |cs|
    ensures var bpc := v.BytesPerCluster();
            && 0 <= i * bpc <= j * bpc <= |Contents(disk, v, cs)|
            && Contents(disk, v, cs[i..j]) == Contents(disk, v, cs)[i * bpc..j * bpc]
  {
    hide Contents;
    var a, b, c := cs[..i], cs[i..j], cs[j..];
    assert cs == a + (b + c);
    ContentsConcat(disk, v, a, b + c);
    ContentsConcat(disk, v, b, c);
    ContentsLength(disk, v, a);
    ContentsLength(disk, v, b);
    assert (j - i) * v.BytesPerCluster() == j * v.BytesPerCluster() - i * v.BytesPerCluster();
  }

  lemma OneCluster(disk: Sectors, v: Volume, cluster: nat)
    ensures Contents(disk, v, [cluster]) == ClusterBytes(disk, v, cluster)
  {
    assert Contents(disk, v, [cluster][1..]) == [];
  }

  /** A chain entered in the middle is the rest of it. */
  lemma {:induction false} ChainFrom(disk: Sectors, v: Volume, start: nat, cs: seq<nat>, k: nat)
    requires v.Valid() && Chain(disk, v, start, cs) && k < |cs|
    ensures Chain(disk, v, cs[k], cs[k..])
    decreases |cs|
  {
    hide FatEntry, IsEnd;
    if k == 0 {
      assert cs[0..] == cs;
    } else {
      ChainFrom(disk, v, FatEntry(disk, v, start), cs[1..], k - 1);
      assert cs[1..][k - 1..] == cs[k..];
    }
  }

  /** Entries that lead from each cluster to the next and then hold a mark spell out a chain. */
  lemma {:induction false} ChainSpelled(disk: Sectors, v: Volume, cs: seq<nat>)
    requires v.Valid() && cs != []
    requires forall i, j :: 0 <= i && j == i + 1 < |cs| ==> FatEntry(disk, v, cs[i]) == cs[j]
    requires var last := FatEntry(disk, v, cs[|cs| - 1]);
             match v.fatType
             case FAT12 => last >= 0xFF8 && forall i :: 0 <= i < |cs| ==> cs[i] < 0xFF8
             case FAT16 => last >= 0xFFF8 && forall i :: 0 <= i < |cs| ==> cs[i] < 0xFFF8
             case FAT32 => last >= 0xFFF_FFF8 && forall i :: 0 <= i < |cs| ==> cs[i] < 0xFFF_FFF8
    ensures Chain(disk, v, cs[0], cs)
  {
    hide FatEntry;
    if |cs| > 1 {
      assert cs[1..][|cs| - 2] == cs[|cs| - 1];
      assert FatEntry(disk, v, cs[0]) == cs[1];
      ChainSpelled(disk, v, cs[1..]);
    }
  }

  /** A start cluster determines its chain. */
  lemma {:induction false} ChainUnique(disk: Sectors, v: Volume, start: nat, cs: seq<nat>, ds: seq<nat>)
    requires v.Valid() && Chain(disk, v, start, cs) && Chain(disk, v, start, ds)
    ensures cs == ds
    decreases |cs|
  {
    hide FatEntry, IsEnd;
    if cs != [] {
      ChainUnique(disk, v, FatEntry(disk, v, start), cs[1..], ds[1..]);
    }
  }

  // ---------------------------------------------------------------------------
  // What lies on the disk
  // ---------------------------------------------------------------------------

  /** Sector `n` of the volume's data area. */
  function DataSector(disk: Sectors, v: Volume, n: nat): seq<Byte> { disk(v.dataSectorStart + n) }

  function Joined(images: seq<seq<Byte>>): seq<Byte> {
    if images == [] then [] else Joined(images[..|images| - 1]) + images[|images| - 1]
  }

  /** The data area begins with these images of clusters, one after the other, the first that of cluster 2. */
  ghost predicate DataHolds(disk: Sectors, v: Volume, images: seq<seq<Byte>>) {
    && (forall c :: 0 <= c < |images| ==> |images[c]| == v.sectorsPerCluster * v.bytesPerSector)
    && (forall n: nat :: (n + 1) * v.bytesPerSector <= |Joined(images)| ==>
          DataSector(disk, v, n) == Joined(images)[n * v.bytesPerSector..(n + 1) * v.bytesPerSector])
  }

  /** The images of the clusters of a chain. */
  function ImagesOf(images: seq<seq<Byte>>, cs: seq<nat>): seq<seq<Byte>>
    requires forall i :: 0 <= i < |cs| ==> 2 <= cs[i] < |images| + 2
  {
    seq(|cs|, i requires 0 <= i < |cs| => images[cs[i] - 2])
  }

  lemma {:induction false} JoinedAt(images: seq<seq<Byte>>, size: nat, c: nat)
    requires c < |images| && forall k :: 0 <= k < |images| ==> |images[k]| == size
    ensures 0 <= c * size <= (c + 1) * size <= |Joined(images)| == |images| * size
    ensures Joined(images)[c * size..(c + 1) * size] == images[c]
  {
    hide Joined;
    var n := |images| - 1;
    JoinedLength(images[..n], size);
    JoinedLength(images, size);
    OneMoreOf(c, n, size);
    JoinedIs(images);
    if c < n {
      JoinedAt(images[..n], size, c);
      SliceOfBoth(Joined(images[..n]), images[n], c * size, (c + 1) * size);
    } else {
      SliceOfBoth(Joined(images[..n]), images[n], c * size, (c + 1) * size);
    }
  }

  lemma JoinedIs(images: seq<seq<Byte>>)
    requires images != []
    ensures Joined(images) == Joined(images[..|images| - 1]) + images[|images| - 1]
  {
  }

  lemma SliceOfBoth(a: seq<Byte>, b: seq<Byte>, i: nat, j: nat)
    requires i <= j <= |a| + |b|
    ensures j <= |a| ==> (a + b)[i..j] == a[i..j]
    ensures i == |a| && j == |a| + |b| ==> (a + b)[i..j] == b
  {
  }

  lemma OneMoreOf(c: nat, n: nat, size: nat)
    requires c <= n
    ensures 0 <= c * size <= n * size && (c + 1) * size == c * size + size && (n + 1) * size == n * size + size
  {
    if size > 0 { MulMonotone(c, n, size); }
  }

  lemma {:induction false} JoinedLength(images: seq<seq<Byte>>, size: nat)
    requires forall k :: 0 <= k < |images| ==> |images[k]| == size
    ensures |Joined(images)| == |images| * size
  {
    if images != [] {
      JoinedLength(images[..|images| - 1], size);
      assert |images| * size == (|images| - 1) * size + size;
    }
  }

  /** Consecutive sectors of the data area. */
  lemma {:induction false} SectorsOfData(disk: Sectors, v: Volume, images: seq<seq<Byte>>, n: nat, count: nat)
    requires DataHolds(disk, v, images) && (n + count) * v.bytesPerSector <= |Joined(images)|
    ensures 0 <= n * v.bytesPerSector <= (n + count) * v.bytesPerSector
    ensures ReadSectors(disk, v.dataSectorStart + n, count)
            == Joined(images)[n * v.bytesPerSector..(n + count) * v.bytesPerSector]
  {
    var b := v.bytesPerSector;
    assert (n + count) * b == n * b + count * b;
    if count > 0 {
      assert (n + count) * b == (n + count - 1) * b + b && (n + (count - 1)) * b == n * b + (count - 1) * b;
      SectorsOfData(disk, v, images, n, count - 1);
      assert DataSector(disk, v, n + count - 1) == Joined(images)[(n + count - 1) * b..(n + count) * b];
    }
  }

  /** A cluster's bytes are its image. */
  lemma {:induction false} ClusterIsImage(disk: Sectors, v: Volume, images: seq<seq<Byte>>, cluster: nat)
    requires DataHolds(disk, v, images) && 2 <= cluster < |images| + 2
    ensures ClusterBytes(disk, v, cluster) == images[cluster - 2]
  {
    hide DataHolds, ReadSectors, Joined;
    Regrouped(cluster - 2, v.sectorsPerCluster, v.bytesPerSector);
    var c, spc, b := cluster - 2, v.sectorsPerCluster, v.bytesPerSector;
    ImageSizes(disk, v, images);
    JoinedAt(images, spc * b, c);
    SectorsOfData(disk, v, images, c * spc, spc);
  }

  lemma Regrouped(c: nat, spc: nat, b: nat)
    ensures (c * spc) * b == c * (spc * b) && (c * spc + spc) * b == (c + 1) * (spc * b)
  {
    assert (c * spc + spc) * b == (c * spc) * b + spc * b;
    assert (c + 1) * (spc * b) == c * (spc * b) + spc * b;
  }

  lemma ImageSizes(disk: Sectors, v: Volume, images: seq<seq<Byte>>)
    requires DataHolds(disk, v, images)
    ensures forall c :: 0 <= c < |images| ==> |images[c]| == v.sectorsPerCluster * v.bytesPerSector
  {
  }

  /** What a chain holds is the images of its clusters, one after the other. */
  lemma {:induction false} ContentsAreImages(disk: Sectors, v: Volume, images: seq<seq<Byte>>, cs: seq<nat>)
    requires DataHolds(disk, v, images) && forall i :: 0 <= i < |cs| ==> 2 <= cs[i] < |images| + 2
    ensures Contents(disk, v, cs) == Joined(ImagesOf(images, cs))
  {
    hide DataHolds, ClusterBytes;
    if cs != [] {
      var n := |cs| - 1;
      assert cs == cs[..n] + [cs[n]];
      ContentsAreImages(disk, v, images, cs[..n]);
      ContentsConcat(disk, v, cs[..n], [cs[n]]);
      OneCluster(disk, v, cs[n]);
      ClusterIsImage(disk, v, images, cs[n]);
      assert ImagesOf(images, cs)[..n] == ImagesOf(images, cs[..n]);
    }
  }

  /** The bytes are those from `i` up to `j` of the images of these clusters, whatever images the disk holds. */
  ghost predicate AreImages(disk: Sectors, v: Volume, cs: seq<nat>, i: int, j: int, bytes: seq<Byte>) {
    forall images {:trigger DataHolds(disk, v, images)} ::
      DataHolds(disk, v, images) && (forall k :: 0 <= k < |cs| ==> 2 <= cs[k] < |images| + 2) ==>
        0 <= i <= j <= |Joined(ImagesOf(images, cs))| && bytes == Joined(ImagesOf(images, cs))[i..j]
  }

  lemma BytesAreImages(disk: Sectors, v: Volume, cs: seq<nat>, i: nat, j: nat)
    requires i <= j <= |Contents(disk, v, cs)|
    ensures AreImages(disk, v, cs, i, j, Contents(disk, v, cs)[i..j])
  {
    hide DataHolds, Contents;
    forall images | DataHolds(disk, v, images) && forall k :: 0 <= k < |cs| ==> 2 <= cs[k] < |images| + 2
      ensures Contents(disk, v, cs) == Joined(ImagesOf(images, cs))
    {
      ContentsAreImages(disk, v, images, cs);
    }
  }

  // ---------------------------------------------------------------------------
  // Walking the table
  // ---------------------------------------------------------------------------

  method CountClustersInChain(disk: Sectors, v: Volume, start: nat, ghost cs: seq<nat>) returns (n: nat)
    requires v.Valid() && IsDisk(disk, v) && Chain(disk, v, start, cs)
    ensures n == |cs|
  {
    var startCluster := start;
    ghost var rest := cs;
    n := 0;
    while true
      invariant Chain(disk, v, startCluster, rest) && n + |rest| == |cs|
      decreases |rest|
    {
      if IsEnd(v.fatType, startCluster) {
        break;
      }
      n := n + 1;
      rest := rest[1..];
      startCluster := GetFatEntry(disk, v, startCluster);
    }
  }

  method GetFatChain(disk: Sectors, v: Volume, start: nat, ghost cs: seq<nat>) returns (fatArray: array<nat>)
    requires v.Valid() && IsDisk(disk, v) && Chain(disk, v, start, cs)
    ensures fresh(fatArray) && fatArray[..] == cs
  {
    var clusterCount := CountClustersInChain(disk, v, start, cs);
    fatArray := new nat[clusterCount](_ => 0);
    var startCluster, i := start, 0;
    ghost var rest := cs;
    while i < clusterCount
      invariant 0 <= i <= clusterCount == fatArray.Length
      invariant rest == cs[i..] && Chain(disk, v, startCluster, rest)
      invariant fatArray[..i] == cs[..i]
    {
      fatArray[i] := startCluster;
      if IsEnd(v.fatType, startCluster) {
        i := i + 1;
        break;
      }
      rest := rest[1..];
      startCluster := GetFatEntry(disk, v, startCluster);
      i := i + 1;
    }
  }

  // ---------------------------------------------------------------------------
  // Reading
  // ---------------------------------------------------------------------------

  /** `b` with `bytes` written over it from `at` on. */
  ghost function Written(b: seq<Byte>, at: nat, bytes: seq<Byte>): seq<Byte>
    requires at + |bytes| <= |b|
  {
    b[..at] + bytes + b[at + |bytes|..]
  }

  /** The buffer was `before` and now has `bytes` from `at` on. */
  ghost predicate Filled(before: seq<Byte>, after: seq<Byte>, at: nat, bytes: seq<Byte>)
    requires at + |bytes| <= |before|
  {
    after == Written(before, at, bytes)
  }

  lemma IsFilled(before: seq<Byte>, after: seq<Byte>, at: nat, bytes: seq<Byte>)
    requires at + |bytes| <= |before| && after == Written(before, at, bytes)
    ensures Filled(before, after, at, bytes)
  {
  }

  lemma WrittenTwice(b: seq<Byte>, at: nat, x: seq<Byte>, y: seq<Byte>)
    requires at + |x| + |y| <= |b|
    ensures Written(Written(b, at, x), at + |x|, y) == Written(b, at, x + y)
  {
  }

  /** memcpy into the buffer. */
  method Copy(buffer: array<Byte>, at: nat, bytes: seq<Byte>)
    requires at + |bytes| <= buffer.Length
    modifies buffer
    ensures buffer[..] == Written(old(buffer[..]), at, bytes)
  {
    var k := 0;
    while k < |bytes|
      invariant 0 <= k <= |bytes|
      invariant forall j {:trigger buffer[j]} :: 0 <= j < buffer.Length ==>
                  buffer[j] == if at <= j < at + k then bytes[j - at] else old(buffer[j])
    {
      buffer[at + k] := bytes[k];
      k := k + 1;
    }
  }

  /** fat_readPartialCluster. */
  method ReadPartialCluster(disk: Sectors, v: Volume, cluster: nat, offset: nat, length: nat, buffer: array<Byte>,
          at: nat)
    requires v.Valid() && IsDisk(disk, v) && cluster >= 2
    requires offset + length <= v.BytesPerCluster() && at + length <= buffer.Length
    modifies buffer
    ensures |ClusterBytes(disk, v, cluster)| == v.BytesPerCluster()
    ensures buffer[..] == Written(old(buffer[..]), at, ClusterBytes(disk, v, cluster)[offset..offset + length])
    ensures AreImages(disk, v, [cluster], offset, offset + length, buffer[at..at + length])
  {
    hide AreImages;
    ClusterLength(disk, v, cluster);
    OneCluster(disk, v, cluster);
    BytesAreImages(disk, v, [cluster], offset, offset + length);
    var tmpbuf := ReadSectors(disk, (cluster - 2) * v.sectorsPerCluster + v.dataSectorStart, v.sectorsPerCluster);
    Copy(buffer, at, tmpbuf[offset..offset + length]);
  }

  /** One round of fat_readClusterChain: a whole cluster, to where the buffer has been filled. */
  method AppendCluster(disk: Sectors, v: Volume, buffer: array<Byte>, ghost before: seq<Byte>, at: nat, pos: nat,
          ghost cs: seq<nat>, ghost k: nat, cluster: nat)
    requires IsDisk(disk, v) && k < |cs| && cluster == cs[k] >= 2
    requires |Contents(disk, v, cs[..k])| == pos - at >= 0 && pos + v.BytesPerCluster() <= buffer.Length == |before|
    requires buffer[..] == Written(before, at, Contents(disk, v, cs[..k]))
    modifies buffer
    ensures |Contents(disk, v, cs[..k + 1])| == pos - at + v.BytesPerCluster()
    ensures buffer[..] == Written(before, at, Contents(disk, v, cs[..k + 1]))
  {
    hide Contents, Written, Volume.BytesPerCluster;
    ClusterLength(disk, v, cluster);
    OneMoreCluster(disk, v, cs, k);
    WrittenTwice(before, at, Contents(disk, v, cs[..k]), ClusterBytes(disk, v, cluster));
    Copy(buffer, pos, ReadSectors(disk, (cluster - 2) * v.sectorsPerCluster + v.dataSectorStart, v.sectorsPerCluster));
  }

  function Min(a: nat, b: nat): nat { if a < b then a else b }

  /** fat_readClusterChain: the clusters of the chain, or the first `maxClusters` of them. */
  method ReadClusterChain(disk: Sectors, v: Volume, start: nat, maxClusters: nat, buffer: array<Byte>, at: nat,
          ghost cs: seq<nat>)
    requires v.Valid() && IsDisk(disk, v) && Chain(disk, v, start, cs) && cs != [] && DataClusters(cs)
    requires at + Min(maxClusters, |cs|) * v.BytesPerCluster() <= buffer.Length
    modifies buffer
    ensures at + |Contents(disk, v, cs[..Min(maxClusters, |cs|)])| <= buffer.Length
    ensures buffer[..] == Written(old(buffer[..]), at, Contents(disk, v, cs[..Min(maxClusters, |cs|)]))
    ensures var n := Min(maxClusters, |cs|) * v.BytesPerCluster();
            AreImages(disk, v, cs[..Min(maxClusters, |cs|)], 0, n, buffer[at..at + n])
  {
    hide AreImages, Contents, Written, FatEntry, IsEnd, Volume.BytesPerCluster;
    ghost var n, before := Min(maxClusters, |cs|), buffer[..];
    ghost var bpc := v.BytesPerCluster();
    var startCluster, left, pos := start, maxClusters, at;
    ghost var k := 0;
    NothingWritten(disk, v, before, at);
    assert cs[..0] == [];
    while left > 0
      invariant 0 <= k <= n && left + k == maxClusters
      invariant k < |cs| && Chain(disk, v, startCluster, cs[k..])
      invariant pos == at + k * bpc <= buffer.Length && |Contents(disk, v, cs[..k])| == pos - at
      invariant buffer[..] == Written(before, at, Contents(disk, v, cs[..k]))
      decreases left
    {
      StepFits(k, n, bpc);
      AppendCluster(disk, v, buffer, before, at, pos, cs, k, startCluster);
      left := left - 1;
      pos := pos + v.BytesPerCluster();
      startCluster := GetFatEntry(disk, v, startCluster);
      assert cs[k..][1..] == cs[k + 1..];
      k := k + 1;
      if IsEnd(v.fatType, startCluster) {
        break;
      }
    }
    ContentsLength(disk, v, cs[..n]);
    WrittenPart(before, at, Contents(disk, v, cs[..n]));
    BytesAreImages(disk, v, cs[..n], 0, n * bpc);
    assert Contents(disk, v, cs[..n])[0..n * bpc] == Contents(disk, v, cs[..n]);
  }

  lemma WrittenPart(b: seq<Byte>, at: nat, bytes: seq<Byte>)
    requires at + |bytes| <= |b|
    ensures Written(b, at, bytes)[at..at + |bytes|] == bytes
  {
  }

  lemma NothingWritten(disk: Sectors, v: Volume, b: seq<Byte>, at: nat)
    requires at <= |b|
    ensures Contents(disk, v, []) == [] && Written(b, at, []) == b
  {
  }

  lemma OneMoreCluster(disk: Sectors, v: Volume, cs: seq<nat>, k: nat)
    requires k < |cs|
    ensures Contents(disk, v, cs[..k + 1]) == Contents(disk, v, cs[..k]) + ClusterBytes(disk, v, cs[k])
  {
    assert cs[..k + 1] == cs[..k] + [cs[k]];
    ContentsConcat(disk, v, cs[..k], [cs[k]]);
    OneCluster(disk, v, cs[k]);
  }

  lemma StepFits(k: nat, n: nat, m: nat)
    requires k < n
    ensures k * m + m == (k + 1) * m <= n * m
  {
    assert (k + 1) * m == k * m + m;
    if m > 0 { MulMonotone(k + 1, n, m); }
  }

  const SIZE_LIMIT := 0x1_0000_0000

  /** The bytes that a directory of `count` sectors or clusters is given, in 32-bit arithmetic. */
  function DirectorySize(count: nat, unit: nat): nat { count * unit % SIZE_LIMIT }

  /** The buffer holds the directory exactly if its size has 32 bits; otherwise reading runs past it. */
  lemma DirectoryFits(count: nat, unit: nat)
    ensures count * unit <= DirectorySize(count, unit) <==> count * unit < SIZE_LIMIT
  {
  }

  /** A whole chain, into a buffer made for the clusters counted. */
  method ReadAll(disk: Sectors, v: Volume, start: nat, ghost cs: seq<nat>) returns (buffer: array<Byte>)
    requires v.Valid() && IsDisk(disk, v) && Chain(disk, v, start, cs) && DataClusters(cs)
    requires 0 < |cs| && |cs| * v.BytesPerCluster() < SIZE_LIMIT
    ensures fresh(buffer) && buffer[..] == Contents(disk, v, cs)
    ensures AreImages(disk, v, cs, 0, |cs| * v.BytesPerCluster(), buffer[..])
  {
    hide AreImages, Contents, FatEntry, IsEnd, ReadSectors, Volume.BytesPerCluster;
    var count := CountClustersInChain(disk, v, start, cs);
    ContentsLength(disk, v, cs);
    FewClusters(|cs|, v.BytesPerCluster());
    assert cs[..|cs|] == cs;
    buffer := new Byte[DirectorySize(count, v.BytesPerCluster())](_ => 0);
    ReadClusterChain(disk, v, start, 0xFFFF_FFFF, buffer, 0, cs);
    BytesAreImages(disk, v, cs, 0, |cs| * v.BytesPerCluster());
    assert Contents(disk, v, cs)[0..|cs| * v.BytesPerCluster()] == Contents(disk, v, cs);
  }

  /** The root directory of a FAT12 or FAT16 volume, which is no chain. */
  method ReadRoot(disk: Sectors, v: Volume) returns (buffer: array<Byte>)
    requires v.Valid() && IsDisk(disk, v) && v.rootDirSectors * v.bytesPerSector < SIZE_LIMIT
    ensures fresh(buffer) && buffer[..] == ReadSectors(disk, v.rootDirSectorStart, v.rootDirSectors)
    ensures AreSectors(disk, v, v.rootDirSectorStart, v.rootDirSectors, buffer[..])
  {
    hide ReadSectors, DirectorySize, AreSectors;
    var sectors := ReadSectors(disk, v.rootDirSectorStart, v.rootDirSectors);
    ReadSectorsLength(disk, v, v.rootDirSectorStart, v.rootDirSectors);
    FewClusters(v.rootDirSectors, v.bytesPerSector);
    buffer := new Byte[DirectorySize(v.rootDirSectors, v.bytesPerSector)](_ => 0);
    Copy(buffer, 0, sectors);
    assert buffer[..] == sectors;
    SectorsRead(disk, v, v.rootDirSectorStart, v.rootDirSectors);
  }

  lemma {:induction false} SectorsRead(disk: Sectors, v: Volume, start: nat, count: nat)
    requires v.Valid() && IsDisk(disk, v)
    ensures AreSectors(disk, v, start, count, ReadSectors(disk, start, count))
  {
    hide ReadSectors;
    var sectors := ReadSectors(disk, start, count);
    ReadSectorsLength(disk, v, start, count);
    forall i | 0 <= i < |sectors|
      ensures sectors[i] == disk(start + i / v.bytesPerSector)[i % v.bytesPerSector]
    {
      SectorsAt(disk, v, start, count, i);
    }
  }

  /** The bytes are those of so many sectors of the disk. */
  ghost predicate AreSectors(disk: Sectors, v: Volume, start: nat, count: nat, bytes: seq<Byte>)
    requires v.Valid() && IsDisk(disk, v)
  {
    && |bytes| == count * v.bytesPerSector
    && forall i :: 0 <= i < |bytes| ==> bytes[i] == disk(start + i / v.bytesPerSector)[i % v.bytesPerSector]
  }

  lemma {:induction false} SectorsAt(disk: Sectors, v: Volume, start: nat, count: nat, i: nat)
    requires v.bytesPerSector > 0 && IsDisk(disk, v) && i < count * v.bytesPerSector
    ensures |ReadSectors(disk, start, count)| == count * v.bytesPerSector
    ensures ReadSectors(disk, start, count)[i] == disk(start + i / v.bytesPerSector)[i % v.bytesPerSector]
  {
    var b := v.bytesPerSector;
    ReadSectorsLength(disk, v, start, count);
    ReadSectorsLength(disk, v, start, count - 1);
    assert count * b == (count - 1) * b + b;
    if i < (count - 1) * b {
      SectorsAt(disk, v, start, count - 1, i);
    } else {
      ModUnique(i, b, count - 1, i - (count - 1) * b);
    }
  }

  lemma FewClusters(count: nat, unit: nat)
    requires unit > 0 && count * unit < SIZE_LIMIT
    ensures count <= 0xFFFF_FFFF && DirectorySize(count, unit) == count * unit
  {
    StepFits(0, unit, count);
  }

  /**
     fat_getDirectoryContents: the root directory's sectors, or exactly the bytes of
     the directory's chain. On FAT32 the root directory is a chain like any other.
     A chain without data clusters is not provided for, nor a directory whose size
     has more than 32 bits.
   */
  method GetDirectoryContents(disk: Sectors, v: Volume, startCluster: nat, rootDirectory: bool, ghost cs: seq<nat>)
    returns (buffer: array<Byte>)
    requires v.Valid() && IsDisk(disk, v)
    requires if rootDirectory && !v.fatType.FAT32? then v.rootDirSectors * v.bytesPerSector < SIZE_LIMIT
             else
               && Chain(disk, v, if rootDirectory then v.rootDirStartCluster else startCluster, cs)
               && 0 < |cs| && DataClusters(cs) && |cs| * v.BytesPerCluster() < SIZE_LIMIT
    ensures buffer[..] == if rootDirectory && !v.fatType.FAT32?
                          then ReadSectors(disk, v.rootDirSectorStart, v.rootDirSectors)
                          else Contents(disk, v, cs)
    ensures rootDirectory && !v.fatType.FAT32? ==>
              AreSectors(disk, v, v.rootDirSectorStart, v.rootDirSectors, buffer[..])
    ensures !(rootDirectory && !v.fatType.FAT32?) ==>
              AreImages(disk, v, cs, 0, |cs| * v.BytesPerCluster(), buffer[..])
  {
    hide AreImages, Contents, FatEntry, IsEnd, ReadSectors, Volume.BytesPerCluster, Chain, IsDisk, AreSectors;
    if rootDirectory && !v.fatType.FAT32? {
      buffer := ReadRoot(disk, v);
    } else {
      buffer := ReadAll(disk, v, if rootDirectory then v.rootDirStartCluster else startCluster, cs);
    }
  }

  // ---------------------------------------------------------------------------
  // Files
  // ---------------------------------------------------------------------------

  /** Bytes that lie in one cluster are where the cluster has them. */
  lemma PartOfCluster(disk: Sectors, v: Volume, cs: seq<nat>, fp: nat, length: nat)
    requires v.Valid() && IsDisk(disk, v) && DataClusters(cs)
    requires fp < |cs| * v.BytesPerCluster() && Remainder(fp, v.BytesPerCluster()) + length <= v.BytesPerCluster()
    ensures var bpc := v.BytesPerCluster(); var k, off := Quotient(fp, bpc), Remainder(fp, bpc);
            && k < |cs| && off + length <= |ClusterBytes(disk, v, cs[k])|
            && fp + length <= |Contents(disk, v, cs)|
            && Bytes(disk, v, cs, fp, fp + length) == ClusterBytes(disk, v, cs[k])[off..off + length]
  {
    hide Contents, ClusterBytes, Volume.BytesPerCluster, Quotient, Remainder;
    var bpc := v.BytesPerCluster();
    var k, off := Quotient(fp, bpc), Remainder(fp, bpc);
    Divided(fp, bpc);
    QuotientBelow(fp, bpc, |cs|);
    StepFits(k, |cs|, bpc);
    ContentsSlice(disk, v, cs, k, k + 1);
    ContentsLength(disk, v, cs);
    assert cs[k..k + 1] == [cs[k]];
    OneCluster(disk, v, cs[k]);
    ClusterLength(disk, v, cs[k]);
  }

  lemma Divided(x: nat, m: nat)
    requires m > 0
    ensures x == Quotient(x, m) * m + Remainder(x, m)
  {
  }

  lemma QuotientBelow(x: nat, m: nat, n: nat)
    requires m > 0 && x < n * m
    ensures Quotient(x, m) < n
  {
    Divided(x, m);
    if Quotient(x, m) >= n { MulMonotone(n, Quotient(x, m), m); }
  }

  /** Whole clusters from a cluster boundary on. */
  lemma WholeClusters(disk: Sectors, v: Volume, cs: seq<nat>, fp: nat, n: nat)
    requires v.Valid() && IsDisk(disk, v) && DataClusters(cs)
    requires Remainder(fp, v.BytesPerCluster()) == 0 && fp + n * v.BytesPerCluster() <= |cs| * v.BytesPerCluster()
    ensures var k, length := Quotient(fp, v.BytesPerCluster()), n * v.BytesPerCluster();
            && k + n <= |cs| && fp + length <= |Contents(disk, v, cs)|
            && Contents(disk, v, cs[k..k + n]) == Bytes(disk, v, cs, fp, fp + length)
  {
    hide Contents, Volume.BytesPerCluster;
    var bpc := v.BytesPerCluster();
    var k := fp / bpc;
    assert fp == k * bpc;
    assert (k + n) * bpc == k * bpc + n * bpc;
    if k + n > |cs| { StepFits(|cs|, k + n, bpc); }
    ContentsSlice(disk, v, cs, k, k + n);
    ContentsLength(disk, v, cs);
  }

  /** How much of a request the rest of the current cluster serves; nothing at a cluster's beginning. */
  function HeadLength(fp: nat, s: nat, bpc: nat): nat
    requires bpc > 0
  {
    if Remainder(fp, bpc) == 0 then 0 else Min(s, bpc - Remainder(fp, bpc))
  }

  /** After the head, either the request is served or the file pointer is at a cluster's beginning. */
  lemma HeadReachesBoundary(fp: nat, s: nat, bpc: nat)
    requires bpc > 0
    ensures HeadLength(fp, s, bpc) <= s
    ensures HeadLength(fp, s, bpc) == s || Remainder(fp + HeadLength(fp, s, bpc), bpc) == 0
  {
    var n := HeadLength(fp, s, bpc);
    if fp % bpc != 0 && n != s {
      assert fp == (fp / bpc) * bpc + fp % bpc;
      ModUnique(fp + n, bpc, fp / bpc + 1, 0);
    }
  }

  /** What the whole clusters leave over. */
  lemma TailLength(fp: nat, s: nat, bpc: nat, q: nat)
    requires bpc > 0 && Remainder(fp, bpc) == 0 && q == Quotient(s, bpc)
    ensures Remainder(fp + q * bpc, bpc) == 0 && 0 <= s - q * bpc == Remainder(fp + s, bpc)
    ensures q == 0 ==> q * bpc == 0
  {
    assert fp == (fp / bpc) * bpc;
    assert s == q * bpc + s % bpc;
    ModUnique(fp + q * bpc, bpc, fp / bpc + q, 0);
    ModUnique(fp + s, bpc, fp / bpc + q, s % bpc);
  }

  /** What the entry of cluster 0 is on a formatted volume: the media byte, with ones above it. */
  function EntryOfMedia(t: FatType, media: nat): nat {
    match t
    case FAT12 => 0xF00 + media
    case FAT16 => 0xFF00 + media
    case FAT32 => 0x0FFF_FF00 + media
  }

  /** An empty file's chain is cluster 0 alone exactly if the media byte is F8 or above; below, opening walks on. */
  lemma EmptyFileChain(disk: Sectors, v: Volume, media: nat)
    requires v.Valid() && media < 0x100 && FatEntry(disk, v, 0) == EntryOfMedia(v.fatType, media)
    ensures Chain(disk, v, 0, [0]) <==> media >= 0xF8
  {
    hide FatEntry;
    assert [0][1..] == [];
  }

  class OpenFile {
    var filePointer: nat
    const filesize: nat
    const fatChain: array<nat>

    /** The cached chain is the file's chain on disk, and long enough for the file. */
    ghost predicate Valid(disk: Sectors, v: Volume, cs: seq<nat>)
      reads fatChain
    {
      && v.Valid() && IsDisk(disk, v) && fatChain[..] == cs
      && filesize <= |cs| * v.BytesPerCluster()
      && (cs != [] ==> Chain(disk, v, cs[0], cs)) && (filesize > 0 ==> DataClusters(cs))
    }

    /**
       An opened file begins at its first byte, with the chain of its first cluster
       cached. The directory gives an empty file the cluster number 0, whose entry is
       an end mark if the volume's media byte is F8 or above.
     */
    constructor (disk: Sectors, v: Volume, start: nat, size: nat, ghost cs: seq<nat>)
      requires v.Valid() && IsDisk(disk, v) && Chain(disk, v, start, cs) && size <= |cs| * v.BytesPerCluster()
      requires size > 0 ==> DataClusters(cs)
      ensures Valid(disk, v, cs) && filePointer == 0 && filesize == size && fresh(fatChain)
    {
      var chain := GetFatChain(disk, v, start, cs);
      fatChain, filesize, filePointer := chain, size, 0;
    }

    /** The file's bytes are all there. */
    lemma FileLength(disk: Sectors, v: Volume, cs: seq<nat>)
      requires Valid(disk, v, cs) && filesize > 0
      ensures v.Valid() && filesize <= |Contents(disk, v, cs)| == |cs| * v.BytesPerCluster()
      ensures cs != [] && Chain(disk, v, cs[0], cs) && DataClusters(cs)
    {
      hide Contents, IsEnd, FatEntry, Volume.BytesPerCluster;
      ContentsLength(disk, v, cs);
    }

    /** The cached cluster number for the file pointer. */
    method CurrentCluster(disk: Sectors, v: Volume, ghost cs: seq<nat>) returns (cluster: nat)
      requires Valid(disk, v, cs) && filePointer < filesize
      ensures DataClusters(cs) && |Contents(disk, v, cs)| == |cs| * v.BytesPerCluster()
      ensures var k: nat := Quotient(filePointer, v.BytesPerCluster()); k < |cs| && cluster == cs[k] >= 2
    {
      hide Contents, ClusterBytes, Volume.BytesPerCluster;
      ContentsLength(disk, v, cs);
      var k := filePointer / v.BytesPerCluster();
      QuotientBelow(filePointer, v.BytesPerCluster(), |cs|);
      cluster := fatChain[k];
    }

    /** Bytes from one cluster, by way of the cached chain. */
    method ReadPart(disk: Sectors, v: Volume, buffer: array<Byte>, at: nat, length: nat, ghost cs: seq<nat>)
      requires Valid(disk, v, cs) && filePointer < filesize && buffer as object != fatChain
      requires Remainder(filePointer, v.BytesPerCluster()) + length <= v.BytesPerCluster()
      requires at + length <= buffer.Length
      modifies buffer
      ensures filePointer + length <= |Contents(disk, v, cs)|
      ensures Filled(old(buffer[..]), buffer[..], at, Bytes(disk, v, cs, filePointer, filePointer + length))
    {
      hide Contents, ClusterBytes, Written, FatEntry, IsEnd, AreImages, Volume.BytesPerCluster;
      var cluster := CurrentCluster(disk, v, cs);
      PartOfCluster(disk, v, cs, filePointer, length);
      ReadPartialCluster(disk, v, cluster, Remainder(filePointer, v.BytesPerCluster()), length, buffer, at);
    }

    /** Up to the end of the cluster the file pointer is in, unless it is at a cluster's beginning. */
    method ReadHead(disk: Sectors, v: Volume, buffer: array<Byte>, s: nat, ghost cs: seq<nat>) returns (n: nat)
      requires Valid(disk, v, cs) && buffer as object != fatChain && s <= buffer.Length
      requires filePointer + s <= filesize && filePointer < filesize
      modifies buffer, `filePointer
      ensures n == HeadLength(old(filePointer), s, v.BytesPerCluster()) <= s
      ensures n == s || Remainder(old(filePointer) + n, v.BytesPerCluster()) == 0
      ensures filePointer == old(filePointer) + n <= |Contents(disk, v, cs)|
      ensures Filled(old(buffer[..]), buffer[..], 0, Bytes(disk, v, cs, old(filePointer), filePointer))
    {
      hide Filled, Contents, Bytes, ClusterBytes, Written;
      hide FatEntry, IsEnd, Volume.BytesPerCluster, Volume.Valid, Remainder, Quotient;
      var bytesPerCluster := v.BytesPerCluster();
      HeadReachesBoundary(filePointer, s, bytesPerCluster);
      n := 0;
      if Remainder(filePointer, bytesPerCluster) != 0 {
        var offsetInCluster := Remainder(filePointer, bytesPerCluster);
        n := if s > bytesPerCluster - offsetInCluster then bytesPerCluster - offsetInCluster else s;
        ReadPart(disk, v, buffer, 0, n, cs);
        filePointer := filePointer + n;
      } else {
        FileLength(disk, v, cs);
        NoBytes(disk, v, cs, filePointer, buffer[..], 0);
      }
    }

    /** All the whole clusters of the request, by way of the table on disk, entered where the cached chain says. */
    method ReadWhole(disk: Sectors, v: Volume, buffer: array<Byte>, at: nat, s: nat, ghost cs: seq<nat>)
      returns (n: nat)
      requires Valid(disk, v, cs) && buffer as object != fatChain && 0 < s
      requires Remainder(filePointer, v.BytesPerCluster()) == 0
      requires filePointer + s <= filesize && at + s <= buffer.Length
      modifies buffer, `filePointer
      ensures n <= s && s - n == Remainder(old(filePointer) + s, v.BytesPerCluster())
      ensures filePointer == old(filePointer) + n && Remainder(filePointer, v.BytesPerCluster()) == 0
      ensures filePointer <= |Contents(disk, v, cs)|
      ensures Filled(old(buffer[..]), buffer[..], at, Bytes(disk, v, cs, old(filePointer), filePointer))
    {
      hide Filled, Contents, Bytes, ClusterBytes, Written;
      hide FatEntry, IsEnd, Volume.BytesPerCluster, Volume.Valid, Remainder, Quotient;
      var bytesPerCluster := v.BytesPerCluster();
      var numberOfClusters := Quotient(s, bytesPerCluster);
      TailLength(filePointer, s, bytesPerCluster, numberOfClusters);
      n := numberOfClusters * bytesPerCluster;
      FileLength(disk, v, cs);
      ghost var before := buffer[..];
      NoBytes(disk, v, cs, filePointer, before, at);
      if numberOfClusters > 0 {
        var cluster := CurrentCluster(disk, v, cs);
        ghost var k: nat := Quotient(filePointer, bytesPerCluster);
        WholeClusters(disk, v, cs, filePointer, numberOfClusters);
        ChainFrom(disk, v, cs[0], cs, k);
        assert cs[k..][..numberOfClusters] == cs[k..k + numberOfClusters];
        ReadClusterChain(disk, v, cluster, numberOfClusters, buffer, at, cs[k..]);
        IsFilled(before, buffer[..], at, Bytes(disk, v, cs, filePointer, filePointer + n));
        filePointer := filePointer + n;
      }
    }

    /**
       fat_read. It returns the part of the request that lies before the end of the file,
       and puts those bytes of the file into the buffer. The file pointer is left short by
       the last, partial cluster.
     */
    method Read(disk: Sectors, v: Volume, buffer: array<Byte>, request: nat, ghost cs: seq<nat>)
      returns (bytesRead: nat)
      requires Valid(disk, v, cs) && buffer as object != fatChain
      requires Served(filePointer, request, filesize) <= buffer.Length
      requires filePointer + request < 0x1_0000_0000
      modifies buffer, `filePointer
      ensures bytesRead == Served(old(filePointer), request, filesize)
      ensures bytesRead == if old(filePointer) >= filesize then 0
                           else if request <= filesize - old(filePointer) then request
                           else filesize - old(filePointer)
      ensures old(filePointer) < filesize ==>
                AreImages(disk, v, cs, old(filePointer), old(filePointer) + bytesRead, buffer[..bytesRead])
      ensures buffer[bytesRead..] == old(buffer[bytesRead..])
      ensures if old(filePointer) >= filesize then buffer[..] == old(buffer[..])
              else old(filePointer) + bytesRead <= |Contents(disk, v, cs)| &&
                   Filled(old(buffer[..]), buffer[..], 0,
                       Bytes(disk, v, cs, old(filePointer), old(filePointer) + bytesRead))
      ensures filePointer == old(filePointer) + bytesRead - LeftBehind(old(filePointer), bytesRead, v.BytesPerCluster())
    {
      hide Filled, Contents, Bytes, ClusterBytes, Written, FatEntry, AreImages;
      hide IsEnd, Volume.BytesPerCluster, Volume.Valid, Valid, Remainder, Quotient;
      ghost var before, fp := buffer[..], filePointer;
      bytesRead := 0;
      if filePointer >= filesize {
        return;
      }
      var s := if filePointer + request > filesize then filesize - filePointer else request;
      ghost var total := s;
      var bytesPerCluster := v.BytesPerCluster();
      FileLength(disk, v, cs);
      assert total == Served(fp, request, filesize);

      var head := ReadHead(disk, v, buffer, s, cs);
      bytesRead := bytesRead + head;
      s := s - head;

      if s > 0 {
        ghost var atBoundary := buffer[..];
        var n := ReadWhole(disk, v, buffer, bytesRead, s, cs);
        FilledNext(disk, v, cs, before, atBoundary, buffer[..], fp, filePointer - n, filePointer);
        bytesRead := bytesRead + n;
        s := s - n;
      }

      if s > 0 {
        ghost var atTail := buffer[..];
        ReadPart(disk, v, buffer, bytesRead, s, cs);
        FilledNext(disk, v, cs, before, atTail, buffer[..], fp, filePointer, filePointer + s);
        bytesRead := bytesRead + s;
        s := s - s;
        filePointer := filePointer + s;
      }
      FilledImages(disk, v, cs, before, buffer[..], fp, bytesRead);
    }
  }

  /** The bytes a request gets: none at or past the end of the file, and never more than are left. */
  function Served(fp: nat, request: nat, filesize: nat): nat {
    if fp >= filesize then 0 else Min(request, filesize - fp)
  }

  /** The bytes read that the file pointer is not moved over: those of the last cluster, unless the head was all. */
  function LeftBehind(fp: nat, n: nat, bpc: nat): nat
    requires bpc > 0
  {
    if HeadLength(fp, n, bpc) == n then 0 else Remainder(fp + n, bpc)
  }

  /**
     The file pointer is moved over all bytes read just when the bytes end where a cluster
     ends, or lie in one cluster and not at its beginning.
   */
  lemma PointerKeepsUp(fp: nat, n: nat, bpc: nat)
    requires bpc > 0
    ensures LeftBehind(fp, n, bpc) == 0 || LeftBehind(fp, n, bpc) == (fp + n) % bpc
    ensures LeftBehind(fp, n, bpc) == 0 <==>
              n == 0 || (fp + n) % bpc == 0 || (fp % bpc != 0 && fp / bpc == (fp + n) / bpc)
  {
    assert fp == (fp / bpc) * bpc + fp % bpc;
    assert fp + n == ((fp + n) / bpc) * bpc + (fp + n) % bpc;
    if fp % bpc != 0 && (fp + n) % bpc != 0 {
      if n <= bpc - fp % bpc {
        if n < bpc - fp % bpc {
          ModUnique(fp + n, bpc, fp / bpc, fp % bpc + n);
        } else {
          ModUnique(fp + n, bpc, fp / bpc + 1, 0);
        }
      }
    }
  }

  /** A slice of the file written after the slice before it. */
  lemma FilledNext(disk: Sectors, v: Volume, cs: seq<nat>, b0: seq<Byte>, b1: seq<Byte>, b2: seq<Byte>, i: nat,
          j: nat, k: nat)
    requires i <= j <= k <= |Contents(disk, v, cs)| && k - i <= |b0| && |b1| == |b0|
    requires Filled(b0, b1, 0, Bytes(disk, v, cs, i, j)) && Filled(b1, b2, j - i, Bytes(disk, v, cs, j, k))
    ensures Filled(b0, b2, 0, Bytes(disk, v, cs, i, k))
  {
    hide Contents, Written;
    WrittenTwice(b0, 0, Bytes(disk, v, cs, i, j), Bytes(disk, v, cs, j, k));
    assert Bytes(disk, v, cs, i, j) + Bytes(disk, v, cs, j, k) == Bytes(disk, v, cs, i, k);
  }

  lemma FilledImages(disk: Sectors, v: Volume, cs: seq<nat>, before: seq<Byte>, after: seq<Byte>, fp: nat, n: nat)
    requires fp + n <= |Contents(disk, v, cs)| && n <= |before|
    requires Filled(before, after, 0, Bytes(disk, v, cs, fp, fp + n))
    ensures |after| == |before| && AreImages(disk, v, cs, fp, fp + n, after[..n]) && after[n..] == before[n..]
  {
    hide Contents, AreImages;
    BytesAreImages(disk, v, cs, fp, fp + n);
    assert after[..n] == Contents(disk, v, cs)[fp..fp + n];
  }

  lemma NoBytes(disk: Sectors, v: Volume, cs: seq<nat>, i: nat, b: seq<Byte>, at: nat)
    requires i <= |Contents(disk, v, cs)| && at <= |b|
    ensures Filled(b, b, at, Bytes(disk, v, cs, i, i))
  {
    hide Contents;
    assert Bytes(disk, v, cs, i, i) == [];
  }
}
