/**
  A FAT32 volume written down byte by byte, as the Microsoft FAT32 File System Specification lays it out,
  and what reading a file from it gives.
 */
module FatVolume {
  import opened MachineWords
  import opened Fat

  /** The low 28 bits of the little-endian word at `at` are `x`; its upper four bits are reserved. */
  ghost predicate HoldsEntry(disk: seq<Byte>, at: nat, x: nat) {
    && at + 4 <= |disk| && x < 0x1000_0000
    && disk[at] == x % 0x100 && disk[at + 1] == x / 0x100 % 0x100
    && disk[at + 2] == x / 0x1_0000 % 0x100 && disk[at + 3] % 0x10 == x / 0x100_0000
  }

  /** The entry of the `j`-th cluster of a chain names the next one, or ends the chain. */
  ghost predicate LinkAt(disk: seq<Byte>, fat: nat, clusters: seq<U32>, j: nat)
    requires j < |clusters|
  {
    var at: nat := fat + 4 * (clusters[j] as nat);
    if j + 1 < |clusters| then clusters[j + 1] < 0x0FFF_FFF8 && HoldsEntry(disk, at, clusters[j + 1])
    else exists mark :: 0x0FFF_FFF8 <= mark && HoldsEntry(disk, at, mark)
  }

  /** The same in the first FAT of a volume. */
  ghost predicate LinkIn(disk: seq<Byte>, b: BootSector, clusters: seq<U32>, j: nat)
    requires j < |clusters|
  {
    LinkAt(disk, b.reserved * b.bytesPerSector, clusters, j)
  }

  /** Data cluster `c` lies on the disk. */
  ghost predicate OnDisk(disk: seq<Byte>, b: BootSector, c: nat) {
    2 <= c && FirstByteOfCluster(b, c) + b.sectorsPerCluster * b.bytesPerSector <= |disk|
  }

  /** A volume on which the reader's addresses are the specification's. */
  ghost predicate Regular(b: BootSector) {
    var size := b.sectorsPerCluster * b.bytesPerSector;
    && b.Valid() && size % 512 == 0 && b.reserved * b.bytesPerSector % 512 == 0
    && FatBytes(b) < 0x1_0000_0000 && FatBytes(b) % size == 0
  }

  /** A file's clusters lie on the disk and its FAT, the one at byte `reserved * bytesPerSector`, links them. */
  ghost predicate Laid(disk: seq<Byte>, b: BootSector, clusters: seq<U32>) {
    && Regular(b) && clusters != []
    && forall j: nat | j < |clusters| :: OnDisk(disk, b, clusters[j]) && LinkIn(disk, b, clusters, j)
  }

  // ----- one entry, one cluster -----

  /** The four bytes that hold an entry are read as that entry. */
  lemma {:induction false} EntryRead(v: Volume, index: U32, x: nat)
    requires v.Valid() && v.fatStart % 512 == 0 && HoldsEntry(v.disk, v.fatStart + 4 * index, x)
    requires FatEntry(v, index).Some?
    ensures FatEntry(v, index) == Some(x)
  {
    FatEntryAddress(v, index);
    hide FatEntry;
    var at := v.fatStart + 4 * index;
    WordOfBytes(v.disk[at], v.disk[at + 1], v.disk[at + 2], v.disk[at + 3], x);
  }

  lemma WordOfBytes(b0: nat, b1: nat, b2: nat, b3: nat, x: nat)
    requires x < 0x1000_0000 && b0 == x % 0x100 && b1 == x / 0x100 % 0x100 && b2 == x / 0x1_0000 % 0x100
    requires b3 % 0x10 == x / 0x100_0000
    ensures (b0 + 0x100 * b1 + 0x1_0000 * b2 + 0x100_0000 * b3) % 0x1000_0000 == x
  {
    Nibble(b3);
    FourBytes(x);
    assert b0 + 0x100 * b1 + 0x1_0000 * b2 + 0x100_0000 * b3 == x + 0x1000_0000 * (b3 / 0x10);
  }

  lemma Nibble(top: nat)
    ensures top == 0x10 * (top / 0x10) + top % 0x10
  {
  }

  /** A volume's geometry: where its FAT starts, and where its clusters lie. */
  lemma {:induction false} RegularMount(disk: seq<Byte>, b: BootSector, c: U32)
    requires Regular(b) && OnDisk(disk, b, c)
    ensures var v, n := Mount(disk, b), ClusterBlock(Mount(disk, b), c);
            && v.disk == disk && v.blockSize == b.sectorsPerCluster * b.bytesPerSector && v.blockSize % 512 == 0
            && v.blockSize > 0 && v.fatStart == b.reserved * b.bytesPerSector && v.fatStart % 512 == 0
            && n == v.fatBlocks + c - 2 < 0x4_0000_0000 && BlockAddress(v, n) == FirstByteOfCluster(b, c)
            && BlockAddress(v, n) == v.fatStart + n * v.blockSize && BlockAddress(v, n) % 512 == 0
  {
    var v := Mount(disk, b);
    var n := v.fatBlocks + c - 2;
    Mounted(disk, b);
    ClusterAddress(disk, b, c);
    ClusterBehind(disk, b, c);
    hide *;
    BlockAddressExact(v, n);
    BlockSector(v, n);
  }

  /** A block of whole sectors that lies on the disk is read. */
  lemma {:induction false} BlockRead(v: Volume, n: Word)
    requires v.Valid() && v.blockSize % 512 == 0 && BlockAddress(v, n) % 512 == 0
    requires BlockAddress(v, n) + v.blockSize <= |v.disk|
    ensures var start := BlockAddress(v, n);
            BlockAt(v, n) == Some(v.disk[start..start + v.blockSize])
  {
    SectorStart(BlockAddress(v, n));
    hide BlockAddress;
  }

  lemma {:induction false} ClusterRead(disk: seq<Byte>, b: BootSector, c: U32)
    requires Regular(b) && OnDisk(disk, b, c)
    ensures var first, size := FirstByteOfCluster(b, c), b.sectorsPerCluster * b.bytesPerSector;
            0 <= first && first + size <= |disk| && ClusterAt(Mount(disk, b), c) == Some(disk[first..first + size])
  {
    RegularMount(disk, b, c);
    var v := Mount(disk, b);
    BlockRead(v, ClusterBlock(v, c));
    hide FirstByteOfCluster, BlockAddress, BlockAt, ClusterBlock, Mount;
  }

  /** The block of a cluster's FAT entry lies in front of the cluster, so it is on the disk too. */
  lemma {:induction false} EntryReadable(disk: seq<Byte>, b: BootSector, c: U32)
    requires Regular(b) && OnDisk(disk, b, c)
    ensures FatEntry(Mount(disk, b), c).Some?
  {
    var v := Mount(disk, b);
    RegularMount(disk, b, c);
    hide *;
    EntryBlock(v, c);
    var n := 4 * c / v.blockSize;
    BlockAddressExact(v, n);
    BlockSector(v, n);
    Before(n, v.fatBlocks + c - 2, v.blockSize);
    BlockRead(v, n);
    EntryIs(v, c);
  }

  lemma EntryBlock(v: Volume, c: U32)
    requires v.Valid() && v.blockSize % 512 == 0 && c >= 2
    ensures 0 <= 4 * c / v.blockSize <= c - 2
  {
    Divided(4 * c, v.blockSize);
    var n, k := 4 * c / v.blockSize, v.blockSize / 512;
    assert n * v.blockSize == n * 512 * k;
    AtLeast(n * 512, k);
  }

  lemma Before(n: nat, m: nat, size: nat)
    requires n <= m
    ensures n * size <= m * size
  {
    assert m * size == n * size + (m - n) * size;
    assert (m - n) * size >= 0;
  }

  // ----- a file -----

  lemma LaidAt(disk: seq<Byte>, b: BootSector, clusters: seq<U32>, j: nat)
    requires Laid(disk, b, clusters) && j < |clusters|
    ensures Regular(b) && b.Valid() && OnDisk(disk, b, clusters[j])
    ensures LinkIn(disk, b, clusters, j)
  {
    hide Regular, OnDisk, LinkIn;
    RegularValid(b);
  }

  lemma RegularValid(b: BootSector)
    requires Regular(b)
    ensures b.Valid()
  {
    hide FatBytes;
  }

  lemma LinkOf(disk: seq<Byte>, b: BootSector, clusters: seq<U32>, j: nat, fat: nat)
    requires j < |clusters| && LinkIn(disk, b, clusters, j) && fat == b.reserved * b.bytesPerSector
    ensures LinkAt(disk, fat, clusters, j)
  {
    hide LinkAt;
  }

  lemma NextRead(v: Volume, c: U32, entry: U32)
    requires v.Valid() && FatEntry(v, c) == Some(entry)
    ensures Next(v, c) == if entry >= 0x0FFF_FFF8 then End else Cluster(entry)
  {
    hide FatEntry;
  }

  lemma {:induction false} LinkRead(v: Volume, clusters: seq<U32>, j: nat)
    requires v.Valid() && v.fatStart % 512 == 0 && j < |clusters| && LinkAt(v.disk, v.fatStart, clusters, j)
    requires FatEntry(v, clusters[j]).Some?
    ensures Next(v, clusters[j]) == if j + 1 < |clusters| then Cluster(clusters[j + 1]) else End
  {
    hide FatEntry, HoldsEntry, Next;
    var entry := FatEntry(v, clusters[j]).value;
    NextRead(v, clusters[j], entry);
    if j + 1 < |clusters| {
      EntryRead(v, clusters[j], clusters[j + 1]);
    } else {
      var mark :| 0x0FFF_FFF8 <= mark && HoldsEntry(v.disk, v.fatStart + 4 * (clusters[j] as nat), mark);
      EntryRead(v, clusters[j], mark);
    }
  }

  /** The entry of the `j`-th cluster is followed to the next one, or ends the chain. */
  lemma {:induction false} LinkFollowed(disk: seq<Byte>, b: BootSector, clusters: seq<U32>, j: nat)
    requires Laid(disk, b, clusters) && j < |clusters| && b.Valid()
    ensures Next(Mount(disk, b), clusters[j]) == if j + 1 < |clusters| then Cluster(clusters[j + 1]) else End
  {
    hide *;
    LaidAt(disk, b, clusters, j);
    RegularMount(disk, b, clusters[j]);
    EntryReadable(disk, b, clusters[j]);
    LinkOf(disk, b, clusters, j, Mount(disk, b).fatStart);
    LinkRead(Mount(disk, b), clusters, j);
  }

  lemma {:induction false} LinksFollowed(disk: seq<Byte>, b: BootSector, clusters: seq<U32>, j: nat)
    requires Laid(disk, b, clusters) && j <= |clusters| && clusters != [] && b.Valid()
    ensures Walk(Mount(disk, b), clusters[0], j) == if j < |clusters| then Cluster(clusters[j]) else End
  {
    hide Mount, Next, Laid;
    if j > 0 {
      LinksFollowed(disk, b, clusters, j - 1);
      LinkFollowed(disk, b, clusters, j - 1);
    }
  }

  /** The clusters of a file written down this way are the chain the reader finds. */
  lemma {:induction false} LaidIsChain(disk: seq<Byte>, b: BootSector, clusters: seq<U32>)
    requires Laid(disk, b, clusters)
    ensures b.Valid() && clusters != [] && IsChain(Mount(disk, b), clusters[0], clusters)
  {
    LaidAt(disk, b, clusters, 0);
    hide Laid, Mount, Walk, ClusterAt, Regular, OnDisk, LinkIn;
    forall j: nat | j < |clusters|
      ensures Walk(Mount(disk, b), clusters[0], j) == Cluster(clusters[j])
      ensures ClusterAt(Mount(disk, b), clusters[j]).Some?
    {
      LaidAt(disk, b, clusters, j);
      LinksFollowed(disk, b, clusters, j);
      ClusterRead(disk, b, clusters[j]);
    }
    LinksFollowed(disk, b, clusters, |clusters|);
  }

  /** Where byte `p` of the file lies on the disk. */
  ghost function PlaceOfByte(b: BootSector, clusters: seq<U32>, p: nat): int
    requires b.Valid() && p < |clusters| * (b.sectorsPerCluster * b.bytesPerSector)
  {
    GeometryBounds(b);
    var size := b.sectorsPerCluster * b.bytesPerSector;
    ClusterNumber(p, |clusters|, size);
    (b.reserved + b.fatCount * b.sectorsPerFat + (clusters[p / size] - 2) * b.sectorsPerCluster) * b.bytesPerSector
    + p % size
  }

  lemma ClusterNumber(p: nat, n: nat, size: nat)
    requires size > 0 && p < n * size
    ensures 0 <= p / size < n && 0 <= p % size < size
  {
    Divided(p, size);
    var d := p / size - n;
    assert d * size == p / size * size - n * size;
    Multiple(d, size);
  }

  lemma PlaceIs(b: BootSector, clusters: seq<U32>, p: nat, size: nat)
    requires b.Valid() && p < |clusters| * (b.sectorsPerCluster * b.bytesPerSector)
    requires size == b.sectorsPerCluster * b.bytesPerSector
    ensures size > 0 && 0 <= p / size < |clusters|
    ensures PlaceOfByte(b, clusters, p) == FirstByteOfCluster(b, clusters[p / size]) + p % size
  {
    GeometryBounds(b);
    ClusterNumber(p, |clusters|, size);
  }

  lemma InPiece(disk: seq<Byte>, first: nat, size: nat, k: nat)
    requires first + size <= |disk| && k < size
    ensures disk[first..first + size][k] == disk[first + k]
  {
  }

  lemma ChainCluster(v: Volume, first: U32, clusters: seq<U32>, p: nat)
    requires v.Valid() && IsChain(v, first, clusters) && p < |clusters| * v.blockSize
    ensures |Contents(v, clusters)| == |clusters| * v.blockSize
    ensures 0 <= p / v.blockSize < |clusters| && 0 <= p % v.blockSize < v.blockSize
    ensures ClusterAt(v, clusters[p / v.blockSize]).Some?
    ensures Contents(v, clusters)[p] == ClusterAt(v, clusters[p / v.blockSize]).value[p % v.blockSize]
  {
    ClusterNumber(p, |clusters|, v.blockSize);
    hide Walk, ClusterAt;
    ContentsAt(v, clusters, p);
  }

  /** The contents of the chain are the bytes of its clusters' places. */
  lemma {:induction false} ContentsOnDisk(disk: seq<Byte>, b: BootSector, clusters: seq<U32>, p: nat)
    requires Laid(disk, b, clusters) && b.Valid() && clusters != []
    requires IsChain(Mount(disk, b), clusters[0], clusters)
    requires p < |clusters| * (b.sectorsPerCluster * b.bytesPerSector)
    ensures |Contents(Mount(disk, b), clusters)| == |clusters| * (b.sectorsPerCluster * b.bytesPerSector)
    ensures 0 <= PlaceOfByte(b, clusters, p) < |disk|
    ensures Contents(Mount(disk, b), clusters)[p] == disk[PlaceOfByte(b, clusters, p)]
  {
    hide *;
    var size := b.sectorsPerCluster * b.bytesPerSector;
    PlaceIs(b, clusters, p, size);
    var j, k := p / size, p % size;
    LaidAt(disk, b, clusters, j);
    RegularMount(disk, b, clusters[j]);
    ClusterRead(disk, b, clusters[j]);
    ChainCluster(Mount(disk, b), clusters[0], clusters, p);
    InPiece(disk, FirstByteOfCluster(b, clusters[j]), size, k);
  }

  lemma SliceLimits(data: seq<Byte>, fileSize: nat, size: nat, offset: nat, d: seq<Byte>)
    requires offset < fileSize
    ensures FileSlice(data, fileSize, size, offset).None? <==> |data| <= offset
    ensures FileSlice(data, fileSize, size, offset) == Some(d) <==>
              && offset < |data| && offset + |d| <= |data| && |d| <= size && offset + |d| <= fileSize
              && (|d| == size || offset + |d| == fileSize || offset + |d| == |data|)
              && forall i | 0 <= i < |d| :: d[i] == data[offset + i]
  {
    if offset < |data| && offset + |d| <= |data| && forall i | 0 <= i < |d| :: d[i] == data[offset + i] {
      assert d == data[offset..offset + |d|];
    }
  }

  /** `d` is what stands at the places of the file's bytes from `offset` on. */
  ghost predicate FromDisk(disk: seq<Byte>, b: BootSector, clusters: seq<U32>, offset: nat, d: seq<Byte>)
    requires b.Valid() && offset + |d| <= |clusters| * (b.sectorsPerCluster * b.bytesPerSector)
  {
    forall i | 0 <= i < |d| ::
      0 <= PlaceOfByte(b, clusters, offset + i) < |disk| && d[i] == disk[PlaceOfByte(b, clusters, offset + i)]
  }

  lemma {:induction false} PieceOnDisk(disk: seq<Byte>, b: BootSector, clusters: seq<U32>, data: seq<Byte>,
                                       offset: nat, d: seq<Byte>)
    requires b.Valid() && |data| == |clusters| * (b.sectorsPerCluster * b.bytesPerSector)
    requires forall p: nat | p < |data| ::
               0 <= PlaceOfByte(b, clusters, p) < |disk| && data[p] == disk[PlaceOfByte(b, clusters, p)]
    requires offset + |d| <= |data|
    ensures FromDisk(disk, b, clusters, offset, d) <==> forall i | 0 <= i < |d| :: d[i] == data[offset + i]
  {
    hide PlaceOfByte;
  }

  /**
    Reading `size` bytes of the file at `offset` gives, of the bytes at its clusters' places, those from
    `offset` on that the size, the recorded file size and the chain allow; it fails exactly when the chain
    ends in front of them.
   */
  lemma {:induction false} VolumeRead(disk: seq<Byte>, b: BootSector, clusters: seq<U32>, fileSize: U32, size: Word,
                                      offset: Word, d: seq<Byte>)
    requires Laid(disk, b, clusters) && offset < fileSize && offset + size < U64
    ensures b.Valid() && clusters != []
    ensures var v, bytes := Mount(disk, b), |clusters| * (b.sectorsPerCluster * b.bytesPerSector);
            && (ReadOk(v, clusters[0], Cap(fileSize, size, offset), offset, d) <==>
                  && offset < bytes && offset + |d| <= bytes && |d| <= size && offset + |d| <= fileSize
                  && (|d| == size || offset + |d| == fileSize || offset + |d| == bytes)
                  && FromDisk(disk, b, clusters, offset, d))
            && (ReadFails(v, clusters[0], Cap(fileSize, size, offset), offset) <==> bytes <= offset)
  {
    LaidIsChain(disk, b, clusters);
    hide *;
    var v := Mount(disk, b);
    FileLength(disk, b, clusters);
    var data := Contents(v, clusters);
    ReadIsSlice(v, clusters[0], clusters, fileSize, size, offset);
    SliceLimits(data, fileSize, size, offset, d);
    forall p: nat | p < |data|
      ensures 0 <= PlaceOfByte(b, clusters, p) < |disk| && data[p] == disk[PlaceOfByte(b, clusters, p)]
    {
      ContentsOnDisk(disk, b, clusters, p);
    }
    if offset + |d| <= |data| {
      PieceOnDisk(disk, b, clusters, data, offset, d);
    }
  }

  lemma FileLength(disk: seq<Byte>, b: BootSector, clusters: seq<U32>)
    requires b.Valid() && clusters != [] && IsChain(Mount(disk, b), clusters[0], clusters)
    ensures |Contents(Mount(disk, b), clusters)| == |clusters| * (b.sectorsPerCluster * b.bytesPerSector)
  {
    Mounted(disk, b);
    hide Mount, Walk, ClusterAt;
  }

  /** Such volumes exist: the smallest one, with every byte 0xFF, holds a file of one cluster. */
  lemma {:induction false} SmallestVolume()
    ensures var disk, b := seq(1536, _ => 0xFF), BootSector(512, 1, 1, 1, 1);
            Laid(disk, b, [2]) && forall p | 0 <= p < 512 :: b.Valid() && PlaceOfByte(b, [2], p) == 1024 + p
  {
    var disk: seq<Byte>, b := seq(1536, _ => 0xFF), BootSector(512, 1, 1, 1, 1);
    assert FatBytes(b) == 512 && Regular(b);
    assert HoldsEntry(disk, 512 + 4 * ([2][0] as nat), 0x0FFF_FFFF);
    assert LinkAt(disk, 512, [2], 0);
    assert OnDisk(disk, b, 2);
  }
}
