/**
  Reading files from a FAT32 volume: where clusters lie, the block cache, and the walk along a file's
  cluster chain.
 */
module Fat {
  import opened MachineWords


  const END_OF_CHAIN: nat := 0x0FFFFFF8

  /** The boot-sector fields the reader uses; u8, u16 and u32 in the source. */
  datatype BootSector = BootSector(bytesPerSector: nat, sectorsPerCluster: nat, reserved: nat, fatCount: nat,
                                   sectorsPerFat: nat)
  {
    /** The widths of the fields; the last product is a signed 32-bit one in the source and must not overflow. */
    ghost predicate Valid() {
      && 0 < bytesPerSector < 0x10000 && 0 < sectorsPerCluster < 0x100
      && reserved < 0x10000 && fatCount < 0x100 && sectorsPerFat < 0x1_0000_0000
      && reserved * bytesPerSector < 0x8000_0000
    }
  }

  /** A device and the geometry read from its boot sector. A block is a cluster; blocks count from the FAT. */
  datatype Volume = Volume(disk: seq<Byte>, blockSize: nat, fatStart: nat, fatBlocks: nat) {
    ghost predicate Valid() {
      0 < blockSize < 0x100_0000 && fatStart < 0x1_0000_0000 && fatBlocks < 0x1_0000_0000
    }
  }

  // ----- geometry -----

  /** All FATs together, computed in 32 bits by the source. */
  function FatBytes(b: BootSector): nat {
    b.fatCount * b.sectorsPerFat * b.bytesPerSector
  }

  lemma ProductBelow(x: nat, y: nat, a: nat, b: nat)
    requires x < a && y < b
    ensures x * y < a * b
  {
    assert a * b == x * b + (a - x) * b;
    assert x * b == x * y + x * (b - y);
    assert (a - x) * b > 0;
  }

  lemma GeometryBounds(b: BootSector)
    requires b.Valid()
    ensures 0 < b.sectorsPerCluster * b.bytesPerSector < 0x100_0000
  {
    ProductBelow(b.sectorsPerCluster, b.bytesPerSector, 0x100, 0x10000);
  }

  function Mount(disk: seq<Byte>, b: BootSector): (v: Volume)
    requires b.Valid()
    ensures v.Valid()
  {
    GeometryBounds(b);
    var fatBytes := FatBytes(b) % 0x1_0000_0000;
    Divided(fatBytes, b.sectorsPerCluster * b.bytesPerSector);
    Volume(disk, b.sectorsPerCluster * b.bytesPerSector, b.reserved * b.bytesPerSector,
           fatBytes / (b.sectorsPerCluster * b.bytesPerSector))
  }

  /**
    A mounted volume has the geometry of its boot sector, with as many
    blocks in front of the data as the FATs fill.
   */
  lemma {:induction false} Mounted(disk: seq<Byte>, b: BootSector)
    requires b.Valid()
    ensures var v := Mount(disk, b);
            && v.disk == disk && v.blockSize == b.sectorsPerCluster * b.bytesPerSector
            && v.fatStart == b.reserved * b.bytesPerSector
            && v.fatBlocks * v.blockSize <= FatBytes(b) % 0x1_0000_0000 < v.fatBlocks * v.blockSize + v.blockSize
  {
    GeometryBounds(b);
    Divided(FatBytes(b) % 0x1_0000_0000, b.sectorsPerCluster * b.bytesPerSector);
    hide FatBytes;
  }

  /** Where block `n` starts on the device, in 64-bit arithmetic. */
  function BlockAddress(v: Volume, n: Word): Word {
    Wrap(v.fatStart + n * v.blockSize)
  }

  function ClusterBlock(v: Volume, cluster: U32): Word {
    Wrap(v.fatBlocks + cluster - 2)
  }

  /** The specification's formula for the first byte of data cluster `n`. */
  function FirstByteOfCluster(b: BootSector, n: nat): int {
    (b.reserved + b.fatCount * b.sectorsPerFat + (n - 2) * b.sectorsPerCluster) * b.bytesPerSector
  }

  lemma {:induction false} BlockAddressExact(v: Volume, n: Word)
    requires v.Valid() && n < 0x4_0000_0000
    ensures BlockAddress(v, n) == v.fatStart + n * v.blockSize
  {
    ProductBelow(n, v.blockSize, 0x4_0000_0000, 0x100_0000);
  }

  lemma {:induction false} Spread(b: BootSector, n: nat)
    requires n >= 2
    ensures FirstByteOfCluster(b,
              n) == b.reserved * b.bytesPerSector + FatBytes(b) + (n - 2) * (b.sectorsPerCluster * b.bytesPerSector)
  {
    var x, y, z, w := b.reserved, b.fatCount * b.sectorsPerFat, (n - 2) * b.sectorsPerCluster, b.bytesPerSector;
    assert (x + y + z) * w == x * w + y * w + z * w;
    assert z * w == (n - 2) * (b.sectorsPerCluster * w);
  }

  /**
    A data cluster is looked for where the specification puts it precisely when the FATs fill whole clusters
    and fit in 32 bits.
   */
  lemma {:induction false} ClusterAddress(disk: seq<Byte>, b: BootSector, cluster: U32)
    requires b.Valid() && 2 <= cluster
    ensures var v := Mount(disk, b);
            BlockAddress(v, ClusterBlock(v, cluster)) == FirstByteOfCluster(b, cluster)
            <==> FatBytes(b) < 0x1_0000_0000 && FatBytes(b) % (b.sectorsPerCluster * b.bytesPerSector) == 0
  {
    var v := Mount(disk, b);
    Spread(b, cluster);
    WholeClusters(FatBytes(b), v.blockSize, cluster);
    hide FatBytes, FirstByteOfCluster;
    BlockAddressExact(v, v.fatBlocks + cluster - 2);
  }

  /**
    Two FATs of 513 sectors on a volume with eight-sector clusters: the
    first data cluster is read two sectors early.
   */
  lemma {:induction false} ClusterMissed(disk: seq<Byte>)
    ensures var b := BootSector(512, 8, 32, 2, 513);
            && b.Valid() && FirstByteOfCluster(b, 2) == 541_696
            && BlockAddress(Mount(disk, b), ClusterBlock(Mount(disk, b), 2)) == 540_672
  {
    var b := BootSector(512, 8, 32, 2, 513);
    assert FatBytes(b) == 525_312;
    assert Mount(disk, b) == Volume(disk, 4096, 16_384, 128);
  }

  /**
    Dividing the FAT region into blocks loses nothing precisely when it is
    a whole number of them and fits in 32 bits.
   */
  lemma {:induction false} WholeClusters(whole: nat, size: nat, cluster: nat)
    requires size > 0 && cluster >= 2
    ensures var blocks := whole % 0x1_0000_0000 / size;
            (blocks + cluster - 2) * size == whole + (cluster - 2) * size <==>
                whole < 0x1_0000_0000 && whole % size == 0
  {
    var wrapped := whole % 0x1_0000_0000;
    var blocks := wrapped / size;
    Divided(wrapped, size);
    assert (blocks + cluster - 2) * size == blocks * size + (cluster - 2) * size;
  }

  // ----- the device and the chain -----

  /** A read takes whole sectors, from the sector holding the offset. */
  function DeviceRead(disk: seq<Byte>, size: nat, offset: Word): (r: Option<seq<Byte>>)
    ensures r.Some? ==> size % 512 == 0 && |r.value| == size
  {
    var start := offset / 512 * 512;
    if size % 512 == 0 && start + size <= |disk| then Some(disk[start..start + size]) else None
  }

  /** It succeeds exactly for whole sectors inside the disk, and then gives the bytes from the sector's start. */
  lemma DeviceReads(disk: seq<Byte>, size: nat, offset: Word)
    ensures var r, start := DeviceRead(disk, size, offset), offset - offset % 512;
            && (r.Some? <==> size % 512 == 0 && start + size <= |disk|)
            && (r.Some? ==> forall k | 0 <= k < size :: r.value[k] == disk[start + k])
  {
    assert offset / 512 * 512 == offset - offset % 512;
  }

  function BlockAt(v: Volume, n: Word): (r: Option<seq<Byte>>)
    ensures r.Some? ==> v.blockSize % 512 == 0 && |r.value| == v.blockSize
  {
    DeviceRead(v.disk, v.blockSize, BlockAddress(v, n))
  }

  function ClusterAt(v: Volume, cluster: U32): (r: Option<seq<Byte>>)
    ensures r.Some? ==> |r.value| == v.blockSize
  {
    BlockAt(v, ClusterBlock(v, cluster))
  }

  /** The byte a read of block `n` starts at: the device starts at the sector of the block's address. */
  function BlockStart(v: Volume, n: Word): Word {
    BlockAddress(v, n) - BlockAddress(v, n) % 512
  }

  /**
    The bytes of a data cluster are those the specification names precisely when the FATs fill whole clusters
    and fit in 32 bits, and the reserved region is a whole number of 512-byte sectors.
   */
  lemma {:induction false} ClusterBytes(disk: seq<Byte>, b: BootSector, cluster: U32)
    requires b.Valid() && 2 <= cluster && ClusterAt(Mount(disk, b), cluster).Some?
    ensures var v, start := Mount(disk, b), BlockStart(Mount(disk, b), ClusterBlock(Mount(disk, b), cluster));
            && start + v.blockSize <= |disk| && ClusterAt(v, cluster).value == disk[start..start + v.blockSize]
            && (start == FirstByteOfCluster(b, cluster) <==>
                && FatBytes(b) < 0x1_0000_0000 && FatBytes(b) % (b.sectorsPerCluster * b.bytesPerSector) == 0
                && b.reserved * b.bytesPerSector % 512 == 0)
  {
    var v := Mount(disk, b);
    var n := v.fatBlocks + cluster - 2;
    ClusterAddress(disk, b, cluster);
    ClusterBehind(disk, b, cluster);
    BlockAddressExact(v, n);
    BlockSector(v, n);
    SectorStart(BlockAddress(v, n));
    hide FatBytes, FirstByteOfCluster, BlockAddress;
  }

  lemma SectorStart(address: Word)
    ensures address / 512 * 512 == address - address % 512
  {
  }

  /** A block of whole sectors is as far into its sector as the FAT is. */
  lemma {:induction false} BlockSector(v: Volume, n: Word)
    requires v.Valid() && v.blockSize % 512 == 0 && n < 0x4_0000_0000
    ensures BlockAddress(v, n) % 512 == v.fatStart % 512
  {
    BlockAddressExact(v, n);
    hide BlockAddress;
    var k := v.blockSize / 512;
    assert n * (512 * k) == 512 * (n * k);
    SectorsOn(v.fatStart, n * k);
  }

  lemma SectorsOn(x: nat, k: nat)
    ensures (x + 512 * k) % 512 == x % 512
  {
    assert x + 512 * k == 512 * (x / 512 + k) + x % 512;
  }

  /** A cluster is never looked for behind its place. */
  lemma {:induction false} ClusterBehind(disk: seq<Byte>, b: BootSector, cluster: U32)
    requires b.Valid() && 2 <= cluster
    ensures var v := Mount(disk, b);
            && ClusterBlock(v, cluster) == v.fatBlocks + cluster - 2 < 0x4_0000_0000
            && BlockAddress(v, ClusterBlock(v, cluster)) <= FirstByteOfCluster(b, cluster)
  {
    var v := Mount(disk, b);
    var n := v.fatBlocks + cluster - 2;
    Spread(b, cluster);
    Mounted(disk, b);
    hide FatBytes, FirstByteOfCluster;
    BlockAddressExact(v, n);
    assert n * v.blockSize == v.fatBlocks * v.blockSize + (cluster - 2) * v.blockSize;
    ResidueBelow(FatBytes(b));
  }

  lemma ResidueBelow(x: nat)
    ensures x % 0x1_0000_0000 <= x
  {
  }

  function Le32(s: seq<Byte>): (r: U32)
    requires |s| == 4
  {
    (s[0] as int) + 0x100 * (s[1] as int) + 0x1_0000 * (s[2] as int) + 0x100_0000 * (s[3] as int)
  }

  lemma EntryInBlock(size: nat, index: U32)
    requires size > 0 && size % 512 == 0
    ensures 4 * index % size + 4 <= size
  {
    var q, r := 4 * index / size, 4 * index % size;
    var k := size / 512;
    assert 4 * index == q * size + r && size == 512 * k;
    assert q * size == 4 * (128 * (q * k)) by {
      assert q * (512 * k) == 512 * (q * k);
    }
    assert r % 4 == 0;
  }

  /** The low 28 bits of FAT entry `index`, if its block can be read. */
  function FatEntry(v: Volume, index: U32): Option<U32>
    requires v.Valid()
  {
    var block := BlockAt(v, 4 * index / v.blockSize);
    if block.None? then None
    else
      var at := 4 * index % v.blockSize;
      EntryInBlock(v.blockSize, index);
      Some(Le32(block.value[at..at + 4]) % 0x1000_0000)
  }

  /** `entry` is the low 28 bits of the little-endian word at `at`. */
  ghost predicate EntryAt(disk: seq<Byte>, at: nat, entry: nat) {
    && at + 4 <= |disk|
    && var b0: nat, b1: nat, b2: nat, b3: nat := disk[at], disk[at + 1], disk[at + 2], disk[at + 3];
       entry == (b0 + 0x100 * b1 + 0x1_0000 * b2 + 0x100_0000 * b3) % 0x1000_0000
  }

  /**
    A FAT entry is read from where the specification puts it: four bytes
    per cluster from the start of the first FAT.
   */
  lemma {:induction false} FatEntryAddress(v: Volume, index: U32)
    requires v.Valid() && v.fatStart % 512 == 0 && FatEntry(v, index).Some?
    ensures EntryAt(v.disk, v.fatStart + 4 * index, FatEntry(v, index).value)
  {
    EntryWord(v, index);
    hide FatEntry;
  }

  lemma {:induction false} EntryWord(v: Volume, index: U32)
    requires v.Valid() && v.fatStart % 512 == 0 && FatEntry(v, index).Some?
    ensures v.fatStart + 4 * index + 4 <= |v.disk|
    ensures FatEntry(v, index).value == Le32(v.disk[v.fatStart + 4 * index..v.fatStart + 4 * index + 4]) % 0x1000_0000
  {
    Divided(4 * index, v.blockSize);
    var n, at := 4 * index / v.blockSize, 4 * index % v.blockSize;
    BlockAddressExact(v, n);
    WholeSectors(v.fatStart, n, v.blockSize);
    EntryInBlock(v.blockSize, index);
    hide BlockAddress, Le32;
    var start := BlockAddress(v, n);
    Slice(v.disk, start, v.blockSize, at);
  }

  lemma Slice(s: seq<Byte>, start: nat, size: nat, at: nat)
    requires at + 4 <= size && start + size <= |s|
    ensures s[start..start + size][at..at + 4] == s[start + at..start + at + 4]
  {
    var a, b := s[start..start + size][at..at + 4], s[start + at..start + at + 4];
    assert forall k | 0 <= k < 4 :: a[k] == b[k];
  }

  lemma WholeSectors(start: nat, n: nat, size: nat)
    requires start % 512 == 0 && size % 512 == 0
    ensures (start + n * size) / 512 * 512 == start + n * size
  {
    var k := size / 512;
    assert n * (512 * k) == 512 * (n * k);
    var m := start / 512 + n * k;
    assert start + n * size == 512 * m;
  }

  /** What follows a cluster in its chain. */
  datatype Link = Cluster(c: U32) | End | Unreadable

  function Next(v: Volume, c: U32): Link
    requires v.Valid()
  {
    var e := FatEntry(v, c);
    if e.None? then Unreadable else if e.value >= END_OF_CHAIN then End else Cluster(e.value)
  }

  /** The `j`-th cluster of the chain from `first`. */
  function Walk(v: Volume, first: U32, j: nat): Link
    requires v.Valid()
  {
    if j == 0 then Cluster(first)
    else
      var l := Walk(v, first, j - 1);
      if l.Cluster? then Next(v, l.c) else l
  }

  /** Which cluster of the chain holds position `p`, and where in it. */
  function ClusterOf(v: Volume, p: nat): nat
    requires v.Valid()
  {
    Divided(p, v.blockSize);
    p / v.blockSize
  }

  function PlaceOf(v: Volume, p: nat): (r: nat)
    requires v.Valid()
    ensures r < v.blockSize
  {
    Divided(p, v.blockSize);
    p % v.blockSize
  }

  /** The byte at position `p` of the chain. */
  function ByteAt(v: Volume, first: U32, p: nat): Option<Byte>
    requires v.Valid()
  {
    var l := Walk(v, first, ClusterOf(v, p));
    if !l.Cluster? || ClusterAt(v, l.c).None? then None
    else Some(ClusterAt(v, l.c).value[PlaceOf(v, p)])
  }

  ghost predicate Filled(v: Volume, first: U32, offset: nat, data: seq<Byte>)
    requires v.Valid()
  {
    forall i | 0 <= i < |data| :: ByteAt(v, first, offset + i) == Some(data[i])
  }

  /** The chain ends, between two clusters, at position `p`. */
  ghost predicate EndsAt(v: Volume, first: U32, p: nat)
    requires v.Valid()
  {
    PlaceOf(v, p) == 0 && Walk(v, first, ClusterOf(v, p)).End?
  }

  /** A successful read of `want` bytes: the chain's bytes from `offset`, short only where the chain ends. */
  ghost predicate ReadOk(v: Volume, first: U32, want: nat, offset: nat, data: seq<Byte>)
    requires v.Valid()
  {
    && |data| <= want && Filled(v, first, offset, data)
    && Walk(v, first, ClusterOf(v, offset)).Cluster?
    && (|data| < want ==> data != [] && EndsAt(v, first, offset + |data|))
  }

  /** A failed read: the cluster of `offset` cannot be reached, or a byte that is due cannot be read. */
  ghost predicate ReadFails(v: Volume, first: U32, want: nat, offset: nat)
    requires v.Valid()
  {
    || !Walk(v, first, ClusterOf(v, offset)).Cluster?
    || exists data :: ReadStops(v, first, want, offset, data)
  }

  ghost predicate ReadStops(v: Volume, first: U32, want: nat, offset: nat, data: seq<Byte>)
    requires v.Valid()
  {
    && |data| < want && Filled(v, first, offset, data)
    && ByteAt(v, first, offset + |data|).None?
    && !EndsAt(v, first, offset + |data|)
  }

  /** A read has one outcome. */
  lemma {:induction false} ReadIsUnique(v: Volume, first: U32, want: nat, offset: nat, a: seq<Byte>, b: seq<Byte>)
    requires v.Valid() && ReadOk(v, first, want, offset, a)
    ensures ReadOk(v, first, want, offset, b) ==> a == b
    ensures !ReadFails(v, first, want, offset)
  {
    if ReadOk(v, first, want, offset, b) {
      StopsWhereItEnds(v, first, want, offset, b);
      SameBytes(v, first, want, offset, a, b);
    }
    if ReadFails(v, first, want, offset) {
      var d :| ReadStops(v, first, want, offset, d);
      SameBytes(v, first, want, offset, a, d);
    }
  }

  lemma StopsWhereItEnds(v: Volume, first: U32, want: nat, offset: nat, a: seq<Byte>)
    requires v.Valid() && ReadOk(v, first, want, offset, a)
    ensures |a| < want ==> ByteAt(v, first, offset + |a|).None?
  {
  }

  lemma {:induction false} SameBytes(v: Volume, first: U32, want: nat, offset: nat, a: seq<Byte>, d: seq<Byte>)
    requires v.Valid() && ReadOk(v, first, want, offset, a)
    requires Filled(v, first, offset, d) && |d| <= want && (|d| < want ==> ByteAt(v, first, offset + |d|).None?)
    ensures a == d
  {
    StopsWhereItEnds(v, first, want, offset, a);
    hide ByteAt, EndsAt, Filled;
    if |a| < |d| {
      ByteInside(v, first, offset, d, |a|);
    } else if |d| < |a| {
      ByteInside(v, first, offset, a, |d|);
    }
    forall i | 0 <= i < |a|
      ensures i < |d| ==> a[i] == d[i]
    {
      ByteInside(v, first, offset, a, i);
      if i < |d| {
        ByteInside(v, first, offset, d, i);
      }
    }
  }

  lemma ByteInside(v: Volume, first: U32, offset: nat, data: seq<Byte>, k: nat)
    requires v.Valid() && Filled(v, first, offset, data) && k < |data|
    ensures ByteAt(v, first, offset + k) == Some(data[k])
  {
  }

  // ----- the file system object -----

  datatype DataBlock = DataBlock(number: Word, data: seq<Byte>)

  /** Every cached block holds what the device holds, whatever duplicates the list contains. */
  ghost predicate CacheAgrees(v: Volume, cache: seq<DataBlock>) {
    forall i | 0 <= i < |cache| :: BlockAt(v, cache[i].number) == Some(cache[i].data)
  }

  lemma EntryBlockBound(v: Volume, c: U32)
    requires v.Valid()
    ensures 4 * c / v.blockSize <= 4 * c
  {
    Divided(4 * c, v.blockSize);
  }

  class FatFileSystem {
    const volume: Volume
    var cache: seq<DataBlock>

    ghost predicate Valid()
      reads this
    {
      volume.Valid() && CacheAgrees(volume, cache)
    }

    constructor (disk: seq<Byte>, boot: BootSector)
      requires boot.Valid()
      ensures Valid() && volume == Mount(disk, boot) && cache == []
    {
      volume, cache := Mount(disk, boot), [];
    }

    method GetBlockFromCache(n: Word) returns (r: Option<seq<Byte>>)
      ensures r.Some? ==> exists i :: 0 <= i < |cache| && cache[i] == DataBlock(n, r.value)
      ensures r.None? ==> forall i | 0 <= i < |cache| :: cache[i].number != n
    {
      for i := 0 to |cache|
        invariant forall k | 0 <= k < i :: cache[k].number != n
      {
        if cache[i].number == n {
          return Some(cache[i].data);
        }
      }
      return None;
    }

    /** Blocks are put in front; a hit is put in front again, and nothing is ever evicted. */
    method Cache(block: DataBlock)
      requires Valid() && BlockAt(volume, block.number) == Some(block.data)
      modifies this
      ensures Valid() && cache == [block] + old(cache)
    {
      cache := [block] + cache;
    }

    /** Reading through the cache is reading the device. */
    method ReadBlockPoll(n: Word) returns (r: Option<seq<Byte>>)
      requires Valid()
      modifies this
      ensures Valid() && r == BlockAt(volume, n)
      ensures cache == if r.Some? then [DataBlock(n, r.value)] + old(cache) else old(cache)
    {
      hide BlockAt;
      r := GetBlockFromCache(n);
      if r.None? {
        r := DeviceRead(volume.disk, volume.blockSize, BlockAddress(volume, n));
        BlockIs(volume, n);
        if r.None? {
          return;
        }
      }
      Cache(DataBlock(n, r.value));
    }

    method GetFatEntry(index: U32) returns (r: Option<U32>)
      requires Valid()
      modifies this
      ensures Valid() && r == FatEntry(volume, index)
    {
      EntryBlockBound(volume, index);
      var block := ReadBlockPoll(4 * index / volume.blockSize);
      hide *;
      EntryIs(volume, index);
      if block.None? {
        return None;
      }
      var at := 4 * index % volume.blockSize;
      return Some(Le32(block.value[at..at + 4]) % 0x1000_0000);
    }

    method ReadClusterPoll(cluster: U32) returns (r: Option<seq<Byte>>)
      requires Valid()
      modifies this
      ensures Valid() && r == ClusterAt(volume, cluster)
    {
      r := ReadBlockPoll(ClusterBlock(volume, cluster));
    }
  }

  lemma BlockIs(v: Volume, n: Word)
    ensures BlockAt(v, n) == DeviceRead(v.disk, v.blockSize, BlockAddress(v, n))
  {
  }

  lemma EntryIs(v: Volume, index: U32)
    requires v.Valid()
    ensures 4 * index / v.blockSize <= 4 * index
    ensures var block := BlockAt(v, 4 * index / v.blockSize);
            if block.None? then FatEntry(v, index) == None
            else
              var at := 4 * index % v.blockSize;
              && at + 4 <= |block.value|
              && FatEntry(v, index) == Some(Le32(block.value[at..at + 4]) % 0x1000_0000)
  {
    EntryBlockBound(v, index);
    if BlockAt(v, 4 * index / v.blockSize).Some? {
      EntryInBlock(v.blockSize, index);
    }
  }

  // ----- reading a file -----

  /**
    How many bytes a read asks the chain for: the source compares `offset +
    size`, which may wrap, with the file size.
   */
  function Cap(fileSize: U32, size: Word, offset: Word): nat
    requires offset < fileSize
  {
    if Wrap(offset + size) > fileSize then fileSize - offset else size
  }

  /** The cap is the bytes left in the file precisely when the addition does not wrap. */
  lemma CapExact(fileSize: U32, size: Word, offset: Word)
    requires offset < fileSize
    ensures Cap(fileSize, size, offset) == (if size < fileSize - offset then size else fileSize - offset)
            <==> offset + size < U64
  {
  }

  /** A request so long that the sum wraps is not cut to the file at all. */
  lemma WrappedRequestUncut(fileSize: U32, size: Word, offset: Word)
    requires offset < fileSize && offset + size >= U64
    ensures Cap(fileSize, size, offset) == size > fileSize - offset
  {
    assert Wrap(offset + size) == offset + size - U64;
  }

  lemma Multiple(d: int, y: nat)
    ensures d != 0 ==> d * y >= y || d * y + y <= 0
  {
    if d > 0 {
      AtLeast(y, d);
    } else if d < 0 {
      AtLeast(y, 0 - d);
    }
  }

  lemma DivisionIs(x: nat, y: nat, q: nat, r: nat)
    requires x == q * y + r && r < y
    ensures x / y == q && x % y == r
  {
    var a, b := x / y, x % y;
    assert x == a * y + b;
    assert (a - q) * y == a * y - q * y;
    Multiple(a - q, y);
  }

  /** `d` places on from `p`, still in the same cluster. */
  lemma SameCluster(v: Volume, p: nat, d: nat)
    requires v.Valid() && PlaceOf(v, p) + d < v.blockSize
    ensures ClusterOf(v, p + d) == ClusterOf(v, p) && PlaceOf(v, p + d) == PlaceOf(v, p) + d
  {
    Divided(p, v.blockSize);
    DivisionIs(p + d, v.blockSize, p / v.blockSize, p % v.blockSize + d);
  }

  lemma NextCluster(v: Volume, p: nat)
    requires v.Valid()
    ensures var next := p + (v.blockSize - PlaceOf(v, p));
            ClusterOf(v, next) == ClusterOf(v, p) + 1 && PlaceOf(v, next) == 0
  {
    Divided(p, v.blockSize);
    var q := p / v.blockSize;
    assert (q + 1) * v.blockSize == q * v.blockSize + v.blockSize;
    DivisionIs(p + (v.blockSize - p % v.blockSize), v.blockSize, q + 1, 0);
  }

  /** Copying from the cluster that holds the next byte keeps the buffer the chain's bytes. */
  lemma {:induction false} CopyFills(v: Volume, first: U32, offset: nat, data: seq<Byte>, c: U32, block: seq<Byte>,
            at: nat, k: nat)
    requires v.Valid() && Filled(v, first, offset, data)
    requires Walk(v, first, ClusterOf(v, offset + |data|)) == Cluster(c) && ClusterAt(v, c) == Some(block)
    requires at == PlaceOf(v, offset + |data|) && at + k <= v.blockSize
    ensures Filled(v, first, offset, data + block[at..at + k])
  {
    var p := offset + |data|;
    var all := data + block[at..at + k];
    forall i | 0 <= i < |all|
      ensures ByteAt(v, first, offset + i) == Some(all[i])
    {
      if i < |data| {
        ByteInside(v, first, offset, data, i);
      } else {
        hide Walk, ClusterAt, Filled;
        SameCluster(v, p, i - |data|);
        assert offset + i == p + (i - |data|);
      }
    }
  }

  /** A cluster that is used up is followed by the next one of the chain. */
  lemma {:induction false} ClusterDone(v: Volume, first: U32, p: nat, c: U32)
    requires v.Valid() && Walk(v, first, ClusterOf(v, p)) == Cluster(c)
    ensures var next := p + (v.blockSize - PlaceOf(v, p));
            PlaceOf(v, next) == 0 && Walk(v, first, ClusterOf(v, next)) == Next(v, c)
  {
    NextCluster(v, p);
    NextIs(v, first, ClusterOf(v, p), c);
  }

  lemma NextIs(v: Volume, first: U32, j: nat, c: U32)
    requires v.Valid() && Walk(v, first, j) == Cluster(c)
    ensures Walk(v, first, j + 1) == Next(v, c)
  {
  }

  /** What ended a read early. */
  datatype ReadError = ChainTooShort | DeviceError

  datatype ReadResult = Done(n: nat) | Failed(error: ReadError)

  /** `now` with `piece` written at `n`. */
  function Overwritten(now: seq<Byte>, n: nat, piece: seq<Byte>): (r: seq<Byte>)
    requires n + |piece| <= |now|
    ensures |r| == |now|
  {
    now[..n] + piece + now[n + |piece|..]
  }

  /** The buffer holds `n` bytes of the chain, and beyond them what it held before. */
  ghost predicate Holds(v: Volume, first: U32, offset: nat, was: seq<Byte>, now: seq<Byte>, n: nat)
    requires v.Valid()
  {
    n <= |now| == |was| && Filled(v, first, offset, now[..n]) && now[n..] == was[n..]
  }

  ghost predicate HoldsIn(v: Volume, first: U32, offset: nat, was: seq<Byte>, buffer: array<Byte>, n: nat)
    requires v.Valid()
    reads buffer
  {
    Holds(v, first, offset, was, buffer[..], n)
  }

  lemma HoldsIs(v: Volume, first: U32, offset: nat, was: seq<Byte>, buffer: array<Byte>, n: nat)
    requires v.Valid()
    ensures HoldsIn(v, first, offset, was, buffer, n) <==> Holds(v, first, offset, was, buffer[..], n)
  {
  }

  /** One turn of the read loop on values. */
  lemma {:induction false} TurnHolds(v: Volume, first: U32, want: nat, offset: nat, was: seq<Byte>, now: seq<Byte>,
                                     n: nat, c: U32, block: seq<Byte>, at: nat, k: nat)
    requires v.Valid() && Holds(v, first, offset, was, now, n) && n < want <= |now|
    requires Walk(v, first, ClusterOf(v, offset + n)) == Cluster(c) && ClusterAt(v, c) == Some(block)
    requires n > 0 ==> PlaceOf(v, offset + n) == 0
    requires at == if n == 0 then PlaceOf(v, offset) else 0
    requires k == if want - n < v.blockSize - at then want - n else v.blockSize - at
    ensures 0 < k <= want - n && at + k <= |block|
    ensures Holds(v, first, offset, was, Overwritten(now, n, block[at..at + k]), n + k)
    ensures n + k < want ==>
              PlaceOf(v, offset + (n + k)) == 0 && Walk(v, first, ClusterOf(v, offset + (n + k))) == Next(v, c)
  {
    hide Filled, Walk, ClusterAt, Next, PlaceOf, ClusterOf;
    var piece, m := block[at..at + k], n + k;
    var r := Overwritten(now, n, piece);
    CopyFills(v, first, offset, now[..n], c, block, at, k);
    assert r[..m] == now[..n] + piece;
    assert now[m..] == now[n..][k..] && was[m..] == was[n..][k..] && r[m..] == now[m..];
    if m < want {
      ClusterDone(v, first, offset + n, c);
    }
  }

  /** A file of the volume: its size and first cluster, from the directory entry. */
  class FatInode {
    const fs: FatFileSystem
    const size: U32
    const firstCluster: U32

    constructor (fs: FatFileSystem, size: U32, firstCluster: U32)
      ensures this.fs == fs && this.size == size && this.firstCluster == firstCluster
    {
      this.fs, this.size, this.firstCluster := fs, size, firstCluster;
    }

    /** What a cluster's FAT entry says comes next. */
    method Follow(cluster: U32) returns (l: Link)
      requires fs.Valid()
      modifies fs
      ensures fs.Valid() && l == Next(fs.volume, cluster)
    {
      var entry := fs.GetFatEntry(cluster);
      return if entry.None? then Unreadable else if entry.value >= END_OF_CHAIN then End else Cluster(entry.value);
    }

    /** The cluster that holds `offset`: one FAT entry for every whole cluster before it. */
    method SkipClusters(offset: Word) returns (l: Link)
      requires fs.Valid()
      modifies fs
      ensures fs.Valid() && l == Walk(fs.volume, firstCluster, ClusterOf(fs.volume, offset))
    {
      var current: U32 := firstCluster;
      var skip := ClusterOf(fs.volume, offset);
      for i := 0 to skip
        invariant fs.Valid() && Walk(fs.volume, firstCluster, i) == Cluster(current)
      {
        var link := Follow(current);
        NextIs(fs.volume, firstCluster, i, current);
        if !link.Cluster? {
          StaysStopped(fs.volume, firstCluster, i + 1, skip);
          return link;
        }
        current := link.c;
      }
      return Cluster(current);
    }

    /** Copies `piece` into the buffer at `n`. */
    method Store(buffer: array<Byte>, piece: seq<Byte>, n: nat)
      requires n + |piece| <= buffer.Length
      modifies buffer
      ensures buffer[..] == Overwritten(old(buffer[..]), n, piece)
    {
      forall i | 0 <= i < |piece| {
        buffer[n + i] := piece[i];
      }
    }

    /** One turn of the read loop: the rest of the current cluster, or as much of it as is wanted. */
    method CopyCluster(buffer: array<Byte>, n: nat, want: nat, offset: Word, current: U32,
              ghost was: seq<Byte>) returns (k: Option<nat>)
      requires fs.Valid() && n < want <= buffer.Length && HoldsIn(fs.volume, firstCluster, offset, was, buffer, n)
      requires Walk(fs.volume, firstCluster, ClusterOf(fs.volume, offset + n)) == Cluster(current)
      requires n > 0 ==> PlaceOf(fs.volume, offset + n) == 0
      modifies fs, buffer
      ensures fs.Valid()
      ensures k.None? ==> ReadFails(fs.volume, firstCluster, want, offset)
      ensures k.Some? ==>
                var m := n + k.value;
                && n < m <= want && HoldsIn(fs.volume, firstCluster, offset, was, buffer, m)
                && (m < want ==>
                      && PlaceOf(fs.volume, offset + m) == 0
                      && Walk(fs.volume, firstCluster, ClusterOf(fs.volume, offset + m)) == Next(fs.volume, current))
    {
      var v := fs.volume;
      HoldsIs(v, firstCluster, offset, was, buffer, n);
      hide *;
      var block := fs.ReadClusterPoll(current);
      if block.None? {
        Stops(v, firstCluster, want, offset, was, buffer[..], n, current);
        return None;
      }
      var at := if n == 0 then PlaceOf(v, offset) else 0;
      var available := v.blockSize - at;
      var count := if want - n < available then want - n else available;
      TurnHolds(v, firstCluster, want, offset, was, buffer[..], n, current, block.value, at, count);
      Store(buffer, block.value[at..at + count], n);
      HoldsIs(v, firstCluster, offset, was, buffer, n + count);
      return Some(count);
    }

    method Read(buffer: array<Byte>, requested: Word, offset: Word) returns (r: ReadResult)
      requires fs.Valid() && requested <= buffer.Length
      modifies fs, buffer
      ensures fs.Valid()
      ensures offset >= size ==> r == Done(0) && buffer[..] == old(buffer[..])
      ensures offset < size ==>
                var want := Cap(size, requested, offset);
                match r
                case Done(n) =>
                  && n <= buffer.Length && buffer[n..] == old(buffer[n..])
                  && ReadOk(fs.volume, firstCluster, want, offset, buffer[..n])
                case Failed(error) =>
                  && ReadFails(fs.volume, firstCluster, want, offset)
                  && (error.ChainTooShort? <==> Walk(fs.volume, firstCluster, ClusterOf(fs.volume, offset)).End?)
    {
      if offset >= size {
        return Done(0);
      }
      var want := Cap(size, requested, offset);
      var start := SkipClusters(offset);
      if !start.Cluster? {
        return Failed(if start.End? then ChainTooShort else DeviceError);
      }
      r := ReadChain(buffer, want, offset, start.c);
    }

    /** The body of the read loop: a cluster is copied and, if more is wanted, the chain followed. */
    method Turn(buffer: array<Byte>, n: nat, want: nat, offset: Word, current: U32, ghost was: seq<Byte>)
      returns (t: Turned)
      requires fs.Valid() && n < want <= buffer.Length
      requires Reading(fs.volume, firstCluster, want, offset, was, buffer, n, current)
      modifies fs, buffer
      ensures fs.Valid()
      ensures match t
              case More(m, c) => n < m < want && Reading(fs.volume, firstCluster, want, offset, was, buffer, m, c)
              case Last(m) => ReadDone(fs.volume, firstCluster, want, offset, was, buffer, m)
              case Broken => ReadFails(fs.volume, firstCluster, want, offset)
    {
      var v := fs.volume;
      ReadingIs(v, firstCluster, want, offset, was, buffer, n, current);
      hide *;
      var k := CopyCluster(buffer, n, want, offset, current, was);
      if k.None? {
        return Broken;
      }
      var m := n + k.value;
      if m == want {
        AllRead(v, firstCluster, want, offset, was, buffer, m);
        return Last(m);
      }
      var link := Follow(current);
      if link.Unreadable? {
        ChainBroken(v, firstCluster, want, offset, was, buffer, m);
        return Broken;
      }
      if link.End? {
        ChainEnded(v, firstCluster, want, offset, was, buffer, m);
        return Last(m);
      }
      ReadingIs(v, firstCluster, want, offset, was, buffer, m, link.c);
      return More(m, link.c);
    }

    method ReadChain(buffer: array<Byte>, want: nat, offset: Word, start: U32) returns (r: ReadResult)
      requires fs.Valid() && want <= buffer.Length
      requires Walk(fs.volume, firstCluster, ClusterOf(fs.volume, offset)) == Cluster(start)
      modifies fs, buffer
      ensures fs.Valid()
      ensures r.Done? ==>
                && r.n <= buffer.Length && buffer[r.n..] == old(buffer[r.n..])
                && ReadOk(fs.volume, firstCluster, want, offset, buffer[..r.n])
      ensures r.Failed? ==> ReadFails(fs.volume, firstCluster, want, offset) && r.error == DeviceError
    {
      var n := 0;
      var current: U32 := start;
      ghost var v, was := fs.volume, buffer[..];
      ReadingStarts(v, firstCluster, want, offset, buffer, start);
      hide *;
      while n < want
        invariant fs.Valid() && n <= want
        invariant if n < want then Reading(v, firstCluster, want, offset, was, buffer, n, current)
                  else ReadDone(v, firstCluster, want, offset, was, buffer, n)
      {
        var t := Turn(buffer, n, want, offset, current, was);
        match t {
          case Broken =>
            return Failed(DeviceError);
          case Last(m) =>
            n := m;
            break;
          case More(m, c) =>
            n, current := m, c;
        }
      }
      ReadEnds(v, firstCluster, want, offset, was, buffer, n, start);
      return Done(n);
    }
  }

  /** How a turn of the read loop went: on with cluster `c`, done after `n` bytes, or a device error. */
  datatype Turned = More(n: nat, c: U32) | Last(n: nat) | Broken

  /** Between two turns: `n` bytes are read and `current` is the cluster of the next one. */
  ghost predicate Reading(v: Volume, first: U32, want: nat, offset: nat, was: seq<Byte>, buffer: array<Byte>, n: nat,
                          current: U32)
    requires v.Valid()
    reads buffer
  {
    && n <= want && HoldsIn(v, first, offset, was, buffer, n)
    && Walk(v, first, ClusterOf(v, offset + n)) == Cluster(current) && (n > 0 ==> PlaceOf(v, offset + n) == 0)
  }

  /** After the last turn: everything is read, or the chain ends here. */
  ghost predicate ReadDone(v: Volume, first: U32, want: nat, offset: nat, was: seq<Byte>, buffer: array<Byte>, n: nat)
    requires v.Valid()
    reads buffer
  {
    n <= want && HoldsIn(v, first, offset, was, buffer, n) && (n < want ==> n > 0 && EndsAt(v, first, offset + n))
  }

  lemma ReadingIs(v: Volume, first: U32, want: nat, offset: nat, was: seq<Byte>, buffer: array<Byte>, n: nat,
                  current: U32)
    requires v.Valid()
    ensures Reading(v, first, want, offset, was, buffer, n, current) <==>
            && n <= want && HoldsIn(v, first, offset, was, buffer, n)
            && Walk(v, first, ClusterOf(v, offset + n)) == Cluster(current) && (n > 0 ==> PlaceOf(v, offset + n) == 0)
  {
  }

  lemma ReadingStarts(v: Volume, first: U32, want: nat, offset: nat, buffer: array<Byte>, start: U32)
    requires v.Valid() && Walk(v, first, ClusterOf(v, offset)) == Cluster(start)
    ensures Reading(v, first, want, offset, buffer[..], buffer, 0, start)
    ensures want == 0 ==> ReadDone(v, first, want, offset, buffer[..], buffer, 0)
  {
  }

  lemma AllRead(v: Volume, first: U32, want: nat, offset: nat, was: seq<Byte>, buffer: array<Byte>, n: nat)
    requires v.Valid() && HoldsIn(v, first, offset, was, buffer, n) && n == want
    ensures ReadDone(v, first, want, offset, was, buffer, n)
  {
  }

  lemma ChainEnded(v: Volume, first: U32, want: nat, offset: nat, was: seq<Byte>, buffer: array<Byte>, n: nat)
    requires v.Valid() && HoldsIn(v, first, offset, was, buffer, n) && 0 < n < want
    requires PlaceOf(v, offset + n) == 0 && Walk(v, first, ClusterOf(v, offset + n)).End?
    ensures ReadDone(v, first, want, offset, was, buffer, n)
  {
  }

  lemma {:induction false} StaysStopped(v: Volume, first: U32, i: nat, j: nat)
    requires v.Valid() && i <= j && !Walk(v, first, i).Cluster?
    ensures Walk(v, first, j) == Walk(v, first, i)
  {
    if i < j {
      StaysStopped(v, first, i, j - 1);
    }
  }

  /** The cluster of the next byte cannot be read. */
  lemma Stops(v: Volume, first: U32, want: nat, offset: nat, was: seq<Byte>, now: seq<Byte>, n: nat, c: U32)
    requires v.Valid() && Holds(v, first, offset, was, now, n) && n < want
    requires Walk(v, first, ClusterOf(v, offset + n)) == Cluster(c) && ClusterAt(v, c).None?
    ensures ReadFails(v, first, want, offset)
  {
    assert ReadStops(v, first, want, offset, now[..n]);
  }

  /** The FAT entry that should name the next cluster cannot be read. */
  lemma ChainBroken(v: Volume, first: U32, want: nat, offset: nat, was: seq<Byte>, buffer: array<Byte>, n: nat)
    requires v.Valid() && HoldsIn(v, first, offset, was, buffer, n) && n < want
    requires Walk(v, first, ClusterOf(v, offset + n)).Unreadable?
    ensures ReadFails(v, first, want, offset)
  {
    assert ReadStops(v, first, want, offset, buffer[..][..n]);
  }

  lemma ReadEnds(v: Volume, first: U32, want: nat, offset: nat, was: seq<Byte>, buffer: array<Byte>, n: nat, start: U32)
    requires v.Valid() && ReadDone(v, first, want, offset, was, buffer, n)
    requires Walk(v, first, ClusterOf(v, offset)) == Cluster(start)
    ensures n <= buffer.Length == |was| && buffer[n..] == was[n..] && ReadOk(v, first, want, offset, buffer[..n])
  {
    assert buffer[..n] == buffer[..][..n] && buffer[n..] == buffer[..][n..];
  }

  // ----- what a read returns, in terms of the file's contents -----

  /** The chain from `first` is `clusters`, all of them readable, and then it ends. */
  ghost predicate IsChain(v: Volume, first: U32, clusters: seq<U32>)
    requires v.Valid()
  {
    && clusters != []
    && (forall j: nat | j < |clusters| :: Walk(v, first, j) == Cluster(clusters[j]) && ClusterAt(v, clusters[j]).Some?)
    && Walk(v, first, |clusters|).End?
  }

  /** The clusters' data, one after the other. */
  function Contents(v: Volume, clusters: seq<U32>): (r: seq<Byte>)
    requires v.Valid() && forall c | c in clusters :: ClusterAt(v, c).Some?
    ensures |r| == |clusters| * v.blockSize
  {
    if clusters == [] then []
    else
      var n := |clusters| - 1;
      assert (n + 1) * v.blockSize == n * v.blockSize + v.blockSize;
      Contents(v, clusters[..n]) + ClusterAt(v, clusters[n]).value
  }

  /** Position `p` of the contents is in the cluster and at the place the read loop computes. */
  lemma {:induction false} ContentsAt(v: Volume, clusters: seq<U32>, p: nat)
    requires v.Valid() && forall c | c in clusters :: ClusterAt(v, c).Some?
    requires p < |Contents(v, clusters)|
    ensures ClusterOf(v, p) < |clusters|
    ensures Contents(v, clusters)[p] == ClusterAt(v, clusters[ClusterOf(v, p)]).value[PlaceOf(v, p)]
    decreases |clusters|
  {
    var n := |clusters| - 1;
    var before := Contents(v, clusters[..n]);
    assert (n + 1) * v.blockSize == n * v.blockSize + v.blockSize;
    if p < |before| {
      ContentsAt(v, clusters[..n], p);
    } else {
      DivisionIs(p, v.blockSize, n, p - |before|);
    }
  }

  lemma {:induction false} ContentsAreBytes(v: Volume, first: U32, clusters: seq<U32>, p: nat)
    requires v.Valid() && IsChain(v, first, clusters)
    ensures var data := Contents(v, clusters);
            if p < |data| then ByteAt(v, first, p) == Some(data[p]) else Walk(v, first, ClusterOf(v, p)).End?
  {
    var data := Contents(v, clusters);
    if p < |data| {
      ContentsAt(v, clusters, p);
    } else {
      EnoughClusters(v, |clusters|, p);
      StaysStopped(v, first, |clusters|, ClusterOf(v, p));
    }
  }

  lemma EnoughClusters(v: Volume, n: nat, p: nat)
    requires v.Valid() && p >= n * v.blockSize
    ensures ClusterOf(v, p) >= n
    ensures p == n * v.blockSize ==> ClusterOf(v, p) == n && PlaceOf(v, p) == 0
  {
    Divided(p, v.blockSize);
    var d := p / v.blockSize - n;
    assert d * v.blockSize == p / v.blockSize * v.blockSize - n * v.blockSize;
    Multiple(d, v.blockSize);
    if p == n * v.blockSize {
      DivisionIs(p, v.blockSize, n, 0);
    }
  }

  /**
    What a file read must return: nothing at or past the end, an error
    past the chain, otherwise the bytes both have.
   */
  function FileSlice(data: seq<Byte>, fileSize: nat, size: nat, offset: nat): Option<seq<Byte>> {
    if offset >= fileSize then Some([])
    else if offset >= |data| then None
    else
      var end := if offset + size < fileSize then offset + size else fileSize;
      Some(data[offset..if end < |data| then end else |data|])
  }

  /**
    A read of a file whose chain is readable is exactly `FileSlice` of the chain's contents, however long
    the chain is compared with the recorded file size.
   */
  lemma {:induction false} ReadIsSlice(v: Volume, first: U32, clusters: seq<U32>, fileSize: U32, size: Word,
                                       offset: Word)
    requires v.Valid() && IsChain(v, first, clusters)
    requires offset < fileSize && offset + size < U64
    ensures var want, slice := Cap(fileSize, size, offset), FileSlice(Contents(v, clusters), fileSize, size, offset);
            && (forall d :: ReadOk(v, first, want, offset, d) <==> slice == Some(d))
            && (ReadFails(v, first, want, offset) <==> slice.None?)
            && (slice.None? ==> Walk(v, first, ClusterOf(v, offset)).End?)
  {
    var data, want := Contents(v, clusters), Cap(fileSize, size, offset);
    var slice := FileSlice(data, fileSize, size, offset);
    ContentsAreBytes(v, first, clusters, offset);
    if slice.Some? {
      SliceIsRead(v, first, clusters, fileSize, size, offset);
      hide ReadOk, ReadFails, Walk, ClusterOf, FileSlice, Cap;
      forall d
        ensures ReadOk(v, first, want, offset, d) ==> d == slice.value
      {
        if ReadOk(v, first, want, offset, d) {
          ReadIsUnique(v, first, want, offset, slice.value, d);
        }
      }
      ReadIsUnique(v, first, want, offset, slice.value, []);
    }
  }

  lemma {:induction false} SliceIsRead(v: Volume, first: U32, clusters: seq<U32>, fileSize: U32, size: Word,
                                       offset: Word)
    requires v.Valid() && IsChain(v, first, clusters)
    requires offset < fileSize && offset + size < U64 && offset < |Contents(v, clusters)|
    ensures var want, slice := Cap(fileSize, size, offset), FileSlice(Contents(v, clusters), fileSize, size, offset);
            slice.Some? && ReadOk(v, first, want, offset, slice.value)
  {
    CapExact(fileSize, size, offset);
    hide Cap, Walk, ByteAt;
    PieceIsRead(v, first, clusters, Cap(fileSize, size, offset), offset);
  }

  lemma {:induction false} PieceIsFilled(v: Volume, first: U32, clusters: seq<U32>, offset: nat, end: nat)
    requires v.Valid() && IsChain(v, first, clusters) && offset <= end <= |Contents(v, clusters)|
    ensures Filled(v, first, offset, Contents(v, clusters)[offset..end])
  {
    var data := Contents(v, clusters);
    hide Contents, IsChain, ByteAt;
    forall i | 0 <= i < end - offset
      ensures ByteAt(v, first, offset + i) == Some(data[offset..end][i])
    {
      ContentsAreBytes(v, first, clusters, offset + i);
    }
  }

  /** The contents from `offset`, `want` bytes of them or all there are, are what a read returns. */
  lemma {:induction false} PieceIsRead(v: Volume, first: U32, clusters: seq<U32>, want: nat, offset: nat)
    requires v.Valid() && IsChain(v, first, clusters) && offset < |Contents(v, clusters)|
    ensures var data := Contents(v, clusters);
            ReadOk(v, first, want, offset, data[offset..if offset + want < |data| then offset + want else |data|])
  {
    var data := Contents(v, clusters);
    hide *;
    var end := if offset + want < |data| then offset + want else |data|;
    PieceIsFilled(v, first, clusters, offset, end);
    ContentsAreBytes(v, first, clusters, offset);
    ByteIsReached(v, first, offset);
    ContentsEnd(v, first, clusters);
    ReadOkIs(v, first, want, offset, data[offset..end]);
  }

  lemma ContentsEnd(v: Volume, first: U32, clusters: seq<U32>)
    requires v.Valid() && IsChain(v, first, clusters)
    ensures EndsAt(v, first, |Contents(v, clusters)|)
  {
    var data := Contents(v, clusters);
    ContentsAreBytes(v, first, clusters, |data|);
    EnoughClusters(v, |clusters|, |data|);
    hide Contents, IsChain, Walk, ByteAt, ClusterOf, PlaceOf;
  }

  lemma ReadOkIs(v: Volume, first: U32, want: nat, offset: nat, data: seq<Byte>)
    requires v.Valid() && |data| <= want && Filled(v, first, offset, data)
    requires Walk(v, first, ClusterOf(v, offset)).Cluster?
    requires |data| < want ==> data != [] && EndsAt(v, first, offset + |data|)
    ensures ReadOk(v, first, want, offset, data)
  {
    hide Walk, Filled, ClusterOf, EndsAt;
  }

  lemma ByteIsReached(v: Volume, first: U32, p: nat)
    requires v.Valid() && ByteAt(v, first, p).Some?
    ensures Walk(v, first, ClusterOf(v, p)).Cluster?
  {
  }

  /** The offset after `n` bytes were read. */
  function Moved(offset: Word, n: nat): Word {
    Wrap(offset + n)
  }

  lemma MovedBy(offset: Word, n: nat)
    ensures offset + n < U64 ==> Moved(offset, n) == offset + n
  {
  }

  /** An open file: reading moves the offset by what was read. */
  class File {
    const inode: FatInode
    var offset: Word

    constructor (inode: FatInode)
      ensures this.inode == inode && offset == 0
    {
      this.inode, offset := inode, 0;
    }

    method Read(buffer: array<Byte>, requested: Word) returns (r: ReadResult)
      requires inode.fs.Valid() && requested <= buffer.Length
      modifies this, inode.fs, buffer
      ensures inode.fs.Valid()
      ensures old(offset) >= inode.size ==> r == Done(0) && offset == old(offset) && buffer[..] == old(buffer[..])
      ensures old(offset) < inode.size ==>
                var want := Cap(inode.size, requested, old(offset));
                match r
                case Done(n) =>
                  && offset == Moved(old(offset), n) && n <= buffer.Length && buffer[n..] == old(buffer[n..])
                  && ReadOk(inode.fs.volume, inode.firstCluster, want, old(offset), buffer[..n])
                case Failed(error) =>
                  && offset == old(offset) && ReadFails(inode.fs.volume, inode.firstCluster, want, old(offset))
    {
      hide *;
      r := inode.Read(buffer, requested, offset);
      if r.Done? {
        ghost var was := offset;
        offset := Moved(offset, r.n);
        MovedNot(was);
      }
    }
  }

  lemma MovedNot(offset: Word)
    ensures Moved(offset, 0) == offset
  {
  }

  /** Reading a file in pieces of the given sizes; `None` if one of the reads fails. */
  function ReadInChunks(data: seq<Byte>, fileSize: nat, sizes: seq<nat>, offset: nat): Option<seq<Byte>>
    decreases |sizes|
  {
    if sizes == [] then Some([])
    else
      var piece := FileSlice(data, fileSize, sizes[0], offset);
      if piece.None? then None
      else
        var rest := ReadInChunks(data, fileSize, sizes[1..], offset + |piece.value|);
        if rest.None? then None else Some(piece.value + rest.value)
  }

  function Sum(sizes: seq<nat>): nat
    decreases |sizes|
  {
    if sizes == [] then 0 else sizes[0] + Sum(sizes[1..])
  }

  lemma FirstChunk(data: seq<Byte>, fileSize: nat, sizes: seq<nat>, offset: nat)
    requires sizes != []
    ensures Sum(sizes) == sizes[0] + Sum(sizes[1..]) && (sizes[1..] == [] ==> Sum(sizes[1..]) == 0)
    ensures ReadInChunks(data, fileSize, sizes, offset) ==
            (var piece := FileSlice(data, fileSize, sizes[0], offset);
             if piece.None? then None
             else
               var rest := ReadInChunks(data, fileSize, sizes[1..], offset + |piece.value|);
               if rest.None? then None else Some(piece.value + rest.value))
  {
  }

  lemma NoChunks(data: seq<Byte>, fileSize: nat, offset: nat)
    ensures ReadInChunks(data, fileSize, [], offset) == Some([]) && Sum([]) == 0
    ensures FileSlice(data, fileSize, 0, offset).Some? ==> FileSlice(data, fileSize, 0, offset) == Some([])
  {
    assert offset < fileSize && offset < |data| ==> data[offset..offset] == [];
  }

  lemma FailsAtAnySize(data: seq<Byte>, fileSize: nat, a: nat, b: nat, offset: nat)
    ensures FileSlice(data, fileSize, a, offset).None? <==> FileSlice(data, fileSize, b, offset).None?
    ensures FileSlice(data, fileSize, a, offset).None? ==> |data| < fileSize
  {
  }

  lemma SliceSplits(data: seq<Byte>, fileSize: nat, a: nat, b: nat, offset: nat)
    requires FileSlice(data, fileSize, a, offset).Some?
    requires FileSlice(data, fileSize, b, offset + |FileSlice(data, fileSize, a, offset).value|).Some?
    ensures var piece := FileSlice(data, fileSize, a, offset).value;
            FileSlice(data, fileSize, a + b, offset)
              == Some(piece + FileSlice(data, fileSize, b, offset + |piece|).value)
  {
    var piece := FileSlice(data, fileSize, a, offset).value;
    assert piece + [] == piece;
    if offset + |piece| < fileSize {
      var m, whole := offset + |piece|, FileSlice(data, fileSize, a + b, offset).value;
      var end := offset + |whole|;
      assert data[offset..m] + data[m..end] == data[offset..end];
    }
  }

  /**
    A chunked read fails precisely when the chain is shorter than the file and
    the chunk sizes before the last reach its end.
   */
  lemma {:induction false} ChunksFailExactly(data: seq<Byte>, fileSize: nat, sizes: seq<nat>, offset: nat)
    ensures ReadInChunks(data, fileSize, sizes, offset).None? <==>
            sizes != [] && |data| < fileSize && offset < fileSize && offset + Sum(sizes[..|sizes| - 1]) >= |data|
    decreases |sizes|
  {
    if sizes != [] {
      FirstChunk(data, fileSize, sizes, offset);
      InitSum(sizes);
      FirstMoves(data, fileSize, sizes[0], offset);
      hide FileSlice, ReadInChunks, Sum;
      var piece := FileSlice(data, fileSize, sizes[0], offset);
      if piece.Some? {
        ChunksFailExactly(data, fileSize, sizes[1..], offset + |piece.value|);
      }
    }
  }

  lemma FirstMoves(data: seq<Byte>, fileSize: nat, size: nat, offset: nat)
    ensures var piece := FileSlice(data, fileSize, size, offset);
            if offset >= fileSize then piece == Some([])
            else if offset >= |data| then piece.None?
            else
              piece.Some? &&
              var next, end := offset + |piece.value|, if fileSize < |data| then fileSize else |data|;
              next == if offset + size < end then offset + size else end
  {
  }

  lemma InitSum(sizes: seq<nat>)
    requires sizes != []
    ensures var init := sizes[..|sizes| - 1];
            Sum(init) == if |sizes| == 1 then 0 else sizes[0] + Sum(sizes[1..][..|sizes| - 2])
  {
    var init := sizes[..|sizes| - 1];
    if |sizes| > 1 {
      assert init[0] == sizes[0] && init[1..] == sizes[1..][..|sizes| - 2];
    }
  }

  /** Any chunking gives the bytes of one large read when both succeed; and they do when the chain covers the file. */
  lemma {:induction false} ChunksConcatenate(data: seq<Byte>, fileSize: nat, sizes: seq<nat>, offset: nat)
    ensures var chunks, whole := ReadInChunks(data, fileSize, sizes, offset),
                FileSlice(data, fileSize, Sum(sizes), offset);
            && (fileSize <= |data| ==> chunks.Some? && whole.Some?)
            && (chunks.Some? && whole.Some? ==> chunks == whole)
  {
    ChunksFailExactly(data, fileSize, sizes, offset);
    FirstMoves(data, fileSize, Sum(sizes), offset);
    hide *;
    if ReadInChunks(data, fileSize, sizes, offset).Some? && FileSlice(data, fileSize, Sum(sizes), offset).Some? {
      ChunksAreWhole(data, fileSize, sizes, offset);
    }
  }

  lemma {:induction false} ChunksAreWhole(data: seq<Byte>, fileSize: nat, sizes: seq<nat>, offset: nat)
    requires ReadInChunks(data, fileSize, sizes, offset).Some? && FileSlice(data, fileSize, Sum(sizes), offset).Some?
    ensures ReadInChunks(data, fileSize, sizes, offset) == FileSlice(data, fileSize, Sum(sizes), offset)
    decreases |sizes|
  {
    hide *;
    if sizes == [] {
      NoChunks(data, fileSize, offset);
    } else {
      FirstChunk(data, fileSize, sizes, offset);
      var first, more := sizes[0], sizes[1..];
      var next := offset + |FileSlice(data, fileSize, first, offset).value|;
      if more == [] {
        NoChunks(data, fileSize, next);
        SliceAlone(data, fileSize, first, offset);
      } else {
        FirstChunk(data, fileSize, more, next);
        FailsAtAnySize(data, fileSize, more[0], Sum(more), next);
        ChunksAreWhole(data, fileSize, more, next);
        SliceSplits(data, fileSize, first, Sum(more), offset);
      }
    }
  }

  lemma SliceAlone(data: seq<Byte>, fileSize: nat, a: nat, offset: nat)
    requires FileSlice(data, fileSize, a, offset).Some?
    ensures FileSlice(data, fileSize, a, offset) == Some(FileSlice(data, fileSize, a, offset).value + [])
  {
    var piece := FileSlice(data, fileSize, a, offset).value;
    assert piece + [] == piece;
  }

  /**
    Chunks give what one large read gives, bytes or error, precisely unless the read starts inside a chain
    that is shorter than the file and a chunk is started at the chain's end.
   */
  lemma {:induction false} ChunksAgreeExactly(data: seq<Byte>, fileSize: nat, sizes: seq<nat>, offset: nat)
    requires sizes != []
    ensures ReadInChunks(data, fileSize, sizes, offset) == FileSlice(data, fileSize, Sum(sizes), offset) <==>
            !(offset < |data| < fileSize && offset + Sum(sizes[..|sizes| - 1]) >= |data|)
  {
    ChunksFailExactly(data, fileSize, sizes, offset);
    ChunksConcatenate(data, fileSize, sizes, offset);
    FirstMoves(data, fileSize, Sum(sizes), offset);
    hide FileSlice, ReadInChunks, Sum;
  }

  /** Reading a whole short chain and then one byte more fails; asking for both at once does not. */
  lemma ShortChainFails(data: seq<Byte>, fileSize: nat)
    requires 0 < |data| < fileSize
    ensures ReadInChunks(data, fileSize, [|data|, 1], 0) == None
    ensures FileSlice(data, fileSize, |data| + 1, 0) == Some(data)
  {
    assert [|data|, 1][..1] == [|data|] && [|data|][1..] == [];
    ChunksFailExactly(data, fileSize, [|data|, 1], 0);
    assert data[0..|data|] == data;
  }

  /** Such a file exists: one cluster that ends its chain, on a disk of three sectors. */
  lemma {:induction false} ShortChainVolume()
    ensures var v := Mount(seq(1536, _ => 0xFF), BootSector(512, 1, 1, 1, 1));
            IsChain(v, 2, [2]) && |Contents(v, [2])| == 512
  {
    var disk: seq<Byte> := seq(1536, _ => 0xFF);
    var v := Mount(disk, BootSector(512, 1, 1, 1, 1));
    assert v == Volume(disk, 512, 512, 1);
    assert BlockAt(v, 0) == Some(disk[512..1024]) && BlockAt(v, 1) == Some(disk[1024..1536]);
    assert ClusterBlock(v, 2) == 1 && 4 * 2 / 512 == 0 && 4 * 2 % 512 == 8;
    var entry := disk[512..1024][8..12];
    assert forall k | 0 <= k < 4 :: entry[k] == disk[520 + k] == 0xFF;
    assert Le32(entry) == 0xFFFF_FFFF;
    assert FatEntry(v, 2) == Some(0x0FFF_FFFF);
    assert Walk(v, 2, 0) == Cluster(2);
    assert Walk(v, 2, 1) == End;
  }

  /** A read of an open file with a readable chain is the slice of the contents at its offset. */
  lemma {:induction false} ReadGives(v: Volume, first: U32, clusters: seq<U32>, fileSize: U32, size: Word,
                                     offset: Word, d: seq<Byte>)
    requires v.Valid() && IsChain(v, first, clusters) && offset + size < U64
    requires offset < fileSize ==> ReadOk(v, first, Cap(fileSize, size, offset), offset, d)
    requires offset >= fileSize ==> d == []
    ensures FileSlice(Contents(v, clusters), fileSize, size, offset) == Some(d) && |d| <= size
    ensures Moved(offset, |d|) == offset + |d|
  {
    var data := Contents(v, clusters);
    hide *;
    FirstMoves(data, fileSize, size, offset);
    MovedBy(offset, |d|);
    if offset < fileSize {
      ReadIsSlice(v, first, clusters, fileSize, size, offset);
    }
  }

  lemma {:induction false} ReadRefused(v: Volume, first: U32, clusters: seq<U32>, fileSize: U32, size: Word,
                                       offset: Word)
    requires v.Valid() && IsChain(v, first, clusters) && offset + size < U64
    requires offset < fileSize && ReadFails(v, first, Cap(fileSize, size, offset), offset)
    ensures FileSlice(Contents(v, clusters), fileSize, size, offset).None?
  {
    hide *;
    ReadIsSlice(v, first, clusters, fileSize, size, offset);
  }

  /** The pieces before the `i`th were read: they are `data`, and the chunked read goes on behind them. */
  ghost predicate Gathering(all: Option<seq<Byte>>, contents: seq<Byte>, fileSize: nat, sizes: seq<nat>, i: nat,
                            start: nat,
                            data: seq<Byte>)
  {
    && i <= |sizes| && start + |data| + Sum(sizes[i..]) < U64
    && var rest := ReadInChunks(contents, fileSize, sizes[i..], start + |data|);
       all == if rest.None? then None else Some(data + rest.value)
  }

  lemma GatherFirst(contents: seq<Byte>, fileSize: nat, sizes: seq<nat>, start: nat)
    requires start + Sum(sizes) < U64
    ensures Gathering(ReadInChunks(contents, fileSize, sizes, start), contents, fileSize, sizes, 0, start, [])
  {
    assert sizes[0..] == sizes;
    var all := ReadInChunks(contents, fileSize, sizes, start);
    assert all.Some? ==> [] + all.value == all.value;
    hide ReadInChunks;
  }

  lemma GatherLast(all: Option<seq<Byte>>, contents: seq<Byte>, fileSize: nat, sizes: seq<nat>, start: nat,
                   data: seq<Byte>)
    requires Gathering(all, contents, fileSize, sizes, |sizes|, start, data)
    ensures all == Some(data)
  {
    assert sizes[|sizes|..] == [] && data + [] == data;
  }

  lemma GatherNow(all: Option<seq<Byte>>, contents: seq<Byte>, fileSize: nat, sizes: seq<nat>, i: nat, start: nat,
                  data: seq<Byte>)
    requires Gathering(all, contents, fileSize, sizes, i, start, data) && i < |sizes|
    ensures start + |data| + sizes[i] < U64
  {
    NextSize(sizes, i);
  }

  lemma GatherNext(all: Option<seq<Byte>>, contents: seq<Byte>, fileSize: nat, sizes: seq<nat>, i: nat, start: nat,
                   data: seq<Byte>, d: seq<Byte>)
    requires Gathering(all, contents, fileSize, sizes, i, start, data) && i < |sizes|
    requires FileSlice(contents, fileSize, sizes[i], start + |data|) == Some(d) && |d| <= sizes[i]
    ensures Gathering(all, contents, fileSize, sizes, i + 1, start, data + d)
  {
    NextSize(sizes, i);
    FirstChunk(contents, fileSize, sizes[i..], start + |data|);
    var rest := ReadInChunks(contents, fileSize, sizes[i + 1..], start + |data| + |d|);
    hide ReadInChunks, Sum, FileSlice;
    assert rest.Some? ==> data + (d + rest.value) == data + d + rest.value;
  }

  lemma GatherFails(all: Option<seq<Byte>>, contents: seq<Byte>, fileSize: nat, sizes: seq<nat>, i: nat, start: nat,
                    data: seq<Byte>)
    requires Gathering(all, contents, fileSize, sizes, i, start, data) && i < |sizes|
    requires FileSlice(contents, fileSize, sizes[i], start + |data|).None?
    ensures all == None
  {
    NextSize(sizes, i);
    FirstChunk(contents, fileSize, sizes[i..], start + |data|);
    hide ReadInChunks, Sum, FileSlice;
  }

  lemma NextSize(sizes: seq<nat>, i: nat)
    requires i < |sizes|
    ensures sizes[i..] != [] && sizes[i..][0] == sizes[i] && sizes[i..][1..] == sizes[i + 1..]
    ensures Sum(sizes[i..]) == sizes[i] + Sum(sizes[i + 1..])
  {
  }

  /** A program that reads an open file piece after piece gets the chunked read of the file's contents. */
  method ReadPieces(file: File, buffer: array<Byte>, sizes: seq<nat>, ghost clusters: seq<U32>)
    returns (r: Option<seq<Byte>>)
    requires file.inode.fs.Valid() && IsChain(file.inode.fs.volume, file.inode.firstCluster, clusters)
    requires (forall i | 0 <= i < |sizes| :: sizes[i] <= buffer.Length) && file.offset + Sum(sizes) < U64
    modifies file, file.inode.fs, buffer
    ensures file.inode.fs.Valid()
    ensures r == ReadInChunks(Contents(file.inode.fs.volume, clusters), file.inode.size, sizes, old(file.offset))
    ensures r.Some? ==> file.offset == old(file.offset) + |r.value|
  {
    var data: seq<Byte> := [];
    ghost var v, first, size, start := file.inode.fs.volume, file.inode.firstCluster, file.inode.size, file.offset;
    ghost var contents := Contents(v, clusters);
    ghost var all := ReadInChunks(contents, size, sizes, start);
    GatherFirst(contents, size, sizes, start);
    hide *;
    for i := 0 to |sizes|
      invariant file.inode.fs.Valid() && file.offset == start + |data|
      invariant Gathering(all, contents, size, sizes, i, start, data)
    {
      GatherNow(all, contents, size, sizes, i, start, data);
      var piece := ReadPiece(file, buffer, sizes[i], clusters);
      if piece.None? {
        GatherFails(all, contents, size, sizes, i, start, data);
        return None;
      }
      GatherNext(all, contents, size, sizes, i, start, data, piece.value);
      data := data + piece.value;
    }
    GatherLast(all, contents, size, sizes, start, data);
    return Some(data);
  }

  /** One such piece. */
  method ReadPiece(file: File, buffer: array<Byte>, size: Word, ghost clusters: seq<U32>) returns (r: Option<seq<Byte>>)
    requires file.inode.fs.Valid() && IsChain(file.inode.fs.volume, file.inode.firstCluster, clusters)
    requires size <= buffer.Length && file.offset + size < U64
    modifies file, file.inode.fs, buffer
    ensures file.inode.fs.Valid()
    ensures r == FileSlice(Contents(file.inode.fs.volume, clusters), file.inode.size, size, old(file.offset))
    ensures r.Some? ==> |r.value| <= size && file.offset == old(file.offset) + |r.value|
  {
    ghost var v, first, fileSize, offset := file.inode.fs.volume, file.inode.firstCluster, file.inode.size, file.offset;
    hide *;
    var n := file.Read(buffer, size);
    if n.Failed? {
      ReadRefused(v, first, clusters, fileSize, size, offset);
      return None;
    }
    var d := buffer[..n.n];
    ReadGives(v, first, clusters, fileSize, size, offset, d);
    return Some(d);
  }
}
