/** FAT12 on values: packed entries, the layout of the disk, and the sectors of a file. */
module Fat12 {
  import opened Basics
  import opened MemDefs

  type Sector = s: seq<Byte> | |s| == 512 witness seq(512, _ => 0)

  const SECTOR_SIZE: nat := 512
  const END_OF_CHAIN: nat := 0xff8

  // ----- Packed entries -----

  /** FAT_NextCluster: entry `current` of the table at the start of `fat`. */
  function NextCluster(fat: nat -> Byte, current: nat): nat
  {
    var unmasked := fat(current * 3 / 2) + 256 * fat(current * 3 / 2 + 1);
    if current % 2 == 0 then unmasked % 0x1000 else unmasked / 16
  }

  type Entry = e: nat | e < 0x1000

  /** Two 12-bit entries in three bytes, the first in the low bits. */
  function Pack(es: seq<Entry>): seq<Byte>
  {
    if es == [] then []
    else if |es| == 1 then [es[0] % 256, es[0] / 256]
    else [es[0] % 256, es[0] / 256 + 16 * (es[1] % 16), es[1] / 16] + Pack(es[2..])
  }

  ghost predicate Holds(fat: nat -> Byte, from: nat, bytes: seq<Byte>)
  {
    forall i :: 0 <= i < |bytes| ==> fat(from + i) == bytes[i]
  }

  /** Where NextCluster finds an even and an odd entry. */
  lemma EntryPlace(k: nat, i: nat)
    requires i < 2
    ensures (2 * k + i) * 3 / 2 == 3 * k + i && (2 * k + i) % 2 == i
  {
  }

  /** What Pack splits over three bytes comes back. */
  lemma Rejoined(even: Entry, odd: Entry)
    ensures (even % 256 + 256 * (even / 256 + 16 * (odd % 16))) % 0x1000 == even
    ensures (even % 256 + 256 * (even / 256)) % 0x1000 == even
    ensures (even / 256 + 16 * (odd % 16) + 256 * (odd / 16)) / 16 == odd
  {
  }

  lemma {:induction false} PackedEntry(fat: nat -> Byte, es: seq<Entry>, k: nat, i: nat)
    requires Holds(fat, 3 * k, Pack(es)) && i < |es|
    ensures NextCluster(fat, 2 * k + i) == es[i]
    decreases |es|
  {
    var bytes := Pack(es);
    if i < 2 {
      EntryPlace(k, i);
      Rejoined(es[0], if |es| > 1 then es[1] else 0);
      assert fat(3 * k + 0) == bytes[0] && fat(3 * k + 1) == bytes[1];
      if i == 1 { assert fat(3 * k + 2) == bytes[2]; }
    } else {
      hide NextCluster;
      forall j | 0 <= j < |Pack(es[2..])| ensures fat(3 * (k + 1) + j) == Pack(es[2..])[j] {
        assert fat(3 * k + (j + 3)) == bytes[j + 3];
      }
      PackedEntry(fat, es[2..], k + 1, i - 2);
      assert 2 * (k + 1) + (i - 2) == 2 * k + i;
    }
  }

  /** Reading entry i of a packed table gives back entry i, for every table, even and odd i. */
  lemma PackRoundTrip(fat: nat -> Byte, es: seq<Entry>, i: nat)
    requires Holds(fat, 0, Pack(es)) && i < |es|
    ensures NextCluster(fat, i) == es[i]
  {
    hide Pack, NextCluster;
    PackedEntry(fat, es, 0, i);
  }

  /** The bytes of a table with entries 0xff8, 0xfff, 3 and 0x124. */
  lemma PackedExample(fat: nat -> Byte)
    requires fat(0) == 0xf8 && fat(1) == 0xff && fat(2) == 0xff && fat(3) == 0x03 && fat(4) == 0x40 && fat(5) == 0x12
    ensures NextCluster(fat, 0) == 0xff8 && NextCluster(fat, 1) == 0xfff
    ensures NextCluster(fat, 2) == 0x003 && NextCluster(fat, 3) == 0x124
  {
  }

  // ----- Layout -----

  /** The fields of the boot sector that the reader uses. */
  datatype BootSector = BootSector(
    bytesPerSector: nat, sectorsPerCluster: nat, reservedSectors: nat,
    fatCount: nat, rootDirectoryEntries: nat, sectorsPerFAT: nat)
  {
    /** The fields fit their widths on disk, and sectors have a size. */
    predicate Valid()
    {
      && 0 < bytesPerSector < 0x10000 && sectorsPerCluster < 0x100 && reservedSectors < 0x10000
      && fatCount < 0x100 && rootDirectoryEntries < 0x10000 && sectorsPerFAT < 0x10000
    }

    function RootDirLBA(): nat { reservedSectors + sectorsPerFAT * fatCount }

    function RootDirSize(): nat { rootDirectoryEntries * 32 }

    function DataLBA(): nat
      requires Valid()
    {
      RootDirLBA() + (RootDirSize() + bytesPerSector - 1) / bytesPerSector
    }
  }

  /** FAT_ClusterToLBA, in 32 bits: clusters 0 and 1 wrap around below the data area. */
  function ClusterToLBA(bs: BootSector, cluster: nat): nat
    requires bs.Valid()
  {
    (bs.DataLBA() + (cluster - 2) * bs.sectorsPerCluster) % WORD
  }

  lemma LayoutFits(bs: BootSector, cluster: nat)
    requires bs.Valid() && 2 <= cluster < 0x1000
    ensures ClusterToLBA(bs, cluster) == bs.DataLBA() + (cluster - 2) * bs.sectorsPerCluster < WORD - 0x100
  {
    assert bs.sectorsPerFAT * bs.fatCount <= 0xffff * 0xff by {
      MulMonotone(bs.sectorsPerFAT, 0xffff, bs.fatCount, 0xff);
    }
    assert (cluster - 2) * bs.sectorsPerCluster <= 0xffd * 0xff by {
      MulMonotone(cluster - 2, 0xffd, bs.sectorsPerCluster, 0xff);
    }
    CeilingAtMost(bs.RootDirSize(), bs.bytesPerSector);
  }

  lemma CeilingAtMost(n: nat, d: nat)
    requires d > 0
    ensures (n + d - 1) / d <= n
    ensures (n + d - 1) / d * d >= n
  {
    var q := (n + d - 1) / d;
    assert q * d <= n + d - 1 < (q + 1) * d;
    assert n * d >= n;
    assert q > n ==> q * d >= (n + 1) * d == n * d + d;
  }

  /** No sector of a data cluster lies in the reserved sectors, the tables or the root directory,
      and no address wraps. */
  lemma DataSectorsPastRoot(bs: BootSector, c: nat, s: nat)
    requires bs.Valid() && 2 <= c < 0x1000
    ensures ClusterToLBA(bs, c) + s >= bs.RootDirLBA()
    ensures (ClusterToLBA(bs, c) + s - bs.RootDirLBA()) * bs.bytesPerSector >= bs.RootDirSize()
    ensures s < bs.sectorsPerCluster ==>
      ClusterToLBA(bs, c) + s == bs.DataLBA() + (c - 2) * bs.sectorsPerCluster + s < WORD
  {
    hide ClusterToLBA;
    LayoutFits(bs, c);
    var bps := bs.bytesPerSector;
    var n := (bs.RootDirSize() + bps - 1) / bps;
    CeilingAtMost(bs.RootDirSize(), bps);
    MulMonotone(0, c - 2, 0, bs.sectorsPerCluster);
    MulMonotone(n, ClusterToLBA(bs, c) + s - bs.RootDirLBA(), bps, bps);
  }

  /** No two sectors of data clusters are the same. */
  lemma DataSectorsApart(bs: BootSector, c: nat, s: nat, d: nat, t: nat)
    requires bs.Valid() && 2 <= c < 0x1000 && 2 <= d < 0x1000
    requires s < bs.sectorsPerCluster && t < bs.sectorsPerCluster
    ensures ClusterToLBA(bs, c) + s == ClusterToLBA(bs, d) + t <==> c == d && s == t
  {
    hide ClusterToLBA;
    LayoutFits(bs, c);
    LayoutFits(bs, d);
    RowsApart(bs.sectorsPerCluster, c - 2, s, d - 2, t);
  }

  /** From the fields of the boot sector alone: the root directory begins right after the last sector
      of the last table. */
  lemma TablesBeforeRoot(bs: BootSector, i: nat, s: nat)
    requires i < bs.fatCount && s < bs.sectorsPerFAT
    ensures bs.reservedSectors + i * bs.sectorsPerFAT + s < bs.RootDirLBA()
    ensures bs.reservedSectors + bs.fatCount * bs.sectorsPerFAT == bs.RootDirLBA()
  {
    MulMonotone(i + 1, bs.fatCount, bs.sectorsPerFAT, bs.sectorsPerFAT);
    assert (i + 1) * bs.sectorsPerFAT == i * bs.sectorsPerFAT + bs.sectorsPerFAT;
  }

  /** The data area begins at the first sector past the 32 bytes of each root directory entry. */
  lemma DataAfterRoot(bs: BootSector)
    requires bs.Valid()
    ensures bs.reservedSectors + bs.fatCount * bs.sectorsPerFAT <= bs.DataLBA()
    ensures var n := bs.DataLBA() - (bs.reservedSectors + bs.fatCount * bs.sectorsPerFAT);
      && n * bs.bytesPerSector >= 32 * bs.rootDirectoryEntries
      && (n > 0 ==> (n - 1) * bs.bytesPerSector < 32 * bs.rootDirectoryEntries)
  {
    CeilingIsLeast(32 * bs.rootDirectoryEntries, bs.bytesPerSector);
  }

  lemma CeilingIsLeast(n: nat, d: nat)
    requires d > 0
    ensures var q := (n + d - 1) / d; q * d >= n && (q > 0 ==> (q - 1) * d < n)
  {
    var q := (n + d - 1) / d;
    assert q * d <= n + d - 1 < (q + 1) * d;
    assert (q - 1) * d == q * d - d;
  }

  // ----- The root directory -----

  /** Where the reader reads the k-th sector of the root directory: the first one from its address,
      the others from the sector of a cluster with the number of the address. */
  function RootSectorLBA(bs: BootSector, k: nat): nat
    requires bs.Valid()
  {
    if k == 0 then bs.RootDirLBA() else ClusterToLBA(bs, bs.RootDirLBA() + k)
  }

  /** Reading on in the root directory takes the number of a sector for that of a cluster: of all the
      sectors of the directory only the first is read from where it is. (With
      512 bytes a sector or more, no root directory has more than 0x1000 of them.) */
  lemma RootSectorRightIff(bs: BootSector, k: nat)
    requires bs.Valid() && 1 <= bs.RootDirLBA() && k < 0x1000 && bs.RootDirLBA() + k < bs.DataLBA()
    ensures RootSectorLBA(bs, k) == bs.RootDirLBA() + k <==> k == 0
    ensures k > 0 ==>
      RootSectorLBA(bs, k) == (bs.DataLBA() + (bs.RootDirLBA() + k - 2) * bs.sectorsPerCluster) % 0x1_0000_0000
  {
    if k > 0 {
      var root, data, spc := bs.RootDirLBA(), bs.DataLBA(), bs.sectorsPerCluster;
      CeilingAtMost(bs.RootDirSize(), bs.bytesPerSector);
      var skipped := (root + k - 2) * spc;
      MulMonotone(0, root + k - 2, 0, spc);
      MulMonotone(root + k - 2, root + k - 2, spc, 0xff);
      assert bs.sectorsPerFAT * bs.fatCount <= 0xffff * 0xff by {
        MulMonotone(bs.sectorsPerFAT, 0xffff, bs.fatCount, 0xff);
      }
      WrapsApart(data + skipped, root + k);
    }
  }

  /** None of the others is read from the first sector of the directory either. */
  lemma LaterRootSectorApart(bs: BootSector, k: nat)
    requires bs.Valid() && 1 <= bs.RootDirLBA() && 0 < k < 0x1000 && bs.RootDirLBA() + k < bs.DataLBA()
    ensures RootSectorLBA(bs, k) != bs.RootDirLBA()
  {
    var root, data, spc := bs.RootDirLBA(), bs.DataLBA(), bs.sectorsPerCluster;
    CeilingAtMost(bs.RootDirSize(), bs.bytesPerSector);
    MulMonotone(0, root + k - 2, 0, spc);
    MulMonotone(root + k - 2, root + k - 2, spc, 0xff);
    assert bs.sectorsPerFAT * bs.fatCount <= 0xffff * 0xff by {
      MulMonotone(bs.sectorsPerFAT, 0xffff, bs.fatCount, 0xff);
    }
    WrapsApart(data + (root + k - 2) * spc, root);
  }

  lemma WrapsApart(sum: nat, target: nat)
    requires target < sum < WORD + target && target < WORD
    ensures sum % WORD != target
  {
  }

  lemma RowsApart(width: nat, c: nat, s: nat, d: nat, t: nat)
    requires s < width && t < width
    ensures c * width + s == d * width + t <==> c == d && s == t
  {
    if c < d { MulMonotone(c + 1, d, width, width); }
    if d < c { MulMonotone(d + 1, c, width, width); }
  }

  // ----- The sectors of a file -----

  /** The volume: a disk that may fail to read a sector, its boot sector, and the memory from the
      start of the table on. */
  datatype Volume = Volume(disk: nat -> Option<Sector>, bs: BootSector, fat: nat -> Byte)

  datatype Place = Place(cluster: nat, sector: nat)

  /** Where the reader is after advancing by one sector. */
  function Advance(v: Volume, p: Place): Place
  {
    if p.sector + 1 >= v.bs.sectorsPerCluster then Place(NextCluster(v.fat, p.cluster), 0)
    else Place(p.cluster, p.sector + 1)
  }

  /** The place of the k-th sector of a file that starts at `first`. */
  function PlaceOf(v: Volume, first: nat, k: nat): Place
  {
    if k == 0 then Place(first, 0) else Advance(v, PlaceOf(v, first, k - 1))
  }

  /** The chain has a k-th sector: no end mark was met on the way. The first cluster is not looked
      at before it is read. */
  ghost predicate HasSector(v: Volume, first: nat, k: nat)
  {
    forall j: nat :: 0 < j <= k ==> PlaceOf(v, first, j).cluster < END_OF_CHAIN
  }

  function SectorLBA(v: Volume, p: Place): nat
    requires v.bs.Valid()
  {
    (ClusterToLBA(v.bs, p.cluster) + p.sector) % WORD
  }

  /** What the disk holds at the k-th sector of the chain. */
  function SectorOf(v: Volume, first: nat, k: nat): Option<Sector>
    requires v.bs.Valid()
  {
    (v.disk)(SectorLBA(v, PlaceOf(v, first, k)))
  }

  /** Byte p of the file: the chain's sectors one after the other. */
  function ContentByte(v: Volume, first: nat, p: nat): Byte
    requires v.bs.Valid()
  {
    match SectorOf(v, first, p / SECTOR_SIZE)
    case Some(s) => s[p % SECTOR_SIZE]
    case None => 0
  }

  // ----- Files on packed tables -----

  /** The clusters follow one another in the table whose entries are es. */
  ghost predicate ChainOf(es: seq<Entry>, chain: seq<nat>)
  {
    && chain != [] && (forall j :: 0 <= j < |chain| ==> 2 <= chain[j] < 0x1000)
    && forall j :: 0 <= j < |chain| - 1 ==> chain[j] < |es| && es[chain[j]] == chain[j + 1]
  }

  /** How many steps down the chain sector k lies, and which sector of that cluster it is. */
  function StepsTo(k: nat, spc: nat): nat
    requires spc > 0
  {
    k / spc
  }

  function WithinCluster(k: nat, spc: nat): nat
    requires spc > 0
  {
    k % spc
  }

  lemma {:induction false} PlaceOnChain(v: Volume, es: seq<Entry>, chain: seq<nat>, k: nat)
    requires Holds(v.fat, 0, Pack(es)) && ChainOf(es, chain) && 0 < v.bs.sectorsPerCluster
    requires StepsTo(k, v.bs.sectorsPerCluster) < |chain|
    ensures var spc := v.bs.sectorsPerCluster;
      PlaceOf(v, chain[0], k) == Place(chain[StepsTo(k, spc)], WithinCluster(k, spc))
  {
    hide Pack, NextCluster, Holds, StepsTo, WithinCluster;
    var spc := v.bs.sectorsPerCluster;
    if k == 0 {
      StartOfChain(spc);
    } else {
      NextSectorOf(k - 1, spc);
      PlaceOnChain(v, es, chain, k - 1);
      if WithinCluster(k - 1, spc) + 1 == spc { PackRoundTrip(v.fat, es, chain[StepsTo(k - 1, spc)]); }
    }
  }

  lemma StartOfChain(spc: nat)
    requires spc > 0
    ensures StepsTo(0, spc) == 0 && WithinCluster(0, spc) == 0
    ensures spc > 1 ==> StepsTo(1, spc) == 0
  {
    DivUnique(0, spc, 0, 0);
    if spc > 1 { DivUnique(1, spc, 0, 1); }
  }

  lemma NextSectorOf(k: nat, spc: nat)
    requires spc > 0
    ensures WithinCluster(k, spc) < spc
    ensures if WithinCluster(k, spc) + 1 == spc
      then StepsTo(k + 1, spc) == StepsTo(k, spc) + 1 && WithinCluster(k + 1, spc) == 0
      else StepsTo(k + 1, spc) == StepsTo(k, spc) && WithinCluster(k + 1, spc) == WithinCluster(k, spc) + 1
  {
    var q, r := k / spc, k % spc;
    assert k == q * spc + r;
    if r + 1 == spc {
      assert (q + 1) * spc == q * spc + spc;
      DivUnique(k + 1, spc, q + 1, 0);
    } else {
      DivUnique(k + 1, spc, q, r + 1);
    }
  }

  /** The k-th sector of a file is what the disk holds at the sector k % spc of the cluster k / spc
      steps down the chain; the file has it if and only if none of those steps met an end mark. (The first
      cluster is not looked at before it is read, and then only if it has a second sector.) */
  lemma SectorOnDisk(v: Volume, es: seq<Entry>, chain: seq<nat>, k: nat, lba: nat)
    requires v.bs.Valid() && Holds(v.fat, 0, Pack(es)) && ChainOf(es, chain)
    requires var spc := v.bs.sectorsPerCluster;
      0 < spc && k / spc < |chain| && lba == v.bs.DataLBA() + (chain[k / spc] - 2) * spc + k % spc
    ensures SectorOf(v, chain[0], k) == (v.disk)(lba)
    ensures var spc := v.bs.sectorsPerCluster;
      HasSector(v, chain[0], k) <==>
      (forall j :: 0 < j <= k / spc ==> chain[j] < 0xff8) && (k > 0 && spc > 1 ==> chain[0] < 0xff8)
  {
    hide Pack, NextCluster, Holds, PlaceOf, ClusterToLBA, HasSector;
    var spc := v.bs.sectorsPerCluster;
    assert StepsTo(k, spc) == k / spc && WithinCluster(k, spc) == k % spc;
    var c := chain[k / spc];
    PlaceOnChain(v, es, chain, k);
    LayoutFits(v.bs, c);
    NextSectorOf(k, spc);
    assert SectorOf(v, chain[0], k) == (v.disk)((ClusterToLBA(v.bs, c) + k % spc) % WORD);
    HasSectorOnChain(v, es, chain, k);
  }

  lemma HasSectorOnChain(v: Volume, es: seq<Entry>, chain: seq<nat>, k: nat)
    requires Holds(v.fat, 0, Pack(es)) && ChainOf(es, chain) && 0 < v.bs.sectorsPerCluster
    requires StepsTo(k, v.bs.sectorsPerCluster) < |chain|
    ensures var spc := v.bs.sectorsPerCluster;
      HasSector(v, chain[0], k) <==>
      (forall j :: 0 < j <= StepsTo(k, spc) ==> chain[j] < 0xff8) && (k > 0 && spc > 1 ==> chain[0] < 0xff8)
  {
    hide Pack, Holds, PlaceOf, StepsTo, WithinCluster;
    var spc := v.bs.sectorsPerCluster;
    forall j: nat | j <= k
      ensures StepsTo(j, spc) < |chain| && PlaceOf(v, chain[0], j).cluster == chain[StepsTo(j, spc)]
    {
      StepsGrow(j, k, spc);
      PlaceOnChain(v, es, chain, j);
    }
    hide ChainOf;
    if HasSector(v, chain[0], k) {
      forall j | 0 < j <= StepsTo(k, spc) ensures chain[j] < 0xff8 {
        var first := FirstSectorOf(j, k, spc);
        assert PlaceOf(v, chain[0], first).cluster < END_OF_CHAIN;
      }
      if k > 0 && spc > 1 {
        StartOfChain(spc);
        assert PlaceOf(v, chain[0], 1).cluster < END_OF_CHAIN;
      }
    } else {
      var j: nat :| 0 < j <= k && PlaceOf(v, chain[0], j).cluster >= END_OF_CHAIN;
      StepsGrow(j, k, spc);
      if spc == 1 { SingleSectors(j); }
    }
  }

  lemma SingleSectors(k: nat)
    ensures StepsTo(k, 1) == k
  {
  }

  lemma StepsGrow(j: nat, k: nat, spc: nat)
    requires j <= k && spc > 0
    ensures StepsTo(j, spc) <= StepsTo(k, spc)
  {
    var a, b := j / spc, k / spc;
    assert j >= a * spc && k < (b + 1) * spc;
    if a > b { MulMonotone(b + 1, a, spc, spc); }
  }

  lemma FirstSectorOf(j: nat, k: nat, spc: nat) returns (first: nat)
    requires spc > 0 && 0 < j <= StepsTo(k, spc)
    ensures 0 < first <= k && StepsTo(first, spc) == j
  {
    first := j * spc;
    MulMonotone(j, k / spc, spc, spc);
    MulMonotone(1, j, spc, spc);
    DivUnique(first, spc, j, 0);
  }

  // ----- The bytes of the root directory -----

  /** Byte p of the root directory, on the disk. */
  function DirectoryByte(v: Volume, p: nat): Byte
    requires v.bs.Valid()
  {
    ByteAt(v, v.bs.RootDirLBA() + p / SECTOR_SIZE, p % SECTOR_SIZE)
  }

  /** Byte p of the root directory, as it is read. */
  function RootByte(v: Volume, p: nat): Byte
    requires v.bs.Valid()
  {
    ByteAt(v, RootSectorLBA(v.bs, p / SECTOR_SIZE), p % SECTOR_SIZE)
  }

  function ByteAt(v: Volume, lba: nat, i: nat): Byte
    requires i < SECTOR_SIZE
  {
    match (v.disk)(lba)
    case Some(s) => s[i]
    case None => 0
  }

  /** Whatever the disk holds, byte p is read right: that is so if and only if it lies in the first
      sector. */
  lemma RootByteRightIff(bs: BootSector, fat: nat -> Byte, p: nat)
    requires bs.Valid() && 1 <= bs.RootDirLBA()
    requires p / SECTOR_SIZE < 0x1000 && bs.RootDirLBA() + p / SECTOR_SIZE < bs.DataLBA()
    ensures
      (forall disk: nat -> Option<Sector> ::
        RootByte(Volume(disk, bs, fat), p) == DirectoryByte(Volume(disk, bs, fat), p))
      <==> p < SECTOR_SIZE
  {
    hide RootSectorLBA;
    var k := p / SECTOR_SIZE;
    RootSectorRightIff(bs, k);
    if p >= SECTOR_SIZE {
      var zeros: Sector, ones: Sector := seq(512, _ => 0), seq(512, _ => 1);
      var disk: nat -> Option<Sector> := lba => Some(if lba == bs.RootDirLBA() + k then ones else zeros);
      assert DirectoryByte(Volume(disk, bs, fat), p) == 1 && RootByte(Volume(disk, bs, fat), p) == 0;
    }
  }

  // ----- Reading -----

  /** An opened file; a directory of size 0 is not clamped by its size. */
  datatype File = File(isDirectory: bool, size: nat, position: nat)
  {
    predicate Clamped() { !isDirectory || size > 0 }
  }

  /** Byte p can be read: it is inside the size, if that counts, and inside the chain. */
  ghost predicate Available(v: Volume, first: nat, f: File, p: nat)
  {
    (f.Clamped() ==> p < f.size) && HasSector(v, first, p / SECTOR_SIZE)
  }

  /** Byte p of a file is byte p % 512 of its sector p / 512, as the disk holds it; it can be read if and
      only if it is inside the size, unless the file is a directory of size 0, and no end mark was met
      on the way. */
  lemma ByteOnDisk(v: Volume, es: seq<Entry>, chain: seq<nat>, f: File, p: nat, lba: nat, sector: Sector)
    requires v.bs.Valid() && Holds(v.fat, 0, Pack(es)) && ChainOf(es, chain)
    requires var spc, k := v.bs.sectorsPerCluster, p / 512;
      0 < spc && k / spc < |chain| && lba == v.bs.DataLBA() + (chain[k / spc] - 2) * spc + k % spc
    requires (v.disk)(lba) == Some(sector)
    ensures ContentByte(v, chain[0], p) == sector[p % 512]
    ensures var spc, k := v.bs.sectorsPerCluster, p / 512;
      Available(v, chain[0], f, p) <==>
      && ((f.isDirectory && f.size == 0) || p < f.size)
      && (forall j :: 0 < j <= k / spc ==> chain[j] < 0xff8) && (k > 0 && spc > 1 ==> chain[0] < 0xff8)
  {
    hide Pack, Holds, ChainOf, SectorOf, HasSector;
    SectorOnDisk(v, es, chain, p / 512, lba);
  }

  /** Byte p is available and is b. */
  ghost predicate Right(v: Volume, first: nat, f: File, p: nat, b: Byte)
    requires v.bs.Valid()
  {
    Available(v, first, f, p) && b == ContentByte(v, first, p)
  }

  /** The bytes are those of the content from the position on. */
  ghost predicate Copied(v: Volume, first: nat, f: File, bytes: seq<Byte>)
    requires v.bs.Valid()
  {
    forall i :: 0 <= i < |bytes| ==> Right(v, first, f, f.position + i, bytes[i])
  }

  /** A read of `count` bytes delivers `bytes` and leaves the file as f'. It delivers the bytes of
      the content from the position on, as many as were asked for or as are available. */
  ghost predicate Delivers(v: Volume, first: nat, f: File, count: nat, bytes: seq<Byte>, f': File)
    requires v.bs.Valid()
  {
    && |bytes| <= count && Copied(v, first, f, bytes)
    && (|bytes| < count ==> !Available(v, first, f, f.position + |bytes|))
    && f'.position == f.position + |bytes| && f'.isDirectory == f.isDirectory
    && (forall p: nat :: p >= f'.position ==> (Available(v, first, f', p) <==> Available(v, first, f, p)))
  }

  lemma DeliveredIsAvailable(v: Volume, first: nat, f: File, count: nat, r: seq<Byte>, f': File, i: nat)
    requires v.bs.Valid() && Delivers(v, first, f, count, r, f') && i < |r|
    ensures Available(v, first, f, f.position + i)
  {
    assert Right(v, first, f, f.position + i, r[i]);
  }

  /** A read delivers one sequence of bytes only. */
  lemma DeliveryIsUnique(v: Volume, first: nat, f: File, count: nat, r: seq<Byte>, f': File, s: seq<Byte>, f'': File)
    requires v.bs.Valid()
    requires Delivers(v, first, f, count, r, f') && Delivers(v, first, f, count, s, f'')
    ensures r == s && f'.position == f''.position
  {
    hide Available, ContentByte;
    if |r| < |s| { DeliveredIsAvailable(v, first, f, count, s, f'', |r|); }
    if |s| < |r| { DeliveredIsAvailable(v, first, f, count, r, f', |s|); }
    forall i | 0 <= i < |r| && |r| == |s| ensures r[i] == s[i] {
      assert Right(v, first, f, f.position + i, r[i]) && Right(v, first, f, f.position + i, s[i]);
    }
  }

  /** Two reads in a row deliver what one read of both counts delivers. */
  lemma DeliveriesJoin(v: Volume, first: nat, f: File, m: nat, r: seq<Byte>, f': File, n: nat, s: seq<Byte>, f'': File)
    requires v.bs.Valid()
    requires Delivers(v, first, f, m, r, f') && Delivers(v, first, f', n, s, f'')
    ensures Delivers(v, first, f, m + n, r + s, f'')
  {
    hide Available, ContentByte;
    if s != [] { DeliveredIsAvailable(v, first, f', n, s, f'', 0); }
    assert |r| == m || s == [];
    forall i | 0 <= i < |r + s| ensures Right(v, first, f, f.position + i, (r + s)[i]) {
      if i < |r| {
        assert Right(v, first, f, f.position + i, r[i]);
      } else {
        assert Right(v, first, f', f'.position + (i - |r|), s[i - |r|]);
        assert f'.position + (i - |r|) == f.position + i;
      }
    }
  }

  /** The reads of a list of counts, each from where the one before stopped. */
  ghost predicate DeliversAll(v: Volume, first: nat, f: File, counts: seq<nat>, parts: seq<seq<Byte>>, f': File)
    requires v.bs.Valid() && |parts| == |counts|
    decreases |counts|
  {
    if counts == [] then f' == f
    else exists g: File ::
      Delivers(v, first, f, counts[0], parts[0], g) && DeliversAll(v, first, g, counts[1..], parts[1..], f')
  }

  function Sum(counts: seq<nat>): nat
  {
    if counts == [] then 0 else counts[0] + Sum(counts[1..])
  }

  function Concat(parts: seq<seq<Byte>>): seq<Byte>
  {
    if parts == [] then [] else parts[0] + Concat(parts[1..])
  }

  /** Reading in pieces, of whatever sizes, delivers the bytes of a single read of their sum and
      stops at the same position. */
  lemma {:induction false} ChunkingDoesNotMatter(
    v: Volume, first: nat, f: File, counts: seq<nat>, parts: seq<seq<Byte>>, f': File)
    requires v.bs.Valid() && |parts| == |counts| && DeliversAll(v, first, f, counts, parts, f')
    ensures Delivers(v, first, f, Sum(counts), Concat(parts), f')
    decreases |counts|
  {
    hide Delivers;
    if counts == [] {
      NoBytes(v, first, f);
    } else {
      var g: File :|
        Delivers(v, first, f, counts[0], parts[0], g) && DeliversAll(v, first, g, counts[1..], parts[1..], f');
      ChunkingDoesNotMatter(v, first, g, counts[1..], parts[1..], f');
      DeliveriesJoin(v, first, f, counts[0], parts[0], g, Sum(counts[1..]), Concat(parts[1..]), f');
    }
  }

  lemma NoBytes(v: Volume, first: nat, f: File)
    requires v.bs.Valid()
    ensures Delivers(v, first, f, 0, [], f)
  {
  }
}
