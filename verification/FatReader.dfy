/** The FAT12 reader of fat.c: ten file handles, each with a buffer of one sector. */
module FatReader {
  import opened Basics
  import opened Fat12

  const MAX_FILE_HANDLES: nat := 10

  datatype FileData = FileData(
    inUse: bool, isDirectory: bool, size: nat, position: nat, buffer: Sector,
    firstCluster: nat, currentCluster: nat, currentSectorInCluster: nat)

  datatype DirectoryEntry = DirectoryEntry(isDirectory: bool, startClusterLow: nat, startClusterHigh: nat, size: nat)

  function Public(fd: FileData): File
  {
    File(fd.isDirectory, fd.size, fd.position)
  }

  /** The buffer holds the sector of the chain that the position is in, unless the chain has
      ended, in which case the size is the position. */
  ghost predicate Ready(v: Volume, fd: FileData)
  {
    var k := fd.position / SECTOR_SIZE;
    && v.bs.Valid()
    && PlaceOf(v, fd.firstCluster, k) == Place(fd.currentCluster, fd.currentSectorInCluster)
    && (Public(fd).Clamped() ==> fd.position <= fd.size)
    && if HasSector(v, fd.firstCluster, k)
       then SectorOf(v, fd.firstCluster, k) == Some(fd.buffer)
       else Public(fd).Clamped() && fd.size == fd.position
  }

  /** A read ran into a sector that the disk could not deliver. */
  ghost predicate Failed(v: Volume, fd: FileData)
  {
    && v.bs.Valid() && fd.position % SECTOR_SIZE == 0
    && HasSector(v, fd.firstCluster, fd.position / SECTOR_SIZE)
    && SectorOf(v, fd.firstCluster, fd.position / SECTOR_SIZE) == None
  }

  lemma SameSector(p: nat, i: nat)
    requires p % SECTOR_SIZE + i < SECTOR_SIZE
    ensures (p + i) / SECTOR_SIZE == p / SECTOR_SIZE && (p + i) % SECTOR_SIZE == p % SECTOR_SIZE + i
  {
  }

  /** Copying `take` bytes out of the buffer. */
  lemma CopyFromBuffer(v: Volume, fd: FileData, f: File, out: seq<Byte>, take: nat)
    requires Ready(v, fd) && HasSector(v, fd.firstCluster, fd.position / SECTOR_SIZE)
    requires f.isDirectory == fd.isDirectory && f.size == fd.size && fd.position == f.position + |out|
    requires fd.position % SECTOR_SIZE + take <= SECTOR_SIZE
    requires f.Clamped() ==> fd.position + take <= f.size
    requires Copied(v, fd.firstCluster, f, out)
    ensures var from := fd.position % SECTOR_SIZE;
      Copied(v, fd.firstCluster, f, out + fd.buffer[from..from + take])
  {
    hide HasSector, SectorOf, PlaceOf;
    var from := fd.position % SECTOR_SIZE;
    var more := out + fd.buffer[from..from + take];
    forall i | 0 <= i < |more| ensures Right(v, fd.firstCluster, f, f.position + i, more[i]) {
      if i < |out| {
        assert Right(v, fd.firstCluster, f, f.position + i, out[i]);
      } else {
        var j := i - |out|;
        SameSector(fd.position, j);
        assert f.position + i == fd.position + j;
      }
    }
  }

  lemma NextSector(v: Volume, first: nat, k: nat)
    ensures PlaceOf(v, first, k + 1) == Advance(v, PlaceOf(v, first, k))
    ensures HasSector(v, first, k + 1) <==> HasSector(v, first, k) && PlaceOf(v, first, k + 1).cluster < END_OF_CHAIN
  {
    hide PlaceOf;
    if HasSector(v, first, k) && PlaceOf(v, first, k + 1).cluster < END_OF_CHAIN {
      forall j: nat | 0 < j <= k + 1 ensures PlaceOf(v, first, j).cluster < END_OF_CHAIN {
      }
    }
    assert PlaceOf(v, first, k + 1) == Advance(v, PlaceOf(v, first, k)) by { PlaceStep(v, first, k); }
  }

  lemma PlaceStep(v: Volume, first: nat, k: nat)
    ensures PlaceOf(v, first, k + 1) == Advance(v, PlaceOf(v, first, k))
  {
  }

  /** A read that was stopped by the count or by the size. */
  lemma ReadComplete(v: Volume, fd: FileData, f: File, count: nat, out: seq<Byte>)
    requires v.bs.Valid() && f.isDirectory == fd.isDirectory && f.size == fd.size && fd.position == f.position + |out|
    requires Copied(v, fd.firstCluster, f, out) && |out| <= count
    requires |out| < count ==> f.Clamped() && f.position + |out| >= f.size
    ensures Delivers(v, fd.firstCluster, f, count, out, Public(fd))
  {
    hide HasSector, ContentByte, Copied;
  }

  /** A read that was stopped by the end of the chain. */
  lemma ReadToEnd(v: Volume, fd: FileData, f: File, count: nat, out: seq<Byte>)
    requires v.bs.Valid() && f.isDirectory == fd.isDirectory && fd.position == f.position + |out|
    requires fd.size == fd.position && fd.position > 0 && fd.position % SECTOR_SIZE == 0
    requires !HasSector(v, fd.firstCluster, fd.position / SECTOR_SIZE)
    requires Copied(v, fd.firstCluster, f, out) && |out| <= count
    ensures Delivers(v, fd.firstCluster, f, count, out, Public(fd))
  {
    hide ContentByte, PlaceOf, Copied;
    forall p: nat | p >= fd.position ensures !HasSector(v, fd.firstCluster, p / SECTOR_SIZE) {
      assert p / SECTOR_SIZE >= fd.position / SECTOR_SIZE;
    }
  }

  // ----- The root directory -----

  /** The buffer holds what is read as the sector that the position is in. */
  ghost predicate RootReady(v: Volume, fd: FileData)
  {
    && v.bs.Valid() && fd.isDirectory && fd.firstCluster == v.bs.RootDirLBA()
    && fd.currentCluster == v.bs.RootDirLBA() + fd.position / SECTOR_SIZE
    && (v.disk)(RootSectorLBA(v.bs, fd.position / SECTOR_SIZE)) == Some(fd.buffer)
    && (fd.size > 0 ==> fd.position <= fd.size)
  }

  /** How many bytes a read of count bytes is after. */
  function Wanted(fd: FileData, count: nat): nat
  {
    if Public(fd).Clamped() && fd.size - fd.position < count
    then if fd.position <= fd.size then fd.size - fd.position else 0
    else count
  }

  /** The bytes are those that the root directory is read as, from `start` on. */
  ghost predicate RootCopied(v: Volume, start: nat, bytes: seq<Byte>)
    requires v.bs.Valid()
  {
    forall i :: 0 <= i < |bytes| ==> bytes[i] == RootByte(v, start + i)
  }

  lemma RootBufferByte(v: Volume, fd: FileData, i: nat)
    requires RootReady(v, fd) && fd.position % SECTOR_SIZE + i < SECTOR_SIZE
    ensures fd.buffer[fd.position % SECTOR_SIZE + i] == RootByte(v, fd.position + i)
  {
    hide RootSectorLBA;
    SameSector(fd.position, i);
  }

  lemma CopyFromRootBuffer(v: Volume, fd: FileData, start: nat, out: seq<Byte>, take: nat)
    requires RootReady(v, fd) && fd.position % SECTOR_SIZE + take <= SECTOR_SIZE
    requires fd.position == start + |out| && RootCopied(v, start, out)
    ensures var from := fd.position % SECTOR_SIZE;
      RootCopied(v, start, out + fd.buffer[from..from + take])
  {
    hide RootByte, RootSectorLBA;
    var from := fd.position % SECTOR_SIZE;
    var more := out + fd.buffer[from..from + take];
    forall i | 0 <= i < |more| ensures more[i] == RootByte(v, start + i) {
      if i >= |out| {
        RootBufferByte(v, fd, i - |out|);
        assert start + i == fd.position + (i - |out|) && more[i] == fd.buffer[from + (i - |out|)];
      }
    }
  }

  /** After `take` bytes, with the next sector in the buffer if they were the last ones of this. */
  lemma RootStaysReady(v: Volume, fd: FileData, take: nat, fd': FileData)
    requires RootReady(v, fd) && 0 < take <= SECTOR_SIZE - fd.position % SECTOR_SIZE
    requires fd.size > 0 ==> fd.position + take <= fd.size
    requires fd'.position == fd.position + take && fd'.size == fd.size && fd'.isDirectory
    requires fd'.firstCluster == fd.firstCluster
    requires if fd.position % SECTOR_SIZE + take == SECTOR_SIZE
      then
        && fd'.currentCluster == fd.currentCluster + 1
        && (v.disk)(ClusterToLBA(v.bs, fd'.currentCluster)) == Some(fd'.buffer)
      else fd'.currentCluster == fd.currentCluster && fd'.buffer == fd.buffer
    ensures RootReady(v, fd')
  {
    hide ClusterToLBA;
    NextOrSame(fd.position, take);
  }

  /** The sector after this one cannot be read. */
  lemma RootStops(v: Volume, fd: FileData, take: nat, fd': FileData)
    requires RootReady(v, fd) && take == SECTOR_SIZE - fd.position % SECTOR_SIZE
    requires fd'.position == fd.position + take && fd'.currentCluster == fd.currentCluster + 1
    requires (v.disk)(ClusterToLBA(v.bs, fd'.currentCluster)) == None
    ensures fd'.position % SECTOR_SIZE == 0 && (v.disk)(RootSectorLBA(v.bs, fd'.position / SECTOR_SIZE)) == None
  {
    hide ClusterToLBA;
    NextOrSame(fd.position, take);
  }

  lemma NextOrSame(p: nat, take: nat)
    requires 0 < take <= SECTOR_SIZE - p % SECTOR_SIZE
    ensures (p + take) / SECTOR_SIZE == p / SECTOR_SIZE + (if p % SECTOR_SIZE + take == SECTOR_SIZE then 1 else 0)
    ensures p % SECTOR_SIZE + take == SECTOR_SIZE ==> (p + take) % SECTOR_SIZE == 0
  {
  }

  lemma RootReadRight(v: Volume, start: nat, out: seq<Byte>)
    requires v.bs.Valid() && RootCopied(v, start, out) && start + |out| <= SECTOR_SIZE
    ensures forall i :: 0 <= i < |out| ==> out[i] == DirectoryByte(v, start + i)
  {
    hide ByteAt;
    forall i | 0 <= i < |out| ensures out[i] == DirectoryByte(v, start + i) {
      assert (start + i) / SECTOR_SIZE == 0;
    }
  }

  /** The root directory after FAT_Close: back at the start, with the buffer it had. */
  function ClosedRoot(fd: FileData): FileData
  {
    fd.(position := 0, currentCluster := fd.firstCluster)
  }

  /** It can be read again if and only if the buffer holds its first sector. */
  lemma CloseKeepsReadyIff(v: Volume, fd: FileData)
    requires RootReady(v, fd)
    ensures RootReady(v, ClosedRoot(fd)) <==> (v.disk)(v.bs.RootDirLBA()) == Some(fd.buffer)
  {
  }

  /** Closing keeps the root directory ready whatever the disk holds, if and only if the reads have not
      gone past the first sector. */
  lemma CloseAlwaysKeepsReadyIff(bs: BootSector, fat: nat -> Byte, fd: FileData)
    requires bs.Valid() && 1 <= bs.RootDirLBA() && fd.isDirectory && fd.firstCluster == bs.RootDirLBA()
    requires var k := fd.position / SECTOR_SIZE;
      && fd.currentCluster == bs.RootDirLBA() + k && k < 0x1000 && bs.RootDirLBA() + k < bs.DataLBA()
      && (fd.size > 0 ==> fd.position <= fd.size)
    ensures ClosingIsSafe(bs, fat, fd) <==> fd.position < SECTOR_SIZE
  {
    hide RootSectorLBA;
    var k := fd.position / SECTOR_SIZE;
    if k == 0 {
      assert RootSectorLBA(bs, 0) == bs.RootDirLBA() by { FirstRootSector(bs); }
    } else {
      LaterRootSectorApart(bs, k);
      var zeros: Sector, ones: Sector := seq(512, _ => 0), seq(512, _ => 1);
      var disk: nat -> Option<Sector> := lba => Some(if lba == bs.RootDirLBA() then ones else zeros);
      var v, read := Volume(disk, bs, fat), fd.(buffer := zeros);
      assert RootReady(v, read);
      CloseKeepsReadyIff(v, read);
      assert zeros[0] != ones[0];
    }
  }

  ghost predicate ClosingIsSafe(bs: BootSector, fat: nat -> Byte, fd: FileData)
    requires bs.Valid()
  {
    forall disk: nat -> Option<Sector>, buffer: Sector ::
      RootReady(Volume(disk, bs, fat), fd.(buffer := buffer)) ==>
      RootReady(Volume(disk, bs, fat), ClosedRoot(fd.(buffer := buffer)))
  }

  lemma FirstRootSector(bs: BootSector)
    requires bs.Valid()
    ensures RootSectorLBA(bs, 0) == bs.RootDirLBA()
  {
  }

  class Reader {
    const volume: Volume
    const files: array<FileData>
    var root: FileData
    const initialized: bool

    /** The end of FAT_Initialize; `initialized` is what it returns. */
    constructor (volume: Volume)
      requires volume.bs.Valid()
      ensures this.volume == volume && fresh(files) && files.Length == 10
      ensures forall i :: 0 <= i < files.Length ==> !files[i].inUse
      ensures initialized <==>
        (volume.disk)(volume.bs.reservedSectors + volume.bs.fatCount * volume.bs.sectorsPerFAT).Some?
      ensures initialized ==>
        RootReady(volume, root) && Public(root) == File(true, 32 * volume.bs.rootDirectoryEntries, 0)
    {
      var sector := (volume.disk)(volume.bs.RootDirLBA());
      var start := volume.bs.RootDirLBA();
      this.volume := volume;
      files := new FileData[MAX_FILE_HANDLES](_ => FileData(false, false, 0, 0, seq(512, _ => 0), 0, 0, 0));
      root := FileData(true, true, volume.bs.RootDirSize(), 0,
                       if sector.Some? then sector.value else seq(512, _ => 0), start, start, 0);
      initialized := sector.Some?;
    }

    ghost predicate Full()
      reads files
    {
      forall i :: 0 <= i < files.Length ==> files[i].inUse
    }

    /** FAT_OpenEntry. The last unused handle is taken. When there is none the handle stays -1: the
        slot before the first one in FAT_Data is the root directory's, and so is the handle -1, so
        the file takes the place of the root directory. None stands for a disk error. */
    method OpenEntry(entry: DirectoryEntry) returns (result: Option<int>)
      requires files.Length == 10 && volume.bs.Valid()
      modifies this, files
      ensures var first := entry.startClusterLow + entry.startClusterHigh * 0x10000;
        && (result.Some? <==> (volume.disk)(SectorLBA(volume, Place(first, 0))).Some?)
        && (result.Some? ==> (result.value == -1 <==> old(Full())))
        && (result.Some? && !old(Full()) ==>
              && 0 <= result.value < files.Length && !old(files[result.value].inUse) && files[result.value].inUse
              && (forall i :: result.value < i < files.Length ==> old(files[i].inUse))
              && Ready(volume, files[result.value])
              && Public(files[result.value]) == File(entry.isDirectory, entry.size, 0)
              && files[result.value].firstCluster == first)
        && (if old(Full()) then
              && Public(root) == File(entry.isDirectory, entry.size, 0)
              && root.firstCluster == root.currentCluster == first
              && (first != volume.bs.RootDirLBA() ==> !RootReady(volume, root))
            else root == old(root))
      ensures forall i :: 0 <= i < files.Length && result != Some(i) ==> files[i].inUse == old(files[i].inUse)
      ensures forall i :: 0 <= i < files.Length && old(files[i].inUse) ==> files[i] == old(files[i])
    {
      hide ClusterToLBA;
      var handle: int := -1;
      var i := 0;
      while i < MAX_FILE_HANDLES
        invariant -1 <= handle < i <= MAX_FILE_HANDLES
        invariant handle >= 0 ==> !files[handle].inUse
        invariant forall j :: handle < j < i ==> files[j].inUse
      {
        if !files[i].inUse { handle := i; }
        i := i + 1;
      }
      var first := entry.startClusterLow + entry.startClusterHigh * 0x10000;
      var fd := (if handle == -1 then root else files[handle]).(
        firstCluster := first, currentCluster := first, currentSectorInCluster := 0,
        isDirectory := entry.isDirectory, position := 0, size := entry.size);
      match (volume.disk)(SectorLBA(volume, Place(first, 0)))
      case None =>
        if handle == -1 { root := fd; } else { files[handle] := fd; }
        result := None;
      case Some(sector) =>
        fd := fd.(buffer := sector, inUse := true);
        if handle == -1 { root := fd; } else { files[handle] := fd; }
        result := Some(handle);
    }

    /** FAT_Close. */
    method Close(handle: int)
      requires -1 <= handle < files.Length
      modifies this, files
      ensures root == if handle == -1 then ClosedRoot(old(root)) else old(root)
      ensures forall i :: 0 <= i < files.Length ==>
        files[i] == if i == handle then old(files[i]).(inUse := false) else old(files[i])
      ensures handle == -1 && old(RootReady(volume, root)) ==>
        (RootReady(volume, root) <==> (volume.disk)(volume.bs.RootDirLBA()) == Some(old(root.buffer)))
    {
      hide RootSectorLBA;
      if handle == -1 {
        if RootReady(volume, root) { CloseKeepsReadyIff(volume, root); }
        root := root.(position := 0, currentCluster := root.firstCluster);
      } else {
        files[handle] := files[handle].(inUse := false);
      }
    }

    /** FAT_Read, for the root directory. What it delivers are the directory's own bytes as long as
        the read stays inside the first sector (see RootByteRightIff for the others). */
    method ReadRoot(count: nat) returns (out: seq<Byte>, ghost failed: bool)
      requires RootReady(volume, root)
      modifies this
      ensures root.position == old(root.position) + |out| && root.size == old(root.size)
      ensures RootCopied(volume, old(root.position), out)
      ensures old(root.position) + |out| <= SECTOR_SIZE ==>
        forall i :: 0 <= i < |out| ==> out[i] == DirectoryByte(volume, old(root.position) + i)
      ensures !failed ==> |out| == Wanted(old(root), count) && RootReady(volume, root)
      ensures !failed ==>
        if old(root.size) > 0 && old(root.size) - old(root.position) < count
        then old(root.position) + |out| == old(root.size)
        else |out| == count
      ensures failed ==>
        && |out| <= Wanted(old(root), count) && root.position % SECTOR_SIZE == 0
        && (volume.disk)(RootSectorLBA(volume.bs, root.position / SECTOR_SIZE)) == None
    {
      hide ByteAt, ClusterToLBA, RootCopied, RootSectorLBA;
      var fd := root;
      ghost var start, total := fd.position, Wanted(fd, count);
      var remaining: nat := count;
      out, failed := [], false;
      if !fd.isDirectory || (fd.isDirectory && fd.size > 0) {
        remaining := if count < fd.size - fd.position then count else fd.size - fd.position;
      }
      assert RootCopied(volume, start, out) by { NothingRootCopied(volume, start); }
      while remaining > 0
        invariant RootReady(volume, fd) && fd.size == root.size && fd.position == start + |out|
        invariant |out| + remaining == total && (fd.size > 0 ==> start + total <= fd.size)
        invariant RootCopied(volume, start, out)
        invariant root == old(root)
      {
        var leftInBuffer := SECTOR_SIZE - fd.position % SECTOR_SIZE;
        var take := if remaining < leftInBuffer then remaining else leftInBuffer;
        var from := fd.position % SECTOR_SIZE;
        ghost var before := fd;
        CopyFromRootBuffer(volume, fd, start, out, take);
        out := out + fd.buffer[from..from + take];
        fd := fd.(position := fd.position + take);
        remaining := remaining - take;
        if take == leftInBuffer {
          fd := fd.(currentCluster := fd.currentCluster + 1);
          match (volume.disk)(ClusterToLBA(volume.bs, fd.currentCluster)) {
            case None =>
              root := fd;
              failed := true;
              RootStops(volume, before, take, fd);
              if start + |out| <= SECTOR_SIZE { RootReadRight(volume, start, out); }
              return;
            case Some(sector) =>
              fd := fd.(buffer := sector);
          }
        }
        RootStaysReady(volume, before, take, fd);
      }
      if start + |out| <= SECTOR_SIZE { RootReadRight(volume, start, out); }
      root := fd;
    }

    /** FAT_Read, for a handle other than the root directory's. `failed` says that a sector could
        not be read; the code returns what it has. */
    method Read(handle: nat, count: nat) returns (out: seq<Byte>, ghost failed: bool)
      requires handle < files.Length && Ready(volume, files[handle])
      modifies files
      ensures files[handle].firstCluster == old(files[handle].firstCluster)
      ensures forall i :: 0 <= i < files.Length && i != handle ==> files[i] == old(files[i])
      ensures !failed ==>
        && Ready(volume, files[handle])
        && Delivers(volume, old(files[handle].firstCluster), old(Public(files[handle])), count, out,
                    Public(files[handle]))
      ensures failed ==>
        && Failed(volume, files[handle])
        && Copied(volume, old(files[handle].firstCluster), old(Public(files[handle])), out)
    {
      hide HasSector, ContentByte, PlaceOf, SectorOf, Advance, Copied, NextCluster, SectorLBA;
      var fd := files[handle];
      ghost var f := Public(fd);
      var remaining: nat := count;
      out, failed := [], false;
      if !fd.isDirectory || (fd.isDirectory && fd.size > 0) {
        remaining := if count < fd.size - fd.position then count else fd.size - fd.position;
      }
      ghost var total := remaining;
      assert Copied(volume, fd.firstCluster, f, out) by { NothingCopied(volume, fd.firstCluster, f); }
      while remaining > 0
        invariant Ready(volume, fd) && fd.firstCluster == files[handle].firstCluster
        invariant fd.isDirectory == f.isDirectory && fd.size == f.size && fd.position == f.position + |out|
        invariant |out| + remaining == total <= count && (f.Clamped() ==> f.position + total <= f.size)
        invariant Copied(volume, fd.firstCluster, f, out)
        invariant total < count ==> f.Clamped() && f.position + total >= f.size
        invariant files[..] == old(files[..])
      {
        var leftInBuffer := SECTOR_SIZE - fd.position % SECTOR_SIZE;
        var take := if remaining < leftInBuffer then remaining else leftInBuffer;
        var from := fd.position % SECTOR_SIZE;
        ghost var k := fd.position / SECTOR_SIZE;
        CopyFromBuffer(volume, fd, f, out, take);
        NextSector(volume, fd.firstCluster, k);
        out := out + fd.buffer[from..from + take];
        fd := fd.(position := fd.position + take);
        remaining := remaining - take;
        if take == leftInBuffer {
          assert fd.position / SECTOR_SIZE == k + 1 && fd.position % SECTOR_SIZE == 0;
          var next := Advance(volume, Place(fd.currentCluster, fd.currentSectorInCluster));
          fd := fd.(currentCluster := next.cluster, currentSectorInCluster := next.sector);
          if fd.currentCluster >= END_OF_CHAIN {
            fd := fd.(size := fd.position);
            ReadToEnd(volume, fd, f, count, out);
            files[handle] := fd;
            return;
          }
          match (volume.disk)(SectorLBA(volume, next)) {
            case None =>
              files[handle] := fd;
              failed := true;
              assert SectorOf(volume, fd.firstCluster, k + 1) == None by { SectorIs(volume, fd.firstCluster, k + 1); }
              return;
            case Some(sector) =>
              fd := fd.(buffer := sector);
              SectorIs(volume, fd.firstCluster, k + 1);
          }
        } else {
          SameSector(fd.position - take, take);
        }
      }
      ReadComplete(volume, fd, f, count, out);
      files[handle] := fd;
    }
  }

  lemma NothingRootCopied(v: Volume, start: nat)
    requires v.bs.Valid()
    ensures RootCopied(v, start, [])
  {
  }

  lemma NothingCopied(v: Volume, first: nat, f: File)
    requires v.bs.Valid()
    ensures Copied(v, first, f, [])
  {
  }

  lemma SectorIs(v: Volume, first: nat, k: nat)
    requires v.bs.Valid()
    ensures SectorOf(v, first, k) == (v.disk)(SectorLBA(v, PlaceOf(v, first, k)))
  {
  }
}
