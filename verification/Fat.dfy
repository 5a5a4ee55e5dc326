/** The FAT32 volume (src/fs/fat32.cpp): the table kept on the disk as 4-byte little-endian entries, read
    a sector at a time and written through the byte interface. */
module Fat {
  import opened Common
  import opened Disk
  import opened FatChains

  /* Entries on the disk. */

  function Encode(v: nat): seq<byte>
    requires v < TWO_32
  {
    [(v % 256) as byte, (v / 0x100 % 256) as byte, (v / 0x1_0000 % 256) as byte, (v / 0x100_0000) as byte]
  }

  function Decode(s: seq<byte>): (v: nat)
    requires |s| == 4
    ensures v < TWO_32
  {
    var b0: nat, b1: nat, b2: nat, b3: nat := s[0], s[1], s[2], s[3];
    b0 + 0x100 * b1 + 0x1_0000 * b2 + 0x100_0000 * b3
  }

  lemma DecodeEncode(v: nat)
    requires v < TWO_32
    ensures Decode(Encode(v)) == v
    ensures Encode(v)[0] == v % 256 && Encode(v)[3] == v / 0x100_0000
  {
    var w := v / 0x100;
    var x := w / 0x100;
    assert v == 0x100 * w + v % 0x100 && w == 0x100 * x + w % 0x100;
    assert x == v / 0x1_0000 && v / 0x100_0000 == x / 0x100 && x == 0x100 * (x / 0x100) + x % 0x100;
  }

  /** The first byte is the lowest. */
  lemma LittleEndian(s: seq<byte>)
    requires |s| == 4
    ensures Decode(s) % 256 == s[0] && Decode(s) / 256 % 256 == s[1]
    ensures Decode(s) / 0x1_0000 % 256 == s[2] && Decode(s) / 0x100_0000 == s[3]
  {
    var b0: nat, b1: nat, b2: nat, b3: nat := s[0], s[1], s[2], s[3];
    var high := b2 + 256 * b3;
    assert Decode(s) / 256 == b1 + 256 * high && (b1 + 256 * high) / 256 == high;
    assert Decode(s) / 0x1_0000 == high && Decode(s) / 0x100_0000 == high / 256;
  }

  /** Entry `cluster` of a table is made of bytes 4*cluster..4*cluster+3, the first byte the lowest. */
  lemma EntryBytes(d: seq<byte>, fat: nat, cluster: nat)
    requires fat + 4 * cluster + 4 <= |d|
    ensures var e, p := EntryAt(d, fat, cluster), fat + 4 * cluster;
            e % 256 == d[p] && e / 256 % 256 == d[p + 1] && e / 0x1_0000 % 256 == d[p + 2] && e / 0x100_0000 == d[p + 3]
  {
    LittleEndian(d[fat + 4 * cluster..fat + 4 * cluster + 4]);
  }

  function EntryAt(d: seq<byte>, fat: nat, cluster: nat): nat
    requires fat + 4 * cluster + 4 <= |d|
  {
    Decode(d[fat + 4 * cluster..fat + 4 * cluster + 4])
  }

  /** The table of n entries that starts at byte `fat` of the disk. */
  function Table(d: seq<byte>, fat: nat, n: nat): (f: seq<nat>)
    requires fat + 4 * n <= |d|
    ensures |f| == n && forall c :: 0 <= c < n ==> f[c] == EntryAt(d, fat, c)
  {
    seq(n, c requires 0 <= c < n => EntryAt(d, fat, c))
  }

  /** The entry that getEntryByCluster reads for any 32-bit cluster number, inside the table or not. */
  function EntryOn(d: seq<byte>, fat: nat, cluster: nat): (v: nat)
    requires fat + cluster * 4 % TWO_32 + 4 <= |d|
    ensures v < TWO_32
  {
    Decode(d[fat + cluster * 4 % TWO_32..fat + cluster * 4 % TWO_32 + 4])
  }

  lemma EntryInTable(d: seq<byte>, fat: nat, n: nat, cluster: nat)
    requires fat + 4 * n <= |d| <= TWO_32 && cluster < n
    ensures fat + cluster * 4 % TWO_32 + 4 <= |d| && EntryOn(d, fat, cluster) == Table(d, fat, n)[cluster]
  {
    assert cluster * 4 < TWO_32;
  }

  /** Writing the four bytes of an entry changes that entry and no other. */
  lemma EntryWritten(d: seq<byte>, fat: nat, n: nat, cluster: nat, v: nat)
    requires fat + 4 * n <= |d| && cluster < n && v < TWO_32
    ensures Table(Splice(d, fat + 4 * cluster, Encode(v)), fat, n) == Table(d, fat, n)[cluster := v]
  {
    var at := fat + 4 * cluster;
    var d' := Splice(d, at, Encode(v));
    forall c | 0 <= c < n ensures EntryAt(d', fat, c) == if c == cluster then v else EntryAt(d, fat, c) {
      if c == cluster {
        SpliceReadBack(d, at, Encode(v));
        DecodeEncode(v);
      } else {
        SpliceElsewhere(d, at, Encode(v), fat + 4 * c, 4);
      }
    }
  }

  class Volume {
    const dev: Ahci
    const reservedSectors: nat
    const sectorCount: nat
    const sectorsPerCluster: nat
    const firstDataSector: nat

    /** The fields init_fs reads from the boot sector. */
    constructor (dev: Ahci, reserved: nat, sectors: nat, perCluster: nat, firstData: nat)
      ensures this.dev == dev && reservedSectors == reserved && sectorCount == sectors
      ensures sectorsPerCluster == perCluster && firstDataSector == firstData
    {
      this.dev := dev;
      reservedSectors := reserved;
      sectorCount := sectors;
      sectorsPerCluster := perCluster;
      firstDataSector := firstData;
    }

    /** number_of_clusters. */
    function Clusters(): (n: nat)
      requires 2 <= firstDataSector <= sectorCount && sectorsPerCluster > 0
      ensures n + 2 <= sectorCount
    {
      ClustersFit(sectorCount - firstDataSector, sectorsPerCluster);
      (sectorCount - firstDataSector) / sectorsPerCluster
    }

    /** 512-byte sectors, byte offsets within 32 bits, and all sectors of the volume on the disk, as well as
        the entries that allocate_cluster may look at; the entries of the data clusters stand before the data. */
    ghost predicate Valid() {
      && dev.disk.Length % SECTOR == 0 && dev.disk.Length <= TWO_32
      && SECTOR * sectorCount <= dev.disk.Length && SECTOR * reservedSectors + 4 * sectorCount <= dev.disk.Length
      && 2 <= firstDataSector <= sectorCount <= END && sectorsPerCluster > 0
      && SECTOR * reservedSectors + 4 * (Clusters() + 2) <= SECTOR * firstDataSector
    }

    /** The entry of a cluster lies on the disk. */
    ghost predicate HasEntry(cluster: nat) {
      cluster < TWO_32 && SECTOR * reservedSectors + cluster * 4 % TWO_32 + 4 <= dev.disk.Length
    }

    /** The table on a disk `d` in this one's place. */
    ghost function EntriesOn(d: seq<byte>): (f: seq<nat>)
      requires Valid() && |d| == dev.disk.Length
      ensures |f| == sectorCount
    {
      Table(d, SECTOR * reservedSectors, sectorCount)
    }

    ghost function Entries(): (f: seq<nat>)
      requires Valid()
      reads dev.disk
      ensures |f| == sectorCount
    {
      EntriesOn(dev.disk[..])
    }

    /** The table begins after the reserved sectors of 512 bytes; an entry is four bytes, the lowest first. */
    lemma TableBytes(d: seq<byte>, cluster: nat)
      requires Valid() && |d| == dev.disk.Length && cluster < sectorCount
      ensures var e, p := EntriesOn(d)[cluster], 512 * reservedSectors + 4 * cluster;
              && p + 4 <= |d| && e % 256 == d[p] && e / 256 % 256 == d[p + 1]
              && e / 0x1_0000 % 256 == d[p + 2] && e / 0x100_0000 == d[p + 3]
    {
      EntryBytes(d, SECTOR * reservedSectors, cluster);
    }

    lemma HasTableEntry(cluster: nat)
      requires Valid() && cluster < sectorCount
      ensures HasEntry(cluster)
    {
      EntryInTable(seq(dev.disk.Length, _ => 0 as byte), SECTOR * reservedSectors, sectorCount, cluster);
    }

    method GetEntry(cluster: nat) returns (entry: nat)
      requires Valid() && HasEntry(cluster)
      ensures entry == EntryOn(dev.disk[..], SECTOR * reservedSectors, cluster) < TWO_32
      ensures cluster < sectorCount ==> entry == Entries()[cluster]
    {
      hide Decode, Table, Volume.Clusters;
      var position := cluster * 4 % TWO_32;
      assert position % 4 == 0;
      if cluster < sectorCount {
        EntryInTable(dev.disk[..], SECTOR * reservedSectors, sectorCount, cluster);
      }
      entry := ReadEntry(position);
    }

    method ReadEntry(position: nat) returns (entry: nat)
      requires dev.disk.Length % SECTOR == 0 && position % 4 == 0
      requires SECTOR * reservedSectors + position + 4 <= dev.disk.Length
      ensures entry == Decode(dev.disk[SECTOR * reservedSectors + position..SECTOR * reservedSectors + position + 4])
    {
      hide Splice, Decode;
      var fatSector := reservedSectors + position / SECTOR;
      var entryOffset := position % SECTOR;
      var sectorBuff := new byte[SECTOR];
      ghost var was := sectorBuff[..];
      EntryPlace(reservedSectors, dev.disk.Length, position);
      dev.ReadSector(fatSector, sectorBuff, 0);
      SpliceWhole(was, dev.disk[SECTOR * fatSector..SECTOR * fatSector + SECTOR]);
      SliceSlice(dev.disk[..], SECTOR * fatSector, SECTOR, entryOffset, 4);
      entry := Decode(sectorBuff[entryOffset..entryOffset + 4]);
    }

    method WriteEntry(cluster: nat, value: nat)
      requires Valid() && cluster < sectorCount && value < TWO_32
      modifies dev.disk
      ensures Entries() == old(Entries())[cluster := value]
      ensures dev.disk[..] == Splice(old(dev.disk[..]), SECTOR * reservedSectors + 4 * cluster, Encode(value))
    {
      hide Table, Decode, Splice, Volume.Clusters;
      var position := cluster * 4 % TWO_32;
      var fatSector := reservedSectors + position / SECTOR;
      var entryOffset := position % SECTOR;
      var entryPos := fatSector * SECTOR + entryOffset;
      EntryPlace(reservedSectors, dev.disk.Length, position);
      EntryWritten(dev.disk[..], SECTOR * reservedSectors, sectorCount, cluster, value);
      var bytes := new byte[4];
      bytes[0], bytes[1], bytes[2], bytes[3] :=
          value % 256, value / 0x100 % 256, value / 0x1_0000 % 256, value / 0x100_0000;
      assert bytes[0..0 + 4] == Encode(value);
      var _ := dev.WriteData(bytes, 0, entryPos, 4);
    }

    /** allocate_cluster: takes the first free entry; when there is none, entry 0 is overwritten. */
    method AllocateCluster() returns (freeCluster: nat)
      requires Valid()
      modifies dev.disk
      ensures freeCluster == FirstFree(old(Entries()), 2, sectorCount)
      ensures Entries() == old(Entries())[freeCluster := END]
      ensures dev.disk[..] == Splice(old(dev.disk[..]), SECTOR * reservedSectors + 4 * freeCluster, Encode(END))
    {
      hide Table, EntryOn, Decode, Encode, Splice, Volume.HasEntry;
      freeCluster := 0;
      var cluster := 2;
      while cluster < sectorCount
        invariant 2 <= cluster <= sectorCount && freeCluster == 0 && dev.disk[..] == old(dev.disk[..])
        invariant FirstFree(Entries(), 2, sectorCount) == FirstFree(Entries(), cluster, sectorCount)
      {
        HasTableEntry(cluster);
        var entry := GetEntry(cluster);
        if entry == 0 {
          freeCluster := cluster;
          break;
        }
        cluster := cluster + 1;
      }
      WriteEntry(freeCluster, END);
    }

    method LinkClusters(clust1: nat, clust2: nat)
      requires Valid() && clust1 < sectorCount && clust2 < TWO_32
      modifies dev.disk
      ensures Entries() == old(Entries())[clust1 := clust2]
      ensures dev.disk[..] == Splice(old(dev.disk[..]), SECTOR * reservedSectors + 4 * clust1, Encode(clust2))
    {
      WriteEntry(clust1, clust2);
    }

    method GetLastCluster(first: nat, ghost c: seq<nat>) returns (last: nat)
      requires Valid() && IsChain(Entries(), c) && first == c[0]
      ensures last == c[|c| - 1]
    {
      hide Table, EntryOn, Decode, Follows, Volume.HasEntry;
      last := first;
      ghost var i := 0;
      InTable(Entries(), c, 0);
      HasTableEntry(last);
      var clust := GetEntry(last);
      while clust < END
        invariant i < |c| && last == c[i] && last < sectorCount && clust == Entries()[last]
        decreases |c| - i
      {
        InTable(Entries(), c, i);
        last := clust;
        i := i + 1;
        InTable(Entries(), c, i);
        HasTableEntry(last);
        clust := GetEntry(last);
      }
      InTable(Entries(), c, i);
    }

    /** traverse_cluster_chain: the n-th cluster after the first, or the end marker past the last. */
    method TraverseClusterChain(first: nat, n: nat, ghost c: seq<nat>) returns (clust: nat)
      requires Valid() && IsChain(Entries(), c) && first == c[0]
      ensures c[|c| - 1] < sectorCount
      ensures clust == if n < |c| then c[n] else Entries()[c[|c| - 1]]
      ensures n >= |c| ==> clust >= END
    {
      hide Table, EntryOn, Decode, Follows, Volume.HasEntry;
      clust := first;
      for i := 0 to n
        invariant i < |c| && clust == c[i]
      {
        InTable(Entries(), c, i);
        HasTableEntry(clust);
        clust := GetEntry(clust);
        if clust >= END {
          return;
        }
      }
      InTable(Entries(), c, |c| - 1);
    }

    /** The append of writeFile: the last cluster of the file is linked to a newly allocated one. */
    method AppendCluster(first: nat, ghost files: seq<seq<nat>>, ghost k: nat) returns (last: nat, cluster: nat)
      requires Valid() && WellFormed(Entries(), files, Clusters()) && k < |files| && |files[k]| > 0
      requires first == files[k][0]
      modifies dev.disk
      ensures last == files[k][|files[k]| - 1] < sectorCount && cluster < sectorCount
      ensures cluster == FirstFree(old(Entries()), 2, sectorCount)
      ensures Entries() == Linked(old(Entries()), last, cluster)
      ensures dev.disk[..] == Splice(Splice(old(dev.disk[..]), SECTOR * reservedSectors + 4 * cluster, Encode(END)),
                                     SECTOR * reservedSectors + 4 * last, Encode(cluster))
      ensures IsChain(Entries(), files[k] + [cluster])
      ensures WellFormed(Entries(), Grown(files, k, cluster), Clusters()) <==> HasFree(old(Entries()), Clusters())
    {
      hide WellFormed, HasFree, Grown;
      LastEntry(Entries(), files, Clusters(), k);
      AppendOutcome(Entries(), files, Clusters(), k);
      last := GetLastCluster(first, files[k]);
      cluster := AllocateCluster();
      LinkClusters(last, cluster);
    }
  }

  /** Where an entry lies: whole inside one sector of the disk. */
  lemma EntryPlace(reserved: nat, length: nat, position: nat)
    requires length % SECTOR == 0 && position % 4 == 0 && SECTOR * reserved + position + 4 <= length
    ensures SECTOR * (reserved + position / SECTOR) + position % SECTOR == SECTOR * reserved + position
    ensures position % SECTOR + 4 <= SECTOR
    ensures SECTOR * (reserved + position / SECTOR) + SECTOR <= length
  {
    var w := position / 4;
    assert position == 4 * w && w == 128 * (w / 128) + w % 128;
    assert position / SECTOR == w / 128 && position % SECTOR == 4 * (w % 128);
    SectorInside(length, reserved + position / SECTOR);
  }

  lemma ClustersFit(sectors: nat, perCluster: nat)
    requires perCluster > 0
    ensures 0 <= sectors / perCluster <= sectors
  {
    var n := sectors / perCluster;
    assert sectors == n * perCluster + sectors % perCluster;
    AtLeast(n, perCluster);
  }

  lemma {:induction false} AtLeast(n: nat, k: nat)
    requires k > 0
    ensures n <= n * k
  {
    if k == 1 {
    } else {
      AtLeast(n, k - 1);
    }
  }
}
