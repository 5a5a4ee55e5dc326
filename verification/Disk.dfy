/** Byte-granular access to the AHCI disk (src/drivers/ahci.cpp): read_data and write_data are built from
    whole-sector transfers, and refine one flat array of bytes. */
module Disk {
  import opened Common

  const SECTOR: nat := 512

  type byte = b: nat | b < 256

  /** `s` with `t` written over it from position `at`. */
  function Splice<T>(s: seq<T>, at: nat, t: seq<T>): (r: seq<T>)
    requires at + |t| <= |s|
    ensures |r| == |s|
  {
    s[..at] + t + s[at + |t|..]
  }

  /** Writes to adjacent stretches are one write. */
  lemma SpliceAppend<T>(s: seq<T>, at: nat, t: seq<T>, u: seq<T>)
    requires at + |t| + |u| <= |s|
    ensures Splice(Splice(s, at, t), at + |t|, u) == Splice(s, at, t + u)
  {
    var l, r := Splice(Splice(s, at, t), at + |t|, u), Splice(s, at, t + u);
    forall i | 0 <= i < |s| ensures l[i] == r[i] {
    }
  }

  /** Reading a stretch, changing part of it and writing it back is one write of that part. */
  lemma SpliceInner<T>(s: seq<T>, at: nat, n: nat, o: nat, t: seq<T>)
    requires at + n <= |s| && o + |t| <= n
    ensures Splice(s, at, Splice(s[at..at + n], o, t)) == Splice(s, at + o, t)
  {
    var l, r := Splice(s, at, Splice(s[at..at + n], o, t)), Splice(s, at + o, t);
    forall i | 0 <= i < |s| ensures l[i] == r[i] {
    }
  }

  lemma SpliceNothing<T>(s: seq<T>, at: nat)
    requires at <= |s|
    ensures Splice(s, at, []) == s
  {
  }

  lemma SpliceWhole<T>(s: seq<T>, t: seq<T>)
    requires |s| == |t|
    ensures Splice(s, 0, t) == t
  {
  }

  lemma SliceSlice<T>(s: seq<T>, at: nat, n: nat, o: nat, m: nat)
    requires at + n <= |s| && o + m <= n
    ensures s[at..at + n][o..o + m] == s[at + o..at + o + m]
  {
    var l, r := s[at..at + n][o..o + m], s[at + o..at + o + m];
    assert |l| == |r| && forall i :: 0 <= i < m ==> l[i] == r[i];
  }

  /** A sector that begins inside a disk of whole sectors lies inside it. */
  lemma SectorInside(length: nat, sector: nat)
    requires length % SECTOR == 0 && SECTOR * sector < length
    ensures SECTOR * sector + SECTOR <= length
  {
  }

  /** A write reads back. */
  lemma SpliceReadBack<T>(s: seq<T>, at: nat, t: seq<T>)
    requires at + |t| <= |s|
    ensures Splice(s, at, t)[at..at + |t|] == t
  {
  }

  /** No byte outside a write changes. */
  lemma SpliceElsewhere<T>(s: seq<T>, at: nat, t: seq<T>, from: nat, n: nat)
    requires at + |t| <= |s| && from + n <= |s| && (from + n <= at || at + |t| <= from)
    ensures Splice(s, at, t)[from..from + n] == s[from..from + n]
  {
    assert forall j :: from <= j < from + n ==> Splice(s, at, t)[j] == s[j];
  }

  /** kmemcpy between two buffers. */
  method Copy(dst: array<byte>, to: nat, src: array<byte>, from: nat, n: nat)
    requires dst != src && to + n <= dst.Length && from + n <= src.Length
    modifies dst
    ensures dst[..] == Splice(old(dst[..]), to, src[from..from + n])
  {
    hide Splice;
    SpliceNothing(dst[..], to);
    assert src[from..from] == [];
    for i := 0 to n
      invariant dst[..] == Splice(old(dst[..]), to, src[from..from + i])
    {
      CopyStep(old(dst[..]), to, src[..], from, i, dst[..]);
      dst[to + i] := src[from + i];
    }
  }

  lemma CopyStep(s: seq<byte>, to: nat, src: seq<byte>, from: nat, i: nat, now: seq<byte>)
    requires to + i < |s| && from + i < |src| && now == Splice(s, to, src[from..from + i])
    ensures now[to + i := src[from + i]] == Splice(s, to, src[from..from + i + 1])
  {
    assert src[from..from + i + 1] == src[from..from + i] + [src[from + i]];
    SpliceAppend(s, to, src[from..from + i], [src[from + i]]);
  }

  class Ahci {
    const disk: array<byte>

    constructor (disk: array<byte>)
      ensures this.disk == disk
    {
      this.disk := disk;
    }

    ghost predicate HasSector(sector: nat) {
      SECTOR * sector + SECTOR <= disk.Length
    }

    /** The device's own transfers, seen from outside: one sector into or out of a buffer. */
    method ReadSector(sector: nat, buff: array<byte>, at: nat)
      requires HasSector(sector) && buff != disk && at + SECTOR <= buff.Length
      modifies buff
      ensures buff[..] == Splice(old(buff[..]), at, disk[SECTOR * sector..SECTOR * sector + SECTOR])
    {
      Copy(buff, at, disk, SECTOR * sector, SECTOR);
    }

    method WriteSector(sector: nat, buff: array<byte>, at: nat)
      requires HasSector(sector) && buff != disk && at + SECTOR <= buff.Length
      modifies disk
      ensures disk[..] == Splice(old(disk[..]), SECTOR * sector, buff[at..at + SECTOR])
    {
      Copy(disk, SECTOR * sector, buff, at, SECTOR);
    }

    /** The part of a sector: read whole into a scratch buffer, then copied out. */
    method ReadPart(sector: nat, start: nat, buff: array<byte>, at: nat, n: nat)
      requires HasSector(sector) && buff != disk && at + n <= buff.Length && start + n <= SECTOR
      modifies buff
      ensures buff[..] == Splice(old(buff[..]), at, disk[SECTOR * sector + start..SECTOR * sector + start + n])
    {
      hide Splice;
      var temp := new byte[SECTOR];
      ghost var was := temp[..];
      ReadSector(sector, temp, 0);
      SpliceWhole(was, disk[SECTOR * sector..SECTOR * sector + SECTOR]);
      SliceSlice(disk[..], SECTOR * sector, SECTOR, start, n);
      Copy(buff, at, temp, start, n);
    }

    method WritePart(sector: nat, start: nat, buff: array<byte>, at: nat, n: nat)
      requires HasSector(sector) && buff != disk && at + n <= buff.Length && start + n <= SECTOR
      modifies disk
      ensures disk[..] == Splice(old(disk[..]), SECTOR * sector + start, buff[at..at + n])
    {
      hide Splice;
      var temp := new byte[SECTOR];
      ghost var was := temp[..];
      ReadSector(sector, temp, 0);
      SpliceWhole(was, disk[SECTOR * sector..SECTOR * sector + SECTOR]);
      Copy(temp, start, buff, at, n);
      SpliceInner(disk[..], SECTOR * sector, SECTOR, start, buff[at..at + n]);
      assert temp[..] == temp[0..SECTOR];
      WriteSector(sector, temp, 0);
    }

    /** read_data: the caller's buffer receives exactly the bytes offset..offset+size of the disk. */
    method ReadData(buff: array<byte>, at: nat, offset: nat, size: nat) returns (r: nat)
      requires buff != disk && at + size <= buff.Length && offset + size <= disk.Length
      requires disk.Length % SECTOR == 0 && offset < TWO_32 && size < TWO_32
      modifies buff
      ensures buff[..] == Splice(old(buff[..]), at, disk[offset..offset + size])
      ensures r == size % 256
    {
      hide Splice;
      var sizeRead, currSector, offsetInSector := 0, offset / SECTOR, offset % SECTOR;
      assert offset == SECTOR * currSector + offsetInSector;
      SpliceNothing(buff[..], at);
      assert disk[offset..offset] == [];
      if offsetInSector > 0 {
        var sizeToRead := if SECTOR - offsetInSector > size then size else SECTOR - offsetInSector;
        SectorInside(disk.Length, currSector);
        ReadPart(currSector, offsetInSector, buff, at, sizeToRead);
        sizeRead := sizeRead + sizeToRead;
        currSector := currSector + 1;
      }
      ReadSectors(buff, at, offset, size, sizeRead, currSector, old(buff[..]));
      return size % 256;
    }

    /** read_data from its loop over whole sectors on. */
    method ReadSectors(buff: array<byte>, at: nat, offset: nat, size: nat, read: nat, sector: nat, ghost was: seq<byte>)
      requires buff != disk && at + size <= buff.Length && offset + size <= disk.Length && disk.Length % SECTOR == 0
      requires read <= size && (read < size ==> SECTOR * sector == offset + read) && |was| == buff.Length
      requires buff[..] == Splice(was, at, disk[offset..offset + read])
      modifies buff
      ensures buff[..] == Splice(was, at, disk[offset..offset + size])
    {
      hide Splice;
      var sizeRead, currSector := read, sector;
      while size - sizeRead > SECTOR && sizeRead < size
        invariant sizeRead <= size && (sizeRead < size ==> SECTOR * currSector == offset + sizeRead)
        invariant buff[..] == Splice(was, at, disk[offset..offset + sizeRead])
      {
        SectorInside(disk.Length, currSector);
        Gather(was, at, disk[..], offset, sizeRead, SECTOR);
        ReadSector(currSector, buff, at + sizeRead);
        sizeRead := sizeRead + SECTOR;
        currSector := currSector + 1;
      }
      if sizeRead < size {
        SectorInside(disk.Length, currSector);
        Gather(was, at, disk[..], offset, sizeRead, size - sizeRead);
        ReadPart(currSector, 0, buff, at + sizeRead, size - sizeRead);
      }
    }

    /** write_data: exactly the bytes offset..offset+size of the disk change, to the caller's. */
    method WriteData(buff: array<byte>, at: nat, offset: nat, size: nat) returns (r: nat)
      requires buff != disk && at + size <= buff.Length && offset + size <= disk.Length && offset < disk.Length
      requires disk.Length % SECTOR == 0 && offset < TWO_32 && size < TWO_32
      modifies disk
      ensures disk[..] == Splice(old(disk[..]), offset, buff[at..at + size])
      ensures r == size % 256
    {
      hide Splice;
      var currSector, offsetInSector := offset / SECTOR, offset % SECTOR;
      assert offset == SECTOR * currSector + offsetInSector;
      var sizeToCopy := if SECTOR - offsetInSector > size then size else SECTOR - offsetInSector;
      WritePart(currSector, offsetInSector, buff, at, sizeToCopy);
      var sizeWrite := sizeToCopy;
      currSector := currSector + 1;
      while size - sizeWrite > SECTOR && sizeWrite < size
        invariant sizeWrite <= size && (sizeWrite < size ==> SECTOR * currSector == offset + sizeWrite)
        invariant disk[..] == Splice(old(disk[..]), offset, buff[at..at + sizeWrite])
      {
        SectorInside(disk.Length, currSector);
        Gather(old(disk[..]), offset, buff[..], at, sizeWrite, SECTOR);
        WriteSector(currSector, buff, at + sizeWrite);
        sizeWrite := sizeWrite + SECTOR;
        currSector := currSector + 1;
      }
      if sizeWrite < size {
        SectorInside(disk.Length, currSector);
        Gather(old(disk[..]), offset, buff[..], at, sizeWrite, size - sizeWrite);
        WritePart(currSector, 0, buff, at + sizeWrite, size - sizeWrite);
      }
      return size % 256;
    }
  }

  lemma Gather<T>(s: seq<T>, at: nat, t: seq<T>, from: nat, m: nat, n: nat)
    requires at + m + n <= |s| && from + m + n <= |t|
    ensures Splice(Splice(s, at, t[from..from + m]), at + m, t[from + m..from + m + n]) ==
            Splice(s, at, t[from..from + m + n])
  {
    assert t[from..from + m + n] == t[from..from + m] + t[from + m..from + m + n];
    SpliceAppend(s, at, t[from..from + m], t[from + m..from + m + n]);
  }
}
