/** readFile after the directory lookup (src/fs/fat32.cpp): what it puts into the caller's buffer, and
    exactly when that is the slice of the file that was asked for. */
module FileReading {
  import opened Common
  import opened Disk
  import opened FatChains
  import opened Fat

  /* What is fetched. `ps` holds the disk positions of the file's clusters from the one that holds the
     first byte asked for; a cluster is k sectors. */

  ghost predicate OnDisk(length: nat, ps: seq<nat>, size: nat) {
    forall i :: 0 <= i < |ps| ==> ps[i] + size <= length
  }

  /** At most n bytes of one cluster, as the inner loop fetches them: each round reads the same sector. */
  ghost function Sectors<T>(d: seq<T>, p: nat, k: nat, n: nat): (r: seq<T>)
    requires k > 0 ==> p + SECTOR <= |d|
    ensures |r| == Min(n, SECTOR * k)
  {
    if k == 0 || n == 0 then [] else d[p..p + Min(n, SECTOR)] + Sectors(d, p, k - 1, n - Min(n, SECTOR))
  }

  ghost function Clusters<T>(d: seq<T>, ps: seq<nat>, k: nat, n: nat): (r: seq<T>)
    requires k > 0 && OnDisk(|d|, ps, SECTOR * k)
    ensures |r| <= n
  {
    if ps == [] || n == 0 then []
    else
      assert ps[0] + SECTOR * k <= |d|;
      Sectors(d, ps[0], k, n) + Clusters(d, ps[1..], k, n - Min(n, SECTOR * k))
  }

  /** The first read, for n bytes from byte `start` of a cluster: the rest of a sector; past the first
      sector the subtraction wraps and it takes all n bytes. */
  ghost function First<T>(d: seq<T>, p: nat, start: nat, n: nat): (r: seq<T>)
    requires if start <= SECTOR then p + SECTOR <= |d| else p + start + n <= |d|
    ensures |r| <= n && (start > SECTOR ==> |r| == n)
  {
    if start == 0 then []
    else if start <= SECTOR then d[p + start..p + start + Min(n, SECTOR - start)]
    else d[p + start..p + start + n]
  }

  /** The bytes fetched for n bytes from byte `start` of the first cluster. */
  ghost function Fetched<T>(d: seq<T>, ps: seq<nat>, k: nat, start: nat, n: nat): (r: seq<T>)
    requires k > 0 && OnDisk(|d|, ps, SECTOR * k) && ps != [] && start < SECTOR * k
    requires start > SECTOR ==> ps[0] + start + n <= |d|
    ensures |r| <= n
  {
    assert ps[0] + SECTOR * k <= |d|;
    var first := First(d, ps[0], start, n);
    first + Clusters(d, if start == 0 then ps else ps[1..], k, n - |first|)
  }

  lemma FetchedCases<T>(d: seq<T>, ps: seq<nat>, k: nat, start: nat, n: nat)
    requires k > 0 && OnDisk(|d|, ps, SECTOR * k) && ps != [] && start < SECTOR * k && ps[0] + SECTOR * k <= |d|
    requires start > SECTOR ==> ps[0] + start + n <= |d|
    ensures start == 0 ==> Fetched(d, ps, k, start, n) == Clusters(d, ps, k, n)
    ensures start > SECTOR ==> Fetched(d, ps, k, start, n) == d[ps[0] + start..ps[0] + start + n]
    ensures 0 < start <= SECTOR ==>
              var m := Min(n, SECTOR - start);
              Fetched(d, ps, k, start, n) == d[ps[0] + start..ps[0] + start + m] + Clusters(d, ps[1..], k, n - m)
  {
    var first := First(d, ps[0], start, n);
    if start == 0 {
      assert [] + Clusters(d, ps, k, n) == Clusters(d, ps, k, n);
    } else if start > SECTOR {
      ClustersEnd(d, ps[1..], k, 0);
      assert first + [] == first;
    }
  }

  lemma ClustersEnd<T>(d: seq<T>, ps: seq<nat>, k: nat, n: nat)
    requires k > 0 && OnDisk(|d|, ps, SECTOR * k) && (ps == [] || n == 0)
    ensures Clusters(d, ps, k, n) == []
  {
  }

  /** The bytes in i clusters. */
  function Times(i: nat, size: nat): nat {
    if i == 0 then 0 else size + Times(i - 1, size)
  }

  /** The contents of the clusters, one after the other. */
  ghost function FileBytes<T>(d: seq<T>, ps: seq<nat>, size: nat): (r: seq<T>)
    requires OnDisk(|d|, ps, size)
    ensures |r| == Times(|ps|, size) && (ps != [] ==> |r| >= size)
  {
    if ps == [] then []
    else
      assert ps[0] + size <= |d|;
      d[ps[0]..ps[0] + size] + FileBytes(d, ps[1..], size)
  }

  /** The slice of the file that was asked for, as far as its clusters go. */
  ghost function Slice<T>(d: seq<T>, ps: seq<nat>, size: nat, start: nat, n: nat): (r: seq<T>)
    requires OnDisk(|d|, ps, size) && start <= |FileBytes(d, ps, size)|
    ensures |r| <= n
  {
    FileBytes(d, ps, size)[start..Min(start + n, |FileBytes(d, ps, size)|)]
  }

  function Zeros(n: nat): (z: seq<byte>)
    ensures |z| == n
  {
    seq(n, _ => 0 as byte)
  }

  /** The buffer of n bytes: what was fetched, then the zeros it was cleared to. */
  function Padded(s: seq<byte>, n: nat): seq<byte>
    requires |s| <= n
  {
    s + Zeros(n - |s|)
  }

  /* When that is what was asked for. */

  /** The n bytes from the first cluster's position on are the first n bytes of the file. */
  ghost predicate Adjacent(ps: seq<nat>, size: nat, n: nat)
    requires size > 0
    decreases n
  {
    n <= size || (|ps| > 1 && ps[1] == ps[0] + size && Adjacent(ps[1..], size, n - size))
  }

  ghost predicate Whole(ps: seq<nat>, k: nat, start: nat, n: nat)
    requires k > 0
  {
    k == 1 || start + n <= SECTOR || (start > SECTOR && Adjacent(ps, SECTOR * k, start + n))
  }

  lemma Tail(length: nat, ps: seq<nat>, size: nat)
    requires OnDisk(length, ps, size) && ps != []
    ensures OnDisk(length, ps[1..], size) && ps[0] + size <= length
  {
  }

  lemma SliceAcross<T>(c: seq<T>, rest: seq<T>, start: nat, end: nat)
    requires start <= |c| <= end <= |c| + |rest|
    ensures (c + rest)[start..end] == c[start..] + rest[..end - |c|]
  {
  }

  lemma SliceWithin<T>(c: seq<T>, rest: seq<T>, start: nat, end: nat)
    requires start <= end <= |c|
    ensures (c + rest)[start..end] == c[start..end]
  {
  }

  lemma Joined<T>(d: seq<T>, p: nat, m: nat, n: nat)
    requires m <= n && p + n <= |d|
    ensures d[p..p + n] == d[p..p + m] + d[p + m..p + m + (n - m)]
  {
  }

  lemma {:induction false} AdjacentReads<T>(d: seq<T>, ps: seq<nat>, size: nat, n: nat)
    requires size > 0 && ps != [] && OnDisk(|d|, ps, size) && Adjacent(ps, size, n) && ps[0] + n <= |d|
    ensures n <= |FileBytes(d, ps, size)| && d[ps[0]..ps[0] + n] == FileBytes(d, ps, size)[..n]
    decreases n
  {
    Tail(|d|, ps, size);
    var c, rest := d[ps[0]..ps[0] + size], FileBytes(d, ps[1..], size);
    assert FileBytes(d, ps, size) == c + rest;
    if n > size {
      AdjacentReads(d, ps[1..], size, n - size);
      assert c[0..] == c;
      Joined(d, ps[0], size, n);
      SliceAcross(c, rest, 0, n);
    } else {
      SliceWithin(c, rest, 0, n);
      SliceSlice(d, ps[0], size, 0, n);
    }
  }

  /** One sector a cluster: whatever the request, exactly the file's bytes. */
  lemma {:induction false} OneSectorClusters<T>(d: seq<T>, ps: seq<nat>, n: nat)
    requires OnDisk(|d|, ps, SECTOR)
    ensures Clusters(d, ps, 1, n) == FileBytes(d, ps, SECTOR)[..Min(n, |FileBytes(d, ps, SECTOR)|)]
    decreases |ps|
  {
    if ps != [] && n > 0 {
      Tail(|d|, ps, SECTOR);
      var c, rest := d[ps[0]..ps[0] + SECTOR], FileBytes(d, ps[1..], SECTOR);
      OneSectorClusters(d, ps[1..], n - Min(n, SECTOR));
      assert Sectors(d, ps[0], 1, n) == d[ps[0]..ps[0] + Min(n, SECTOR)];
      if n <= SECTOR {
        SliceWithin(c, rest, 0, n);
        SliceSlice(d, ps[0], SECTOR, 0, n);
      } else {
        SliceAcross(c, rest, 0, Min(n, SECTOR + |rest|));
      }
    }
  }

  lemma OneSectorRight<T>(d: seq<T>, ps: seq<nat>, start: nat, n: nat)
    requires OnDisk(|d|, ps, SECTOR) && ps != [] && start < SECTOR
    ensures Fetched(d, ps, 1, start, n) == Slice(d, ps, SECTOR, start, n)
  {
    hide Fetched, Clusters;
    Tail(|d|, ps, SECTOR);
    FetchedCases(d, ps, 1, start, n);
    var c, rest := d[ps[0]..ps[0] + SECTOR], FileBytes(d, ps[1..], SECTOR);
    if start == 0 {
      OneSectorClusters(d, ps, n);
    } else {
      OneSectorClusters(d, ps[1..], n - Min(n, SECTOR - start));
      SliceSlice(d, ps[0], SECTOR, start, Min(n, SECTOR - start));
      if start + n <= SECTOR {
        SliceWithin(c, rest, start, start + n);
      } else {
        SliceAcross(c, rest, start, Min(start + n, SECTOR + |rest|));
      }
    }
  }

  lemma OneRound<T>(d: seq<T>, p: nat, k: nat, n: nat)
    requires k > 0 && n <= SECTOR && p + SECTOR <= |d|
    ensures Sectors(d, p, k, n) == d[p..p + n]
  {
    if n > 0 {
      assert Sectors(d, p, k - 1, 0) == [];
    }
  }

  lemma InFirstSector<T>(d: seq<T>, ps: seq<nat>, k: nat, start: nat, n: nat)
    requires k > 0 && OnDisk(|d|, ps, SECTOR * k) && ps != [] && start < SECTOR * k && start + n <= SECTOR
    ensures Fetched(d, ps, k, start, n) == Slice(d, ps, SECTOR * k, start, n)
  {
    hide Fetched, FileBytes, Sectors;
    var size := SECTOR * k;
    Tail(|d|, ps, size);
    FetchedCases(d, ps, k, start, n);
    WithinFirst(d, ps, size, start, n);
    assert Clusters(d, ps[1..], k, 0) == [];
    if start == 0 && n > 0 {
      OneRound(d, ps[0], k, n);
    }
  }

  /** The file begins with its first cluster. */
  lemma WithinFirst<T>(d: seq<T>, ps: seq<nat>, size: nat, start: nat, n: nat)
    requires OnDisk(|d|, ps, size) && ps != [] && start + n <= size
    ensures ps[0] + size <= |d| && start + n <= |FileBytes(d, ps, size)|
    ensures FileBytes(d, ps, size)[start..start + n] == d[ps[0] + start..ps[0] + start + n]
  {
    Tail(|d|, ps, size);
    SliceWithin(d[ps[0]..ps[0] + size], FileBytes(d, ps[1..], size), start, start + n);
    SliceSlice(d, ps[0], size, start, n);
  }

  /** Where the condition holds the bytes fetched are those of the file, for any contents. */
  lemma WholeIsRight<T>(d: seq<T>, ps: seq<nat>, k: nat, start: nat, n: nat)
    requires k > 0 && OnDisk(|d|, ps, SECTOR * k) && ps != [] && start < SECTOR * k
    requires start > SECTOR ==> ps[0] + start + n <= |d|
    requires Whole(ps, k, start, n)
    ensures Fetched(d, ps, k, start, n) == Slice(d, ps, SECTOR * k, start, n)
  {
    hide Fetched, Clusters;
    if k == 1 {
      OneSectorRight(d, ps, start, n);
    } else if start + n <= SECTOR {
      InFirstSector(d, ps, k, start, n);
    } else {
      Tail(|d|, ps, SECTOR * k);
      FetchedCases(d, ps, k, start, n);
      var f := FileBytes(d, ps, SECTOR * k);
      AdjacentReads(d, ps, SECTOR * k, start + n);
      SliceSlice(d, ps[0], start + n, start, n);
      SliceSlice(f, 0, start + n, start, n);
    }
  }

  /** Where it fails, some disk shows it: the one on which every byte is its own position. */
  ghost function Positions(length: nat): (d: seq<nat>)
    ensures |d| == length && forall i :: 0 <= i < length ==> d[i] == i
  {
    seq(length, i => i)
  }

  lemma {:induction false} NotAdjacentDiffers(d: seq<nat>, ps: seq<nat>, size: nat, n: nat)
    requires d == Positions(|d|) && size > 0 && ps != [] && OnDisk(|d|, ps, size) && !Adjacent(ps, size, n)
    requires ps[0] + n <= |d|
    ensures n > |FileBytes(d, ps, size)| || d[ps[0]..ps[0] + n] != FileBytes(d, ps, size)[..n]
    decreases n
  {
    hide Times;
    Tail(|d|, ps, size);
    var c, rest := d[ps[0]..ps[0] + size], FileBytes(d, ps[1..], size);
    if n <= |FileBytes(d, ps, size)| {
      var l, r := d[ps[0]..ps[0] + n], FileBytes(d, ps, size)[..n];
      assert |ps| > 1;
      Tail(|d|, ps[1..], size);
      SliceAcross(c, rest, 0, n);
      if ps[1] != ps[0] + size {
        assert r[size] == rest[0] == d[ps[1]] && l[size] == d[ps[0] + size];
      } else {
        NotAdjacentDiffers(d, ps[1..], size, n - size);
        assert r[size..] == rest[..n - size];
        SliceSlice(d, ps[0], n, size, n - size);
      }
    }
  }

  /** The byte asked for where the first sector ends is the first of the second sector. */
  lemma AskedBeyond(d: seq<nat>, ps: seq<nat>, size: nat, start: nat, n: nat)
    requires d == Positions(|d|) && size > SECTOR && OnDisk(|d|, ps, size) && ps != [] && start <= SECTOR < start + n
    ensures |Slice(d, ps, size, start, n)| > SECTOR - start
    ensures Slice(d, ps, size, start, n)[SECTOR - start] == ps[0] + SECTOR
  {
    Tail(|d|, ps, size);
    var f := FileBytes(d, ps, size);
    assert f[SECTOR] == d[ps[0]..ps[0] + size][SECTOR] == ps[0] + SECTOR;
  }

  /** What is fetched there instead: the cluster's first byte again, the next cluster's, or nothing. */
  lemma FetchedBeyond(d: seq<nat>, ps: seq<nat>, k: nat, start: nat, n: nat)
    requires d == Positions(|d|) && k > 1 && OnDisk(|d|, ps, SECTOR * k) && ps != [] && start <= SECTOR < start + n
    ensures var got := Fetched(d, ps, k, start, n);
            && (start == 0 || |ps| > 1 ==> |got| > SECTOR - start)
            && (|got| <= SECTOR - start || got[SECTOR - start] == ps[0] || (|ps| > 1 && got[SECTOR - start] == ps[1]))
  {
    hide Fetched;
    Tail(|d|, ps, SECTOR * k);
    FetchedCases(d, ps, k, start, n);
    var got, i := Fetched(d, ps, k, start, n), SECTOR - start;
    if start == 0 {
      SecondRound(d, ps[0], k, n);
      assert got[i] == Sectors(d, ps[0], k, n)[SECTOR];
    } else if |ps| > 1 {
      Tail(|d|, ps[1..], SECTOR * k);
      FirstFetched(d, ps[1..], k, n - i);
      assert got[i] == Clusters(d, ps[1..], k, n - i)[0];
    }
  }

  lemma FirstFetched<T>(d: seq<T>, ps: seq<nat>, k: nat, n: nat)
    requires k > 0 && OnDisk(|d|, ps, SECTOR * k) && ps != [] && n > 0 && ps[0] + SECTOR * k <= |d|
    ensures |Clusters(d, ps, k, n)| > 0 && Clusters(d, ps, k, n)[0] == d[ps[0]]
  {
    assert Sectors(d, ps[0], k, n)[0] == d[ps[0]];
  }

  lemma SecondRound<T>(d: seq<T>, p: nat, k: nat, n: nat)
    requires k > 1 && n > SECTOR && p + SECTOR <= |d|
    ensures Sectors(d, p, k, n)[SECTOR] == d[p]
  {
    assert Sectors(d, p, k, n)[SECTOR] == Sectors(d, p, k - 1, n - SECTOR)[0];
  }

  lemma LateStartDiffers(d: seq<nat>, ps: seq<nat>, k: nat, start: nat, n: nat)
    requires d == Positions(|d|) && k > 1 && OnDisk(|d|, ps, SECTOR * k) && ps != [] && SECTOR < start < SECTOR * k
    requires ps[0] + start + n <= |d| && !Adjacent(ps, SECTOR * k, start + n)
    ensures Fetched(d, ps, k, start, n) != Slice(d, ps, SECTOR * k, start, n)
  {
    hide Fetched, Clusters, Adjacent, FileBytes;
    var size := SECTOR * k;
    Tail(|d|, ps, size);
    FetchedCases(d, ps, k, start, n);
    NotAdjacentDiffers(d, ps, size, start + n);
    WithinFirst(d, ps, size, 0, start);
    var f := FileBytes(d, ps, size);
    if start + n <= |f| {
      Joined(d, ps[0], start, start + n);
      Joined(f, 0, start, start + n);
    }
  }

  /** Every byte fetched is the byte at some position, the same on every disk; likewise for every byte of
      the file. Positions lie at or past `low` when the clusters do. */
  ghost predicate ComesFrom(got: seq<byte>, d: seq<byte>, at: seq<nat>, low: nat) {
    |got| == |at| && forall i :: 0 <= i < |at| ==> low <= at[i] < |d| && got[i] == d[at[i]]
  }

  lemma SameSource(d: seq<byte>, at: seq<nat>, low: nat, g: seq<byte>, h: seq<byte>)
    requires ComesFrom(g, d, at, low) && ComesFrom(h, d, at, low)
    ensures g == h
  {
  }

  ghost predicate Above(ps: seq<nat>, low: nat) {
    forall i :: 0 <= i < |ps| ==> ps[i] >= low
  }

  lemma AtSlice(d: seq<byte>, p: nat, n: nat, low: nat)
    requires low <= p && p + n <= |d|
    ensures ComesFrom(d[p..p + n], d, Positions(|d|)[p..p + n], low)
  {
  }

  lemma AtConcat(d: seq<byte>, a: seq<byte>, x: seq<nat>, b: seq<byte>, y: seq<nat>, low: nat)
    requires ComesFrom(a, d, x, low) && ComesFrom(b, d, y, low)
    ensures ComesFrom(a + b, d, x + y, low)
  {
  }

  lemma {:induction false} SectorsAt(d: seq<byte>, p: nat, k: nat, n: nat, low: nat)
    requires p + SECTOR <= |d| && low <= p
    ensures ComesFrom(Sectors(d, p, k, n), d, Sectors(Positions(|d|), p, k, n), low)
    decreases k
  {
    if k == 0 || n == 0 {
    } else {
      var m := Min(n, SECTOR);
      SectorsAt(d, p, k - 1, n - m, low);
      AtSlice(d, p, m, low);
      AtConcat(d, d[p..p + m], Positions(|d|)[p..p + m],
               Sectors(d, p, k - 1, n - m), Sectors(Positions(|d|), p, k - 1, n - m), low);
    }
  }

  lemma {:induction false} ClustersAt(d: seq<byte>, ps: seq<nat>, k: nat, n: nat, low: nat)
    requires k > 0 && OnDisk(|d|, ps, SECTOR * k) && Above(ps, low)
    ensures ComesFrom(Clusters(d, ps, k, n), d, Clusters(Positions(|d|), ps, k, n), low)
    decreases |ps|
  {
    if ps == [] || n == 0 {
    } else {
      var m := n - Min(n, SECTOR * k);
      Tail(|d|, ps, SECTOR * k);
      SectorsAt(d, ps[0], k, n, low);
      ClustersAt(d, ps[1..], k, m, low);
      AtConcat(d, Sectors(d, ps[0], k, n), Sectors(Positions(|d|), ps[0], k, n),
               Clusters(d, ps[1..], k, m), Clusters(Positions(|d|), ps[1..], k, m), low);
    }
  }

  lemma FirstAt(d: seq<byte>, p: nat, start: nat, n: nat, low: nat)
    requires low <= p && if start <= SECTOR then p + SECTOR <= |d| else p + start + n <= |d|
    ensures ComesFrom(First(d, p, start, n), d, First(Positions(|d|), p, start, n), low)
  {
    AtSlice(d, p + start, |First(d, p, start, n)|, low);
  }

  /** The first read and what the loop adds to it. */
  lemma FetchedIs<T>(d: seq<T>, ps: seq<nat>, k: nat, start: nat, n: nat)
    requires k > 0 && OnDisk(|d|, ps, SECTOR * k) && ps != [] && start < SECTOR * k
    requires start > SECTOR ==> ps[0] + start + n <= |d|
    ensures ps[0] + SECTOR * k <= |d| && |First(d, ps[0], start, n)| <= n
    ensures OnDisk(|d|, if start == 0 then ps else ps[1..], SECTOR * k)
    ensures Fetched(d, ps, k, start, n) ==
            First(d, ps[0], start, n) +
                Clusters(d, if start == 0 then ps else ps[1..], k, n - |First(d, ps[0], start, n)|)
  {
    Tail(|d|, ps, SECTOR * k);
  }

  lemma FetchedAt(d: seq<byte>, ps: seq<nat>, k: nat, start: nat, n: nat, low: nat)
    requires k > 0 && OnDisk(|d|, ps, SECTOR * k) && ps != [] && start < SECTOR * k && Above(ps, low)
    requires start > SECTOR ==> ps[0] + start + n <= |d|
    ensures ComesFrom(Fetched(d, ps, k, start, n), d, Fetched(Positions(|d|), ps, k, start, n), low)
  {
    hide Clusters, Fetched, First;
    var at := Positions(|d|);
    FetchedIs(d, ps, k, start, n);
    FetchedIs(at, ps, k, start, n);
    FirstAt(d, ps[0], start, n, low);
    var a, x := First(d, ps[0], start, n), First(at, ps[0], start, n);
    var rest := if start == 0 then ps else ps[1..];
    assert Above(rest, low);
    ClustersAt(d, rest, k, n - |a|, low);
    AtConcat(d, a, x, Clusters(d, rest, k, n - |a|), Clusters(at, rest, k, n - |a|), low);
  }

  lemma {:induction false} FileAt(d: seq<byte>, ps: seq<nat>, size: nat, low: nat)
    requires OnDisk(|d|, ps, size) && Above(ps, low)
    ensures ComesFrom(FileBytes(d, ps, size), d, FileBytes(Positions(|d|), ps, size), low)
    decreases |ps|
  {
    if ps == [] {
    } else {
      Tail(|d|, ps, size);
      FileAt(d, ps[1..], size, low);
      AtSlice(d, ps[0], size, low);
      AtConcat(d, d[ps[0]..ps[0] + size], Positions(|d|)[ps[0]..ps[0] + size],
               FileBytes(d, ps[1..], size), FileBytes(Positions(|d|), ps[1..], size), low);
    }
  }

  lemma SliceAt(d: seq<byte>, ps: seq<nat>, size: nat, start: nat, n: nat, low: nat)
    requires OnDisk(|d|, ps, size) && ps != [] && start < size && Above(ps, low)
    ensures ComesFrom(Slice(d, ps, size, start, n), d, Slice(Positions(|d|), ps, size, start, n), low)
  {
    FileAt(d, ps, size, low);
  }

  /** The disk that is `disk` below `low` and zero from there on but for a one at `b`. */
  function Marked(disk: seq<byte>, low: nat, b: nat): (d: seq<byte>)
    requires low <= |disk|
    ensures |d| == |disk| && d[..low] == disk[..low]
    ensures forall i :: low <= i < |d| ==> d[i] == if i == b then 1 else 0
  {
    disk[..low] + seq(|disk| - low, i requires i >= 0 => if low + i == b then 1 as byte else 0)
  }

  /** Two lists of positions that differ give different buffers on a disk marked where they differ. */
  lemma MarkTells(disk: seq<byte>, low: nat, x: seq<nat>, y: seq<nat>, n: nat, i: nat, b: nat, g: seq<byte>,
      h: seq<byte>)
    requires low <= |disk| && |x| <= n && |y| <= n && (i < |x| || i < |y|) && (i < |x| && i < |y| ==> x[i] != y[i])
    requires b == if i < |y| then y[i] else x[i]
    requires ComesFrom(g, Marked(disk, low, b), x, low) && ComesFrom(h, Marked(disk, low, b), y, low)
    ensures Padded(g, n) != Padded(h, n)
  {
    assert Padded(g, n)[i] != Padded(h, n)[i];
  }

  lemma FirstDifference(x: seq<nat>, y: seq<nat>) returns (i: nat)
    requires x != y
    ensures (i < |x| || i < |y|) && (i < |x| && i < |y| ==> x[i] != y[i])
  {
    if j :| 0 <= j < |x| && j < |y| && x[j] != y[j] {
      i := j;
    } else {
      i := if |x| < |y| then |x| else |y|;
    }
  }

  /** On this disk the buffer ends up as the m bytes of the file that were asked for, then zeros. */
  ghost predicate RightOn(d: seq<byte>, ps: seq<nat>, k: nat, start: nat, n: nat, m: nat)
    requires k > 0 && OnDisk(|d|, ps, SECTOR * k) && ps != [] && start < SECTOR * k && m <= n
    requires start > SECTOR ==> ps[0] + start + n <= |d|
  {
    Padded(Fetched(d, ps, k, start, n), n) == Padded(Slice(d, ps, SECTOR * k, start, m), n)
  }

  ghost predicate SameBelow(d: seq<byte>, disk: seq<byte>, low: nat) {
    |d| == |disk| && low <= |disk| && d[..low] == disk[..low]
  }

  /** The request is fetched whole and ends within the file, or the file fills its clusters. Or the file
      ends with the first sector of its last cluster, and the request begins in that sector. */
  ghost predicate Exact(ps: seq<nat>, k: nat, start: nat, n: nat, m: nat)
    requires k > 0
  {
    || (Whole(ps, k, start, n) && (m == n || start + m == Times(|ps|, SECTOR * k)))
    || (k > 1 && 0 < start <= SECTOR < start + n && |ps| == 1 && start + m == SECTOR)
  }

  lemma SlicePrefix<T>(d: seq<T>, ps: seq<nat>, size: nat, start: nat, n: nat, m: nat)
    requires OnDisk(|d|, ps, size) && m <= n && start + m <= |FileBytes(d, ps, size)|
    ensures |Slice(d, ps, size, start, m)| == m <= |Slice(d, ps, size, start, n)|
    ensures |Slice(d, ps, size, start, n)| == Min(n, |FileBytes(d, ps, size)| - start)
    ensures Slice(d, ps, size, start, m) == Slice(d, ps, size, start, n)[..m]
  {
  }

  lemma WholeExact(d: seq<nat>, ps: seq<nat>, k: nat, start: nat, n: nat, m: nat)
    requires k > 0 && OnDisk(|d|, ps, SECTOR * k) && ps != [] && start < SECTOR * k
    requires start > SECTOR ==> ps[0] + start + n <= |d|
    requires Whole(ps, k, start, n) && m <= n && start + m <= |FileBytes(d, ps, SECTOR * k)|
    ensures Fetched(d, ps, k, start, n) == Slice(d, ps, SECTOR * k, start, m) <==>
            m == n || start + m == |FileBytes(d, ps, SECTOR * k)|
  {
    hide Fetched, Slice, FileBytes, Whole;
    WholeIsRight(d, ps, k, start, n);
    SlicePrefix(d, ps, SECTOR * k, start, n, m);
  }

  lemma LateInexact(d: seq<nat>, ps: seq<nat>, k: nat, start: nat, n: nat, m: nat)
    requires d == Positions(|d|) && k > 1 && OnDisk(|d|, ps, SECTOR * k) && ps != [] && SECTOR < start < SECTOR * k
    requires ps[0] + start + n <= |d| && !Adjacent(ps, SECTOR * k, start + n)
    requires m <= n && start + m <= |FileBytes(d, ps, SECTOR * k)|
    ensures Fetched(d, ps, k, start, n) != Slice(d, ps, SECTOR * k, start, m)
  {
    hide Fetched, Slice, FileBytes, Adjacent, OnDisk;
    LateStartDiffers(d, ps, k, start, n);
    Tail(|d|, ps, SECTOR * k);
    FetchedCases(d, ps, k, start, n);
    SlicePrefix(d, ps, SECTOR * k, start, n, m);
  }

  lemma EarlyExact(d: seq<nat>, ps: seq<nat>, k: nat, start: nat, n: nat, m: nat)
    requires d == Positions(|d|) && k > 1 && OnDisk(|d|, ps, SECTOR * k) && ps != [] && start <= SECTOR < start + n
    requires |ps| > 1 ==> ps[1] != ps[0] + SECTOR
    requires m <= n && start + m <= |FileBytes(d, ps, SECTOR * k)|
    ensures Fetched(d, ps, k, start, n) == Slice(d, ps, SECTOR * k, start, m) <==>
            0 < start && |ps| == 1 && start + m == SECTOR
  {
    hide Fetched, FileBytes, OnDisk, Clusters;
    var size, i := SECTOR * k, SECTOR - start;
    Tail(|d|, ps, size);
    AskedBeyond(d, ps, size, start, n);
    FetchedBeyond(d, ps, k, start, n);
    SlicePrefix(d, ps, size, start, n, m);
    if m <= i && start > 0 && |ps| == 1 {
      FetchedCases(d, ps, k, start, n);
      ClustersEnd(d, ps[1..], k, n - i);
      WithinFirst(d, ps, size, start, m);
    }
  }

  lemma ExactPositions(d: seq<nat>, ps: seq<nat>, k: nat, start: nat, n: nat, m: nat)
    requires d == Positions(|d|) && k > 0 && OnDisk(|d|, ps, SECTOR * k) && ps != [] && start < SECTOR * k
    requires start > SECTOR ==> ps[0] + start + n <= |d|
    requires k > 1 && |ps| > 1 ==> ps[1] != ps[0] + SECTOR
    requires m <= n && start + m <= |FileBytes(d, ps, SECTOR * k)|
    ensures Fetched(d, ps, k, start, n) == Slice(d, ps, SECTOR * k, start, m) <==> Exact(ps, k, start, n, m)
  {
    hide Fetched, Slice, FileBytes, Adjacent, OnDisk;
    if Whole(ps, k, start, n) {
      WholeExact(d, ps, k, start, n, m);
      if k > 1 && start <= SECTOR {
        NotBeyond(ps, k, start, n);
      }
    } else if start > SECTOR {
      LateInexact(d, ps, k, start, n, m);
    } else {
      EarlyExact(d, ps, k, start, n, m);
    }
  }

  lemma NotBeyond(ps: seq<nat>, k: nat, start: nat, n: nat)
    requires k > 1 && start <= SECTOR && Whole(ps, k, start, n)
    ensures start + n <= SECTOR
  {
  }

  /** readFile leaves the m bytes asked for that the file has, and then zeros, in the buffer of n bytes, on
      every disk of bytes that is the given one below its data clusters, exactly when the request is exact. */
  lemma RightExactlyWhen(disk: seq<byte>, low: nat, ps: seq<nat>, k: nat, start: nat, n: nat, m: nat)
    requires k > 0 && OnDisk(|disk|, ps, SECTOR * k) && ps != [] && start < SECTOR * k
    requires start > SECTOR ==> ps[0] + start + n <= |disk|
    requires k > 1 && |ps| > 1 ==> ps[1] != ps[0] + SECTOR
    requires low <= |disk| && Above(ps, low) && m <= n && start + m <= Times(|ps|, SECTOR * k)
    ensures (forall d: seq<byte> | SameBelow(d, disk, low) :: RightOn(d, ps, k, start, n, m)) <==>
            Exact(ps, k, start, n, m)
  {
    hide Fetched, Slice, Exact, OnDisk, Padded, Above;
    if Exact(ps, k, start, n, m) {
      forall d: seq<byte> | SameBelow(d, disk, low) ensures RightOn(d, ps, k, start, n, m) {
        FetchedAt(d, ps, k, start, n, low);
        SliceAt(d, ps, SECTOR * k, start, m, low);
        ExactPositions(Positions(|d|), ps, k, start, n, m);
        SameSource(d, Fetched(Positions(|d|), ps, k, start, n), low,
                   Fetched(d, ps, k, start, n), Slice(d, ps, SECTOR * k, start, m));
      }
    } else {
      var d := WrongDisk(disk, low, ps, k, start, n, m);
      assert SameBelow(d, disk, low) && !RightOn(d, ps, k, start, n, m);
    }
  }

  /** The failing half: a disk on which the buffer comes out wrong. */
  lemma WrongDisk(disk: seq<byte>, low: nat, ps: seq<nat>, k: nat, start: nat, n: nat, m: nat) returns (d: seq<byte>)
    requires k > 0 && OnDisk(|disk|, ps, SECTOR * k) && ps != [] && start < SECTOR * k
    requires start > SECTOR ==> ps[0] + start + n <= |disk|
    requires k > 1 && |ps| > 1 ==> ps[1] != ps[0] + SECTOR
    requires low <= |disk| && Above(ps, low) && m <= n && start + m <= Times(|ps|, SECTOR * k)
    requires !Exact(ps, k, start, n, m)
    ensures SameBelow(d, disk, low) && !RightOn(d, ps, k, start, n, m)
  {
    hide Fetched, Slice, Exact, OnDisk, Padded, Above;
    var at, size := Positions(|disk|), SECTOR * k;
    ExactPositions(at, ps, k, start, n, m);
    var x, y := Fetched(at, ps, k, start, n), Slice(at, ps, size, start, m);
    var i := FirstDifference(x, y);
    var b := if i < |y| then y[i] else x[i];
    d := Marked(disk, low, b);
    FetchedAt(d, ps, k, start, n, low);
    SliceAt(d, ps, size, start, m, low);
    MarkTells(disk, low, x, y, n, i, b, Fetched(d, ps, k, start, n), Slice(d, ps, size, start, m));
  }

  /* The reading itself. */

  lemma SpliceOverZeros(b: seq<byte>, s: seq<byte>, n: nat)
    requires |s| <= n <= |b|
    ensures Splice(Splice(b, 0, Zeros(n)), 0, s) == Splice(b, 0, Padded(s, n))
  {
  }

  /** Where a data cluster begins on the disk. */
  function Place(firstData: nat, k: nat, cluster: nat): nat
    requires cluster >= 2
  {
    SECTOR * ((cluster - 2) * k + firstData)
  }

  ghost function Places(firstData: nat, k: nat, c: seq<nat>): (ps: seq<nat>)
    requires forall i :: 0 <= i < |c| ==> c[i] >= 2
    ensures |ps| == |c| && forall i :: 0 <= i < |c| ==> ps[i] == Place(firstData, k, c[i])
  {
    seq(|c|, i requires 0 <= i < |c| => Place(firstData, k, c[i]))
  }

  /** cluster_to_sector. */
  function ClusterToSector(firstData: nat, k: nat, cluster: nat): nat {
    ((cluster - 2) * k + firstData) % TWO_32
  }

  lemma SectorIsPlace(firstData: nat, k: nat, cluster: nat, length: nat)
    requires cluster >= 2 && 0 < k && Place(firstData, k, cluster) + SECTOR * k <= length <= TWO_32
    ensures SECTOR * ClusterToSector(firstData, k, cluster) == Place(firstData, k, cluster)
  {
    var sector := (cluster - 2) * k + firstData;
    assert 0 <= sector < TWO_32;
  }

  method Clear(buff: array<byte>, n: nat)
    requires n <= buff.Length
    modifies buff
    ensures buff[..] == Splice(old(buff[..]), 0, Zeros(n))
  {
    for i := 0 to n
      invariant forall j :: 0 <= j < buff.Length ==> buff[j] == if j < i then 0 else old(buff[j])
    {
      buff[i] := 0;
    }
  }

  /** The inner loop of readFile: one cluster, sector by sector. */
  method ReadCluster(dev: Ahci, k: nat, sector: nat, buff: array<byte>, from: nat, n: nat) returns (offset: nat)
    requires dev.disk.Length % SECTOR == 0 && dev.disk.Length <= TWO_32 && SECTOR * sector + SECTOR <= dev.disk.Length
    requires buff != dev.disk && from < n <= buff.Length && n < TWO_32
    modifies buff
    ensures offset == from + Min(n - from, SECTOR * k)
    ensures buff[..] == Splice(old(buff[..]), from, Sectors(dev.disk[..], SECTOR * sector, k, n - from))
  {
    hide Splice, Sectors;
    ghost var d, was, got, p := dev.disk[..], buff[..], [], SECTOR * sector;
    SpliceNothing(was, from);
    offset := from;
    var i := 0;
    while i < k && offset < n
      invariant i <= k && from <= offset <= n && |got| == offset - from
      invariant buff[..] == Splice(was, from, got)
      invariant got + Sectors(d, p, k - i, n - offset) == Sectors(d, p, k, n - from)
    {
      var sizeToRead := if n - offset > 512 then 512 else n - offset;
      assert sector * SECTOR % TWO_32 == p && sizeToRead == Min(n - offset, SECTOR);
      var _ := dev.ReadData(buff, offset, sector * SECTOR % TWO_32, sizeToRead);
      ghost var piece := d[p..p + sizeToRead];
      RoundStep(was, from, got, d, p, k - i, n - offset);
      got := got + piece;
      offset := offset + sizeToRead;
      i := i + 1;
    }
    SectorsEnd(d, p, k - i, n - offset);
    assert got + [] == got == Sectors(d, p, k, n - from);
  }

  lemma PlaceOf(v: Volume, c: seq<nat>, i: nat)
    requires Stored(v, c) && i < |c|
    ensures c[i] >= 2 && PlacesOf(v, c)[i] == Place(v.firstDataSector, v.sectorsPerCluster, c[i])
    ensures PlacesOf(v, c)[i] + SECTOR * v.sectorsPerCluster <= v.dev.disk.Length
  {
  }

  lemma Appended<T>(a: seq<T>, b: seq<T>, c: seq<T>)
    ensures a + b + c == a + (b + c)
  {
  }

  /** One round of the loop over a cluster's sectors. */
  lemma RoundStep<T>(was: seq<T>, from: nat, got: seq<T>, d: seq<T>, p: nat, k: nat, n: nat)
    requires k > 0 && n > 0 && p + SECTOR <= |d| && from + |got| + n <= |was|
    ensures var piece := d[p..p + Min(n, SECTOR)];
            && Splice(Splice(was, from, got), from + |got|, piece) == Splice(was, from, got + piece)
            && got + piece + Sectors(d, p, k - 1, n - |piece|) == got + Sectors(d, p, k, n)
  {
    hide Splice, Sectors;
    var piece := d[p..p + Min(n, SECTOR)];
    SpliceAppend(was, from, got, piece);
    SectorsStep(d, p, k, n);
    Appended(got, piece, Sectors(d, p, k - 1, n - |piece|));
  }

  lemma SectorsStep<T>(d: seq<T>, p: nat, k: nat, n: nat)
    requires k > 0 && n > 0 && p + SECTOR <= |d|
    ensures Sectors(d, p, k, n) == d[p..p + Min(n, SECTOR)] + Sectors(d, p, k - 1, n - Min(n, SECTOR))
  {
  }

  lemma SectorsEnd<T>(d: seq<T>, p: nat, k: nat, n: nat)
    requires (k == 0 || n == 0) && p + SECTOR <= |d|
    ensures Sectors(d, p, k, n) == []
  {
  }

  /** The file's clusters are data clusters that lie on the disk. */
  ghost predicate Stored(v: Volume, c: seq<nat>) {
    && v.sectorsPerCluster > 0
    && forall i :: 0 <= i < |c| ==>
         && c[i] >= 2
         && Place(v.firstDataSector, v.sectorsPerCluster, c[i]) + SECTOR * v.sectorsPerCluster <= v.dev.disk.Length
  }

  ghost function PlacesOf(v: Volume, c: seq<nat>): (ps: seq<nat>)
    requires Stored(v, c)
    ensures |ps| == |c| && OnDisk(v.dev.disk.Length, ps, SECTOR * v.sectorsPerCluster)
  {
    Places(v.firstDataSector, v.sectorsPerCluster, c)
  }

  /** Every entry that the walk of n steps from `cluster` reads lies on the disk. */
  ghost predicate SkipOnDisk(v: Volume, d: seq<byte>, cluster: nat, n: nat)
    requires |d| == v.dev.disk.Length
    decreases n
  {
    n == 0 || (v.HasEntry(cluster) &&
               (EntryOn(d, SECTOR * v.reservedSectors, cluster) == END ||
                SkipOnDisk(v, d, EntryOn(d, SECTOR * v.reservedSectors, cluster), n - 1)))
  }

  /** The cluster after n steps from `cluster`. Only the exact end mark stops the walk. */
  ghost function SkipFrom(v: Volume, d: seq<byte>, cluster: nat, n: nat): Option<nat>
    requires |d| == v.dev.disk.Length && SkipOnDisk(v, d, cluster, n)
    decreases n
  {
    if n == 0 then Some(cluster)
    else
      var e := EntryOn(d, SECTOR * v.reservedSectors, cluster);
      if e == END then None else SkipFrom(v, d, e, n - 1)
  }

  /** The walk of readFile to the cluster of the first byte. */
  method Skip(v: Volume, first: nat, n: nat) returns (ended: bool, cluster: nat)
    requires v.Valid() && SkipOnDisk(v, v.dev.disk[..], first, n)
    ensures SkipFrom(v, v.dev.disk[..], first, n) == if ended then None else Some(cluster)
  {
    hide EntryOn, Decode, Volume.HasEntry;
    ghost var d := v.dev.disk[..];
    cluster := first;
    for i := 0 to n
      invariant SkipOnDisk(v, d, cluster, n - i) && SkipFrom(v, d, cluster, n - i) == SkipFrom(v, d, first, n)
    {
      cluster := v.GetEntry(cluster);
      if cluster == END {
        return true, cluster;
      }
    }
    return false, cluster;
  }

  /** Along a chain the walk gives the n-th cluster. Past its end it fails when the end mark is 0x0FFFFFF8,
      a walk of as many steps as there are clusters only then; with any other mark it goes on from there as
      from one more cluster. */
  lemma {:induction false} SkipAlong(v: Volume, c: seq<nat>, i: nat, n: nat)
    requires v.Valid() && IsChain(v.Entries(), c) && i < |c|
    ensures c[|c| - 1] < v.sectorCount
    ensures n < |c| - i ==>
              SkipOnDisk(v, v.dev.disk[..], c[i], n) && SkipFrom(v, v.dev.disk[..], c[i], n) == Some(c[i + n])
    ensures n == |c| - i ==>
              && SkipOnDisk(v, v.dev.disk[..], c[i], n)
              && SkipFrom(v, v.dev.disk[..], c[i], n) ==
                 var mark := v.Entries()[c[|c| - 1]]; if mark == END then None else Some(mark)
    ensures var mark := v.Entries()[c[|c| - 1]];
            n >= |c| - i ==>
              if mark == END then SkipOnDisk(v, v.dev.disk[..], c[i], n) && SkipFrom(v, v.dev.disk[..], c[i], n) == None
              else SkipOnDisk(v, v.dev.disk[..], mark, n - (|c| - i)) ==>
                     && SkipOnDisk(v, v.dev.disk[..], c[i], n)
                     && SkipFrom(v, v.dev.disk[..], c[i], n) == SkipFrom(v, v.dev.disk[..], mark, n - (|c| - i))
    decreases n
  {
    hide EntryOn, Decode, Volume.HasEntry, Follows, Table;
    InTable(v.Entries(), c, |c| - 1);
    if n == 0 {
    } else {
      InTable(v.Entries(), c, i);
      v.HasTableEntry(c[i]);
      EntryInTable(v.dev.disk[..], SECTOR * v.reservedSectors, v.sectorCount, c[i]);
      if i < |c| - 1 {
        SkipAlong(v, c, i + 1, n - 1);
      }
    }
  }

  lemma ClustersStep<T>(d: seq<T>, ps: seq<nat>, k: nat, n: nat, j: nat)
    requires k > 0 && OnDisk(|d|, ps, SECTOR * k) && j < |ps| && n > 0
    ensures ps[j] + SECTOR * k <= |d| && OnDisk(|d|, ps[j..], SECTOR * k) && OnDisk(|d|, ps[j + 1..], SECTOR * k)
    ensures Clusters(d, ps[j..], k, n) == Sectors(d, ps[j], k, n) + Clusters(d, ps[j + 1..], k, n - Min(n, SECTOR * k))
  {
    assert ps[j..][1..] == ps[j + 1..] && ps[j..][0] == ps[j];
  }

  /** The loop over the remaining clusters, from the one called `cluster`. */
  method ReadClusters(v: Volume, ghost c: seq<nat>, cluster: nat, buff: array<byte>, from: nat, n: nat)
    requires v.Valid() && Stored(v, c) && buff != v.dev.disk && n <= buff.Length && n < TWO_32
    requires if c == [] then cluster >= END else IsChain(v.Entries(), c) && cluster == c[0] < END
    modifies buff
    ensures buff[..] ==
            Splice(old(buff[..]), Min(from, n),
                   Clusters(v.dev.disk[..], PlacesOf(v, c), v.sectorsPerCluster, n - Min(from, n)))
  {
    hide Splice, Clusters, Sectors, OnDisk, Stored, PlacesOf, IsChain, Place, Volume.HasEntry, EntryOn, Table,
      ClusterToSector;
    var entry: nat, offset: nat, k: nat := cluster, from, v.sectorsPerCluster;
    ghost var j, got, was, start := 0, [], buff[..], Min(from, n);
    ghost var d, ps := v.dev.disk[..], PlacesOf(v, c);
    SpliceNothing(was, start);
    assert ps[0..] == ps;
    while entry < END && offset < n
      invariant j <= |c| && (if j == |c| then entry >= END else entry == c[j] < END)
      invariant OnDisk(|d|, ps[j..], SECTOR * k)
      invariant |got| == Min(offset, n) - start
      invariant buff[..] == Splice(was, start, got)
      invariant got + Clusters(d, ps[j..], k, n - Min(offset, n)) == Clusters(d, ps, k, n - start)
      decreases |c| - j
    {
      PlaceOf(v, c, j);
      var sector := ClusterToSector(v.firstDataSector, k, entry);
      SectorIsPlace(v.firstDataSector, k, entry, v.dev.disk.Length);
      ClustersStep(d, ps, k, n - offset, j);
      ghost var piece := Sectors(d, ps[j], k, n - offset);
      SpliceAppend(was, start, got, piece);
      Appended(got, piece, Clusters(d, ps[j + 1..], k, n - offset - Min(n - offset, SECTOR * k)));
      offset := ReadCluster(v.dev, k, sector, buff, offset, n);
      got := got + piece;
      InTable(v.Entries(), c, j);
      v.HasTableEntry(entry);
      entry := v.GetEntry(entry);
      j := j + 1;
    }
    ClustersEnd(d, ps[j..], k, n - Min(offset, n));
    assert got + [] == got;
  }

  lemma ChainFrom(f: seq<nat>, c: seq<nat>, i: nat)
    requires IsChain(f, c) && i < |c|
    ensures IsChain(f, c[i..]) && c[i..][0] == c[i]
  {
    forall j | 0 <= j < |c| - i - 1 ensures Follows(f, c[i..], j) {
      assert Follows(f, c, i + j);
    }
  }

  /** The cluster of the file that holds byte `pos`, and where in it. */
  function SkipOf(v: Volume, pos: nat): nat
    requires v.sectorsPerCluster > 0
  {
    pos / (SECTOR * v.sectorsPerCluster)
  }

  function StartOf(v: Volume, pos: nat): (r: nat)
    requires v.sectorsPerCluster > 0
    ensures r < SECTOR * v.sectorsPerCluster
  {
    pos % (SECTOR * v.sectorsPerCluster)
  }

  lemma StoredFrom(v: Volume, c: seq<nat>, i: nat)
    requires Stored(v, c) && i <= |c|
    ensures Stored(v, c[i..]) && PlacesOf(v, c[i..]) == PlacesOf(v, c)[i..]
  {
  }

  /** A request that begins past the first sector of a cluster is one read, which must stay on the disk. */
  ghost predicate Reachable(v: Volume, c: seq<nat>, start: nat, n: nat)
    requires Stored(v, c) && c != []
  {
    start > SECTOR ==> PlacesOf(v, c)[0] + start + n <= v.dev.disk.Length
  }

  /** The bytes of these clusters on a disk `d` in the volume's place. */
  ghost function FileOn(v: Volume, d: seq<byte>, c: seq<nat>): seq<byte>
    requires Stored(v, c) && |d| == v.dev.disk.Length
  {
    FileBytes(d, PlacesOf(v, c), SECTOR * v.sectorsPerCluster)
  }

  ghost function FilledOn(v: Volume, d: seq<byte>, c: seq<nat>, start: nat, n: nat): (r: seq<byte>)
    requires c != [] && Stored(v, c) && start < SECTOR * v.sectorsPerCluster && Reachable(v, c, start, n)
    requires |d| == v.dev.disk.Length
    ensures |r| == n
  {
    Padded(Fetched(d, PlacesOf(v, c), v.sectorsPerCluster, start, n), n)
  }

  /** What readFile puts into the buffer for n bytes from `start` in the first of these clusters. */
  ghost function Filled(v: Volume, c: seq<nat>, start: nat, n: nat): (r: seq<byte>)
    requires c != [] && Stored(v, c) && start < SECTOR * v.sectorsPerCluster && Reachable(v, c, start, n)
    reads v.dev.disk
    ensures |r| == n
  {
    FilledOn(v, v.dev.disk[..], c, start, n)
  }

  /** Every cluster that readFile reads after its walk lies on the disk: `left` is the chain it reads, and it
      reads none when the walk has failed or stands on an end mark with no first read to do. */
  ghost predicate ReadsOnDisk(v: Volume, walk: Option<nat>, left: seq<nat>, start: nat, n: nat)
    requires v.Valid()
    reads v.dev.disk
  {
    match walk
    case None => left == []
    case Some(cluster) =>
      if cluster >= END && start == 0 then left == []
      else
        && IsChain(v.Entries(), left) && left[0] == cluster && left[|left| - 1] < v.sectorCount
        && Stored(v, left) && Reachable(v, left, start, n)
  }

  /** readFile for the file whose directory entry names the first cluster and the length. */
  method ReadFile(v: Volume, ghost left: seq<nat>, firstLow: nat, firstHigh: nat, fileSize: nat,
                  buff: array<byte>, pos: nat, size: nat) returns (r: nat)
    requires v.Valid() && v.sectorsPerCluster < 256 && firstLow < 0x1_0000 && firstHigh < 0x1_0000
    requires pos < TWO_32 && size < TWO_32 && buff != v.dev.disk && Min(size, fileSize) <= buff.Length
    requires SkipOnDisk(v, v.dev.disk[..], firstLow, SkipOf(v, pos))
    requires ReadsOnDisk(v, SkipFrom(v, v.dev.disk[..], firstLow, SkipOf(v, pos)), left, StartOf(v, pos),
                         Min(size, fileSize))
    modifies buff
    ensures r == if SkipFrom(v, v.dev.disk[..], firstLow, SkipOf(v, pos)).None? then 1 else 0
    ensures buff[..] == Splice(old(buff[..]), 0, if left == [] then Zeros(Min(size, fileSize))
                                                  else Filled(v, left, StartOf(v, pos), Min(size, fileSize)))
  {
    hide Splice, Stored, Places, PlacesOf, Fetched, SkipOf, StartOf, EntryOn, Table, Padded, Zeros, IsChain,
      SkipFrom, SkipOnDisk, Volume.Valid;
    var n := if size > fileSize then fileSize else size;
    Clear(buff, n);
    var firstClust, start := SkipOf(v, pos), StartOf(v, pos);
    // The shift moves every bit of the 16-bit high half out.
    var ended, cluster := Skip(v, firstLow + firstHigh / 0x1_0000, firstClust);
    if ended {
      return 1;
    }
    ReadFrom(v, left, cluster, buff, start, n);
    if left != [] {
      SpliceOverZeros(old(buff[..]), Fetched(v.dev.disk[..], PlacesOf(v, left), v.sectorsPerCluster, start, n), n);
    }
    return 0;
  }

  /** Which requests for a file these are: those that begin in one of its clusters, those past its end when
      the end mark is 0x0FFFFFF8, which fail, and with any other mark those right at its end. */
  lemma RequestsRead(v: Volume, c: seq<nat>, pos: nat, n: nat)
    requires v.Valid() && IsChain(v.Entries(), c) && Stored(v, c) && c[|c| - 1] < v.sectorCount
    requires SkipOf(v, pos) < |c| ==> Asks(v, c, pos, n)
    requires SkipOf(v, pos) >= |c| ==>
               v.Entries()[c[|c| - 1]] == END || (SkipOf(v, pos) == |c| && StartOf(v, pos) == 0)
    ensures SkipOnDisk(v, v.dev.disk[..], c[0], SkipOf(v, pos))
    ensures var walk := SkipFrom(v, v.dev.disk[..], c[0], SkipOf(v, pos));
            && (walk.None? <==> SkipOf(v, pos) >= |c| && v.Entries()[c[|c| - 1]] == END)
            && ReadsOnDisk(v, walk, if SkipOf(v, pos) < |c| then c[SkipOf(v, pos)..] else [], StartOf(v, pos), n)
  {
    hide EntryOn, Table, SkipFrom, SkipOnDisk, SkipOf, StartOf, Places, PlacesOf, Stored, Reachable;
    var skip := SkipOf(v, pos);
    SkipAlong(v, c, 0, skip);
    InTable(v.Entries(), c, |c| - 1);
    if skip < |c| {
      InTable(v.Entries(), c, skip);
      ChainFrom(v.Entries(), c, skip);
    }
  }

  method ReadFrom(v: Volume, ghost c: seq<nat>, first: nat, buff: array<byte>, start: nat, n: nat)
    requires v.Valid() && v.sectorsPerCluster < 256 && ReadsOnDisk(v, Some(first), c, start, n)
    requires start < SECTOR * v.sectorsPerCluster && n < TWO_32 && buff != v.dev.disk && n <= buff.Length
    modifies buff
    ensures buff[..] ==
            if c == [] then old(buff[..])
            else Splice(old(buff[..]), 0, Fetched(v.dev.disk[..], PlacesOf(v, c), v.sectorsPerCluster, start, n))
  {
    hide Splice, Clusters, Stored, PlacesOf, First, Fetched, OnDisk, IsChain, Place, Table, Volume.Valid, Reachable;
    ghost var d, was, left := v.dev.disk[..], buff[..], if start == 0 || c == [] then c else c[1..];
    var entry, offset := ReadStart(v, c, first, buff, start, n);
    ReadClusters(v, left, entry, buff, offset, n);
    if c == [] {
      ClustersEnd(d, PlacesOf(v, left), v.sectorsPerCluster, n - Min(offset, n));
      SpliceNothing(was, Min(offset, n));
    } else {
      StoredFrom(v, c, if start == 0 then 0 else 1);
      FetchedIs(d, PlacesOf(v, c), v.sectorsPerCluster, start, n);
      var got := First(d, PlacesOf(v, c)[0], start, n);
      SpliceAppend(was, 0, got, Clusters(d, PlacesOf(v, left), v.sectorsPerCluster, n - |got|));
    }
  }

  /** The rest of the first sector, when the request does not begin at a cluster's first byte. */
  method ReadStart(v: Volume, ghost c: seq<nat>, first: nat, buff: array<byte>, start: nat, n: nat)
    returns (entry: nat, offset: nat)
    requires v.Valid() && v.sectorsPerCluster < 256 && ReadsOnDisk(v, Some(first), c, start, n)
    requires start < SECTOR * v.sectorsPerCluster && n < TWO_32 && buff != v.dev.disk && n <= buff.Length
    modifies buff
    ensures c == [] ==> start == 0 && buff[..] == old(buff[..])
    ensures c != [] ==>
              && Stored(v, c) && PlacesOf(v, c)[0] + SECTOR <= v.dev.disk.Length
              && (start > SECTOR ==> PlacesOf(v, c)[0] + start + n <= v.dev.disk.Length)
              && var got := First(v.dev.disk[..], PlacesOf(v, c)[0], start, n);
                 buff[..] == Splice(old(buff[..]), 0, got) && Min(offset, n) == |got|
    ensures var left := if start == 0 || c == [] then c else c[1..];
            && Stored(v, left)
            && if left == [] then entry >= END else IsChain(v.Entries(), left) && entry == left[0] < END
  {
    hide Splice, PlacesOf, First, Follows, Place, Volume.HasEntry, EntryOn, Table, Volume.Clusters;
    entry, offset := first, 0;
    if c != [] {
      InTable(v.Entries(), c, 0);
      PlaceOf(v, c, 0);
      SpliceNothing(buff[..], 0);
      FirstIsNothing(v.dev.disk[..], PlacesOf(v, c)[0], n);
    }
    if start > 0 {
      offset := ReadFirst(v, entry, buff, start, n);
      v.HasTableEntry(entry);
      entry := v.GetEntry(entry);
      StoredFrom(v, c, 1);
      if |c| > 1 {
        ChainFrom(v.Entries(), c, 1);
      }
    }
  }

  lemma FirstIsNothing<T>(d: seq<T>, p: nat, n: nat)
    requires p + SECTOR <= |d|
    ensures First(d, p, 0, n) == []
  {
  }

  /** The first read of a request that does not begin at a cluster's first byte. */
  method ReadFirst(v: Volume, cluster: nat, buff: array<byte>, start: nat, n: nat) returns (offset: nat)
    requires v.Valid() && cluster >= 2 && v.sectorsPerCluster > 0 && 0 < start < SECTOR * v.sectorsPerCluster < TWO_32
    requires n < TWO_32 && buff != v.dev.disk && n <= buff.Length
    requires Place(v.firstDataSector, v.sectorsPerCluster, cluster) + SECTOR * v.sectorsPerCluster <= v.dev.disk.Length
    requires start > SECTOR ==> Place(v.firstDataSector, v.sectorsPerCluster, cluster) + start + n <= v.dev.disk.Length
    modifies buff
    ensures var got := First(v.dev.disk[..], Place(v.firstDataSector, v.sectorsPerCluster, cluster), start, n);
            buff[..] == Splice(old(buff[..]), 0, got) && Min(offset, n) == |got|
  {
    hide Splice, Place, ClusterToSector, Volume.Clusters;
    var sector := ClusterToSector(v.firstDataSector, v.sectorsPerCluster, cluster);
    SectorIsPlace(v.firstDataSector, v.sectorsPerCluster, cluster, v.dev.disk.Length);
    var rest := (SECTOR - start) % TWO_32;
    RestOfSector(start, rest);
    var sizeToRead := if rest > n then n else rest;
    var position := (sector * SECTOR + start) % TWO_32;
    assert position == Place(v.firstDataSector, v.sectorsPerCluster, cluster) + start;
    var _ := v.dev.ReadData(buff, 0, position, sizeToRead);
    offset := rest;
  }

  lemma RestOfSector(start: nat, rest: nat)
    requires 0 < start < TWO_32 && rest == (SECTOR - start) % TWO_32
    ensures rest == if start <= SECTOR then SECTOR - start else TWO_32 + SECTOR - start
  {
  }

  /* From the clusters to the file. */

  lemma {:induction false} TimesIsProduct(i: nat, size: nat)
    ensures Times(i, size) == i * size
  {
    if i == 0 {
    } else {
      TimesIsProduct(i - 1, size);
    }
  }

  lemma ByteOf(v: Volume, pos: nat)
    requires v.sectorsPerCluster > 0
    ensures pos == Times(SkipOf(v, pos), SECTOR * v.sectorsPerCluster) + StartOf(v, pos)
  {
    TimesIsProduct(SkipOf(v, pos), SECTOR * v.sectorsPerCluster);
  }

  /** Past i clusters the file goes on with the rest of them. */
  lemma {:induction false} FileFrom<T>(d: seq<T>, ps: seq<nat>, size: nat, i: nat)
    requires OnDisk(|d|, ps, size) && i <= |ps|
    ensures OnDisk(|d|, ps[i..], size) && Times(i, size) <= |FileBytes(d, ps, size)|
    ensures FileBytes(d, ps, size)[Times(i, size)..] == FileBytes(d, ps[i..], size)
  {
    if i == 0 {
      assert ps[0..] == ps;
    } else {
      Tail(|d|, ps, size);
      FileFrom(d, ps[1..], size, i - 1);
      var c, rest := d[ps[0]..ps[0] + size], FileBytes(d, ps[1..], size);
      assert ps[1..][i - 1..] == ps[i..];
      assert (c + rest)[size + Times(i - 1, size)..] == rest[Times(i - 1, size)..];
    }
  }

  lemma SliceOfFile<T>(d: seq<T>, ps: seq<nat>, size: nat, i: nat, start: nat, n: nat)
    requires OnDisk(|d|, ps, size) && i < |ps| && start < size && OnDisk(|d|, ps[i..], size)
    ensures Times(i, size) + start <= |FileBytes(d, ps, size)| && start <= |FileBytes(d, ps[i..], size)|
    ensures Slice(d, ps[i..], size, start, n) ==
            FileBytes(d, ps, size)[Times(i, size) + start..Min(Times(i, size) + start + n, |FileBytes(d, ps, size)|)]
  {
    hide FileBytes, Times;
    FileFrom(d, ps, size, i);
    var f, at := FileBytes(d, ps, size), Times(i, size);
    assert FileBytes(d, ps[i..], size) == f[at..at + (|f| - at)];
    SliceSlice(f, at, |f| - at, start, Min(start + n, |f| - at) - start);
  }

  /** The request asks for bytes pos..pos+n of the file from a cluster it has, within the disk's reach. */
  ghost predicate Asks(v: Volume, c: seq<nat>, pos: nat, n: nat) {
    && Stored(v, c) && SkipOf(v, pos) < |c| && Stored(v, c[SkipOf(v, pos)..])
    && Reachable(v, c[SkipOf(v, pos)..], StartOf(v, pos), n)
  }

  /** What the request leaves in the buffer on a disk `d`. */
  ghost function GetsOn(v: Volume, d: seq<byte>, c: seq<nat>, pos: nat, n: nat): seq<byte>
    requires Asks(v, c, pos, n) && |d| == v.dev.disk.Length
  {
    FilledOn(v, d, c[SkipOf(v, pos)..], StartOf(v, pos), n)
  }

  /** What it should: the bytes of a file of `length` bytes, and zeros past its end. */
  ghost function AskedOn(v: Volume, d: seq<byte>, c: seq<nat>, length: nat, pos: nat, n: nat): seq<byte>
    requires Stored(v, c) && |d| == v.dev.disk.Length && length <= Times(|c|, SECTOR * v.sectorsPerCluster)
  {
    Padded(FileOn(v, d, c)[Min(pos, length)..Min(pos + n, length)], n)
  }

  ghost predicate WholeRequest(v: Volume, c: seq<nat>, pos: nat, n: nat)
    requires Asks(v, c, pos, n)
  {
    Whole(PlacesOf(v, c[SkipOf(v, pos)..]), v.sectorsPerCluster, StartOf(v, pos), n)
  }

  /** How many of n bytes from `pos` on a file of `length` bytes has. */
  function OwnBytes(length: nat, pos: nat, n: nat): (m: nat)
    ensures m <= n
  {
    if length <= pos then 0 else Min(n, length - pos)
  }

  /** The request is fetched whole, and it ends within the file or the file fills its last cluster. Or the
      file ends with the first sector of its last cluster, and the request begins in that sector. */
  ghost predicate RightRequest(v: Volume, c: seq<nat>, length: nat, pos: nat, n: nat)
    requires Asks(v, c, pos, n)
  {
    || (&& WholeRequest(v, c, pos, n)
        && (n == 0 || pos + n <= length || length == Times(|c|, SECTOR * v.sectorsPerCluster)))
    || (&& v.sectorsPerCluster > 1 && 0 < StartOf(v, pos) <= SECTOR < StartOf(v, pos) + n
        && SkipOf(v, pos) == |c| - 1 && OwnBytes(length, pos, n) == SECTOR - StartOf(v, pos))
  }

  lemma {:induction false} TimesSum(i: nat, j: nat, size: nat)
    ensures Times(i + j, size) == Times(i, size) + Times(j, size)
  {
    if i == 0 {
    } else {
      TimesSum(i - 1, j, size);
    }
  }

  lemma RequestIsExact(v: Volume, c: seq<nat>, length: nat, pos: nat, n: nat)
    requires Asks(v, c, pos, n) && length <= Times(|c|, SECTOR * v.sectorsPerCluster)
    ensures StartOf(v, pos) + OwnBytes(length, pos, n) <= Times(|c| - SkipOf(v, pos), SECTOR * v.sectorsPerCluster)
    ensures RightRequest(v, c, length, pos, n) <==>
            Exact(PlacesOf(v, c[SkipOf(v, pos)..]), v.sectorsPerCluster, StartOf(v, pos), n, OwnBytes(length, pos, n))
  {
    hide Whole, SkipOf, StartOf, Times, PlacesOf, Stored, Reachable;
    ByteOf(v, pos);
    TimesSum(SkipOf(v, pos), |c| - SkipOf(v, pos), SECTOR * v.sectorsPerCluster);
    AtLeastOnce(|c| - SkipOf(v, pos), SECTOR * v.sectorsPerCluster);
  }

  lemma AtLeastOnce(i: nat, size: nat)
    requires i > 0
    ensures Times(i, size) >= size
  {
  }

  lemma AskedIsSlice(v: Volume, d: seq<byte>, c: seq<nat>, length: nat, pos: nat, n: nat)
    requires Asks(v, c, pos, n) && |d| == v.dev.disk.Length && length <= Times(|c|, SECTOR * v.sectorsPerCluster)
    ensures (GetsOn(v, d, c, pos, n) == AskedOn(v, d, c, length, pos, n)) ==
            RightOn(d, PlacesOf(v, c[SkipOf(v, pos)..]), v.sectorsPerCluster, StartOf(v, pos), n,
                OwnBytes(length, pos, n))
  {
    hide Fetched, FileBytes, PlacesOf, OnDisk, Times, SkipOf, StartOf, Padded, Slice, OwnBytes;
    OwnPart(v, d, c, length, pos, n);
    StoredFrom(v, c, SkipOf(v, pos));
  }

  /** The file's own bytes of a request lie in the clusters that the walk arrives at. */
  lemma OwnPart(v: Volume, d: seq<byte>, c: seq<nat>, length: nat, pos: nat, n: nat)
    requires Asks(v, c, pos, n) && |d| == v.dev.disk.Length && length <= Times(|c|, SECTOR * v.sectorsPerCluster)
    requires length <= |FileOn(v, d, c)|
    ensures OnDisk(|d|, PlacesOf(v, c[SkipOf(v, pos)..]), SECTOR * v.sectorsPerCluster)
    ensures FileOn(v, d, c)[Min(pos, length)..Min(pos + n, length)] ==
            Slice(d, PlacesOf(v, c[SkipOf(v, pos)..]), SECTOR * v.sectorsPerCluster, StartOf(v, pos),
                  OwnBytes(length, pos, n))
  {
    hide FileBytes, PlacesOf, Times, SkipOf, StartOf, Slice, OwnBytes;
    var skip, m, f := SkipOf(v, pos), OwnBytes(length, pos, n), FileOn(v, d, c);
    ByteOf(v, pos);
    StoredFrom(v, c, skip);
    SliceOfFile(d, PlacesOf(v, c), SECTOR * v.sectorsPerCluster, skip, StartOf(v, pos), m);
    OwnSlice(f, length, pos, n);
  }

  lemma OwnSlice<T>(f: seq<T>, length: nat, pos: nat, n: nat)
    requires length <= |f| && pos <= |f|
    ensures f[Min(pos, length)..Min(pos + n, length)] == f[pos..Min(pos + OwnBytes(length, pos, n), |f|)]
  {
  }

  /** A right request gets the file's own bytes, and zeros past its end. */
  lemma ReadsTheFile(v: Volume, c: seq<nat>, length: nat, pos: nat, n: nat)
    requires v.Valid() && Asks(v, c, pos, n) && length <= Times(|c|, SECTOR * v.sectorsPerCluster)
    requires RightRequest(v, c, length, pos, n)
    ensures Filled(v, c[SkipOf(v, pos)..], StartOf(v, pos), n) == AskedOn(v, v.dev.disk[..], c, length, pos, n)
  {
    hide GetsOn, AskedOn, RightOn, FileOn, Exact, RightRequest, SkipOf, StartOf, Places, Place, Volume.Valid;
    RightOnAll(v, c, length, pos, n);
    assert SameBelow(v.dev.disk[..], v.dev.disk[..], SECTOR * v.firstDataSector);
    FilledGets(v, c, pos, n);
  }

  lemma FilledGets(v: Volume, c: seq<nat>, pos: nat, n: nat)
    requires Asks(v, c, pos, n)
    ensures Filled(v, c[SkipOf(v, pos)..], StartOf(v, pos), n) == GetsOn(v, v.dev.disk[..], c, pos, n)
  {
  }

  /** Data cluster 2 begins at the first data sector, */
  lemma FirstCluster(firstData: nat, k: nat)
    ensures Place(firstData, k, 2) == 512 * firstData
  {
  }

  /** and every other one where the one before it ends. */
  lemma NextCluster(firstData: nat, k: nat, cluster: nat)
    requires cluster >= 2
    ensures Place(firstData, k, cluster + 1) == Place(firstData, k, cluster) + 512 * k
  {
    assert (cluster + 1 - 2) * k == (cluster - 2) * k + k;
  }

  /** So two of them share no byte. */
  lemma {:induction false} ClustersDisjoint(firstData: nat, k: nat, a: nat, b: nat)
    requires 2 <= a < b
    ensures Place(firstData, k, a) + 512 * k <= Place(firstData, k, b)
    decreases b
  {
    hide Place;
    NextCluster(firstData, k, b - 1);
    if a == b - 1 {
    } else {
      ClustersDisjoint(firstData, k, a, b - 1);
    }
  }

  /** The sector number that cluster_to_sector computes for a cluster on the disk is the cluster's first. */
  lemma SectorOfCluster(firstData: nat, k: nat, cluster: nat, length: nat)
    requires cluster >= 2 && 0 < k && Place(firstData, k, cluster) + SECTOR * k <= length <= TWO_32
    ensures ClusterToSector(firstData, k, 2) == firstData
    ensures ClusterToSector(firstData, k, cluster) * 512 == Place(firstData, k, cluster)
    ensures cluster > 2 ==> ClusterToSector(firstData, k, cluster) == ClusterToSector(firstData, k, cluster - 1) + k
  {
    SectorIsPlace(firstData, k, cluster, length);
    hide Place, ClusterToSector;
    FirstCluster(firstData, k);
    if cluster > 2 {
      ClustersDisjoint(firstData, k, 2, cluster);
      NextCluster(firstData, k, cluster - 1);
      SectorIsPlace(firstData, k, cluster - 1, length);
    }
    SectorIsPlace(firstData, k, 2, length);
  }

  /** Clusters of several sectors begin a whole number of clusters apart. */
  lemma ClustersApart(firstData: nat, k: nat, a: nat, b: nat)
    requires k > 1 && a >= 2 && b >= 2
    ensures Place(firstData, k, b) != Place(firstData, k, a) + SECTOR
  {
    var m := b - a;
    assert (b - 2) * k == (a - 2) * k + m * k;
    assert m <= 0 ==> m * k <= 0;
    assert m >= 1 ==> m * k >= k;
  }

  lemma PlaceAbove(firstData: nat, k: nat, cluster: nat)
    requires cluster >= 2
    ensures Place(firstData, k, cluster) >= SECTOR * firstData
  {
    assert (cluster - 2) * k >= 0;
  }

  lemma DataAbove(v: Volume, c: seq<nat>)
    requires Stored(v, c) && v.Valid()
    ensures Above(PlacesOf(v, c), SECTOR * v.firstDataSector)
    ensures v.sectorsPerCluster > 1 && |c| > 1 ==> PlacesOf(v, c)[1] != PlacesOf(v, c)[0] + SECTOR
    ensures c != [] ==> SECTOR * v.firstDataSector <= v.dev.disk.Length
  {
    hide Place;
    forall i | 0 <= i < |c| ensures PlacesOf(v, c)[i] >= SECTOR * v.firstDataSector {
      PlaceAbove(v.firstDataSector, v.sectorsPerCluster, c[i]);
    }
    if c != [] {
      assert PlacesOf(v, c)[0] + SECTOR * v.sectorsPerCluster <= v.dev.disk.Length;
    }
    if v.sectorsPerCluster > 1 && |c| > 1 {
      ClustersApart(v.firstDataSector, v.sectorsPerCluster, c[0], c[1]);
    }
  }

  lemma RightOnAll(v: Volume, c: seq<nat>, length: nat, pos: nat, n: nat)
    requires v.Valid() && Asks(v, c, pos, n) && length <= Times(|c|, SECTOR * v.sectorsPerCluster)
    ensures SECTOR * v.firstDataSector <= v.dev.disk.Length
    ensures (forall d: seq<byte> | SameBelow(d, v.dev.disk[..], SECTOR * v.firstDataSector) ::
               GetsOn(v, d, c, pos, n) == AskedOn(v, d, c, length, pos, n)) <==>
            RightRequest(v, c, length, pos, n)
  {
    hide GetsOn, AskedOn, RightOn, FileOn, Exact, RightRequest, SkipOf, StartOf, Places, Place, Volume.Clusters, Times;
    var disk, low, left := v.dev.disk[..], SECTOR * v.firstDataSector, c[SkipOf(v, pos)..];
    var ps, m := PlacesOf(v, left), OwnBytes(length, pos, n);
    DataAbove(v, left);
    RequestIsExact(v, c, length, pos, n);
    forall d: seq<byte> | SameBelow(d, disk, low)
      ensures (GetsOn(v, d, c, pos, n) == AskedOn(v, d, c, length, pos, n)) ==
              RightOn(d, ps, v.sectorsPerCluster, StartOf(v, pos), n, m)
    {
      AskedIsSlice(v, d, c, length, pos, n);
    }
    RightExactlyWhen(disk, low, ps, v.sectorsPerCluster, StartOf(v, pos), n, m);
  }

  /** Data clusters lie on the disk. */
  lemma DataStored(v: Volume, c: seq<nat>)
    requires v.Valid() && IsData(c, v.Clusters())
    ensures Stored(v, c)
  {
    hide Place;
    forall i | 0 <= i < |c|
      ensures Place(v.firstDataSector, v.sectorsPerCluster, c[i]) + SECTOR * v.sectorsPerCluster <= v.dev.disk.Length
    {
      DataPlace(v.firstDataSector, v.sectorsPerCluster, v.sectorCount, v.Clusters(), c[i]);
    }
  }

  lemma DataPlace(firstData: nat, k: nat, sectors: nat, clusters: nat, cluster: nat)
    requires k > 0 && firstData <= sectors && clusters == (sectors - firstData) / k && 2 <= cluster < clusters + 2
    ensures Place(firstData, k, cluster) + SECTOR * k <= SECTOR * sectors
  {
    WholeParts(sectors - firstData, k);
    InOrder(k, cluster - 1, clusters);
    assert (cluster - 2) * k + k == (cluster - 1) * k;
  }

  lemma WholeParts(x: nat, k: nat)
    requires k > 0
    ensures x / k * k <= x
  {
  }

  lemma InOrder(k: nat, a: nat, b: nat)
    requires a <= b
    ensures a * k <= b * k
  {
  }

  /** The table entries of data clusters stand before the data: a chain over them is one on every disk that
      differs in the data alone. */
  lemma ChainOnDisk(v: Volume, c: seq<nat>, d: seq<byte>)
    requires v.Valid() && IsChain(v.Entries(), c) && IsData(c, v.Clusters())
    requires SameBelow(d, v.dev.disk[..], SECTOR * v.firstDataSector)
    ensures IsChain(v.EntriesOn(d), c)
  {
    hide Decode, Volume.Clusters;
    var disk, low, fat := v.dev.disk[..], SECTOR * v.firstDataSector, SECTOR * v.reservedSectors;
    forall i | 0 <= i < |c| ensures v.EntriesOn(d)[c[i]] == v.Entries()[c[i]] {
      SameSlice(d, disk, low, fat + 4 * c[i], 4);
    }
    forall i | 0 <= i < |c| - 1 ensures Follows(v.EntriesOn(d), c, i) {
      assert Follows(v.Entries(), c, i);
    }
  }

  lemma SameSlice(d: seq<byte>, disk: seq<byte>, low: nat, at: nat, n: nat)
    requires SameBelow(d, disk, low) && at + n <= low
    ensures d[at..at + n] == disk[at..at + n]
  {
    assert d[at..at + n] == d[..low][at..at + n] && disk[at..at + n] == disk[..low][at..at + n];
  }

  /** For a file of a volume: whatever the data clusters hold, its chain stays the file's chain, and a request
      is answered with the file's own bytes and zeros past its end in every case exactly when it is right. */
  lemma FileReadsRight(v: Volume, c: seq<nat>, length: nat, pos: nat, n: nat)
    requires v.Valid() && IsChain(v.Entries(), c) && IsData(c, v.Clusters())
    requires length <= Times(|c|, SECTOR * v.sectorsPerCluster) && Asks(v, c, pos, n)
    ensures forall d: seq<byte> | SameBelow(d, v.dev.disk[..], SECTOR * v.firstDataSector) :: IsChain(v.EntriesOn(d), c)
    ensures (forall d: seq<byte> | SameBelow(d, v.dev.disk[..], SECTOR * v.firstDataSector) ::
               GetsOn(v, d, c, pos, n) == AskedOn(v, d, c, length, pos, n)) <==>
            RightRequest(v, c, length, pos, n)
  {
    hide IsChain, IsData, Volume.Valid, GetsOn, AskedOn, RightRequest, SkipOf;
    forall d: seq<byte> | SameBelow(d, v.dev.disk[..], SECTOR * v.firstDataSector) ensures IsChain(v.EntriesOn(d), c) {
      ChainOnDisk(v, c, d);
    }
    RightOnAll(v, c, length, pos, n);
  }

  /** A right request gets the file's bytes on any disk of this size in the volume's place. */
  lemma GetsTheFile(v: Volume, d: seq<byte>, c: seq<nat>, length: nat, pos: nat, n: nat)
    requires v.Valid() && Asks(v, c, pos, n) && length <= Times(|c|, SECTOR * v.sectorsPerCluster)
    requires RightRequest(v, c, length, pos, n) && |d| == v.dev.disk.Length
    ensures GetsOn(v, d, c, pos, n) == AskedOn(v, d, c, length, pos, n)
  {
    hide GetsOn, AskedOn, RightOn, FileOn, Exact, RightRequest, SkipOf, StartOf, Places, Place, Volume.Clusters, Times;
    var left := c[SkipOf(v, pos)..];
    var ps := PlacesOf(v, left);
    DataAbove(v, left);
    RequestIsExact(v, c, length, pos, n);
    AskedIsSlice(v, d, c, length, pos, n);
    RightExactlyWhen(d, 0, ps, v.sectorsPerCluster, StartOf(v, pos), n, OwnBytes(length, pos, n));
    assert SameBelow(d, d, 0);
  }

  /** Byte `i` of the disk belongs to a data cluster. */
  ghost predicate InCluster(v: Volume, cluster: nat, i: int) {
    && 2 <= cluster
    && Place(v.firstDataSector, v.sectorsPerCluster, cluster) <= i
         < Place(v.firstDataSector, v.sectorsPerCluster, cluster) + SECTOR * v.sectorsPerCluster
  }

  /** Two disks differ only inside data clusters outside the chain `c`. */
  ghost predicate DifferElsewhere(v: Volume, c: seq<nat>, d: seq<byte>, e: seq<byte>) {
    && |d| == |e|
    && forall i :: 0 <= i < |d| && d[i] != e[i] ==> exists cluster: nat :: cluster !in c && InCluster(v, cluster, i)
  }

  lemma ClusterSame(v: Volume, c: seq<nat>, d: seq<byte>, e: seq<byte>, j: nat)
    requires Stored(v, c) && |d| == v.dev.disk.Length && DifferElsewhere(v, c, d, e) && j < |c|
    ensures SameAt(d, e, PlacesOf(v, c)[j], SECTOR * v.sectorsPerCluster)
  {
    hide Place;
    var p, size := PlacesOf(v, c)[j], SECTOR * v.sectorsPerCluster;
    PlaceOf(v, c, j);
    forall i | p <= i < p + size ensures d[i] == e[i] {
      if d[i] != e[i] {
        var cluster: nat :| cluster !in c && InCluster(v, cluster, i);
        if cluster < c[j] {
          ClustersDisjoint(v.firstDataSector, v.sectorsPerCluster, cluster, c[j]);
        } else {
          ClustersDisjoint(v.firstDataSector, v.sectorsPerCluster, c[j], cluster);
        }
      }
    }
  }

  lemma {:induction false} FileSame(d: seq<byte>, e: seq<byte>, ps: seq<nat>, size: nat)
    requires |d| == |e| && OnDisk(|d|, ps, size)
    requires forall j :: 0 <= j < |ps| ==> SameAt(d, e, ps[j], size)
    ensures FileBytes(d, ps, size) == FileBytes(e, ps, size)
    decreases |ps|
  {
    hide Times;
    if ps == [] {
    } else {
      Tail(|d|, ps, size);
      assert SameAt(d, e, ps[0], size);
      assert forall j :: 0 <= j < |ps| - 1 ==> ps[1..][j] == ps[j + 1];
      FileSame(d, e, ps[1..], size);
    }
  }

  ghost predicate SameAt(d: seq<byte>, e: seq<byte>, p: nat, size: nat) {
    p + size <= |d| == |e| && d[p..p + size] == e[p..p + size]
  }

  /** What other files hold does not matter: disks that differ only inside clusters outside the file's chain
      give every request for the file that is fetched whole the same bytes. */
  lemma OthersDontMatter(v: Volume, c: seq<nat>, d: seq<byte>, e: seq<byte>, pos: nat, n: nat)
    requires v.Valid() && Asks(v, c, pos, n) && WholeRequest(v, c, pos, n)
    requires |d| == v.dev.disk.Length && DifferElsewhere(v, c, d, e)
    ensures GetsOn(v, d, c, pos, n) == GetsOn(v, e, c, pos, n)
  {
    hide GetsOn, WholeRequest, Place, Times, InCluster;
    var size := SECTOR * v.sectorsPerCluster;
    GetsTheFile(v, d, c, Times(|c|, size), pos, n);
    GetsTheFile(v, e, c, Times(|c|, size), pos, n);
    forall j | 0 <= j < |c| ensures SameAt(d, e, PlacesOf(v, c)[j], size) {
      ClusterSame(v, c, d, e, j);
    }
    FileSame(d, e, PlacesOf(v, c), size);
  }

  /** A request that runs past the end of the file: with one-sector clusters, 100 bytes from byte 50 of a
      file of 100 bytes end in byte 149 of its cluster, where a zero should be. */
  lemma SlackRead(v: Volume, c: seq<nat>, d: seq<byte>)
    requires v.sectorsPerCluster == 1 && Asks(v, c, 50, 100) && |d| == v.dev.disk.Length
    ensures |c| > 0 && PlacesOf(v, c)[0] + 149 < |d|
    ensures GetsOn(v, d, c, 50, 100)[99] == d[PlacesOf(v, c)[0] + 149]
    ensures 100 <= Times(|c|, SECTOR) && AskedOn(v, d, c, 100, 50, 100)[99] == 0
  {
    hide Places, Place, Fetched, FileBytes, Clusters;
    var ps := PlacesOf(v, c);
    assert SkipOf(v, 50) == 0 && StartOf(v, 50) == 50 && c[0..] == c;
    PlaceOf(v, c, 0);
    AtLeastOnce(|c|, SECTOR);
    FetchedCases(d, ps, 1, 50, 100);
    ClustersEnd(d, ps[1..], 1, 0);
  }
}
