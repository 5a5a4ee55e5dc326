/** The file allocation table as an array of links, and the cluster chains in it (src/fs/fat32.cpp). */
module FatChains {

  /** Entries from here on end a chain. */
  const END: nat := 0x0FFFFFF8

  ghost predicate Follows(f: seq<nat>, c: seq<nat>, i: nat)
    requires i + 1 < |c|
  {
    c[i] < |f| && f[c[i]] == c[i + 1] < END
  }

  /** The clusters visited from c[0] up to the end marker. */
  ghost predicate IsChain(f: seq<nat>, c: seq<nat>) {
    && |c| > 0
    && (forall i :: 0 <= i < |c| - 1 ==> Follows(f, c, i))
    && c[|c| - 1] < |f| && f[c[|c| - 1]] >= END
  }

  /** A file of one cluster: the end marks are 0x0ffffff8 and up. */
  lemma OneCluster(f: seq<nat>, cluster: nat)
    requires cluster < |f|
    ensures IsChain(f, [cluster]) <==> f[cluster] >= 0x0fff_fff8
  {
  }

  lemma InTable(f: seq<nat>, c: seq<nat>, i: nat)
    requires IsChain(f, c) && i < |c|
    ensures c[i] < |f| && (i < |c| - 1 ==> f[c[i]] == c[i + 1] < END) && (i == |c| - 1 ==> f[c[i]] >= END)
  {
    if i < |c| - 1 {
      assert Follows(f, c, i);
    }
  }

  /** Chains that meet go on together. */
  lemma {:induction false} ChainsMeet(f: seq<nat>, c: seq<nat>, d: seq<nat>, i: nat, j: nat)
    requires IsChain(f, c) && IsChain(f, d) && i < |c| && j < |d| && c[i] == d[j]
    ensures c[i..] == d[j..] && |c| - i == |d| - j
    decreases |c| - i
  {
    InTable(f, c, i);
    InTable(f, d, j);
    if i == |c| - 1 {
    } else {
      ChainsMeet(f, c, d, i + 1, j + 1);
      assert c[i..] == [c[i]] + c[i + 1..] && d[j..] == [d[j]] + d[j + 1..];
    }
  }

  /** A chain that ends visits no cluster twice. */
  lemma Acyclic(f: seq<nat>, c: seq<nat>, i: nat, j: nat)
    requires IsChain(f, c) && i < j < |c|
    ensures c[i] != c[j]
  {
    if c[i] == c[j] {
      ChainsMeet(f, c, c, i, j);
    }
  }

  ghost predicate Apart(c: seq<nat>, d: seq<nat>) {
    forall i, j :: 0 <= i < |c| && 0 <= j < |d| ==> c[i] != d[j]
  }

  /** The numbers of a volume's data clusters. */
  ghost predicate IsData(c: seq<nat>, clusters: nat) {
    forall i :: 0 <= i < |c| ==> 2 <= c[i] < clusters + 2
  }

  /** A table that holds these files: every one a chain over data clusters, no two sharing any. */
  ghost predicate WellFormed(f: seq<nat>, files: seq<seq<nat>>, clusters: nat) {
    && (forall k :: 0 <= k < |files| ==> IsChain(f, files[k]) && IsData(files[k], clusters))
    && forall k, l :: 0 <= k < l < |files| ==> Apart(files[k], files[l])
  }

  /** The search of allocate_cluster: the first free entry from `from`, or 0. */
  function FirstFree(f: seq<nat>, from: nat, n: nat): (r: nat)
    requires n <= |f|
    ensures r < n || r == 0
    decreases n - from
  {
    if from >= n then 0 else if f[from] == 0 then from else FirstFree(f, from + 1, n)
  }

  lemma {:induction false} FirstFreeIsFirst(f: seq<nat>, from: nat, n: nat)
    requires 0 < from && n <= |f|
    ensures var c := FirstFree(f, from, n);
            if c == 0 then forall i :: from <= i < n ==> f[i] != 0
            else from <= c < n && f[c] == 0 && forall i :: from <= i < c ==> f[i] != 0
    decreases n - from
  {
    if from >= n || f[from] == 0 {
    } else {
      FirstFreeIsFirst(f, from + 1, n);
    }
  }

  /** A data cluster that a file may take. */
  ghost predicate HasFree(f: seq<nat>, clusters: nat) {
    exists i :: 2 <= i < clusters + 2 && i < |f| && f[i] == 0
  }

  /** The search runs over as many entries as the disk has sectors. What it finds is one of the volume's
      data clusters exactly when one of those is free. */
  lemma FindsDataCluster(f: seq<nat>, clusters: nat)
    requires clusters + 2 <= |f|
    ensures 2 <= FirstFree(f, 2, |f|) < clusters + 2 <==> HasFree(f, clusters)
  {
    FirstFreeIsFirst(f, 2, |f|);
  }

  /** The table once `last` is linked to a newly allocated cluster. */
  function Linked(f: seq<nat>, last: nat, cluster: nat): seq<nat>
    requires last < |f| && cluster < |f|
  {
    f[cluster := END][last := cluster]
  }

  lemma NotFree(f: seq<nat>, c: seq<nat>, i: nat)
    requires IsChain(f, c) && i < |c| && forall j :: 0 <= j < |c| ==> c[j] != 0
    ensures c[i] < |f| && f[c[i]] != 0
  {
    InTable(f, c, i);
  }

  lemma FreeIsUnused(f: seq<nat>, c: seq<nat>, clusters: nat, cluster: nat)
    requires IsChain(f, c) && IsData(c, clusters) && cluster < |f| && f[cluster] == 0
    ensures cluster !in c
  {
    forall i | 0 <= i < |c| ensures c[i] != cluster {
      NotFree(f, c, i);
    }
  }

  /** A chain away from both entries written stays. */
  lemma OthersStay(f: seq<nat>, d: seq<nat>, last: nat, cluster: nat)
    requires IsChain(f, d) && last < |f| && cluster < |f| && last !in d && cluster !in d
    ensures IsChain(Linked(f, last, cluster), d)
  {
    var f' := Linked(f, last, cluster);
    forall i | 0 <= i < |d| - 1 ensures Follows(f', d, i) {
      assert Follows(f, d, i);
    }
  }

  lemma ChainGrows(f: seq<nat>, c: seq<nat>, cluster: nat)
    requires IsChain(f, c) && cluster < |f| && cluster < END && cluster !in c
    ensures IsChain(Linked(f, c[|c| - 1], cluster), c + [cluster])
  {
    var f', d := Linked(f, c[|c| - 1], cluster), c + [cluster];
    forall i | 0 <= i < |d| - 1 ensures Follows(f', d, i) {
      if i < |c| - 1 {
        assert Follows(f, c, i);
        Acyclic(f, c, i, |c| - 1);
      }
    }
  }

  /** The files once file k has grown by a cluster. */
  function Grown(files: seq<seq<nat>>, k: nat, cluster: nat): seq<seq<nat>>
    requires k < |files|
  {
    files[k := files[k] + [cluster]]
  }

  lemma FileStays(f: seq<nat>, files: seq<seq<nat>>, clusters: nat, k: nat, l: nat, last: nat, cluster: nat)
    requires WellFormed(f, files, clusters) && k < |files| && l < |files| && l != k && last in files[k]
    requires last < |f| && cluster < |f| && f[cluster] == 0
    ensures IsChain(Linked(f, last, cluster), files[l])
  {
    assert Apart(files[if l < k then l else k], files[if l < k then k else l]);
    FreeIsUnused(f, files[l], clusters, cluster);
    OthersStay(f, files[l], last, cluster);
  }

  lemma StillApart(f: seq<nat>, files: seq<seq<nat>>, clusters: nat, k: nat, l: nat, h: nat, cluster: nat)
    requires WellFormed(f, files, clusters) && k < |files| && l < h < |files| && cluster < |f| && f[cluster] == 0
    ensures Apart(Grown(files, k, cluster)[l], Grown(files, k, cluster)[h])
  {
    assert Apart(files[l], files[h]);
    FreeIsUnused(f, files[l], clusters, cluster);
    FreeIsUnused(f, files[h], clusters, cluster);
  }

  lemma LastEntry(f: seq<nat>, files: seq<seq<nat>>, clusters: nat, k: nat)
    requires WellFormed(f, files, clusters) && k < |files|
    ensures |files[k]| > 0 && files[k][|files[k]| - 1] < |f| && IsChain(f, files[k]) && IsData(files[k], clusters)
  {
  }

  /** Linking a free data cluster to the end of one file lengthens that file by it, leaves every other
      file as it was, and keeps the table well formed. */
  lemma AppendKeeps(f: seq<nat>, files: seq<seq<nat>>, clusters: nat, k: nat, cluster: nat)
    requires WellFormed(f, files, clusters) && k < |files| && 2 <= cluster < clusters + 2 && cluster < |f|
    requires cluster < END && f[cluster] == 0
    ensures |files[k]| > 0 && files[k][|files[k]| - 1] < |f|
    ensures WellFormed(Linked(f, files[k][|files[k]| - 1], cluster), Grown(files, k, cluster), clusters)
  {
    hide Linked, IsChain, Apart;
    LastEntry(f, files, clusters, k);
    var c := files[k];
    var last := c[|c| - 1];
    FreeIsUnused(f, c, clusters, cluster);
    ChainGrows(f, c, cluster);
    forall l | 0 <= l < |files| && l != k ensures IsChain(Linked(f, last, cluster), files[l]) {
      FileStays(f, files, clusters, k, l, last, cluster);
    }
    forall l, h | 0 <= l < h < |files| ensures Apart(Grown(files, k, cluster)[l], Grown(files, k, cluster)[h]) {
      StillApart(f, files, clusters, k, l, h, cluster);
    }
  }

  /** What the three calls of an append make of the table: the file's chain always grows by the entry
      that the search finds, but the table stays well formed exactly when a data cluster was free. On a
      full volume the entry is 0 or lies past the last data cluster. */
  lemma AppendOutcome(f: seq<nat>, files: seq<seq<nat>>, clusters: nat, k: nat)
    requires WellFormed(f, files, clusters) && k < |files| && clusters + 2 <= |f| <= END
    ensures |files[k]| > 0 && files[k][|files[k]| - 1] < |f|
    ensures var cluster := FirstFree(f, 2, |f|);
            var f' := Linked(f, files[k][|files[k]| - 1], cluster);
            && IsChain(f', files[k] + [cluster])
            && (WellFormed(f', Grown(files, k, cluster), clusters) <==> HasFree(f, clusters))
  {
    hide Linked, IsChain;
    LastEntry(f, files, clusters, k);
    var c, cluster := files[k], FirstFree(f, 2, |f|);
    FirstFreeIsFirst(f, 2, |f|);
    FindsDataCluster(f, clusters);
    if cluster == 0 {
      assert cluster !in c;
    } else {
      FreeIsUnused(f, c, clusters, cluster);
    }
    ChainGrows(f, c, cluster);
    if HasFree(f, clusters) {
      AppendKeeps(f, files, clusters, k, cluster);
    } else {
      assert !IsData(c + [cluster], clusters) by {
        assert (c + [cluster])[|c|] == cluster;
      }
      assert Grown(files, k, cluster)[k] == c + [cluster];
    }
  }

  /* Runs of appends. */

  datatype State = State(table: seq<nat>, files: seq<seq<nat>>) {
    ghost predicate Ok(clusters: nat) { WellFormed(table, files, clusters) }
  }

  /** An append to file k, whether or not a data cluster is free. */
  ghost predicate Step(s: State, s': State, k: nat) {
    && k < |s.files| && |s.files[k]| > 0 && s.files[k][|s.files[k]| - 1] < |s.table|
    && var cluster := FirstFree(s.table, 2, |s.table|);
       && cluster < |s.table|
       && s' == State(Linked(s.table, s.files[k][|s.files[k]| - 1], cluster), Grown(s.files, k, cluster))
  }

  /** Free entries from..end-1. */
  function FreeCount(f: seq<nat>, from: nat, end: nat): nat
    requires from <= end <= |f|
    decreases end - from
  {
    if from == end then 0 else (if f[from] == 0 then 1 else 0) + FreeCount(f, from + 1, end)
  }

  function FreeClusters(f: seq<nat>, clusters: nat): nat
    requires clusters + 2 <= |f|
  {
    FreeCount(f, 2, clusters + 2)
  }

  function Total(files: seq<seq<nat>>): nat {
    if files == [] then 0 else |files[0]| + Total(files[1..])
  }

  lemma {:induction false} FreeCountUpdate(f: seq<nat>, at: nat, v: nat, from: nat, end: nat)
    requires from <= end <= |f| && at < end && v != 0
    ensures FreeCount(f[at := v], from, end) + (if from <= at && f[at] == 0 then 1 else 0) == FreeCount(f, from, end)
    decreases end - from
  {
    if from == end {
    } else {
      FreeCountUpdate(f, at, v, from + 1, end);
    }
  }

  lemma {:induction false} CountsFree(f: seq<nat>, from: nat, end: nat)
    requires from <= end <= |f|
    ensures FreeCount(f, from, end) > 0 <==> (exists i :: from <= i < end && f[i] == 0)
    decreases end - from
  {
    if from == end {
    } else {
      CountsFree(f, from + 1, end);
    }
  }

  lemma {:induction false} TotalUpdate(files: seq<seq<nat>>, k: nat, c: seq<nat>)
    requires k < |files|
    ensures Total(files[k := c]) + |files[k]| == Total(files) + |c|
  {
    if k == 0 {
      assert files[k := c][1..] == files[1..];
    } else {
      assert files[k := c][1..] == files[1..][k - 1 := c];
      TotalUpdate(files[1..], k - 1, c);
    }
  }

  /** One append: well formed again exactly when a data cluster was free, which then belongs to the file. */
  lemma StepOutcome(s: State, s': State, k: nat, clusters: nat)
    requires s.Ok(clusters) && clusters + 2 <= |s.table| <= END && Step(s, s', k)
    ensures |s'.table| == |s.table| && Total(s'.files) == Total(s.files) + 1
    ensures s'.Ok(clusters) <==> FreeClusters(s.table, clusters) > 0
    ensures s'.Ok(clusters) ==> FreeClusters(s'.table, clusters) + 1 == FreeClusters(s.table, clusters)
  {
    var c, cluster := s.files[k], FirstFree(s.table, 2, |s.table|);
    AppendOutcome(s.table, s.files, clusters, k);
    CountsFree(s.table, 2, clusters + 2);
    TotalUpdate(s.files, k, c + [cluster]);
    if HasFree(s.table, clusters) {
      FindsDataCluster(s.table, clusters);
      FirstFreeIsFirst(s.table, 2, |s.table|);
      TakesOne(s.table, s.files, clusters, k, cluster);
    }
  }

  lemma TakesOne(f: seq<nat>, files: seq<seq<nat>>, clusters: nat, k: nat, cluster: nat)
    requires WellFormed(f, files, clusters) && k < |files| && clusters + 2 <= |f| <= END
    requires 2 <= cluster < clusters + 2 && f[cluster] == 0
    ensures |files[k]| > 0 && files[k][|files[k]| - 1] < |f|
    ensures FreeClusters(Linked(f, files[k][|files[k]| - 1], cluster), clusters) + 1 == FreeClusters(f, clusters)
  {
    LastEntry(f, files, clusters, k);
    var last := files[k][|files[k]| - 1];
    FreeCountUpdate(f, cluster, END, 2, clusters + 2);
    NotFree(f, files[k], |files[k]| - 1);
    FreeCountUpdate(f[cluster := END], last, cluster, 2, clusters + 2);
  }

  ghost predicate IsRun(run: seq<State>, ks: seq<nat>) {
    |run| == |ks| + 1 && forall i :: 0 <= i < |ks| ==> Step(run[i], run[i + 1], ks[i])
  }

  /** Over a run of appends to any files the table stays well formed as long as there are data clusters
      left, and every cluster gained by a file was lost from the free ones. */
  lemma {:induction false} RunKeeps(run: seq<State>, ks: seq<nat>, clusters: nat, i: nat)
    requires IsRun(run, ks) && run[0].Ok(clusters) && clusters + 2 <= |run[0].table| <= END
    requires i < |run| && i <= FreeClusters(run[0].table, clusters)
    ensures run[i].Ok(clusters) && |run[i].table| == |run[0].table|
    ensures FreeClusters(run[i].table, clusters) + i == FreeClusters(run[0].table, clusters)
    ensures Total(run[i].files) == Total(run[0].files) + i
  {
    if i == 0 {
    } else {
      RunKeeps(run, ks, clusters, i - 1);
      StepOutcome(run[i - 1], run[i - 1 + 1], ks[i - 1], clusters);
    }
  }

  /** A whole run stays well formed exactly when it makes no more appends than there are free clusters. */
  lemma RunStaysWellFormed(run: seq<State>, ks: seq<nat>, clusters: nat)
    requires IsRun(run, ks) && run[0].Ok(clusters) && clusters + 2 <= |run[0].table| <= END
    ensures (forall i :: 0 <= i < |run| ==> run[i].Ok(clusters)) <==> |ks| <= FreeClusters(run[0].table, clusters)
  {
    var n := FreeClusters(run[0].table, clusters);
    if |ks| <= n {
      forall i | 0 <= i < |run| ensures run[i].Ok(clusters) {
        RunKeeps(run, ks, clusters, i);
      }
    } else {
      RunKeeps(run, ks, clusters, n);
      StepOutcome(run[n], run[n + 1], ks[n], clusters);
    }
  }
}
