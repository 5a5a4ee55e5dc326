/** The kernel heap (src/kheap.cpp): a list of chunk headers that tiles an arena of four pages, with all
    allocation at its free tail. Memory is seen as the headers that stand intact in it. */
module Heap {
  import opened Common

  const HEADER: nat := 16
  const FIELDS: nat := 12
  const ARENA: nat := 0x4000

  datatype ChunkState = FREE | OCCUPIED

  datatype Header = Header(next: nat, state: ChunkState)

  type Memory = map<nat, Header>

  /** Writing the twelve bytes of a header's two fields destroys every header whose fields they overlap. */
  function Put(m: Memory, a: nat, h: Header): (r: Memory)
    ensures a in r && r[a] == h
    ensures forall k :: k in m && (k + FIELDS <= a || a + FIELDS <= k) ==> k in r && r[k] == m[k]
  {
    (map k | k in m && !(k < a + FIELDS && a < k + FIELDS) :: m[k])[a := h]
  }

  /* The list of chunks. */

  ghost predicate Links(m: Memory, c: seq<nat>, i: nat)
    requires i + 1 < |c|
  {
    c[i] in m && m[c[i]].next == c[i + 1] > 0
  }

  /** The chunks from the first to the sentinel: linked, in ascending order without overlap. */
  ghost predicate IsChain(m: Memory, first: nat, c: seq<nat>) {
    && |c| >= 2 && c[0] == first > 0
    && (forall i :: 0 <= i < |c| - 1 ==> Links(m, c, i) && c[i] + HEADER <= c[i + 1])
    && c[|c| - 1] == first + ARENA - HEADER && c[|c| - 1] in m && m[c[|c| - 1]].next == 0
  }

  ghost predicate NotBothFree(m: Memory, c: seq<nat>, i: nat)
    requires i + 1 < |c| && c[i] in m && c[i + 1] in m
  {
    m[c[i]].state == OCCUPIED || m[c[i + 1]].state == OCCUPIED
  }

  lemma InMemory(m: Memory, first: nat, c: seq<nat>, i: nat)
    requires IsChain(m, first, c) && i < |c|
    ensures c[i] in m
  {
    if i < |c| - 1 {
      assert Links(m, c, i);
    }
  }

  /** No two neighbouring chunks are both free, pairs lo..hi perhaps excepted. */
  ghost predicate Separated(m: Memory, c: seq<nat>, lo: int, hi: int) {
    && (forall i :: 0 <= i < |c| ==> c[i] in m)
    && forall i :: 0 <= i < |c| - 2 && !(lo <= i < hi) ==> NotBothFree(m, c, i)
  }

  /** A well-formed heap: a chain that ends in a free chunk and the sentinel, no two neighbours free. */
  ghost predicate IsList(m: Memory, first: nat, lastFree: nat, c: seq<nat>) {
    && IsChain(m, first, c) && Separated(m, c, 0, 0)
    && lastFree == c[|c| - 2] && m[lastFree].state == FREE
  }

  lemma {:induction false} Ascending(m: Memory, first: nat, c: seq<nat>, i: nat, j: nat)
    requires IsChain(m, first, c) && i <= j < |c|
    ensures c[i] <= c[j] && (i < j ==> c[i] + HEADER <= c[j])
    decreases j
  {
    if i == j {
    } else {
      Ascending(m, first, c, i, j - 1);
      assert Links(m, c, j - 1);
    }
  }

  /** The chunks are determined by memory: a chain and any linked path agree as far as the path goes. */
  lemma {:induction false} SamePrefix(m: Memory, first: nat, c: seq<nat>, d: seq<nat>, i: nat)
    requires IsChain(m, first, c) && |d| > 0 && d[0] == first && i < |d|
    requires forall j :: 0 <= j < |d| - 1 ==> Links(m, d, j)
    ensures i < |c| && c[i] == d[i]
    decreases i
  {
    if i == 0 {
    } else {
      SamePrefix(m, first, c, d, i - 1);
      assert Links(m, d, i - 1);
      assert i - 1 < |c| - 1 ==> Links(m, c, i - 1);
    }
  }

  /** A live block: the bytes between an occupied header and the next one. */
  ghost predicate BlockAt(m: Memory, c: seq<nat>, addr: nat, size: nat, k: nat) {
    k + 1 < |c| && c[k] + HEADER == addr && c[k] in m && m[c[k]].state == OCCUPIED && addr + size == c[k + 1]
  }

  ghost predicate Holds(m: Memory, c: seq<nat>, live: map<nat, nat>) {
    forall a :: a in live ==> exists k: nat :: BlockAt(m, c, a, live[a], k)
  }

  lemma BlockInside(m: Memory, first: nat, c: seq<nat>, a: nat, s: nat, i: nat)
    requires IsChain(m, first, c) && BlockAt(m, c, a, s, i)
    ensures first + HEADER <= a && a + s <= first + ARENA - HEADER
  {
    Ascending(m, first, c, 0, i);
    Ascending(m, first, c, i + 1, |c| - 1);
  }

  /** Live blocks do not overlap each other or any header, and lie inside the arena. */
  lemma BlocksDisjoint(m: Memory, first: nat, c: seq<nat>, live: map<nat, nat>, a: nat, b: nat)
    requires IsChain(m, first, c) && Holds(m, c, live) && a in live && b in live && a != b
    ensures a + live[a] + HEADER <= b || b + live[b] + HEADER <= a
    ensures first + HEADER <= a && a + live[a] <= first + ARENA - HEADER
  {
    hide IsChain, Links;
    var i: nat :| BlockAt(m, c, a, live[a], i);
    var j: nat :| BlockAt(m, c, b, live[b], j);
    BlockInside(m, first, c, a, live[a], i);
    if i < j {
      Ascending(m, first, c, i + 1, j);
    } else {
      Ascending(m, first, c, j + 1, i);
    }
  }

  /* Allocation. */

  /** Memory after kmalloc has cut a chunk at `cut` off the free tail `last`. */
  function Cut(m: Memory, last: nat, cut: nat): Memory
    requires last in m
  {
    Put(Put(m, cut, Header(m[last].next, FREE)), last, Header(cut, OCCUPIED))
  }

  /** The bytes from the free tail at `last` to the sentinel. */
  function Remaining(first: nat, last: nat): int {
    first + ARENA - HEADER - last
  }

  /** kmalloc accepts a request when one header fits beside it, in 64-bit arithmetic. */
  predicate Accepts(first: nat, last: nat, size: nat) {
    (size + HEADER) % TWO_64 <= Remaining(first, last)
  }

  /** Room for the block and two headers: its own and that of the new free tail. */
  predicate Fits(first: nat, last: nat, size: nat) {
    size + 2 * HEADER <= Remaining(first, last)
  }

  /** What a new heap gives: the first request succeeds up to 16336 bytes. It is accepted up to 16352, and again
      when 16 more bytes wrap around to less than that. */
  lemma FirstRequest(base: nat, size: nat)
    requires size < TWO_64
    ensures Fits(base, base, size) <==> size <= 16336
    ensures Accepts(base, base, size) <==> size <= 16352 || size >= 0xffff_ffff_ffff_fff0
  {
  }

  ghost predicate NoList(m: Memory, first: nat) {
    forall l, c :: !IsList(m, first, l, c)
  }

  function Extended(c: seq<nat>, cut: nat): seq<nat>
    requires |c| > 0
  {
    c[..|c| - 1] + [cut, c[|c| - 1]]
  }

  lemma FreeTail(m: Memory, first: nat, last: nat, c: seq<nat>)
    requires IsList(m, first, last, c)
    ensures last in m && m[last].next == c[|c| - 1] >= last + HEADER && last >= first
    ensures m[last].next == first + ARENA - HEADER
  {
    assert Links(m, c, |c| - 2);
    Ascending(m, first, c, 0, |c| - 2);
  }

  /** A cut spares every earlier chunk and, where two headers fit, the sentinel. */
  lemma CutSpares(m: Memory, first: nat, last: nat, c: seq<nat>, cut: nat, i: nat)
    requires IsList(m, first, last, c) && last <= cut && i < |c| && i != |c| - 2
    requires i == |c| - 1 ==> cut + HEADER <= c[i]
    ensures last in m && c[i] in m && c[i] in Cut(m, last, cut) && Cut(m, last, cut)[c[i]] == m[c[i]]
  {
    InMemory(m, first, c, i);
    InMemory(m, first, c, |c| - 2);
    if i < |c| - 2 {
      Ascending(m, first, c, i, |c| - 2);
    } else {
      Ascending(m, first, c, |c| - 2, i);
    }
  }

  lemma CutLinks(m: Memory, first: nat, last: nat, c: seq<nat>, cut: nat, i: nat)
    requires IsList(m, first, last, c) && last in m && last + HEADER <= cut && cut + HEADER <= c[|c| - 1] && i < |c|
    ensures Links(Cut(m, last, cut), Extended(c, cut), i)
    ensures Extended(c, cut)[i] + HEADER <= Extended(c, cut)[i + 1]
  {
    if i < |c| - 2 {
      CutSpares(m, first, last, c, cut, i);
      assert Links(m, c, i);
    } else {
      FreeTail(m, first, last, c);
    }
  }

  lemma CutKeepsChain(m: Memory, first: nat, last: nat, c: seq<nat>, cut: nat)
    requires IsList(m, first, last, c) && last in m && last + HEADER <= cut && cut + HEADER <= c[|c| - 1]
    ensures IsChain(Cut(m, last, cut), first, Extended(c, cut))
  {
    forall i | 0 <= i < |c|
      ensures Links(Cut(m, last, cut), Extended(c, cut), i) && Extended(c, cut)[i] + HEADER <= Extended(c, cut)[i + 1]
    {
      CutLinks(m, first, last, c, cut, i);
    }
    CutSpares(m, first, last, c, cut, |c| - 1);
  }

  lemma CutSeparates(m: Memory, first: nat, last: nat, c: seq<nat>, cut: nat, m': Memory, c': seq<nat>)
    requires IsList(m, first, last, c) && last in m && last + HEADER <= cut && cut + HEADER <= c[|c| - 1]
    requires m' == Cut(m, last, cut) && c' == Extended(c, cut) && forall i :: 0 <= i < |c'| ==> c'[i] in m'
    ensures Separated(m', c', 0, 0)
  {
    forall i | 0 <= i < |c'| - 2 ensures NotBothFree(m', c', i) {
      if i < |c| - 2 {
        CutSpares(m, first, last, c, cut, i);
        assert NotBothFree(m, c, i);
        if i + 1 < |c| - 2 {
          CutSpares(m, first, last, c, cut, i + 1);
        }
      }
    }
  }

  lemma CutKeepsBlock(m: Memory, first: nat, last: nat, c: seq<nat>, cut: nat, a: nat, s: nat, k: nat)
    requires IsList(m, first, last, c) && last in m && last + HEADER <= cut && cut + HEADER <= c[|c| - 1]
    requires BlockAt(m, c, a, s, k)
    ensures BlockAt(Cut(m, last, cut), Extended(c, cut), a, s, k) && a != last + HEADER
  {
    CutSpares(m, first, last, c, cut, k);
    Ascending(m, first, c, k, |c| - 2);
  }

  /** A request with room for two headers leaves a well-formed list, every live block where it was, and
      the new block live beside them. */
  lemma KmallocKeeps(m: Memory, first: nat, last: nat, c: seq<nat>, live: map<nat, nat>, size: nat, cut: nat)
    requires IsList(m, first, last, c) && Holds(m, c, live)
    requires last in m && cut == last + HEADER + size && cut + HEADER <= c[|c| - 1]
    ensures IsList(Cut(m, last, cut), first, cut, Extended(c, cut))
    ensures last + HEADER !in live && Holds(Cut(m, last, cut), Extended(c, cut), live[last + HEADER := size])
  {
    CutKeepsList(m, first, last, c, cut);
    CutHolds(m, first, last, c, live, size, cut);
  }

  lemma CutKeepsList(m: Memory, first: nat, last: nat, c: seq<nat>, cut: nat)
    requires IsList(m, first, last, c) && last in m && last + HEADER <= cut && cut + HEADER <= c[|c| - 1]
    ensures IsList(Cut(m, last, cut), first, cut, Extended(c, cut))
  {
    var m', c' := Cut(m, last, cut), Extended(c, cut);
    CutKeepsChain(m, first, last, c, cut);
    forall i | 0 <= i < |c'| ensures c'[i] in m' {
      InMemory(m', first, c', i);
    }
    CutSeparates(m, first, last, c, cut, m', c');
  }

  lemma CutHolds(m: Memory, first: nat, last: nat, c: seq<nat>, live: map<nat, nat>, size: nat, cut: nat)
    requires IsList(m, first, last, c) && Holds(m, c, live)
    requires last in m && cut == last + HEADER + size && cut + HEADER <= c[|c| - 1]
    ensures last + HEADER !in live && Holds(Cut(m, last, cut), Extended(c, cut), live[last + HEADER := size])
  {
    hide Separated;
    var m', c', addr := Cut(m, last, cut), Extended(c, cut), last + HEADER;
    forall a | a in live ensures a != addr && exists k: nat :: BlockAt(m', c', a, live[a], k) {
      var k: nat :| BlockAt(m, c, a, live[a], k);
      CutKeepsBlock(m, first, last, c, cut, a, live[a], k);
    }
    NewBlock(m, first, last, c, size, cut);
  }

  lemma NewBlock(m: Memory, first: nat, last: nat, c: seq<nat>, size: nat, cut: nat)
    requires IsList(m, first, last, c)
    requires last in m && cut == last + HEADER + size && cut + HEADER <= c[|c| - 1]
    ensures BlockAt(Cut(m, last, cut), Extended(c, cut), last + HEADER, size, |c| - 2)
  {
  }

  /** An accepted request without that room leaves no well-formed list at all. */
  lemma CutBreaksList(m: Memory, first: nat, last: nat, c: seq<nat>, cut: nat)
    requires IsList(m, first, last, c) && last in m && last <= cut
    requires !(last + HEADER <= cut && cut + HEADER <= c[|c| - 1])
    ensures NoList(Cut(m, last, cut), first)
  {
    hide Separated, Links, Cut;
    forall l, d ensures !IsList(Cut(m, last, cut), first, l, d) {
      if IsChain(Cut(m, last, cut), first, d) {
        CutPath(m, first, last, c, cut);
        NoChainThrough(Cut(m, last, cut), first, c[..|c| - 1] + [cut], d);
      }
    }
  }

  /** A chunk too close to the one that links to it, or to the end of the arena without being the sentinel. */
  predicate Misplaced(m: Memory, first: nat, source: nat, a: nat) {
    a < source + HEADER || (a > first + ARENA - 2 * HEADER && a in m && m[a].next > 0)
  }

  /** After the cut the links still lead along the chain to the old tail and on to the cut. */
  lemma CutPath(m: Memory, first: nat, last: nat, c: seq<nat>, cut: nat)
    requires IsList(m, first, last, c) && last in m && last <= cut
    requires !(last + HEADER <= cut && cut + HEADER <= c[|c| - 1])
    ensures var path := c[..|c| - 1] + [cut];
            && path[0] == first && |path| >= 2 && Misplaced(Cut(m, last, cut), first, last, cut)
            && forall j :: 0 <= j < |path| - 1 ==> Links(Cut(m, last, cut), path, j)
  {
    var m', path, n := Cut(m, last, cut), c[..|c| - 1] + [cut], |c|;
    Ascending(m, first, c, 0, n - 2);
    FreeTail(m, first, last, c);
    forall j | 0 <= j < |path| - 1 ensures Links(m', path, j) {
      if j < n - 2 {
        CutSpares(m, first, last, c, cut, j);
        assert Links(m, c, j);
      }
    }
  }

  /** No chain can follow links to a misplaced chunk. */
  lemma NoChainThrough(m: Memory, first: nat, path: seq<nat>, d: seq<nat>)
    requires |path| >= 2 && path[0] == first && forall j :: 0 <= j < |path| - 1 ==> Links(m, path, j)
    requires Misplaced(m, first, path[|path| - 2], path[|path| - 1])
    ensures !IsChain(m, first, d)
  {
    var n := |path|;
    if IsChain(m, first, d) {
      SamePrefix(m, first, d, path, n - 1);
      SamePrefix(m, first, d, path, n - 2);
      Ascending(m, first, d, n - 2, n - 1);
      Ascending(m, first, d, n - 1, |d| - 1);
    }
  }

  lemma KmallocOutcome(m: Memory, first: nat, last: nat, c: seq<nat>, live: map<nat, nat>, size: nat, cut: nat)
    requires IsList(m, first, last, c) && Holds(m, c, live) && first + ARENA < TWO_64 && size < TWO_64
    requires cut == (last + HEADER + size) % TWO_64
    ensures last in m && m[last].next - last == Remaining(first, last) > 0
    ensures Fits(first, last, size) ==>
              Accepts(first, last, size) && cut == last + HEADER + size && cut + HEADER <= c[|c| - 1]
    ensures Accepts(first, last, size) && !Fits(first, last, size) ==> NoList(Cut(m, last, cut), first)
  {
    FreeTail(m, first, last, c);
    if Accepts(first, last, size) && !Fits(first, last, size) {
      CutBreaksList(m, first, last, c, cut);
    }
  }

  /* Release. */

  function SetNext(m: Memory, a: nat, next: nat): Memory
    requires a in m
  {
    m[a := m[a].(next := next)]
  }

  function Freed(m: Memory, a: nat): Memory
    requires a in m
  {
    m[a := m[a].(state := FREE)]
  }

  function Without(c: seq<nat>, i: nat): seq<nat>
    requires i < |c|
  {
    c[..i] + c[i + 1..]
  }

  /** Taking chunk i out of the chain gives its bytes to the chunk before it. */
  lemma UnlinkKeepsChain(m: Memory, first: nat, c: seq<nat>, i: nat)
    requires IsChain(m, first, c) && 1 <= i < |c| - 1 && c[i - 1] in m
    ensures IsChain(SetNext(m, c[i - 1], c[i + 1]), first, Without(c, i))
  {
    var m', c' := SetNext(m, c[i - 1], c[i + 1]), Without(c, i);
    forall j | 0 <= j < |c'| - 1 ensures Links(m', c', j) && c'[j] + HEADER <= c'[j + 1] {
      UnlinkLinks(m, first, c, i, j);
    }
    Ascending(m, first, c, i - 1, |c| - 1);
  }

  lemma UnlinkLinks(m: Memory, first: nat, c: seq<nat>, i: nat, j: nat)
    requires IsChain(m, first, c) && 1 <= i < |c| - 1 && c[i - 1] in m && j < |c| - 2
    ensures var m', c' := SetNext(m, c[i - 1], c[i + 1]), Without(c, i);
            Links(m', c', j) && c'[j] + HEADER <= c'[j + 1]
  {
    var o := if j < i then j else j + 1;
    assert Links(m, c, o);
    if j < i - 1 {
      Ascending(m, first, c, j, i - 1);
    } else if j == i - 1 {
      assert Links(m, c, i);
    } else {
      Ascending(m, first, c, i - 1, o);
    }
  }

  /** Merging a free chunk into a free one mends the pair they were, and spoils no other. */
  lemma UnlinkSeparates(m: Memory, first: nat, c: seq<nat>, i: nat, lo: int)
    requires IsChain(m, first, c) && 1 <= i < |c| - 1 && lo < i && Separated(m, c, lo, i)
    requires m[c[i - 1]].state == m[c[i]].state == FREE
    ensures Separated(SetNext(m, c[i - 1], c[i + 1]), Without(c, i), lo, i - 1)
  {
    var m', c' := SetNext(m, c[i - 1], c[i + 1]), Without(c, i);
    forall j | 0 <= j < |c'| - 2 && !(lo <= j < i - 1) ensures NotBothFree(m', c', j) {
      assert NotBothFree(m, c, if j < i - 1 then j else j + 1);
    }
  }

  ghost predicate IsFree(m: Memory, a: nat) {
    a in m && m[a].state == FREE
  }

  ghost predicate EndsFree(m: Memory, c: seq<nat>) {
    |c| >= 2 && IsFree(m, c[|c| - 2])
  }

  lemma UnlinkEndsFree(m: Memory, c: seq<nat>, i: nat)
    requires 1 <= i < |c| - 1 && IsFree(m, c[i - 1]) && EndsFree(m, c)
    ensures EndsFree(SetNext(m, c[i - 1], c[i + 1]), Without(c, i))
  {
    var c' := Without(c, i);
    assert |c'| == |c| - 1;
    assert c'[|c'| - 2] == if i == |c| - 2 then c[i - 1] else c[|c| - 2];
  }

  lemma UnlinkKeepsBlocks(m: Memory, c: seq<nat>, i: nat, live: map<nat, nat>)
    requires 1 <= i < |c| - 1 && c[i - 1] in m && c[i] in m && m[c[i - 1]].state == m[c[i]].state == FREE
    requires Holds(m, c, live)
    ensures Holds(SetNext(m, c[i - 1], c[i + 1]), Without(c, i), live)
  {
    var m', c' := SetNext(m, c[i - 1], c[i + 1]), Without(c, i);
    forall a | a in live ensures exists k: nat :: BlockAt(m', c', a, live[a], k) {
      var k: nat :| BlockAt(m, c, a, live[a], k);
      assert BlockAt(m', c', a, live[a], if k < i then k else k - 1);
    }
  }

  /** The first half of checkConsolidate: a free successor is swallowed. */
  function MergeNext(m: Memory, chunk: nat): Memory
    requires chunk in m && m[chunk].next in m
  {
    if m[m[chunk].next].state == FREE then SetNext(m, chunk, m[m[chunk].next].next) else m
  }

  /** The second half: a free predecessor swallows the chunk. */
  function MergePrevious(m: Memory, prev: nat, chunk: nat): Memory
    requires chunk in m && prev in m
  {
    if m[prev].state == FREE then SetNext(m, prev, m[chunk].next) else m
  }

  /** The chain once chunk k has swallowed a free successor. */
  ghost function Swallowing(m: Memory, c: seq<nat>, k: nat): seq<nat>
    requires k + 1 < |c|
  {
    if IsFree(m, c[k + 1]) then Without(c, k + 1) else c
  }

  /** The chain once a free predecessor has swallowed chunk k. */
  ghost function Swallowed(m: Memory, c: seq<nat>, k: nat): seq<nat>
    requires k < |c|
  {
    if k > 0 && IsFree(m, c[k - 1]) then Without(c, k) else c
  }

  /** The chain that freeing chunk k leaves: it has merged with its free neighbours before the sentinel. */
  ghost function Coalesced(m: Memory, c: seq<nat>, k: nat): seq<nat>
    requires k < |c|
  {
    if k >= |c| - 2 then c else Swallowed(m, Swallowing(m, c, k), k)
  }

  lemma FreedKeeps(m: Memory, first: nat, last: nat, c: seq<nat>, live: map<nat, nat>, k: nat)
    requires IsList(m, first, last, c) && Holds(m, c, live) && k < |c|
    ensures IsChain(Freed(m, c[k]), first, c) && Separated(Freed(m, c[k]), c, k - 1, k + 1)
    ensures Holds(Freed(m, c[k]), c, live - {c[k] + HEADER})
  {
    FreedChain(m, first, c, k);
    FreedSeparates(m, first, c, k);
    FreedHolds(m, c, live, k);
  }

  lemma FreedChain(m: Memory, first: nat, c: seq<nat>, k: nat)
    requires IsChain(m, first, c) && k < |c| && c[k] in m
    ensures IsChain(Freed(m, c[k]), first, c)
  {
    forall i | 0 <= i < |c| - 1 ensures Links(Freed(m, c[k]), c, i) && c[i] + HEADER <= c[i + 1] {
      assert Links(m, c, i);
    }
  }

  lemma FreedSeparates(m: Memory, first: nat, c: seq<nat>, k: nat)
    requires IsChain(m, first, c) && Separated(m, c, 0, 0) && k < |c|
    ensures Separated(Freed(m, c[k]), c, k - 1, k + 1)
  {
    var m' := Freed(m, c[k]);
    forall i | 0 <= i < |c| - 2 && !(k - 1 <= i < k + 1) ensures NotBothFree(m', c, i) {
      assert NotBothFree(m, c, i);
      Ascending(m, first, c, if i < k then i + 1 else k, if i < k then k else i);
      Ascending(m, first, c, i, i + 1);
    }
  }

  lemma FreedHolds(m: Memory, c: seq<nat>, live: map<nat, nat>, k: nat)
    requires Holds(m, c, live) && k < |c| && c[k] in m
    ensures Holds(Freed(m, c[k]), c, live - {c[k] + HEADER})
  {
    var rest := live - {c[k] + HEADER};
    forall a | a in rest ensures exists j: nat :: BlockAt(Freed(m, c[k]), c, a, rest[a], j) {
      var j: nat :| BlockAt(m, c, a, live[a], j);
      assert BlockAt(Freed(m, c[k]), c, a, rest[a], j);
    }
  }

  lemma MergeNextKeeps(m: Memory, first: nat, c: seq<nat>, live: map<nat, nat>, k: nat)
    requires IsChain(m, first, c) && Separated(m, c, k - 1, k + 1) && Holds(m, c, live) && EndsFree(m, c)
    requires k < |c| - 2 && c[k] in m && m[c[k]].state == FREE
    ensures m[c[k]].next == c[k + 1] && c[k + 1] in m
    ensures var m1, c1 := MergeNext(m, c[k]), Swallowing(m, c, k);
            IsChain(m1, first, c1) && Separated(m1, c1, k - 1, k) && Holds(m1, c1, live) && EndsFree(m1, c1)
  {
    hide IsChain, Separated, Holds, Without, EndsFree;
    NextLinks(m, first, c, k);
    if IsFree(m, c[k + 1]) {
      UnlinkKeepsChain(m, first, c, k + 1);
      UnlinkSeparates(m, first, c, k + 1, k - 1);
      UnlinkKeepsBlocks(m, c, k + 1, live);
      UnlinkEndsFree(m, c, k + 1);
    } else {
      OccupiedSeparates(m, c, k);
    }
  }

  lemma NextLinks(m: Memory, first: nat, c: seq<nat>, k: nat)
    requires IsChain(m, first, c) && k < |c| - 2
    ensures c[k] in m && m[c[k]].next == c[k + 1] && c[k + 1] in m && m[c[k + 1]].next == c[k + 2]
  {
    assert Links(m, c, k) && Links(m, c, k + 1);
  }

  lemma OccupiedSeparates(m: Memory, c: seq<nat>, k: nat)
    requires k < |c| - 2 && Separated(m, c, k - 1, k + 1) && !IsFree(m, c[k + 1])
    ensures Separated(m, c, k - 1, k)
  {
    assert NotBothFree(m, c, k);
  }

  lemma MergePreviousKeeps(m: Memory, first: nat, c: seq<nat>, live: map<nat, nat>, k: nat)
    requires IsChain(m, first, c) && Separated(m, c, k - 1, k) && Holds(m, c, live) && EndsFree(m, c)
    requires 0 < k < |c| - 1 && m[c[k]].state == FREE
    ensures var m2, c2 := MergePrevious(m, c[k - 1], c[k]), Swallowed(m, c, k);
            IsChain(m2, first, c2) && Separated(m2, c2, 0, 0) && Holds(m2, c2, live) && EndsFree(m2, c2)
  {
    assert Links(m, c, k);
    if IsFree(m, c[k - 1]) {
      UnlinkKeepsChain(m, first, c, k);
      UnlinkSeparates(m, first, c, k, k - 1);
      UnlinkKeepsBlocks(m, c, k, live);
      UnlinkEndsFree(m, c, k);
    } else {
      assert NotBothFree(m, c, k - 1);
    }
  }

  /** checkConsolidate on chunk k of the chain, just freed; the chunk taken for the predecessor of the
      first is the sentinel. */
  ghost function Consolidated(m: Memory, c: seq<nat>, k: nat): Memory
    requires k < |c| && c[k] in m && c[|c| - 1] in m && (k > 0 ==> c[k - 1] in m) && (k < |c| - 2 ==> m[c[k]].next in m)
  {
    if k >= |c| - 2 then m else MergePrevious(MergeNext(m, c[k]), if k > 0 then c[k - 1] else c[|c| - 1], c[k])
  }

  ghost predicate Corrupts(m: Memory, c: seq<nat>, k: nat)
    requires 0 < |c| && c[|c| - 1] in m
  {
    k == 0 && |c| > 2 && m[c[|c| - 1]].state == FREE
  }

  lemma ConsolidateDefined(m: Memory, first: nat, c: seq<nat>, k: nat)
    requires IsChain(m, first, c) && k < |c|
    ensures c[k] in m && c[|c| - 1] in m && (k > 0 ==> c[k - 1] in m)
    ensures k < |c| - 1 ==> m[c[k]].next == c[k + 1] > 0 && c[k + 1] in m && (m[c[k + 1]].next == 0 <==> k == |c| - 2)
    ensures k == |c| - 1 ==> m[c[k]].next == 0
  {
    InMemory(m, first, c, k);
    InMemory(m, first, c, if k > 0 then k - 1 else k);
    if k < |c| - 1 {
      assert Links(m, c, k);
      InMemory(m, first, c, k + 1);
      assert k < |c| - 2 ==> Links(m, c, k + 1);
    }
  }

  lemma FreeingTail(m: Memory, first: nat, last: nat, c: seq<nat>, k: nat)
    requires IsList(m, first, last, c) && |c| - 2 <= k < |c| && c[k] in m
    ensures Separated(Freed(m, c[k]), c, 0, 0) && EndsFree(Freed(m, c[k]), c)
  {
    var m0 := Freed(m, c[k]);
    forall i | 0 <= i < |c| - 2 ensures NotBothFree(m0, c, i) {
      assert NotBothFree(m, c, i);
      Ascending(m, first, c, i + 1, |c| - 1);
    }
  }

  lemma FreeingInside(m: Memory, first: nat, last: nat, c: seq<nat>, k: nat)
    requires IsList(m, first, last, c) && k < |c| - 2 && c[k] in m && m[c[k]].next in m
    ensures EndsFree(Freed(m, c[k]), c) && Coalesced(Freed(m, c[k]), c, k) == Coalesced(m, c, k)
    ensures c[|c| - 1] in m && Freed(m, c[k])[c[|c| - 1]] == m[c[|c| - 1]]
  {
    var m0, c1 := Freed(m, c[k]), Swallowing(m, c, k);
    Ascending(m, first, c, k, k + 1);
    Ascending(m, first, c, k, |c| - 2);
    Ascending(m, first, c, k, |c| - 1);
    InMemory(m, first, c, |c| - 1);
    assert Swallowing(m0, c, k) == c1;
    if k > 0 {
      Ascending(m, first, c, k - 1, k);
      assert c1[k - 1] == c[k - 1];
      assert IsFree(m0, c1[k - 1]) == IsFree(m, c1[k - 1]);
    }
    assert Swallowed(m0, c1, k) == Swallowed(m, c1, k);
  }

  lemma MergeKeeps(m: Memory, first: nat, c: seq<nat>, live: map<nat, nat>, k: nat, m1: Memory, c1: seq<nat>)
    requires IsChain(m, first, c) && Separated(m, c, k - 1, k + 1) && Holds(m, c, live) && EndsFree(m, c)
    requires k < |c| - 2 && m[c[k]].state == FREE && m[c[k]].next in m && (k == 0 ==> m[c[|c| - 1]].state == OCCUPIED)
    requires m1 == MergeNext(m, c[k]) && c1 == Swallowing(m, c, k)
    ensures c[k] in m1 && (k > 0 ==> c[k - 1] in m1) && c[|c| - 1] in m1
    ensures var m2, c2 := MergePrevious(m1, if k > 0 then c[k - 1] else c[|c| - 1], c[k]), Swallowed(m, c1, k);
            IsChain(m2, first, c2) && Separated(m2, c2, 0, 0) && Holds(m2, c2, live) && EndsFree(m2, c2)
  {
    MergeNextKeeps(m, first, c, live, k);
    assert c1[k] == c[k] && (k > 0 ==> c1[k - 1] == c[k - 1]);
    if k > 0 {
      assert IsFree(m1, c1[k - 1]) == IsFree(m, c1[k - 1]);
      MergePreviousKeeps(m1, first, c1, live, k);
    } else {
      assert m1[c[|c| - 1]].state == OCCUPIED;
    }
  }

  /** Freeing a chunk merges it with its free neighbours, and keeps every other live block. */
  lemma KfreeKeeps(m: Memory, first: nat, last: nat, c: seq<nat>, live: map<nat, nat>, k: nat)
    requires IsList(m, first, last, c) && Holds(m, c, live) && k < |c| && !Corrupts(m, c, k)
    requires c[k] in m && (k > 0 ==> c[k - 1] in m) && (k < |c| - 2 ==> m[c[k]].next in m)
    ensures var m', c' := Consolidated(Freed(m, c[k]), c, k), Coalesced(m, c, k);
            && IsChain(m', first, c') && Separated(m', c', 0, 0) && EndsFree(m', c')
            && Holds(m', c', live - {c[k] + HEADER})
  {
    var m0, rest := Freed(m, c[k]), live - {c[k] + HEADER};
    FreedKeeps(m, first, last, c, live, k);
    if k >= |c| - 2 {
      FreeingTail(m, first, last, c, k);
      return;
    }
    FreeingInside(m, first, last, c, k);
    MergeKeeps(m0, first, c, rest, k, MergeNext(m0, c[k]), Swallowing(m0, c, k));
  }

  /** Memory after kfree of chunk k. */
  ghost function AfterKfree(m: Memory, c: seq<nat>, k: nat): Memory
    requires k < |c|
  {
    if c[k] in m && c[|c| - 1] in m && (k > 0 ==> c[k - 1] in m) && (k < |c| - 2 ==> m[c[k]].next in m) then
      Consolidated(Freed(m, c[k]), c, k)
    else m
  }

  /** The bytes of a freed block, with those of its free neighbours, make up one free chunk: nothing that is
      freed is lost. */
  lemma KfreeGivesBack(m: Memory, first: nat, last: nat, c: seq<nat>, k: nat)
    requires IsList(m, first, last, c) && k < |c| - 2 && !Corrupts(m, c, k)
    ensures var m', c', i := AfterKfree(m, c, k), Coalesced(m, c, k), if k > 0 && IsFree(m, c[k - 1]) then k - 1 else k;
            && i + 1 < |c'| && c'[i] == c[i] && IsFree(m', c'[i])
            && c'[i + 1] == (if IsFree(m, c[k + 1]) then c[k + 2] else c[k + 1])
  {
    hide Separated, AfterKfree, Coalesced;
    ConsolidateDefined(m, first, c, k);
    MergedChain(m, c, k);
    KfreeStates(m, first, last, c, k);
  }

  /** The freed chunk becomes free; no other chunk changes its state. */
  lemma KfreeStates(m: Memory, first: nat, last: nat, c: seq<nat>, k: nat)
    requires IsList(m, first, last, c) && k < |c|
    ensures var m' := AfterKfree(m, c, k);
            c[k] in m && forall a :: a in m ==> a in m' && m'[a].state == if a == c[k] then FREE else m[a].state
  {
    hide Separated;
    ConsolidateDefined(m, first, c, k);
    var m0 := Freed(m, c[k]);
    if k < |c| - 2 {
      hide IsList;
      MergesKeepStates(m0, c[k], if k > 0 then c[k - 1] else c[|c| - 1]);
    }
  }

  lemma MergesKeepStates(m: Memory, chunk: nat, prev: nat)
    requires chunk in m && m[chunk].next in m && prev in m
    ensures var m' := MergePrevious(MergeNext(m, chunk), prev, chunk);
            forall a :: a in m ==> a in m' && m'[a].state == m[a].state
  {
  }

  lemma MergedChain(m: Memory, c: seq<nat>, k: nat)
    requires k < |c| - 2
    ensures var c', i := Coalesced(m, c, k), if k > 0 && IsFree(m, c[k - 1]) then k - 1 else k;
            && i + 1 < |c'| && c'[i] == c[i]
            && c'[i + 1] == (if IsFree(m, c[k + 1]) then c[k + 2] else c[k + 1])
  {
    var c1 := Swallowing(m, c, k);
    assert c1[k] == c[k] && c1[k + 1] == if IsFree(m, c[k + 1]) then c[k + 2] else c[k + 1];
  }

  /** The address reached from `a` by n steps along the next links. */
  ghost function Walk(m: Memory, a: nat, n: nat): nat
    decreases n
  {
    if n == 0 || a !in m then a else Walk(m, m[a].next, n - 1)
  }

  lemma {:induction false} WalkStays(m: Memory, c: seq<nat>, i: nat, n: nat)
    requires i < |c| && forall j :: 0 <= j < |c| ==> Onward(m, c, j)
    ensures Walk(m, c[i], n) in m && m[Walk(m, c[i], n)].next != 0
    decreases n
  {
    assert Onward(m, c, i);
    if n == 0 {
    } else {
      var j :| 0 <= j < |c| && m[c[i]].next == c[j];
      WalkStays(m, c, j, n - 1);
    }
  }

  ghost predicate Onward(m: Memory, c: seq<nat>, i: nat)
    requires i < |c|
  {
    c[i] in m && m[c[i]].next != 0 && exists j :: 0 <= j < |c| && m[c[i]].next == c[j]
  }

  /** When the first chunk is freed while others exist and the sentinel reads FREE, the sentinel is taken
      for the predecessor and linked back into the chain: update_last_free_chunk then walks for ever. */
  lemma FreeingFirstNeverEnds(m: Memory, first: nat, last: nat, c: seq<nat>, n: nat)
    requires IsList(m, first, last, c) && c[0] in m && c[|c| - 1] in m && m[c[0]].next in m && Corrupts(m, c, 0)
    ensures var m' := Consolidated(Freed(m, c[0]), c, 0);
            Walk(m', first, n) in m' && m'[Walk(m', first, n)].next != 0
  {
    var m' := Consolidated(Freed(m, c[0]), c, 0);
    assert Links(m, c, 0) && Links(m, c, 1);
    forall j | 0 <= j < |c| ensures Onward(m', c, j) {
      InMemory(m, first, c, j);
      Ascending(m, first, c, 0, j);
      Ascending(m, first, c, j, |c| - 1);
      assert j < |c| - 1 ==> Links(m, c, j);
      assert m'[c[j]].next == c[if j == 0 || j == |c| - 1 then if IsFree(m, c[1]) then 2 else 1 else j + 1];
    }
    WalkStays(m', c, 0, n);
  }

  /** One small block is enough to get there: in an arena whose stale memory reads zero, the first
      kmalloc(16) followed by kfree of its block leaves the walk without an end. */
  lemma FirstFreeOfFirstBlock(base: nat, n: nat)
    requires 0 < base && base + ARENA < TWO_64
    ensures var end := base + ARENA - HEADER;
            var stale: Memory := map[base := Header(0, FREE), end := Header(0, FREE)];
            var m, c := Cut(SetNext(stale, base, end), base, base + HEADER + 16), [base, base + HEADER + 16, end];
            && IsList(m, base, base + HEADER + 16, c) && m[end].state == FREE && Corrupts(m, c, 0)
            && Walk(AfterKfree(m, c, 0), base, n) in AfterKfree(m, c, 0)
            && AfterKfree(m, c, 0)[Walk(AfterKfree(m, c, 0), base, n)].next != 0
  {
    hide IsList, Cut;
    var end, cut := base + ARENA - HEADER, base + HEADER + 16;
    var stale: Memory := map[base := Header(0, FREE), end := Header(0, FREE)];
    var m0, c := SetNext(stale, base, end), [base, cut, end];
    InitOutcome(stale, base);
    KmallocKeeps(m0, base, base, [base, end], map[], 16, cut);
    assert Extended([base, end], cut) == c;
    var m := Cut(m0, base, cut);
    SentinelSpared(m0, base, cut, end);
    FirstLink(m, base, cut, c);
    FreeingFirstNeverEnds(m, base, cut, c, n);
  }

  lemma SentinelSpared(m: Memory, last: nat, cut: nat, end: nat)
    requires last in m && end in m && last + HEADER <= cut && cut + HEADER <= end
    ensures end in Cut(m, last, cut) && Cut(m, last, cut)[end] == m[end]
  {
  }

  lemma FirstLink(m: Memory, first: nat, last: nat, c: seq<nat>)
    requires IsList(m, first, last, c)
    ensures |c| >= 2 && c[0] in m && m[c[0]].next == c[1] && c[1] in m
  {
    assert Links(m, c, 0);
    InMemory(m, first, c, 1);
  }

  /** The last free chunk among the first n. */
  ghost function LastFree(m: Memory, c: seq<nat>, n: nat, none: nat): nat
    requires n <= |c|
  {
    if n == 0 then none else if IsFree(m, c[n - 1]) then c[n - 1] else LastFree(m, c, n - 1, none)
  }

  lemma LastFreeTail(m: Memory, first: nat, c: seq<nat>, last: nat, none: nat)
    requires IsChain(m, first, c) && Separated(m, c, 0, 0) && EndsFree(m, c)
    requires last == LastFree(m, c, |c| - 1, none)
    ensures IsList(m, first, last, c)
  {
  }

  class KernelHeap {
    var headers: Memory
    var firstChunk: nat
    var lastFreeChunk: nat
    ghost var chunks: seq<nat>
    ghost var live: map<nat, nat>

    ghost predicate Valid()
      reads this
    {
      IsList(headers, firstChunk, lastFreeChunk, chunks) && Holds(headers, chunks, live)
    }

    /** init_heap over the arena at `base`. It sets neither the first chunk's state nor the sentinel's
        next link: the list is well formed exactly when stale memory happens to hold FREE and 0. */
    constructor (base: nat, mem: Memory)
      requires 0 < base && base + ARENA < TWO_64 && base in mem && base + ARENA - HEADER in mem
      ensures firstChunk == lastFreeChunk == base && live == map[]
      ensures headers == SetNext(mem, base, base + ARENA - HEADER)
      ensures if mem[base].state == FREE && mem[base + ARENA - HEADER].next == 0 then
                Valid() && chunks == [base, base + ARENA - HEADER]
              else forall c :: !IsList(headers, firstChunk, lastFreeChunk, c)
    {
      firstChunk := base;
      headers := SetNext(mem, base, base + ARENA - HEADER);
      lastFreeChunk := base;
      chunks := [base, base + ARENA - HEADER];
      live := map[];
      new;
      InitOutcome(mem, base);
    }

    /** kmalloc: cuts the block off the free tail. The request is accepted when one header fits beside
        it; an accepted request leaves a well-formed heap exactly when two fit, and then the block is
        the caller's alone. */
    method Kmalloc(size: nat) returns (addr: nat)
      requires Valid() && firstChunk + ARENA < TWO_64 && size < TWO_64
      modifies this
      ensures firstChunk == old(firstChunk)
      ensures !Accepts(firstChunk, old(lastFreeChunk), size) ==>
                && addr == 0 && headers == old(headers) && lastFreeChunk == old(lastFreeChunk)
                && chunks == old(chunks) && live == old(live)
      ensures Accepts(firstChunk, old(lastFreeChunk), size) && !Fits(firstChunk, old(lastFreeChunk), size) ==>
                NoList(headers, firstChunk)
      ensures Fits(firstChunk, old(lastFreeChunk), size) ==>
                && Valid() && addr == old(lastFreeChunk) + HEADER
                && addr !in old(live) && live == old(live)[addr := size]
                && chunks == Extended(old(chunks), addr + size)
                && headers == Cut(old(headers), old(lastFreeChunk), addr + size)
    {
      hide Cut, Put, IsChain, Separated, Holds, Extended, NoList;
      var last := lastFreeChunk;
      var newChunk := (last + HEADER + size) % TWO_64;
      KmallocOutcome(headers, firstChunk, last, chunks, live, size, newChunk);
      var remaining := headers[last].next - last;
      if (size + HEADER) % TWO_64 > remaining {
        return 0;
      }
      addr := last + HEADER;
      Split(newChunk);
      if Fits(firstChunk, last, size) {
        Record(addr, size, old(headers));
      }
    }

    /** The bookkeeping of an allocation: the chain and the live blocks follow the headers. */
    ghost method Record(addr: nat, size: nat, m: Memory)
      requires addr >= HEADER && IsList(m, firstChunk, addr - HEADER, chunks) && Holds(m, chunks, live)
      requires addr - HEADER in m && addr + size + HEADER <= chunks[|chunks| - 1]
      requires headers == Cut(m, addr - HEADER, addr + size) && lastFreeChunk == addr + size
      modifies this`chunks, this`live
      ensures Valid() && addr !in old(live) && live == old(live)[addr := size]
      ensures chunks == Extended(old(chunks), addr + size)
    {
      hide Cut;
      KmallocKeeps(m, firstChunk, addr - HEADER, chunks, live, size, addr + size);
      chunks := Extended(chunks, addr + size);
      live := live[addr := size];
    }

    /** The header writes of an accepted request. */
    method Split(newChunk: nat)
      requires lastFreeChunk in headers
      modifies this`headers, this`lastFreeChunk
      ensures headers == Cut(old(headers), old(lastFreeChunk), newChunk) && lastFreeChunk == newChunk
    {
      var next := headers[lastFreeChunk].next;
      headers := Put(headers, newChunk, Header(next, FREE));
      headers := Put(headers, lastFreeChunk, Header(newChunk, OCCUPIED));
      lastFreeChunk := newChunk;
    }
  
    /** kfree: finds the block's header from the first chunk, frees it and merges it with its free
        neighbours; an address that is no chunk's block changes nothing. The one call left out is the
        one that never returns (FreeingFirstNeverEnds). */
    method Kfree(addr: nat)
      requires Valid() && chunks[|chunks| - 1] in headers
      requires !(addr == firstChunk + HEADER && Corrupts(headers, chunks, 0))
      modifies this
      ensures Valid() && firstChunk == old(firstChunk) && live == old(live) - {addr}
      ensures (forall k :: 0 <= k < |old(chunks)| ==> old(chunks)[k] + HEADER != addr) ==>
                headers == old(headers) && chunks == old(chunks) && live == old(live)
      ensures forall k :: 0 <= k < |old(chunks)| && old(chunks)[k] + HEADER == addr ==>
                chunks == Coalesced(old(headers), old(chunks), k) && headers == AfterKfree(old(headers), old(chunks), k)
    {
      hide Coalesced, AfterKfree, Separated;
      var curr, i := FindBlock(addr);
      if curr != 0 {
        Release(curr, i);
      } else {
        assert live - {addr} == live;
      }
    }

    /** The walk of kfree: the chunk whose block is at `addr`, or 0 past the sentinel. */
    method FindBlock(addr: nat) returns (curr: nat, ghost i: nat)
      requires Valid()
      ensures if curr == 0 then forall k :: 0 <= k < |chunks| ==> chunks[k] + HEADER != addr
              else i < |chunks| && chunks[i] == curr && curr + HEADER == addr
      ensures forall k :: 0 <= k < |chunks| && curr != 0 && chunks[k] + HEADER == addr ==> k == i
    {
      curr, i := firstChunk, 0;
      while curr != 0 && curr + HEADER != addr
        invariant i <= |chunks| && curr == if i < |chunks| then chunks[i] else 0
        invariant forall k :: 0 <= k < i ==> chunks[k] + HEADER != addr
        decreases |chunks| - i
      {
        InMemory(headers, firstChunk, chunks, i);
        assert i < |chunks| - 1 ==> Links(headers, chunks, i);
        curr := headers[curr].next;
        i := i + 1;
      }
      Found(headers, firstChunk, chunks, i, addr);
    }

    method Release(chunk: nat, ghost k: nat)
      requires Valid() && k < |chunks| && chunk == chunks[k] && chunks[|chunks| - 1] in headers
      requires !Corrupts(headers, chunks, k)
      modifies this
      ensures Valid() && firstChunk == old(firstChunk) && live == old(live) - {chunk + HEADER}
      ensures chunks == Coalesced(old(headers), old(chunks), k) && headers == AfterKfree(old(headers), old(chunks), k)
    {
      hide Consolidated, Coalesced, IsChain, Separated, Holds, LastFree;
      ConsolidateDefined(headers, firstChunk, chunks, k);
      FreedKeeps(headers, firstChunk, lastFreeChunk, chunks, live, k);
      KfreeKeeps(headers, firstChunk, lastFreeChunk, chunks, live, k);
      ghost var last := lastFreeChunk;
      ghost var merged := Coalesced(headers, chunks, k);
      headers := Freed(headers, chunk);
      CheckConsolidate(chunk, k);
      chunks := merged;
      live := live - {chunk + HEADER};
      UpdateLastFreeChunk();
      LastFreeTail(headers, firstChunk, chunks, lastFreeChunk, last);
    }

    /** The loop of checkConsolidate: the chunk before this one, or the sentinel for the first. */
    method FindPrevious(chunk: nat, ghost k: nat) returns (prev: nat)
      requires IsChain(headers, firstChunk, chunks) && k < |chunks| && chunk == chunks[k]
      ensures prev == if k > 0 then chunks[k - 1] else chunks[|chunks| - 1]
    {
      prev := firstChunk;
      ghost var i := 0;
      InMemory(headers, firstChunk, chunks, 0);
      while headers[prev].next != chunk && headers[prev].next != 0
        invariant i < |chunks| && prev == chunks[i] && prev in headers && (k > 0 ==> i < k)
        decreases |chunks| - i
      {
        assert i < |chunks| - 1 ==> Links(headers, chunks, i);
        prev := headers[prev].next;
        i := i + 1;
        InMemory(headers, firstChunk, chunks, i);
      }
      FoundPrevious(headers, firstChunk, chunks, i, k);
    }

    method CheckConsolidate(chunk: nat, ghost k: nat)
      requires IsChain(headers, firstChunk, chunks) && k < |chunks| && chunk == chunks[k]
      requires chunk in headers && chunks[|chunks| - 1] in headers && (k > 0 ==> chunks[k - 1] in headers)
      requires k < |chunks| - 2 ==> headers[chunk].next in headers
      modifies this`headers
      ensures headers == Consolidated(old(headers), chunks, k)
    {
      var prev := FindPrevious(chunk, k);
      ConsolidateDefined(headers, firstChunk, chunks, k);
      if headers[chunk].next == 0 || headers[headers[chunk].next].next == 0 {
        return;
      }
      if headers[headers[chunk].next].state == FREE {
        headers := SetNext(headers, chunk, headers[headers[chunk].next].next);
      }
      if headers[prev].state == FREE {
        headers := SetNext(headers, prev, headers[chunk].next);
      }
    }

    method UpdateLastFreeChunk()
      requires IsChain(headers, firstChunk, chunks)
      modifies this`lastFreeChunk
      ensures lastFreeChunk == LastFree(headers, chunks, |chunks| - 1, old(lastFreeChunk))
    {
      var curr := firstChunk;
      ghost var i := 0;
      InMemory(headers, firstChunk, chunks, 0);
      while curr != 0 && headers[curr].next != 0
        invariant i < |chunks| && curr == chunks[i] && curr in headers
        invariant lastFreeChunk == LastFree(headers, chunks, i, old(lastFreeChunk))
        decreases |chunks| - i
      {
        if headers[curr].state == FREE {
          lastFreeChunk := curr;
        }
        assert i < |chunks| - 1 ==> Links(headers, chunks, i);
        curr := headers[curr].next;
        i := i + 1;
        InMemory(headers, firstChunk, chunks, i);
      }
      assert i < |chunks| - 1 ==> Links(headers, chunks, i);
    }
  }

  /** At most one chunk has its block at `addr`, and no chunk lies at 0. */
  lemma Found(m: Memory, first: nat, c: seq<nat>, i: nat, addr: nat)
    requires IsChain(m, first, c) && i <= |c|
    ensures i < |c| ==> c[i] > 0
    ensures forall k :: 0 <= k < |c| && i < |c| && c[k] + HEADER == addr == c[i] + HEADER ==> k == i
  {
    forall k | 0 <= k < |c| && i < |c| && c[k] == c[i] ensures k == i {
      Ascending(m, first, c, if k < i then k else i, if k < i then i else k);
    }
    if i < |c| {
      Ascending(m, first, c, 0, i);
    }
  }

  /** Where the search for chunk k's predecessor stops. */
  lemma FoundPrevious(m: Memory, first: nat, c: seq<nat>, i: nat, k: nat)
    requires IsChain(m, first, c) && i < |c| && k < |c| && (k > 0 ==> i < k) && c[i] in m
    requires m[c[i]].next == c[k] || m[c[i]].next == 0
    ensures i == if k > 0 then k - 1 else |c| - 1
  {
    if i < |c| - 1 {
      assert Links(m, c, i);
      Ascending(m, first, c, 0, i + 1);
      if i + 1 < k {
        Ascending(m, first, c, i + 1, k);
      }
    }
  }

  lemma InitOutcome(mem: Memory, base: nat)
    requires 0 < base && base + ARENA < TWO_64 && base in mem && base + ARENA - HEADER in mem
    ensures var m, c := SetNext(mem, base, base + ARENA - HEADER), [base, base + ARENA - HEADER];
            if mem[base].state == FREE && mem[base + ARENA - HEADER].next == 0 then IsList(m, base, base, c)
            else forall d :: !IsList(m, base, base, d)
  {
    var m, c := SetNext(mem, base, base + ARENA - HEADER), [base, base + ARENA - HEADER];
    assert Links(m, c, 0);
    forall d | IsList(m, base, base, d) ensures mem[base].state == FREE && mem[base + ARENA - HEADER].next == 0 {
      SamePrefix(m, base, d, c, 1);
      Ascending(m, base, d, 1, |d| - 1);
    }
  }
}
