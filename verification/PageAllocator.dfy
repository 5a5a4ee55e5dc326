/** The physical page allocator (src/pmm.cpp): a bitmap of free pages, one bit a page, scanned from
    a rotating start. Bit j of bitmap byte i stands at index 8*i+j and describes page 8*i+j, so the
    abstract value of the allocator is the sequence of its bits. */
module PageAllocator {
  import opened Common

  const PAGE_SIZE: nat := 0x1000

  // ----- sequences of bits --------------------------------------------------

  ghost function Count(bits: seq<bool>): nat {
    if bits == [] then 0
    else Count(bits[..|bits| - 1]) + if bits[|bits| - 1] then 1 else 0
  }

  lemma {:induction false} CountUpdate(bits: seq<bool>, p: nat, v: bool)
    requires p < |bits|
    ensures Count(bits[p := v]) == Count(bits) - (if bits[p] then 1 else 0) + (if v then 1 else 0)
  {
    var last := |bits| - 1;
    if p == last {
      assert bits[p := v][..last] == bits[..last];
    } else {
      assert bits[p := v][..last] == bits[..last][p := v];
      CountUpdate(bits[..last], p, v);
    }
  }

  lemma {:induction false} CountZero(bits: seq<bool>)
    requires forall p :: 0 <= p < |bits| ==> !bits[p]
    ensures Count(bits) == 0
  {
    if bits == [] {
    } else {
      CountZero(bits[..|bits| - 1]);
    }
  }

  /** Two sets of bits without a common one. */
  lemma {:induction false} CountUnion(bits: seq<bool>, a: seq<bool>, b: seq<bool>)
    requires |bits| == |a| == |b|
    requires forall p :: 0 <= p < |bits| ==> bits[p] == (a[p] || b[p]) && !(a[p] && b[p])
    ensures Count(bits) == Count(a) + Count(b)
    decreases |bits|
  {
    if bits == [] {
    } else {
      var last := |bits| - 1;
      CountUnion(bits[..last], a[..last], b[..last]);
    }
  }

  predicate InSpan(page: int, first: nat, count: nat) {
    first <= page < first + count
  }

  /** `bits` with a span of pages set to `v`; the part of the span past the end is ignored. */
  function Fill(bits: seq<bool>, first: nat, count: nat, v: bool): (r: seq<bool>)
    ensures |r| == |bits|
  {
    seq(|bits|, p requires 0 <= p < |bits| => if InSpan(p, first, count) then v else bits[p])
  }

  lemma FillStep(bits: seq<bool>, first: nat, count: nat, v: bool)
    ensures Fill(bits, first, 0, v) == bits
    ensures Fill(bits, first, count + 1, v) ==
            if first + count < |bits| then Fill(bits, first, count, v)[first + count := v]
            else Fill(bits, first, count, v)
  {
  }

  lemma {:induction false} CountFill(bits: seq<bool>, first: nat, count: nat, v: bool)
    requires first + count <= |bits|
    requires forall p :: first <= p < first + count ==> bits[p] != v
    ensures Count(Fill(bits, first, count, v)) == (if v then Count(bits) + count else Count(bits) - count)
    decreases count
  {
    if count == 0 {
      FillStep(bits, first, 0, v);
    } else {
      CountFill(bits, first, count - 1, v);
      FillStep(bits, first, count - 1, v);
      CountUpdate(Fill(bits, first, count - 1, v), first + count - 1, v);
    }
  }

  /** The page the rotating scan must find: the least free page from byte `start` on, and only if
      there is none, the least free page of all. */
  ghost predicate IsNextFree(bits: seq<bool>, start: nat, page: nat) {
    && page < |bits| && bits[page]
    && forall q :: 0 <= q < |bits| && bits[q] ==>
         if page < 8 * start then page <= q < 8 * start else q < 8 * start || page <= q
  }

  /** Turned so that byte `start` comes first, the page found is the first bit set. */
  lemma NextFreeRotated(bits: seq<bool>, start: nat, page: nat)
    requires 8 * start <= |bits| && IsNextFree(bits, start, page)
    ensures var turned := bits[8 * start..] + bits[..8 * start];
            var i := if page >= 8 * start then page - 8 * start else page + |bits| - 8 * start;
            turned[i] && forall j :: 0 <= j < i ==> !turned[j]
  {
    var turned := bits[8 * start..] + bits[..8 * start];
    var n := |bits| - 8 * start;
    forall j | 0 <= j < |bits| ensures turned[j] == bits[if j < n then j + 8 * start else j - n] {
    }
  }

  ghost predicate NoneFree(bits: seq<bool>) {
    forall q :: 0 <= q < |bits| ==> !bits[q]
  }

  /** A run of `count` free pages that starts at `page` and stays inside one bitmap byte. */
  ghost predicate IsRun(bits: seq<bool>, page: nat, count: nat) {
    && 1 <= count && page % 8 + count <= 8 && page + count <= |bits|
    && forall q :: page <= q < page + count ==> bits[q]
  }

  /** Bits j..j+count-1 of byte `b` make a run exactly when all of them are set and none is past the byte. */
  lemma RunInByte(bits: seq<bool>, b: nat, j: nat, count: nat)
    requires j < 8 && 8 * b + 8 <= |bits|
    ensures var byte := bits[8 * b..8 * b + 8];
            IsRun(bits, 8 * b + j, count) <==> 1 <= count <= 8 - j && forall z :: j <= z < j + count ==> byte[z]
  {
    var byte := bits[8 * b..8 * b + 8];
    forall q | 8 * b + j <= q < 8 * b + 8 ensures bits[q] == byte[q - 8 * b] {
    }
  }

  ghost predicate NoRunBelow(bits: seq<bool>, n: nat, count: nat) {
    forall q: nat :: q < n ==> !IsRun(bits, q, count)
  }

  lemma NoRun(bits: seq<bool>, count: nat)
    requires NoRunBelow(bits, |bits|, count)
    ensures forall q: nat :: !IsRun(bits, q, count)
  {
  }

  lemma FirstRun(bits: seq<bool>, page: nat, count: nat)
    requires NoRunBelow(bits, page, count) && IsRun(bits, page, count)
    ensures !(forall q: nat :: !IsRun(bits, q, count))
    ensures forall q: nat :: IsRun(bits, q, count) ==> page <= q
  {
  }

  /** What one kpalloc does to the bits and the counter; the result 0 means either that no bit is set
      or that page 0 was handed out. */
  ghost predicate AllocStep(bits: seq<bool>, last: nat, avail: int, bits': seq<bool>, last': nat, avail': int,
      addr: nat) {
    var page := addr / PAGE_SIZE;
    && addr % PAGE_SIZE == 0
    && if NoneFree(bits) then addr == 0 && bits' == bits && last' == last && avail' == avail
       else IsNextFree(bits, last, page) && bits' == bits[page := false] && last' == page / 8 && avail' == avail - 1
  }

  /** Freeing the page just allocated gives the bits and the counter back. */
  lemma FreeUndoesAlloc(bits: seq<bool>, last: nat, avail: int, bits': seq<bool>, last': nat, avail': int, addr: nat)
    requires AllocStep(bits, last, avail, bits', last', avail', addr) && !NoneFree(bits)
    ensures addr % 0x1000 == 0 && addr / 0x1000 < |bits| && avail' + 1 == avail
    ensures bits[addr / 0x1000] && bits'[addr / 0x1000 := true] == bits && !bits'[addr / 0x1000]
  {
  }

  /** The scan goes on from the page just taken: the next page handed out is the least free one above it, as long
      as there is one. */
  lemma ScanGoesOn(bits: seq<bool>, last: nat, avail: int, bits': seq<bool>, last': nat, avail': int, addr: nat,
                   bits'': seq<bool>, last'': nat, avail'': int, addr': nat, q: nat)
    requires AllocStep(bits, last, avail, bits', last', avail', addr) && !NoneFree(bits)
    requires AllocStep(bits', last', avail', bits'', last'', avail'', addr')
    requires addr / 0x1000 < q < |bits'| && bits'[q]
    ensures addr < addr' && addr' % 0x1000 == 0 && addr' / 0x1000 <= q && bits'[addr' / 0x1000]
  {
    var page, page' := addr / PAGE_SIZE, addr' / PAGE_SIZE;
    assert !NoneFree(bits');
    assert page' < |bits'| && bits'[page'] && page' != page;
    assert bits[page'];
    assert 8 * last' <= page < 8 * last' + 8;
  }

  /** What one kpalloc_contignious does: the first run inside one byte, its address cut to 32 bits. */
  ghost predicate ContiguousStep(bits: seq<bool>, avail: int, count: nat, bits': seq<bool>, avail': int, addr: nat,
      page: nat) {
    if forall q: nat :: !IsRun(bits, q, count) then addr == 0 && bits' == bits && avail' == avail
    else
      && IsRun(bits, page, count)
      && (forall q: nat :: IsRun(bits, q, count) ==> page <= q)
      && bits' == Fill(bits, page, count, false) && avail' == avail - count
      && addr == page * PAGE_SIZE % TWO_32
      && (addr == page * PAGE_SIZE <==> page < 0x10_0000)
  }

  // ----- the memory map -----------------------------------------------------

  datatype MemEntry = MemEntry(base: nat, length: nat, usable: bool) {
    function FirstPage(): nat { base / PAGE_SIZE }

    function PageCount(): nat { length / PAGE_SIZE }

    predicate Holds(page: nat) { InSpan(page, FirstPage(), PageCount()) }

    /** How many pages of the entry have a number of at least `limit`. */
    function Past(limit: nat): nat {
      if FirstPage() + PageCount() <= limit then 0 else Min(PageCount(), FirstPage() + PageCount() - limit)
    }
  }

  /** init_pmm releases a page of one of the first `n` entries: the entry is usable and is not the
      region that holds the bitmap. */
  ghost predicate Released(entries: seq<MemEntry>, n: nat, bitmapBase: nat, page: nat)
    requires n <= |entries|
  {
    exists k :: 0 <= k < n && entries[k].usable && entries[k].base != bitmapBase && entries[k].Holds(page)
  }

  /** How many released pages have no bit in a bitmap of `limit` bits. */
  ghost function Spilled(entries: seq<MemEntry>, n: nat, bitmapBase: nat, limit: nat): nat
    requires n <= |entries|
  {
    if n == 0 then 0
    else
      var e := entries[n - 1];
      Spilled(entries, n - 1, bitmapBase, limit) + if e.usable && e.base != bitmapBase then e.Past(limit) else 0
  }

  /** Bits that the bitmap's memory holds already, for pages that are not released. */
  ghost function Leftover(entries: seq<MemEntry>, bitmapBase: nat, stale: seq<bool>): (left: seq<bool>)
    ensures |left| == |stale|
  {
    seq(|stale|, p requires 0 <= p < |stale| => stale[p] && !Released(entries, |entries|, bitmapBase, p))
  }

  /** The free pages are the released ones. */
  ghost predicate FreesReleased(entries: seq<MemEntry>, bitmapBase: nat, bits: seq<bool>) {
    forall p :: 0 <= p < |bits| ==> (bits[p] <==> Released(entries, |entries|, bitmapBase, p))
  }

  /** The bitmap's memory has no bit set for a page that is not released. */
  ghost predicate CleanFor(entries: seq<MemEntry>, bitmapBase: nat, stale: seq<bool>) {
    forall p :: 0 <= p < |stale| && stale[p] ==> Released(entries, |entries|, bitmapBase, p)
  }

  lemma CleanBit(entries: seq<MemEntry>, bitmapBase: nat, stale: seq<bool>, page: nat)
    requires CleanFor(entries, bitmapBase, stale) && page < |stale|
    ensures stale[page] ==> Released(entries, |entries|, bitmapBase, page)
  {
  }

  /** What the boot protocol promises: entries are page aligned and usable ones do not overlap. */
  ghost predicate WellFormedMap(entries: seq<MemEntry>) {
    && (forall i :: 0 <= i < |entries| ==> entries[i].base % PAGE_SIZE == 0 && entries[i].length % PAGE_SIZE == 0)
    && (forall i :: 0 <= i < |entries| ==> entries[i].base + entries[i].length <= PAGE_SIZE * TWO_32)
    && forall i, j, page ::
         0 <= i < j < |entries| && entries[i].usable && entries[j].usable && entries[i].Holds(page) ==>
         !entries[j].Holds(page)
  }

  /** In bytes: an entry holds the pages that lie inside it. */
  lemma HoldsBytes(e: MemEntry, page: nat)
    requires e.base % PAGE_SIZE == 0 && e.length % PAGE_SIZE == 0
    ensures e.Holds(page) <==> e.base <= 0x1000 * page && 0x1000 * (page + 1) <= e.base + e.length
  {
  }

  /** A page lies inside one usable entry other than the bitmap's. */
  ghost predicate InsideUsable(entries: seq<MemEntry>, bitmapBase: nat, page: nat) {
    exists k ::
      && 0 <= k < |entries| && entries[k].usable && entries[k].base != bitmapBase
      && entries[k].base <= 0x1000 * page && 0x1000 * (page + 1) <= entries[k].base + entries[k].length
  }

  /** Released pages are those that lie inside such an entry. */
  lemma ReleasedBytes(entries: seq<MemEntry>, bitmapBase: nat, page: nat)
    requires WellFormedMap(entries)
    ensures Released(entries, |entries|, bitmapBase, page) <==> InsideUsable(entries, bitmapBase, page)
  {
    forall k | 0 <= k < |entries|
      ensures entries[k].Holds(page) <==>
              entries[k].base <= 0x1000 * page && 0x1000 * (page + 1) <= entries[k].base + entries[k].length
    {
      HoldsBytes(entries[k], page);
    }
  }

  /** No two entries share a byte. */
  ghost predicate BytesApart(entries: seq<MemEntry>) {
    forall i, j :: 0 <= i < |entries| && 0 <= j < |entries| && i != j ==>
      entries[i].base + entries[i].length <= entries[j].base || entries[j].base + entries[j].length <= entries[i].base
  }

  /** So in a map of disjoint entries no freed page has a byte in an entry that is not usable or in the one
      that the bitmap is in. */
  lemma FreedApart(entries: seq<MemEntry>, bitmapBase: nat, page: nat, i: nat, addr: nat)
    requires BytesApart(entries) && InsideUsable(entries, bitmapBase, page) && i < |entries|
    requires !entries[i].usable || entries[i].base == bitmapBase
    requires entries[i].base <= addr < entries[i].base + entries[i].length
    ensures !(0x1000 * page <= addr < 0x1000 * (page + 1))
  {
    var k :| && 0 <= k < |entries| && entries[k].usable && entries[k].base != bitmapBase
             && entries[k].base <= 0x1000 * page && 0x1000 * (page + 1) <= entries[k].base + entries[k].length;
    assert k != i;
  }

  lemma ReleasedStep(entries: seq<MemEntry>, k: nat, bitmapBase: nat)
    requires k < |entries| && WellFormedMap(entries)
    ensures forall p: nat :: Released(entries, k + 1, bitmapBase, p) <==>
              || Released(entries, k, bitmapBase, p)
              || (entries[k].usable && entries[k].base != bitmapBase && entries[k].Holds(p))
    ensures forall p: nat :: entries[k].usable && entries[k].Holds(p) ==> !Released(entries, k, bitmapBase, p)
  {
  }

  /** The end of the highest of the first `n` entries that are usable. */
  ghost function Highest(entries: seq<MemEntry>, n: nat): nat
    requires n <= |entries|
  {
    if n == 0 then 0
    else
      var e, h := entries[n - 1], Highest(entries, n - 1);
      if e.usable && h < e.base + e.length then e.base + e.length else h
  }

  /** Every usable entry ends at or below `h`, and `h` is 0 or the end of one of them. */
  ghost predicate IsHighest(entries: seq<MemEntry>, n: nat, h: nat)
    requires n <= |entries|
  {
    && (forall k :: 0 <= k < n && entries[k].usable ==> entries[k].base + entries[k].length <= h)
    && (h == 0 || exists k :: 0 <= k < n && entries[k].usable && entries[k].base + entries[k].length == h)
  }

  lemma {:induction false} HighestIsHighest(entries: seq<MemEntry>, n: nat)
    requires n <= |entries|
    ensures IsHighest(entries, n, Highest(entries, n))
  {
    if n == 0 {
    } else {
      HighestIsHighest(entries, n - 1);
    }
  }

  /** Releasing an entry whose pages are not released yet sets a bit for each of them but those past the end. */
  lemma CountReleased(bits: seq<bool>, e: MemEntry)
    requires forall p :: 0 <= p < |bits| && e.Holds(p) ==> !bits[p]
    ensures Count(Fill(bits, e.FirstPage(), e.PageCount(), true)) + e.Past(|bits|) == Count(bits) + e.PageCount()
  {
    var inside := e.PageCount() - e.Past(|bits|);
    if inside == 0 {
      assert Fill(bits, e.FirstPage(), e.PageCount(), true) == bits;
    } else {
      CountFill(bits, e.FirstPage(), inside, true);
      assert Fill(bits, e.FirstPage(), e.PageCount(), true) == Fill(bits, e.FirstPage(), inside, true);
    }
  }

  lemma StaleCount(entries: seq<MemEntry>, bitmapBase: nat, stale: seq<bool>, released: seq<bool>, bits: seq<bool>)
    requires |bits| == |stale| == |released| && FreesReleased(entries, bitmapBase, released)
    requires forall p :: 0 <= p < |bits| ==> (bits[p] <==> stale[p] || released[p])
    ensures Count(bits) == Count(released) + Count(Leftover(entries, bitmapBase, stale))
    ensures CleanFor(entries, bitmapBase, stale) ==> Count(Leftover(entries, bitmapBase, stale)) == 0
  {
    hide Count, Released;
    var left := Leftover(entries, bitmapBase, stale);
    CountUnion(bits, released, left);
    if CleanFor(entries, bitmapBase, stale) {
      CountZero(left);
    }
  }

  lemma StartsRight(entries: seq<MemEntry>, bitmapBase: nat, stale: seq<bool>, released: seq<bool>, s: State)
    requires |s.bits| == |stale| == |released| && FreesReleased(entries, bitmapBase, released) && s.live == []
    requires forall p :: 0 <= p < |stale| ==> (s.bits[p] <==> stale[p] || released[p])
    requires s.avail == Count(released) + Spilled(entries, |entries|, bitmapBase, |stale|)
    ensures s.avail - Count(s.bits) ==
            Spilled(entries, |entries|, bitmapBase, |stale|) - Count(Leftover(entries, bitmapBase, stale))
    ensures Inv(s) && FreesReleased(entries, bitmapBase, s.bits) <==>
            CleanFor(entries, bitmapBase, stale) && Spilled(entries, |entries|, bitmapBase, |stale|) == 0
  {
    hide Count, Released, Spilled, Leftover;
    StaleCount(entries, bitmapBase, stale, released, s.bits);
  }

  /** Size in bytes of the bitmap, rounded down. */
  ghost function Needed(entries: seq<MemEntry>): nat {
    Highest(entries, |entries|) / PAGE_SIZE / 8
  }

  /** The bitmap has eight bits a byte, one a page up to the highest usable address, rounded down. */
  lemma BitmapReach(entries: seq<MemEntry>)
    ensures 8 * Needed(entries) * 0x1000 <= Highest(entries, |entries|) < 8 * Needed(entries) * 0x1000 + 8 * 0x1000
  {
  }

  ghost predicate Fits(entries: seq<MemEntry>, k: int) {
    0 <= k < |entries| && entries[k].usable && entries[k].length >= Needed(entries)
  }

  class FrameAllocator {
    var bitmap: array<bool>
    var lastAllocatedIdx: nat
    var availPages: int

    /** Whole bytes, page numbers that fit the 32-bit arithmetic of the code, and a counter that
        agrees with the bitmap. */
    ghost predicate Valid()
      reads this, bitmap
    {
      WellShaped() && availPages == Count(Bits())
    }

    ghost predicate WellShaped()
      reads this
    {
      bitmap.Length % 8 == 0 && bitmap.Length <= TWO_32 && 8 * lastAllocatedIdx <= bitmap.Length
    }

    ghost function Bits(): seq<bool>
      reads this`bitmap, bitmap
    {
      bitmap[..]
    }

    /** The allocator's state when its clients hold `live`. */
    ghost function TheState(live: seq<Grant>): State
      reads this, bitmap
    {
      State(Bits(), lastAllocatedIdx, availPages, live)
    }

    /** The zero-initialised static allocator, before init_pmm. */
    constructor ()
      ensures fresh(bitmap) && Bits() == [] && Valid()
    {
      bitmap := new bool[0];
      lastAllocatedIdx := 0;
      availPages := 0;
    }

    /** init_pmm, over bitmap memory that holds the bits `stale`: it is never cleared. A page whose byte lies
        past the truncated bitmap is counted but has no bit. So the free pages are those released, and their
        number is the counter, exactly when no other page's bit was set before and none lies there. */
    method Init(entries: seq<MemEntry>, stale: seq<bool>) returns (ok: bool, ghost bitmapBase: nat)
      requires WellFormedMap(entries) && availPages == 0 && |stale| == 8 * Needed(entries)
      modifies this
      ensures ok <==> exists k :: Fits(entries, k)
      ensures ok ==>
                exists k ::
                  Fits(entries, k) && entries[k].base == bitmapBase && forall j :: 0 <= j < k ==> !Fits(entries, j)
      ensures ok ==> fresh(bitmap) && WellShaped() && bitmap.Length == |stale|
      ensures ok ==> forall p :: 0 <= p < bitmap.Length ==>
                (Bits()[p] <==> stale[p] || Released(entries, |entries|, bitmapBase, p))
      ensures ok && CleanFor(entries, bitmapBase, stale) ==>
                forall p :: 0 <= p < bitmap.Length ==> (Bits()[p] <==> InsideUsable(entries, bitmapBase, p))
      ensures ok ==>
                availPages - Count(Bits()) ==
                Spilled(entries, |entries|, bitmapBase, |stale|) - Count(Leftover(entries, bitmapBase, stale))
      ensures ok ==>
                (Inv(TheState([])) && FreesReleased(entries, bitmapBase, Bits()) <==>
                 CleanFor(entries, bitmapBase, stale) && Spilled(entries, |entries|, bitmapBase, |stale|) == 0)
    {
      hide Count, Released, Spilled, Highest, FreesReleased, CleanFor, InsideUsable, Inv;
      var highest := HighestAddress(entries);
      var needed := highest / PAGE_SIZE / 8;
      var n := 0;
      while n < |entries| && !(entries[n].length >= needed && entries[n].usable)
        invariant 0 <= n <= |entries| && forall j :: 0 <= j < n ==> !Fits(entries, j)
        modifies {}
      {
        n := n + 1;
      }
      if n == |entries| {
        return false, 0;
      }
      assert Fits(entries, n);
      bitmapBase := entries[n].base;
      bitmap := new bool[8 * needed](p requires 0 <= p < |stale| => stale[p]);
      assert Bits() == stale;
      ghost var released := ReleaseAll(entries, entries[n].base);
      lastAllocatedIdx := 0;
      StartsRight(entries, bitmapBase, stale, released, TheState([]));
      forall p | 0 <= p < bitmap.Length && CleanFor(entries, bitmapBase, stale)
        ensures Bits()[p] <==> InsideUsable(entries, bitmapBase, p)
      {
        CleanBit(entries, bitmapBase, stale, p);
        ReleasedBytes(entries, bitmapBase, p);
      }
      ok := true;
    }

    /** The last loop of init_pmm. */
    method ReleaseAll(entries: seq<MemEntry>, bitmapBase: nat) returns (ghost released: seq<bool>)
      requires WellFormedMap(entries) && bitmap.Length % 8 == 0 && availPages == 0
      modifies this`availPages, bitmap
      ensures |released| == bitmap.Length && FreesReleased(entries, bitmapBase, released)
      ensures forall p :: 0 <= p < bitmap.Length ==> (Bits()[p] <==> old(Bits())[p] || released[p])
      ensures availPages == Count(released) + Spilled(entries, |entries|, bitmapBase, bitmap.Length)
    {
      released := seq(bitmap.Length, _ => false);
      CountZero(released);
      for k := 0 to |entries|
        invariant |released| == bitmap.Length
        invariant forall p :: 0 <= p < |released| ==> (released[p] <==> Released(entries, k, bitmapBase, p))
        invariant forall p :: 0 <= p < bitmap.Length ==> (Bits()[p] <==> old(Bits())[p] || released[p])
        invariant availPages == Count(released) + Spilled(entries, k, bitmapBase, bitmap.Length)
      {
        ReleasedStep(entries, k, bitmapBase);
        if entries[k].usable && entries[k].base != bitmapBase {
          ReleaseEntry(entries[k]);
          CountReleased(released, entries[k]);
          released := Fill(released, entries[k].FirstPage(), entries[k].PageCount(), true);
        }
      }
    }

    /** The first loop of init_pmm. */
    method HighestAddress(entries: seq<MemEntry>) returns (highest: nat)
      requires WellFormedMap(entries)
      ensures highest == Highest(entries, |entries|) <= PAGE_SIZE * TWO_32
      ensures IsHighest(entries, |entries|, highest)
    {
      HighestIsHighest(entries, |entries|);
      highest := 0;
      for k := 0 to |entries|
        invariant highest == Highest(entries, k) <= PAGE_SIZE * TWO_32
      {
        if entries[k].usable && highest < entries[k].base + entries[k].length {
          highest := entries[k].base + entries[k].length;
        }
      }
    }

    /** The inner loop of init_pmm over one usable region; it counts pages without a bit, too. */
    method ReleaseEntry(e: MemEntry)
      requires bitmap.Length % 8 == 0
      modifies this`availPages, bitmap
      ensures Bits() == Fill(old(Bits()), e.FirstPage(), e.PageCount(), true)
      ensures availPages == old(availPages) + e.PageCount()
    {
      var first, n := e.base / PAGE_SIZE, e.length / PAGE_SIZE;
      ghost var bits := Bits();
      FillStep(bits, first, 0, true);
      for i := 0 to n
        invariant Bits() == Fill(bits, first, i, true) && availPages == old(availPages) + i
      {
        var addr := first + i;
        FillStep(bits, first, i, true);
        if addr / 8 < bitmap.Length / 8 {
          bitmap[addr] := true;
        }
        availPages := availPages + 1;
      }
    }

    /** The two nested scanning loops of kpalloc: takes the first free page of bytes lo..hi. */
    method TakeFirst(lo: nat, hi: nat) returns (found: bool, page: nat)
      requires Valid() && lo <= hi && 8 * hi <= bitmap.Length
      modifies this`availPages, this`lastAllocatedIdx, bitmap
      ensures Valid()
      ensures !found ==> Bits() == old(Bits()) && lastAllocatedIdx == old(lastAllocatedIdx)
      ensures !found ==> forall q :: 8 * lo <= q < 8 * hi ==> !Bits()[q]
      ensures found ==> 8 * lo <= page < 8 * hi && old(Bits()[page]) && Bits() == old(Bits())[page := false]
      ensures found ==> forall q :: 8 * lo <= q < page ==> !old(Bits()[q])
      ensures found ==> lastAllocatedIdx == page / 8
      ensures availPages == old(availPages) - if found then 1 else 0
    {
      for i := lo to hi
        invariant Valid() && Bits() == old(Bits()) && lastAllocatedIdx == old(lastAllocatedIdx)
        invariant forall q :: 8 * lo <= q < 8 * i ==> !Bits()[q]
      {
        for j := 0 to 8
          invariant Valid() && Bits() == old(Bits()) && lastAllocatedIdx == old(lastAllocatedIdx)
          invariant forall q :: 8 * lo <= q < 8 * i + j ==> !Bits()[q]
        {
          page := 8 * i + j;
          if bitmap[page] {
            Take(i, page);
            return true, page;
          }
        }
      }
      return false, 0;
    }

    method Take(i: nat, page: nat)
      requires Valid() && page < bitmap.Length && bitmap[page] && page / 8 == i
      modifies this`availPages, this`lastAllocatedIdx, bitmap
      ensures Valid() && Bits() == old(Bits())[page := false] && lastAllocatedIdx == i
      ensures availPages == old(availPages) - 1
    {
      CountUpdate(Bits(), page, false);
      bitmap[page] := false;
      availPages := availPages - 1;
      lastAllocatedIdx := i;
    }

    /** kpalloc. */
    method KpAlloc() returns (addr: nat)
      requires Valid()
      modifies this`availPages, this`lastAllocatedIdx, bitmap
      ensures Valid()
      ensures AllocStep(old(Bits()), old(lastAllocatedIdx), old(availPages), Bits(), lastAllocatedIdx, availPages, addr)
    {
      var start := lastAllocatedIdx;
      var found, page := TakeFirst(start, bitmap.Length / 8);
      if !found {
        found, page := TakeFirst(0, start);
      }
      addr := if found then page * PAGE_SIZE else 0;
    }

    /** kpalloc_contignious. */
    method KpAllocContiguous(count: nat) returns (addr: nat, ghost page: nat)
      requires Valid() && count < TWO_32
      modifies this`availPages, bitmap
      ensures Valid()
      ensures ContiguousStep(old(Bits()), old(availPages), count, Bits(), availPages, addr, page)
    {
      var found, first := FindRun(count);
      if !found {
        return 0, 0;
      }
      FirstRun(Bits(), first, count);
      ClearRun(first, count);
      return first * PAGE_SIZE % TWO_32, first;
    }

    /** The nested scanning loops of kpalloc_contignious. */
    method FindRun(count: nat) returns (found: bool, page: nat)
      requires Valid()
      ensures found ==> IsRun(Bits(), page, count) && NoRunBelow(Bits(), page, count)
      ensures !found ==> forall q: nat :: !IsRun(Bits(), q, count)
    {
      for i := 0 to bitmap.Length / 8
        invariant NoRunBelow(Bits(), 8 * i, count)
      {
        for j := 0 to 8
          invariant NoRunBelow(Bits(), 8 * i + j, count)
        {
          if bitmap[8 * i + j] {
            var z := RunLength(i, j, count);
            if z == count {
              return true, 8 * i + j;
            }
          }
        }
      }
      NoRun(Bits(), count);
      return false, 0;
    }

    /** The clearing loop of kpalloc_contignious. */
    method ClearRun(page: nat, count: nat)
      requires Valid() && IsRun(Bits(), page, count)
      modifies this`availPages, bitmap
      ensures Valid() && Bits() == Fill(old(Bits()), page, count, false) && availPages == old(availPages) - count
    {
      CountFill(Bits(), page, count, false);
      FillStep(Bits(), page, 0, false);
      for z := 0 to count
        invariant Bits() == Fill(old(Bits()), page, z, false)
        modifies bitmap
      {
        FillStep(old(Bits()), page, z, false);
        bitmap[page + z] := false;
      }
      availPages := availPages - count;
    }

    /** The inner loop of kpalloc_contignious: stops at the first clear bit; getbit of a byte widened
        to 64 bits reads 0 past the byte. The result equals `count` exactly when a run starts here. */
    method RunLength(i: nat, j: nat, count: nat) returns (z: nat)
      requires bitmap.Length % 8 == 0 && i < bitmap.Length / 8 && j < 8 && bitmap[8 * i + j]
      ensures z == count <==> IsRun(Bits(), 8 * i + j, count)
    {
      z := 1;
      while z < count
        invariant 1 <= z && j + z <= 8 && (z <= count || z == 1)
        invariant forall q :: 8 * i + j <= q < 8 * i + j + z ==> Bits()[q]
        decreases count - z
      {
        if j + z == 8 || !bitmap[8 * i + j + z] {
          assert j + z < 8 ==> !Bits()[8 * i + j + z];
          return;
        }
        z := z + 1;
      }
    }

    /** kpfree. Freeing a page that is free already breaks the counter, and nothing else does. */
    method KpFree(addr: nat)
      requires Valid() && addr / PAGE_SIZE < bitmap.Length
      modifies this`availPages, bitmap
      ensures Bits() == old(Bits())[addr / PAGE_SIZE := true]
      ensures availPages == old(availPages) + 1
      ensures Valid() <==> !old(Bits()[addr / PAGE_SIZE])
    {
      var page := addr / PAGE_SIZE;
      CountUpdate(Bits(), page, true);
      bitmap[page] := true;
      availPages := availPages + 1;
    }

    /** A client gives a whole allocation back, one kpfree a page. */
    method GiveBack(g: Grant)
      requires Valid() && g.Taken(Bits())
      modifies this`availPages, bitmap
      ensures Valid() && ReturnStep(old(Bits()), old(availPages), g, Bits(), availPages)
    {
      ghost var bits := Bits();
      FillStep(bits, g.page, 0, true);
      for i := 0 to g.count
        invariant Valid() && Bits() == Fill(bits, g.page, i, true) && availPages == old(availPages) + i
      {
        FillStep(bits, g.page, i, true);
        KpFree((g.page + i) * PAGE_SIZE);
      }
    }
  }

  // ----- runs ---------------------------------------------------------------

  /** An allocation the client still holds. */
  datatype Grant = Grant(page: nat, count: nat) {
    ghost predicate Taken(bits: seq<bool>) {
      page + count <= |bits| && forall p :: page <= p < page + count ==> !bits[p]
    }

    predicate Apart(g: Grant) { page + count <= g.page || g.page + g.count <= page }
  }

  datatype State = State(bits: seq<bool>, last: nat, avail: int, live: seq<Grant>)

  datatype Call = Alloc(addr: nat) | Contiguous(count: nat, addr: nat, page: nat) | Return(k: nat)

  /** What giving a whole allocation back does. */
  ghost predicate ReturnStep(bits: seq<bool>, avail: int, g: Grant, bits': seq<bool>, avail': int) {
    bits' == Fill(bits, g.page, g.count, true) && avail' == avail + g.count
  }

  /** One call: what KpAlloc, KpAllocContiguous and GiveBack promise. */
  ghost predicate Next(s: State, call: Call, s': State) {
    match call
    case Alloc(addr) =>
      && AllocStep(s.bits, s.last, s.avail, s'.bits, s'.last, s'.avail, addr)
      && s'.live == if NoneFree(s.bits) then s.live else s.live + [Grant(addr / PAGE_SIZE, 1)]
    case Contiguous(count, addr, page) =>
      && ContiguousStep(s.bits, s.avail, count, s'.bits, s'.avail, addr, page) && s'.last == s.last
      && s'.live == if forall q: nat :: !IsRun(s.bits, q, count) then s.live else s.live + [Grant(page, count)]
    case Return(k) =>
      && k < |s.live| && ReturnStep(s.bits, s.avail, s.live[k], s'.bits, s'.avail) && s'.last == s.last
      && s'.live == s.live[..k] + s.live[k + 1..]
  }

  ghost predicate Disjoint(live: seq<Grant>) {
    forall i, j :: 0 <= i < j < |live| ==> live[i].Apart(live[j])
  }

  /** No live allocation overlaps another or holds a free page. */
  ghost predicate Inv(s: State) {
    && s.avail == Count(s.bits)
    && Disjoint(s.live)
    && forall k :: 0 <= k < |s.live| ==> s.live[k].count >= 1 && s.live[k].Taken(s.bits)
  }

  ghost function Held(live: seq<Grant>): nat {
    if live == [] then 0 else Held(live[..|live| - 1]) + live[|live| - 1].count
  }

  lemma {:induction false} HeldRemove(live: seq<Grant>, k: nat)
    requires k < |live|
    ensures Held(live) == Held(live[..k] + live[k + 1..]) + live[k].count
  {
    var last := |live| - 1;
    var rest := live[..k] + live[k + 1..];
    if k == last {
      assert rest == live[..last];
    } else {
      HeldRemove(live[..last], k);
      assert rest[..last - 1] == live[..last][..k] + live[..last][k + 1..];
    }
  }

  lemma GrantKeeps(s: State, s': State, g: Grant)
    requires Inv(s) && s'.avail == s.avail - g.count
    requires g.count >= 1 && g.page + g.count <= |s.bits| && forall p :: g.page <= p < g.page + g.count ==> s.bits[p]
    requires s'.bits == Fill(s.bits, g.page, g.count, false) && s'.live == s.live + [g]
    ensures Inv(s') && Held(s'.live) + s'.avail == Held(s.live) + s.avail
  {
    CountFill(s.bits, g.page, g.count, false);
    assert s'.live[..|s.live|] == s.live;
    forall i | 0 <= i < |s.live| ensures s.live[i].Apart(g) {
      var p := if s.live[i].page < g.page then g.page else s.live[i].page;
      assert p < |s.bits| ==> s.bits[p] || !s.bits[p];
    }
  }

  lemma RemoveKeepsDisjoint(live: seq<Grant>, k: nat)
    requires k < |live| && Disjoint(live)
    ensures Disjoint(live[..k] + live[k + 1..])
  {
    var rest := live[..k] + live[k + 1..];
    assert forall i :: 0 <= i < |rest| ==> rest[i] == live[if i < k then i else i + 1];
  }

  lemma ApartStaysTaken(bits: seq<bool>, freed: Grant, g: Grant)
    requires g.Taken(bits) && g.Apart(freed)
    ensures g.Taken(Fill(bits, freed.page, freed.count, true))
  {
  }

  lemma ReturnKeeps(s: State, s': State, k: nat)
    requires Inv(s) && k < |s.live| && ReturnStep(s.bits, s.avail, s.live[k], s'.bits, s'.avail)
    requires s'.live == s.live[..k] + s.live[k + 1..]
    ensures Inv(s') && Held(s'.live) + s'.avail == Held(s.live) + s.avail
  {
    var g := s.live[k];
    CountFill(s.bits, g.page, g.count, true);
    HeldRemove(s.live, k);
    RemoveKeepsDisjoint(s.live, k);
    forall i | 0 <= i < |s'.live| ensures s'.live[i].count >= 1 && s'.live[i].Taken(s'.bits) {
      var j := if i < k then i else i + 1;
      assert s'.live[i] == s.live[j];
      assert if j < k then s.live[j].Apart(g) else g.Apart(s.live[j]);
      ApartStaysTaken(s.bits, g, s.live[j]);
    }
  }

  ghost predicate IsRunOf(states: seq<State>, calls: seq<Call>) {
    |states| == |calls| + 1 && forall i :: 0 <= i < |calls| ==> Next(states[i], calls[i], states[i + 1])
  }

  lemma StepKeeps(states: seq<State>, calls: seq<Call>, n: nat)
    requires IsRunOf(states, calls) && n < |calls| && Inv(states[n])
    ensures Inv(states[n + 1])
    ensures Held(states[n + 1].live) + states[n + 1].avail == Held(states[n].live) + states[n].avail
  {
    var s, s' := states[n], states[n + 1];
    match calls[n]
    case Alloc(addr) =>
      if !NoneFree(s.bits) {
        assert s'.bits == Fill(s.bits, addr / PAGE_SIZE, 1, false);
        GrantKeeps(s, s', Grant(addr / PAGE_SIZE, 1));
      }
    case Contiguous(count, addr, page) =>
      if !(forall q: nat :: !IsRun(s.bits, q, count)) {
        GrantKeeps(s, s', Grant(page, count));
      }
    case Return(k) =>
      ReturnKeeps(s, s', k);
  }

  /** Over any run of calls live allocations stay disjoint from each other and from the free pages,
      the counter stays right, and no page is lost: held and free pages always add up the same. */
  lemma {:induction false} RunKeeps(states: seq<State>, calls: seq<Call>, n: nat)
    requires IsRunOf(states, calls) && Inv(states[0]) && n <= |calls|
    ensures Inv(states[n]) && Held(states[n].live) + states[n].avail == Held(states[0].live) + states[0].avail
    decreases n
  {
    if n == 0 {
    } else {
      RunKeeps(states, calls, n - 1);
      StepKeeps(states, calls, n - 1);
    }
  }
}
