/** Address spaces built from page tables (map_range in src/mm/npaging.cpp, src/mm/paging.cpp): the
    direct map, the kernel range, and user spaces that share the host's higher half. */
module AddressSpaces {
  import opened Common
  import opened PageAllocator
  import opened PageTables

  const PRESENT_RW: bv12 := 3

  /** 64-bit addition of whole pages. */
  function AddPages(w: Word, n: nat): Word {
    Word((w.frame + n) % TWO_52, w.low)
  }

  function ToHigherHalf(w: Word): Word {
    AddPages(w, HIGHER_HALF)
  }

  function ToWord(addr: nat): Word
    requires addr < TWO_52
  {
    Word(addr / PAGE_SIZE, (addr % PAGE_SIZE) as bv12)
  }

  /** A word as the 64-bit number it stands for. */
  function Number(w: Word): nat {
    4096 * w.frame + w.low as nat
  }

  /** The higher half begins 0xffff800000000000 bytes up; what lies below 2^47 is moved there as it is. */
  lemma HigherHalfNumber(w: Word)
    requires Number(w) < 0x8000_0000_0000
    ensures Number(ToHigherHalf(w)) == Number(w) + 0xffff_8000_0000_0000
  {
  }

  /** And is then found through the upper half of a top-level table. */
  lemma HigherHalfTop(w: Word)
    requires w.frame < 0x8_0000_0000
    ensures 256 <= Index(ToHigherHalf(w), 0) < 512
    ensures Index(ToHigherHalf(w), 0) - 256 == w.frame / 0x800_0000
  {
    assert HIGHER_HALF == 0x1ff_ff00 * 0x800_0000;
  }

  // ----- ranges -------------------------------------------------------------

  /** The last page of the range virt .. virt+n-1 that lies at address `a`. */
  function LastHit(virt: Word, n: nat, a: Word): Option<nat> {
    if n == 0 then None
    else if SamePage(AddPages(virt, n - 1), a) then Some(n - 1)
    else LastHit(virt, n - 1, a)
  }

  /** A range of fewer than 2^36 pages meets every address at most once. */
  lemma {:induction false} HitUnique(virt: Word, n: nat, a: Word, i: nat)
    requires i < n <= TWO_36 && SamePage(AddPages(virt, i), a)
    ensures LastHit(virt, n, a) == Some(i)
    decreases n
  {
    if i == n - 1 {
    } else {
      HitUnique(virt, n - 1, a, i);
      if SamePage(AddPages(virt, n - 1), a) {
        PagesApart(virt.frame, i, n - 1);
      }
    }
  }

  lemma PagesApart(f: nat, i: nat, j: nat)
    requires i < j < i + TWO_36
    ensures (f + i) % TWO_52 % TWO_36 != (f + j) % TWO_52 % TWO_36
  {
    ModMod(f + i);
    ModMod(f + j);
  }

  lemma ModMod(x: nat)
    ensures x % TWO_52 % TWO_36 == x % TWO_36
  {
    var q := x / TWO_52;
    assert x == q * TWO_52 + x % TWO_52;
    assert q * TWO_52 == q * 0x1_0000 * TWO_36;
  }

  /** Pages virt .. virt+n-1. */
  datatype Range = Range(virt: Word, n: nat) {
    predicate Hits(a: Word) { LastHit(virt, n, a).Some? }
  }

  predicate HitBy(ranges: seq<Range>, a: Word) {
    exists k :: 0 <= k < |ranges| && ranges[k].Hits(a)
  }

  /** Mapping these ranges through `root` changes translations at their addresses only, and another
      root's only in the higher half. */
  ghost predicate KeepsOutside(m: Memory, labels: Labels, root: nat, ranges: seq<Range>, m': Memory) {
    forall r, a :: IsRoot(labels, r) && (!HitBy(ranges, a) || (r != root && Index(a, 0) < 256)) ==>
      LeafWord(m', r, a) == LeafWord(m, r, a)
  }

  lemma OutsideConcat(m: Memory, labels: Labels, root: nat, rs: seq<Range>, m1: Memory, labels1: Labels, ts: seq<Range>,
      m2: Memory)
    requires KeepsOutside(m, labels, root, rs, m1) && KeepsOutside(m1, labels1, root, ts, m2)
    requires Extends(labels, labels1)
    ensures KeepsOutside(m, labels, root, rs + ts, m2)
  {
    forall r, a | IsRoot(labels, r) && (!HitBy(rs + ts, a) || (r != root && Index(a, 0) < 256))
      ensures LeafWord(m2, r, a) == LeafWord(m, r, a)
    {
      assert HitBy(rs, a) || HitBy(ts, a) ==> HitBy(rs + ts, a) by {
        assert forall k :: 0 <= k < |rs| ==> (rs + ts)[k] == rs[k];
        assert forall k :: 0 <= k < |ts| ==> (rs + ts)[|rs| + k] == ts[k];
      }
    }
  }

  /** One page more. */
  lemma OutsideStep(m: Memory, labels: Labels, root: nat, virt: Word, i: nat, m1: Memory, labels1: Labels, m2: Memory)
    requires KeepsOutside(m, labels, root, [Range(virt, i)], m1) && Extends(labels, labels1)
    requires KeepsOthers(m1, labels1, root, AddPages(virt, i), m2)
    ensures KeepsOutside(m, labels, root, [Range(virt, i + 1)], m2)
  {
    forall r, a | IsRoot(labels, r) && (!HitBy([Range(virt, i + 1)], a) || (r != root && Index(a, 0) < 256))
      ensures LeafWord(m2, r, a) == LeafWord(m, r, a)
    {
      assert Range(virt, i).Hits(a) || SamePage(a, AddPages(virt, i)) ==> [Range(virt, i + 1)][0].Hits(a);
      assert HitBy([Range(virt, i)], a) ==> Range(virt, i).Hits(a);
      if SamePage(a, AddPages(virt, i)) {
        SamePageIndexes(a, AddPages(virt, i));
        PrefixIndexes(a);
        PrefixIndexes(AddPages(virt, i));
      }
    }
  }

  /** What keeps the outside of a range keeps that of a longer one. */
  lemma ShorterRange(m: Memory, labels: Labels, root: nat, virt: Word, i: nat, n: nat, m': Memory)
    requires KeepsOutside(m, labels, root, [Range(virt, i)], m') && i <= n
    ensures KeepsOutside(m, labels, root, [Range(virt, n)], m')
  {
    forall a | HitBy([Range(virt, i)], a) ensures HitBy([Range(virt, n)], a) {
      HitStays(virt, i, n, a);
      assert [Range(virt, n)][0].Hits(a);
    }
  }

  lemma {:induction false} HitStays(virt: Word, i: nat, n: nat, a: Word)
    requires i <= n && LastHit(virt, i, a).Some?
    ensures LastHit(virt, n, a).Some?
    decreases n
  {
    if i == n {
    } else {
      HitStays(virt, i, n - 1, a);
    }
  }

  /** map_range: the last write to a page wins, whatever the length of the range. */
  method MapRange(mach: Machine, cr3: Frame, virt: Word, phys: Word, n: nat, flags: bv12) returns (ok: bool)
    requires mach.Valid() && IsRoot(mach.labels, mach.Root(cr3))
    modifies mach`labels, mach.words, mach.pmm`availPages, mach.pmm`lastAllocatedIdx, mach.pmm.bitmap
    ensures mach.Valid() && Extends(old(mach.labels), mach.labels)
    ensures ok && Word(0, flags).Present() ==> forall a ::
              LeafWord(mach.Mem(), mach.Root(cr3), a) ==
              match LastHit(virt, n, a)
              case None => LeafWord(old(mach.Mem()), mach.Root(cr3), a)
              case Some(i) => Word(AddPages(phys, i).frame, phys.low | flags)
    ensures KeepsOutside(old(mach.Mem()), old(mach.labels), mach.Root(cr3), [Range(virt, n)], mach.Mem())
  {
    ghost var m0, labels0, root := mach.Mem(), mach.labels, mach.Root(cr3);
    ok := true;
    for i := 0 to n
      invariant mach.Valid() && Extends(old(mach.labels), mach.labels)
      invariant KeepsOutside(m0, labels0, root, [Range(virt, i)], mach.Mem())
      invariant Word(0, flags).Present() ==> forall a ::
              LeafWord(mach.Mem(), mach.Root(cr3), a) ==
              match LastHit(virt, i, a)
              case None => LeafWord(old(mach.Mem()), mach.Root(cr3), a)
              case Some(k) => Word(AddPages(phys, k).frame, phys.low | flags)
    {
      ghost var m, labels := mach.Mem(), mach.labels;
      ok := mach.MapPage(AddPages(phys, i), AddPages(virt, i), flags, cr3);
      OutsideStep(m0, labels0, root, virt, i, m, labels, mach.Mem());
      if !ok {
        ShorterRange(m0, labels0, root, virt, i + 1, n, mach.Mem());
        return;
      }
    }
  }

  /** The range of the direct map of one memory-map entry hits the higher-half address of page x
      exactly when x is one of the entry's pages or the extra page after it. */
  lemma DirectHit(base: Word, n: nat, x: nat)
    requires base.frame + n <= TWO_36 && x < TWO_36
    ensures LastHit(ToHigherHalf(base), n, ToHigherHalf(Word(x, 0))) ==
            if base.frame <= x < base.frame + n then Some(x - base.frame) else None
  {
    var virt, a := ToHigherHalf(base), ToHigherHalf(Word(x, 0));
    if base.frame <= x < base.frame + n {
      DirectPage(base, x - base.frame, x);
      HitUnique(virt, n, a, x - base.frame);
    } else {
      forall i: nat | i < n ensures !SamePage(AddPages(virt, i), a) {
        DirectPage(base, i, x);
      }
      NoHit(virt, n, a);
    }
  }

  lemma DirectLeaf(before: Word, after: Word, base: Word, n: nat, x: nat)
    requires base.frame + n <= TWO_36 && x < TWO_36
    requires after == match LastHit(ToHigherHalf(base), n, ToHigherHalf(Word(x, 0)))
                      case None => before
                      case Some(i) => Word(AddPages(base, i).frame, base.low | PRESENT_RW)
    ensures after == if base.frame <= x < base.frame + n then Word(x, base.low | PRESENT_RW) else before
  {
    DirectHit(base, n, x);
  }

  lemma DirectPage(base: Word, i: nat, x: nat)
    requires base.frame + i < TWO_36 && x < TWO_36
    ensures SamePage(AddPages(ToHigherHalf(base), i), ToHigherHalf(Word(x, 0))) <==> base.frame + i == x
  {
    ShiftMod(base.frame + HIGHER_HALF, i);
    ModMod(x + HIGHER_HALF);
    HalfShift(base.frame + i);
    HalfShift(x);
  }

  lemma ShiftMod(y: nat, i: nat)
    ensures (y % TWO_52 + i) % TWO_52 % TWO_36 == (y + i) % TWO_36
  {
    ModMod(y % TWO_52 + i);
    AddMultiple(y % TWO_52 + i, y / TWO_52 * 0x1_0000);
  }

  lemma AddMultiple(x: nat, q: nat)
    ensures (x + q * TWO_36) % TWO_36 == x % TWO_36
  {
    assert x + q * TWO_36 == (x / TWO_36 + q) * TWO_36 + x % TWO_36;
  }

  lemma HalfShift(x: nat)
    requires x < TWO_36
    ensures (x + HIGHER_HALF) % TWO_36 == if x < 0x8_0000_0000 then x + 0x8_0000_0000 else x - 0x8_0000_0000
  {
    assert HIGHER_HALF == 0xffff * TWO_36 + 0x8_0000_0000;
  }

  lemma {:induction false} NoHit(virt: Word, n: nat, a: Word)
    requires forall i: nat :: i < n ==> !SamePage(AddPages(virt, i), a)
    ensures LastHit(virt, n, a) == None
    decreases n
  {
    if n == 0 {
    } else {
      assert !SamePage(AddPages(virt, n - 1), a);
      NoHit(virt, n - 1, a);
    }
  }

  // ----- the initial mappings -----------------------------------------------

  datatype Kernel = Kernel(virtualBase: Word, physicalBase: Word, size: nat) {
    function PageCount(): nat { size / PAGE_SIZE + 1 }
  }

  /** Entry pages, with the extra page that (length / PAGE_SIZE) + 1 adds. */
  ghost predicate Covers(e: MemEntry, x: nat) {
    e.base / PAGE_SIZE <= x <= e.base / PAGE_SIZE + e.length / PAGE_SIZE
  }

  ghost predicate Covered(entries: seq<MemEntry>, k: nat, x: nat)
    requires k <= |entries|
  {
    exists i :: 0 <= i < k && Covers(entries[i], x)
  }

  /** The last of the first k entries that covers page x. */
  ghost function LastCover(entries: seq<MemEntry>, k: nat, x: nat): (i: Option<nat>)
    requires k <= |entries|
    ensures i.Some? ==> i.value < k && Covers(entries[i.value], x)
    ensures Covered(entries, k, x) <==> i.Some?
  {
    if k == 0 then None
    else if Covers(entries[k - 1], x) then Some(k - 1)
    else LastCover(entries, k - 1, x)
  }

  /** Every byte of an entry lies on a covered page exactly when the part of a page before its base and the
      part of a page at its end make up no more than one page. */
  lemma CoversExactlyWhen(e: MemEntry)
    ensures (forall addr: nat :: e.base <= addr < e.base + e.length ==> Covers(e, addr / PAGE_SIZE)) <==>
            e.length == 0 || e.base % PAGE_SIZE + e.length % PAGE_SIZE <= PAGE_SIZE
  {
    var first, offset := e.base / PAGE_SIZE, e.base % PAGE_SIZE;
    if e.length > 0 {
      var last := e.base + e.length - 1;
      LastPage(offset, e.length);
      SamePages(first, offset, e.length - 1);
      assert Covers(e, last / PAGE_SIZE) <==> offset + e.length % PAGE_SIZE <= PAGE_SIZE;
    }
  }

  /** So every byte of a page-aligned entry lies on a covered page. */
  lemma AlignedCovers(e: MemEntry, addr: nat)
    requires e.base % PAGE_SIZE == 0 && e.base <= addr < e.base + e.length
    ensures Covers(e, addr / PAGE_SIZE)
  {
    CoversExactlyWhen(e);
  }

  lemma SamePages(first: nat, offset: nat, b: nat)
    ensures (PAGE_SIZE * first + offset + b) / PAGE_SIZE == first + (offset + b) / PAGE_SIZE
  {
  }

  lemma LastPage(offset: nat, size: nat)
    requires size > 0 && offset < PAGE_SIZE
    ensures (offset + size - 1) / PAGE_SIZE <= size / PAGE_SIZE <==> offset + size % PAGE_SIZE <= PAGE_SIZE
  {
  }

  /** The direct map's word for page x: from the last entry that covers x, its former one when none does. */
  ghost function DirectWord(m0: Memory, root: nat, entries: seq<MemEntry>, k: nat, x: nat): Word
    requires k <= |entries| && x < TWO_36
  {
    match LastCover(entries, k, x)
    case None => LeafWord(m0, root, ToHigherHalf(Word(x, 0)))
    case Some(i) => Word(x, ToWord(entries[i].base).low | PRESENT_RW)
  }

  /** When the entries begin at pages, a covered page is mapped to itself, present and writable. */
  lemma AlignedWord(m0: Memory, root: nat, entries: seq<MemEntry>, x: nat)
    requires x < TWO_36 && Covered(entries, |entries|, x)
    requires forall i :: 0 <= i < |entries| ==> entries[i].base % PAGE_SIZE == 0
    ensures DirectWord(m0, root, entries, |entries|, x) == Word(x, 3)
  {
    hide LeafWord, ToHigherHalf;
    assert (0 as bv12) | 3 == 3;
  }

  ghost predicate DirectMapped(m0: Memory, root: nat, entries: seq<MemEntry>, k: nat, m: Memory)
    requires k <= |entries|
  {
    forall x :: 0 <= x < TWO_36 ==>
      LeafWord(m, root, ToHigherHalf(Word(x, 0))) == DirectWord(m0, root, entries, k, x)
  }

  /** Which page of the kernel range, if any, lies at address `a`. */
  function KernelHit(kernel: Option<Kernel>, a: Word): (hit: Option<nat>)
    ensures hit.Some? ==> kernel.Some?
  {
    if kernel.None? then None else LastHit(kernel.value.virtualBase, kernel.value.PageCount(), a)
  }

  /** Every byte of the kernel lies on a page that the kernel range maps, when the part of a page before its
      base and the part of a page at its end make up no more than one page. */
  lemma KernelByte(kernel: Kernel, b: nat)
    requires b < kernel.size && kernel.PageCount() <= TWO_36
    requires kernel.virtualBase.low as nat + kernel.size % 4096 <= 4096
    ensures var i := (kernel.virtualBase.low as nat + b) / 4096;
            && KernelHit(Some(kernel), AddPages(kernel.virtualBase, i)) == Some(i)
            && 4096 * (kernel.virtualBase.frame + i) <= Number(kernel.virtualBase) + b
            && Number(kernel.virtualBase) + b < 4096 * (kernel.virtualBase.frame + i + 1)
  {
    var offset, i := kernel.virtualBase.low as nat, (kernel.virtualBase.low as nat + b) / 4096;
    LastPage(offset, kernel.size);
    assert i <= (offset + kernel.size - 1) / 4096;
    HitUnique(kernel.virtualBase, kernel.PageCount(), AddPages(kernel.virtualBase, i), i);
  }

  /** The range that init_mappings maps for an entry. */
  function EntryRange(e: MemEntry): Range
    requires e.base / PAGE_SIZE + e.length / PAGE_SIZE + 1 <= TWO_36
  {
    Range(ToHigherHalf(ToWord(e.base)), e.length / PAGE_SIZE + 1)
  }

  predicate InReach(entries: seq<MemEntry>) {
    forall i :: 0 <= i < |entries| ==> entries[i].base / PAGE_SIZE + entries[i].length / PAGE_SIZE + 1 <= TWO_36
  }

  function EntryRanges(entries: seq<MemEntry>, k: nat): (rs: seq<Range>)
    requires InReach(entries) && k <= |entries|
    ensures |rs| == k
  {
    seq(k, i requires 0 <= i < k => EntryRange(entries[i]))
  }

  function KernelRanges(kernel: Option<Kernel>): seq<Range> {
    if kernel.None? then [] else [Range(kernel.value.virtualBase, kernel.value.PageCount())]
  }

  /** One entry of init_mappings; the extra page it maps agrees with its neighbour's first. */
  method MapEntry(mach: Machine, memmap: Frame, ghost m0: Memory, ghost entries: seq<MemEntry>, ghost k: nat,
                  e: MemEntry)
    returns (ok: bool)
    requires mach.Valid() && IsRoot(mach.labels, mach.Root(memmap))
    requires k < |entries| && entries[k] == e && e.base / PAGE_SIZE + e.length / PAGE_SIZE + 1 <= TWO_36
    requires DirectMapped(m0, mach.Root(memmap), entries, k, mach.Mem())
    modifies mach`labels, mach.words, mach.pmm`availPages, mach.pmm`lastAllocatedIdx, mach.pmm.bitmap
    ensures mach.Valid() && Extends(old(mach.labels), mach.labels)
    ensures ok ==> DirectMapped(m0, mach.Root(memmap), entries, k + 1, mach.Mem())
    ensures KeepsOutside(old(mach.Mem()), old(mach.labels), mach.Root(memmap), [EntryRange(e)], mach.Mem())
  {
    hide Machine.Valid, DirectMapped, LastHit, KeepsOutside, ToHigherHalf, AddPages, LeafWord;
    var base, n := ToWord(e.base), e.length / PAGE_SIZE + 1;
    ok := MapRange(mach, memmap, ToHigherHalf(base), base, n, PRESENT_RW);
    if ok {
      EntryMapped(m0, old(mach.Mem()), mach.Mem(), mach.Root(memmap), entries, k, base, n);
    }
  }

  lemma EntryMapped(m0: Memory, m: Memory, m': Memory, root: nat, entries: seq<MemEntry>, k: nat, base: Word, n: nat)
    requires k < |entries| && n == entries[k].length / PAGE_SIZE + 1 && entries[k].base / PAGE_SIZE + n <= TWO_36
    requires base == ToWord(entries[k].base)
    requires DirectMapped(m0, root, entries, k, m)
    requires forall a :: LeafWord(m', root, a) ==
               match LastHit(ToHigherHalf(base), n, a)
               case None => LeafWord(m, root, a)
               case Some(i) => Word(AddPages(base, i).frame, base.low | PRESENT_RW)
    ensures DirectMapped(m0, root, entries, k + 1, m')
  {
    hide LastHit, ToHigherHalf, AddPages, LeafWord;
    forall x | 0 <= x < TWO_36
      ensures LeafWord(m', root, ToHigherHalf(Word(x, 0))) == DirectWord(m0, root, entries, k + 1, x)
    {
      var a := ToHigherHalf(Word(x, 0));
      DirectLeaf(LeafWord(m, root, a), LeafWord(m', root, a), base, n, x);
      assert Covers(entries[k], x) <==> base.frame <= x < base.frame + n;
    }
  }

  /** init_mappings: the direct map of the whole memory map, then the kernel range over it. A page has the
      direct map's word unless the kernel range hits its address, and the kernel range is mapped as
      requested in every case. No other address changes its leaf entry. */
  method InitMappings(mach: Machine, memmap: Frame, entries: seq<MemEntry>, kernel: Option<Kernel>) returns (ok: bool)
    requires mach.Valid() && IsRoot(mach.labels, mach.Root(memmap))
    requires InReach(entries)
    modifies mach`labels, mach.words, mach.pmm`availPages, mach.pmm`lastAllocatedIdx, mach.pmm.bitmap
    ensures mach.Valid() && Extends(old(mach.labels), mach.labels)
    ensures ok ==> forall x :: 0 <= x < TWO_36 ==>
              var a := ToHigherHalf(Word(x, 0));
              KernelHit(kernel, a).None? ==>
                LeafWord(mach.Mem(), mach.Root(memmap), a) ==
                DirectWord(old(mach.Mem()), mach.Root(memmap), entries, |entries|, x)
    ensures ok ==> forall a ::
              var hit := KernelHit(kernel, a);
              hit.Some? ==>
                LeafWord(mach.Mem(), mach.Root(memmap), a) ==
                Word(AddPages(kernel.value.physicalBase, hit.value).frame, kernel.value.physicalBase.low | PRESENT_RW)
    ensures KeepsOutside(old(mach.Mem()), old(mach.labels), mach.Root(memmap),
                         EntryRanges(entries, |entries|) + KernelRanges(kernel), mach.Mem())
  {
    ghost var m0, labels0, root := mach.Mem(), mach.labels, mach.Root(memmap);
    ok := MapEntries(mach, memmap, entries);
    ghost var m, labels := mach.Mem(), mach.labels;
    OutsideWider(m0, labels0, root, EntryRanges(entries, |entries|), KernelRanges(kernel), m);
    if ok && kernel.Some? {
      var k := kernel.value;
      ok := MapRange(mach, memmap, k.virtualBase, k.physicalBase, k.PageCount(), PRESENT_RW);
      OutsideConcat(m0, labels0, root, EntryRanges(entries, |entries|), m, labels, KernelRanges(kernel), mach.Mem());
    }
  }

  /** The loop of init_mappings over the memory map. */
  method MapEntries(mach: Machine, memmap: Frame, entries: seq<MemEntry>) returns (ok: bool)
    requires mach.Valid() && IsRoot(mach.labels, mach.Root(memmap)) && InReach(entries)
    modifies mach`labels, mach.words, mach.pmm`availPages, mach.pmm`lastAllocatedIdx, mach.pmm.bitmap
    ensures mach.Valid() && Extends(old(mach.labels), mach.labels)
    ensures ok ==> DirectMapped(old(mach.Mem()), mach.Root(memmap), entries, |entries|, mach.Mem())
    ensures KeepsOutside(old(mach.Mem()), old(mach.labels), mach.Root(memmap),
                         EntryRanges(entries, |entries|), mach.Mem())
  {
    hide Machine.Valid, DirectMapped, KeepsOutside, EntryRange, EntryRanges;
    ghost var m0, labels0, root := mach.Mem(), mach.labels, mach.Root(memmap);
    NoRanges(entries, mach.Mem(), labels0, root);
    for k := 0 to |entries|
      invariant mach.Valid() && Extends(old(mach.labels), mach.labels)
      invariant DirectMapped(m0, root, entries, k, mach.Mem())
      invariant KeepsOutside(m0, labels0, root, EntryRanges(entries, k), mach.Mem())
    {
      ghost var m, labels := mach.Mem(), mach.labels;
      ok := MapEntry(mach, memmap, m0, entries, k, entries[k]);
      OutsideConcat(m0, labels0, root, EntryRanges(entries, k), m, labels, [EntryRange(entries[k])], mach.Mem());
      RangesSplit(entries, k, k + 1);
      if !ok {
        RangesSplit(entries, k + 1, |entries|);
        OutsideWider(m0, labels0, root, EntryRanges(entries, k + 1), EntryRanges(entries, |entries|)[k + 1..],
            mach.Mem());
        return;
      }
    }
    ok := true;
  }

  lemma NoRanges(entries: seq<MemEntry>, m: Memory, labels: Labels, root: nat)
    requires InReach(entries)
    ensures KeepsOutside(m, labels, root, EntryRanges(entries, 0), m) && DirectMapped(m, root, entries, 0, m)
  {
  }

  lemma RangesSplit(entries: seq<MemEntry>, k: nat, n: nat)
    requires InReach(entries) && k <= n <= |entries|
    ensures EntryRanges(entries, n) == EntryRanges(entries, k) + EntryRanges(entries, n)[k..]
    ensures k < n ==> EntryRanges(entries, k + 1) == EntryRanges(entries, k) + [EntryRange(entries[k])]
  {
  }

  lemma OutsideWider(m: Memory, labels: Labels, root: nat, rs: seq<Range>, ts: seq<Range>, m': Memory)
    requires KeepsOutside(m, labels, root, rs, m')
    ensures KeepsOutside(m, labels, root, rs + ts, m')
  {
    forall a | HitBy(rs, a) ensures HitBy(rs + ts, a) {
      var k :| 0 <= k < |rs| && rs[k].Hits(a);
      assert (rs + ts)[k] == rs[k];
    }
  }

  /** allocate_page: space 0 stands for the host's. The page returned by kpalloc is mapped unchecked: page 0
      when memory ran out. */
  method AllocatePage(mach: Machine, hostCr3: Frame, flags: bv12, cr3: Frame) returns (ok: bool, virt: Word, phys: Word)
    requires mach.Valid() && IsRoot(mach.labels, mach.Root(if cr3 == 0 then hostCr3 else cr3))
    modifies mach`labels, mach.words, mach.pmm`availPages, mach.pmm`lastAllocatedIdx, mach.pmm.bitmap
    ensures mach.Valid() && virt == ToHigherHalf(phys) && phys.low == 0
    ensures NoneFree(old(mach.pmm.Bits())) ==> phys == NULL
    ensures !NoneFree(old(mach.pmm.Bits())) ==>
            IsNextFree(old(mach.pmm.Bits()), old(mach.pmm.lastAllocatedIdx), phys.frame)
    ensures var root := mach.Root(if cr3 == 0 then hostCr3 else cr3);
            && KeepsOthers(old(mach.Mem()), old(mach.labels), root, virt, mach.Mem())
            && KeepsWords(old(mach.Mem()), old(mach.labels), root, virt, flags, mach.Mem())
            && (ok ==> LeafWord(mach.Mem(), root, virt) ==
                       if Word(0, flags).Present() || Missing(old(mach.Mem()), root, virt) == 0 then
                         Word(phys.frame, flags)
                       else NULL)
  {
    var space := if cr3 == 0 then hostCr3 else cr3;
    phys := TakePage(mach);
    virt := ToHigherHalf(phys);
    ok := mach.MapPage(phys, virt, flags, space);
    assert phys.low | flags == flags;
  }

  method TakePage(mach: Machine) returns (phys: Word)
    requires mach.Valid()
    modifies mach.pmm`availPages, mach.pmm`lastAllocatedIdx, mach.pmm.bitmap
    ensures mach.Valid() && phys.low == 0
    ensures NoneFree(old(mach.pmm.Bits())) ==> phys == NULL
    ensures !NoneFree(old(mach.pmm.Bits())) ==>
            IsNextFree(old(mach.pmm.Bits()), old(mach.pmm.lastAllocatedIdx), phys.frame)
  {
    var page := mach.pmm.KpAlloc();
    phys := Word(page / PAGE_SIZE, 0);
  }

  // ----- sharing the higher half --------------------------------------------

  ghost predicate Agree(m: Memory, a: nat, b: nat) {
    forall j :: 256 <= j < 512 ==> SameLink(Entry(m, a, j), Entry(m, b, j))
  }

  /** Roots that agree translate every higher-half address alike. */
  lemma AgreeTranslates(m: Memory, a: nat, b: nat, va: Word)
    requires Agree(m, a, b) && Index(va, 0) >= 256
    ensures LeafWord(m, a, va) == LeafWord(m, b, va)
  {
    assert SameLink(Entry(m, a, Index(va, 0)), Entry(m, b, Index(va, 0)));
    assert Descend(m, a, va, 1) == Descend(m, b, va, 1);
    assert Descend(m, a, va, 2) == Descend(m, b, va, 2);
  }

  /** A successful mapPage through one of two agreeing roots keeps them in agreement exactly when it
      did not have to create a top-level entry of the higher half. */
  lemma MapKeepsAgreement(m: Memory, labels: Labels, a: nat, b: nat, va: Word, m': Memory)
    requires IsRoot(labels, a) && IsRoot(labels, b) && a != b && Agree(m, a, b)
    requires KeepsTops(m, labels, a, va, m') && Entry(m', a, Index(va, 0)).Present()
    ensures Agree(m', a, b) <==> Index(va, 0) < 256 || Entry(m, a, Index(va, 0)).Present()
  {
    var i := Index(va, 0);
    if i < 256 || Entry(m, a, i).Present() {
      forall j | 256 <= j < 512 ensures SameLink(Entry(m', a, j), Entry(m', b, j)) {
        assert SameLink(Entry(m, a, j), Entry(m', a, j));
        assert SameLink(Entry(m, b, j), Entry(m', b, j));
      }
    } else {
      assert SameLink(Entry(m, b, i), Entry(m', b, i));
      assert SameLink(Entry(m, a, i), Entry(m, b, i));
    }
  }

  /** A lower-half mapping in one space changes no translation of any other space, not even of the
      same address. */
  lemma LowerHalfIsPrivate(m: Memory, labels: Labels, user: nat, host: nat, va: Word, m': Memory, a: Word)
    requires IsRoot(labels, host) && user != host && Index(va, 0) < 256
    requires KeepsOthers(m, labels, user, va, m')
    ensures LeafWord(m', host, a) == LeafWord(m, host, a)
  {
    assert IsRoot(labels, host) && !(SamePage(a, va) && (host == user || Index(va, 0) >= 256));
  }

  /** Entries 256..511 of the user root become the host's, flags included; no other word changes. */
  ghost predicate Copied(m: Memory, user: nat, host: nat, m': Memory) {
    && |m'| == |m|
    && forall t: nat, j: nat :: j < 512 ==> Entry(m', t, j) == Entry(m, if t == user && j >= 256 then host else t, j)
  }

  /** init_user_mappings: copies the host's top 256 entries. */
  method InitUserMappings(mach: Machine, user: Frame, host: Frame)
    requires mach.Valid() && IsRoot(mach.labels, user) && IsRoot(mach.labels, host) && user != host
    modifies mach.words
    ensures mach.Valid() && Agree(mach.Mem(), user, host) && Copied(old(mach.Mem()), user, host, mach.Mem())
    ensures forall r, a :: IsRoot(mach.labels, r) && (r != user || Index(a, 0) < 256) ==>
              LeafWord(mach.Mem(), r, a) == LeafWord(old(mach.Mem()), r, a)
  {
    ghost var m := mach.Mem();
    for k := 0 to 256
      invariant |mach.Mem()| == |m|
      invariant forall t: nat, j: nat :: j < 512 ==>
        Entry(mach.Mem(), t, j) == if t == user && 256 <= j < 256 + k then Entry(m, host, j) else Entry(m, t, j)
    {
      ghost var now := mach.Mem();
      var e := mach.words[512 * host + 256 + k];
      assert e == Entry(now, host, 256 + k);
      mach.WriteEntry(user, 256 + k, e);
      StoreEntry(now, user, 256 + k, e);
    }
    CopyKeeps(m, mach.labels, user, host, mach.Mem());
  }

  lemma CopyKeeps(m: Memory, labels: Labels, user: nat, host: nat, m': Memory)
    requires WellLabelled(m, labels) && IsRoot(labels, user) && IsRoot(labels, host) && Copied(m, user, host, m')
    ensures WellLabelled(m', labels)
    ensures forall r, a :: IsRoot(labels, r) && (r != user || Index(a, 0) < 256) ==>
              LeafWord(m', r, a) == LeafWord(m, r, a)
  {
    forall f, i | f in labels && 0 <= i < 512 && |labels[f].path| < 3 && Entry(m', f, i).Present()
      ensures ChildOk(labels, labels[f], i, Entry(m', f, i).frame)
    {
      if f == user && i >= 256 {
        assert ChildOk(labels, labels[host], i, Entry(m, host, i).frame);
      }
    }
    forall r, a | IsRoot(labels, r) && (r != user || Index(a, 0) < 256)
      ensures LeafWord(m', r, a) == LeafWord(m, r, a)
    {
      CopyDescend(m, labels, user, host, m', r, a, 3);
      DescendLabel(m, labels, r, a, 3);
      PrefixHead(a, 3);
    }
  }

  lemma {:induction false} CopyDescend(m: Memory, labels: Labels, user: nat, host: nat, m': Memory, root: nat, va: Word,
      level: nat)
    requires WellLabelled(m, labels) && IsRoot(labels, user) && IsRoot(labels, root) && Copied(m, user, host, m')
    requires level < 4
    requires root != user || Index(va, 0) < 256
    ensures Descend(m', root, va, level) == Descend(m, root, va, level)
    decreases level
  {
    if level == 0 {
    } else {
      CopyDescend(m, labels, user, host, m', root, va, level - 1);
      DescendLabel(m, labels, root, va, level - 1);
      if level > 1 {
        PrefixHead(va, level - 1);
      }
    }
  }
}
