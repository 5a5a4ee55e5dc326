/** The 4-level page tables (src/mm/npaging.cpp, src/mm/paging.cpp) over physical memory and the
    page allocator. Every 64-bit value that the code splits at bit 12 (a table entry, a physical or a
    virtual address) is a Word: a page number and twelve low bits. */
module PageTables {
  import opened Common
  import opened PageAllocator

  const TWO_36: nat := 0x10_0000_0000
  const TWO_52: nat := 0x10_0000_0000_0000

  /** The page number of 0xffff800000000000, the offset of the higher half. */
  const HIGHER_HALF: nat := 0xf_fff8_0000_0000

  type Frame = f: nat | f < TWO_52

  datatype Word = Word(frame: Frame, low: bv12) {
    predicate Present() { low & 1 == 1 }
  }

  const NULL: Word := Word(0, 0)

  // ----- addresses ----------------------------------------------------------

  /** The index that virtual address `va` selects in a table of level `level`. */
  function Index(va: Word, level: nat): (i: nat)
    requires level < 4
    ensures i < 512
  {
    match level
    case 0 => va.frame / 0x800_0000 % 512
    case 1 => va.frame / 0x4_0000 % 512
    case 2 => va.frame / 0x200 % 512
    case _ => va.frame % 512
  }

  function Prefix(va: Word, level: nat): seq<nat>
    requires level < 4
  {
    if level == 0 then [] else Prefix(va, level - 1) + [Index(va, level - 1)]
  }

  /** Bits 12..47 agree: the only bits of a page number that the tables look at. */
  predicate SamePage(a: Word, b: Word) {
    a.frame % TWO_36 == b.frame % TWO_36
  }

  lemma SamePageIndexes(a: Word, b: Word)
    ensures SamePage(a, b) <==> Prefix(a, 3) == Prefix(b, 3) && Index(a, 3) == Index(b, 3)
  {
    PrefixIndexes(a);
    PrefixIndexes(b);
    PageDigits(a.frame);
    PageDigits(b.frame);
    var pa, pb := Prefix(a, 3), Prefix(b, 3);
    assert pa == pb <==> pa[0] == pb[0] && pa[1] == pb[1] && pa[2] == pb[2];
  }

  lemma PrefixIndexes(va: Word)
    ensures Prefix(va, 3) == [Index(va, 0), Index(va, 1), Index(va, 2)]
  {
    assert Prefix(va, 1) == [] + [Index(va, 0)];
    assert Prefix(va, 2) == Prefix(va, 1) + [Index(va, 1)];
  }

  /** A page number in base 512. */
  lemma PageDigits(f: nat)
    ensures f % TWO_36 == f / 0x800_0000 % 512 * 0x800_0000 + f / 0x4_0000 % 512 * 0x4_0000
                          + f / 0x200 % 512 * 0x200 + f % 512
  {
    Halves(f);
    TwoDigits(f);
    TwoDigits(f / 0x4_0000);
    HigherDigit(f);
  }

  /** The four indexes are the digits of the page number in base 512, the first the highest. */
  lemma IndexDigits(va: Word)
    ensures va.frame % 0x10_0000_0000 == ((Index(va, 0) * 512 + Index(va, 1)) * 512 + Index(va, 2)) * 512 + Index(va, 3)
  {
    PageDigits(va.frame);
  }

  lemma Halves(f: nat)
    ensures f % TWO_36 == f / 0x4_0000 % 0x4_0000 * 0x4_0000 + f % 0x4_0000
  {
    var q := f / 0x4_0000;
    assert f == (q / 0x4_0000) * TWO_36 + (q % 0x4_0000 * 0x4_0000 + f % 0x4_0000);
  }

  lemma TwoDigits(x: nat)
    ensures x % 0x4_0000 == x / 512 % 512 * 512 + x % 512
  {
    var q := x / 512;
    assert x == (q / 512) * 0x4_0000 + (q % 512 * 512 + x % 512);
  }

  lemma HigherDigit(f: nat)
    ensures f / 0x4_0000 / 512 == f / 0x800_0000
  {
  }

  // ----- tables in memory ---------------------------------------------------

  /** Physical memory, as words; frame f holds words 512*f .. 512*f+511. */
  type Memory = seq<Word>

  function Entry(m: Memory, table: nat, i: nat): Word {
    if 512 * table + i < |m| then m[512 * table + i] else NULL
  }

  ghost predicate InMemory(m: Memory, frame: nat) {
    512 * frame + 512 <= |m|
  }

  function Store(m: Memory, table: nat, i: nat, w: Word): Memory
    requires i < 512 && InMemory(m, table)
  {
    m[512 * table + i := w]
  }

  ghost predicate Zeroed(m: Memory, frame: nat) {
    forall i :: 0 <= i < 512 ==> Entry(m, frame, i) == NULL
  }

  /** The table that a walk of `va` from `root` is at on entering level `level`. */
  function Descend(m: Memory, root: nat, va: Word, level: nat): Option<nat>
    requires level < 4
  {
    if level == 0 then Some(root)
    else
      match Descend(m, root, va, level - 1)
      case None => None
      case Some(table) =>
        var e := Entry(m, table, Index(va, level - 1));
        if e.Present() then Some(e.frame as nat) else None
  }

  /** The leaf entry of `va`, page and flags; nothing when a level is missing. */
  function LeafWord(m: Memory, root: nat, va: Word): Word {
    match Descend(m, root, va, 3)
    case None => NULL
    case Some(table) => Entry(m, table, Index(va, 3))
  }

  /** The page that `va` translates to, 0 when a level is missing. */
  function PageOf(m: Memory, root: nat, va: Word): Frame {
    LeafWord(m, root, va).frame
  }

  /** The leaf entry that the walk of `va` ends at. */
  function LeafEntry(m: Memory, root: nat, va: Word): Option<Word> {
    match Descend(m, root, va, 3)
    case None => None
    case Some(table) => Some(Entry(m, table, Index(va, 3)))
  }

  /** Every entry on the way of `va` to level `level` is there and carries all of `flags`. */
  ghost predicate PathHas(m: Memory, root: nat, va: Word, level: nat, flags: bv12)
    requires level < 4
  {
    level == 0 ||
    (&& PathHas(m, root, va, level - 1, flags)
     && Descend(m, root, va, level - 1).Some?
     && Entry(m, Descend(m, root, va, level - 1).value, Index(va, level - 1)).low & flags == flags)
  }

  /** Levels that mapPage has to create. */
  function Missing(m: Memory, root: nat, va: Word): nat {
    if Descend(m, root, va, 3).Some? then 0
    else if Descend(m, root, va, 2).Some? then 1
    else if Descend(m, root, va, 1).Some? then 2
    else 3
  }

  // ----- the separation invariant -------------------------------------------

  /** A table frame carries the indexes that lead to it; a lower-half table also belongs to one root. */
  datatype Label = Label(owner: nat, path: seq<nat>)

  type Labels = map<nat, Label>

  ghost predicate IsRoot(labels: Labels, f: nat) {
    f in labels && labels[f] == Label(f, [])
  }

  ghost predicate ChildOk(labels: Labels, parent: Label, i: nat, child: nat) {
    && child in labels
    && labels[child].path == parent.path + [i]
    && (labels[child].path[0] < 256 ==> labels[child].owner == parent.owner)
  }

  /** Labels are closed under present entries: so a table is reached along its own path only, and
      from its own root only when it lies in the lower half. */
  ghost predicate WellLabelled(m: Memory, labels: Labels) {
    && (forall f :: f in labels ==>
          InMemory(m, f) && |labels[f].path| <= 3 && (labels[f].path == [] ==> labels[f].owner == f))
    && forall f, i :: f in labels && 0 <= i < 512 && |labels[f].path| < 3 && Entry(m, f, i).Present() ==>
         ChildOk(labels, labels[f], i, Entry(m, f, i).frame)
  }

  lemma {:induction false} DescendLabel(m: Memory, labels: Labels, root: nat, va: Word, level: nat)
    requires WellLabelled(m, labels) && IsRoot(labels, root) && level < 4
    ensures var d := Descend(m, root, va, level);
            d.Some? ==> d.value in labels && labels[d.value].path == Prefix(va, level)
                        && ((level == 0 || Index(va, 0) < 256) ==> labels[d.value].owner == root)
    decreases level
  {
    if level == 0 {
    } else {
      DescendLabel(m, labels, root, va, level - 1);
      PrefixHead(va, level);
    }
  }

  lemma {:induction false} PrefixHead(va: Word, level: nat)
    requires 0 < level < 4
    ensures |Prefix(va, level)| == level && Prefix(va, level)[0] == Index(va, 0)
    decreases level
  {
    if level > 1 {
      PrefixHead(va, level - 1);
    } else {
      assert Prefix(va, 0) == [];
    }
  }

  /** The reachable tables form a tree: whichever addresses lead to a table, they do so at one level
      and along one path. */
  lemma TablesFormTree(m: Memory, labels: Labels, root: nat, a: Word, i: nat, b: Word, j: nat)
    requires WellLabelled(m, labels) && IsRoot(labels, root) && i < 4 && j < 4
    requires Descend(m, root, a, i).Some? && Descend(m, root, a, i) == Descend(m, root, b, j)
    ensures i == j && Prefix(a, i) == Prefix(b, j)
  {
    DescendLabel(m, labels, root, a, i);
    DescendLabel(m, labels, root, b, j);
    if i > 0 {
      PrefixHead(a, i);
    }
    if j > 0 {
      PrefixHead(b, j);
    }
  }

  lemma StoreEntry(m: Memory, table: nat, i: nat, w: Word)
    requires i < 512 && InMemory(m, table)
    ensures |Store(m, table, i, w)| == |m|
    ensures forall t: nat, j: nat :: j < 512 ==>
              Entry(Store(m, table, i, w), t, j) == if t == table && j == i then w else Entry(m, t, j)
  {
  }

  // ----- the three writes of mapPage ----------------------------------------

  /** `m'` is `m` with frame `child` zeroed and entry `i` of `table` set to point at it. */
  ghost predicate Grown(m: Memory, table: nat, i: nat, child: Frame, flags: bv12, m': Memory) {
    && |m'| == |m| && i < 512
    && Zeroed(m', child)
    && forall t: nat, j: nat :: j < 512 && t != child ==>
         Entry(m', t, j) == if t == table && j == i then Word(child, flags) else Entry(m, t, j)
  }

  /** Creating a table below a labelled table changes no translation of any root. */
  lemma {:induction false} GrowDescend(m: Memory, labels: Labels, table: nat, i: nat, child: Frame, flags: bv12,
      m': Memory, root: nat, va: Word, level: nat)
    requires WellLabelled(m, labels) && IsRoot(labels, root) && level < 4
    requires table in labels && child !in labels && !Entry(m, table, i).Present() && |labels[table].path| < 3
    requires Grown(m, table, i, child, flags, m')
    ensures Descend(m, root, va, level).Some? ==> Descend(m', root, va, level) == Descend(m, root, va, level)
    ensures Descend(m, root, va, level).None? ==> Descend(m', root, va, level) in {None, Some(child as nat)}
    decreases level
  {
    if level == 0 {
    } else {
      GrowDescend(m, labels, table, i, child, flags, m', root, va, level - 1);
      DescendLabel(m, labels, root, va, level - 1);
    }
  }

  lemma GrowKeeps(m: Memory, labels: Labels, table: nat, i: nat, child: Frame, flags: bv12, m': Memory, root: nat,
      va: Word)
    requires WellLabelled(m, labels) && IsRoot(labels, root)
    requires table in labels && child !in labels && !Entry(m, table, i).Present() && |labels[table].path| < 3
    requires Grown(m, table, i, child, flags, m')
    ensures LeafWord(m', root, va) == LeafWord(m, root, va)
  {
    GrowDescend(m, labels, table, i, child, flags, m', root, va, 3);
    DescendLabel(m, labels, root, va, 3);
    PrefixHead(va, 3);
  }

  function ChildLabel(labels: Labels, table: nat, i: nat): Label
    requires table in labels
  {
    Label(labels[table].owner, labels[table].path + [i])
  }

  lemma GrowLabels(m: Memory, labels: Labels, table: nat, i: nat, child: Frame, flags: bv12, m': Memory)
    requires WellLabelled(m, labels) && InMemory(m, child)
    requires table in labels && child !in labels && |labels[table].path| < 3
    requires Grown(m, table, i, child, flags, m')
    ensures Word(child, flags).Present() ==> WellLabelled(m', labels[child := ChildLabel(labels, table, i)])
    ensures !Word(child, flags).Present() ==> WellLabelled(m', labels)
  {
    var labels' := labels[child := ChildLabel(labels, table, i)];
    forall f, j | f in labels && 0 <= j < 512 && |labels[f].path| < 3 && Entry(m', f, j).Present() &&
        !(f == table && j == i)
      ensures ChildOk(labels, labels[f], j, Entry(m', f, j).frame)
    {
      assert Entry(m', f, j) == Entry(m, f, j);
    }
  }

  /** A write that keeps presence and frame of an entry, as `|= flags` does. */
  lemma {:induction false} ReflagDescend(m: Memory, table: nat, i: nat, low: bv12, root: nat, va: Word, level: nat)
    requires i < 512 && InMemory(m, table) && level < 4
    requires var e := Entry(m, table, i); e.Present() && Word(e.frame, low).Present()
    ensures var m' := Store(m, table, i, Word(Entry(m, table, i).frame, low));
            Descend(m', root, va, level) == Descend(m, root, va, level)
    decreases level
  {
    if level == 0 {
    } else {
      StoreEntry(m, table, i, Word(Entry(m, table, i).frame, low));
      ReflagDescend(m, table, i, low, root, va, level - 1);
    }
  }

  lemma ReflagKeeps(m: Memory, labels: Labels, table: nat, i: nat, low: bv12, root: nat, va: Word)
    requires WellLabelled(m, labels) && IsRoot(labels, root) && table in labels && |labels[table].path| < 3
    requires i < 512 && InMemory(m, table)
    requires var e := Entry(m, table, i); e.Present() && Word(e.frame, low).Present()
    ensures var m' := Store(m, table, i, Word(Entry(m, table, i).frame, low));
            LeafWord(m', root, va) == LeafWord(m, root, va)
  {
    StoreEntry(m, table, i, Word(Entry(m, table, i).frame, low));
    ReflagDescend(m, table, i, low, root, va, 3);
    DescendLabel(m, labels, root, va, 3);
    PrefixHead(va, 3);
  }

  lemma ReflagLabels(m: Memory, labels: Labels, table: nat, i: nat, low: bv12)
    requires WellLabelled(m, labels) && i < 512 && InMemory(m, table)
    requires Entry(m, table, i).Present()
    ensures WellLabelled(Store(m, table, i, Word(Entry(m, table, i).frame, low)), labels)
  {
    var m' := Store(m, table, i, Word(Entry(m, table, i).frame, low));
    StoreEntry(m, table, i, Word(Entry(m, table, i).frame, low));
    forall f, j | f in labels && 0 <= j < 512 && |labels[f].path| < 3 && Entry(m', f, j).Present()
      ensures ChildOk(labels, labels[f], j, Entry(m', f, j).frame)
    {
      assert Entry(m, f, j).Present();
    }
  }

  /** A write to a frame that no walk passes through before its last step. */
  lemma {:induction false} LeafDescend(m: Memory, labels: Labels, leaf: nat, i: nat, w: Word, root: nat, va: Word,
      level: nat)
    requires WellLabelled(m, labels) && IsRoot(labels, root) && i < 512 && InMemory(m, leaf) && level < 4
    requires leaf in labels ==> |labels[leaf].path| == 3
    ensures Descend(Store(m, leaf, i, w), root, va, level) == Descend(m, root, va, level)
    decreases level
  {
    if level == 0 {
    } else {
      StoreEntry(m, leaf, i, w);
      LeafDescend(m, labels, leaf, i, w, root, va, level - 1);
      DescendLabel(m, labels, root, va, level - 1);
      if level > 1 {
        PrefixHead(va, level - 1);
      }
    }
  }

  /** Writing a leaf entry changes exactly the translations whose walk ends at that entry. */
  lemma LeafWrite(m: Memory, labels: Labels, leaf: nat, i: nat, w: Word, root: nat, va: Word)
    requires WellLabelled(m, labels) && IsRoot(labels, root) && i < 512 && InMemory(m, leaf)
    requires leaf in labels ==> |labels[leaf].path| == 3
    ensures LeafWord(Store(m, leaf, i, w), root, va) ==
            if Descend(m, root, va, 3) == Some(leaf) && Index(va, 3) == i then w else LeafWord(m, root, va)
  {
    StoreEntry(m, leaf, i, w);
    LeafDescend(m, labels, leaf, i, w, root, va, 3);
  }

  lemma LeafLabels(m: Memory, labels: Labels, leaf: nat, i: nat, w: Word)
    requires WellLabelled(m, labels) && i < 512 && InMemory(m, leaf)
    requires leaf in labels ==> |labels[leaf].path| == 3
    ensures WellLabelled(Store(m, leaf, i, w), labels)
  {
    StoreEntry(m, leaf, i, w);
    var m' := Store(m, leaf, i, w);
    forall f, j | f in labels && 0 <= j < 512 && |labels[f].path| < 3 && Entry(m', f, j).Present()
      ensures ChildOk(labels, labels[f], j, Entry(m', f, j).frame)
    {
      assert Entry(m, f, j).Present();
    }
  }

  lemma OrPresent(e: Word, flags: bv12)
    ensures e.Present() || Word(e.frame, flags).Present() <==> Word(e.frame, e.low | flags).Present()
    ensures (e.low | flags) & flags == flags
  {
  }

  // ----- what mapPage promises ----------------------------------------------

  /** Only leaf entries of va's own page may change, and another root's only in the higher half. */
  ghost predicate KeepsOthers(m: Memory, labels: Labels, root: nat, va: Word, m': Memory) {
    forall r, a :: IsRoot(labels, r) && !(SamePage(a, va) && (r == root || Index(va, 0) >= 256)) ==>
      LeafWord(m', r, a) == LeafWord(m, r, a)
  }

  /** Presence and frame, which is all that a walk reads of a table entry above the leaves. */
  predicate SameLink(a: Word, b: Word) {
    a.Present() == b.Present() && (a.Present() ==> a.frame == b.frame)
  }

  /** Top-level entries keep their links, but for the one that was missing. */
  ghost predicate KeepsTops(m: Memory, labels: Labels, root: nat, va: Word, m': Memory) {
    forall r, j ::
      IsRoot(labels, r) && 0 <= j < 512 && !(r == root && j == Index(va, 0) && !Entry(m, r, j).Present()) ==>
        SameLink(Entry(m, r, j), Entry(m', r, j))
  }

  /** The entry `i` of table `f` lies on the way of `va`, at the level that the table is of. */
  ghost predicate OnWay(m: Memory, labels: Labels, root: nat, va: Word, f: nat, i: nat)
    requires f in labels
  {
    |labels[f].path| < 4 && Descend(m, root, va, |labels[f].path|) == Some(f) && i == Index(va, |labels[f].path|)
  }

  /** An entry above the leaf after a mapping has passed by: a user mapping adds its flags. */
  function Followed(e: Word, flags: bv12): Word {
    if flags & 4 != 0 then Word(e.frame, e.low | flags) else e
  }

  /** The entry `i` of table `f` may become `e`: off the way of `va` it does not change in any bit; on it,
      above the leaf, a present one keeps its frame and flags, and only a user mapping adds flags to it. */
  ghost predicate MayBecome(m: Memory, labels: Labels, root: nat, va: Word, flags: bv12, f: nat, i: nat, e: Word)
    requires f in labels
  {
    if OnWay(m, labels, root, va, f, i) then
      |labels[f].path| < 3 && Entry(m, f, i).Present() ==> e == Entry(m, f, i) || e == Followed(Entry(m, f, i), flags)
    else e == Entry(m, f, i)
  }

  ghost predicate KeepsWords(m: Memory, labels: Labels, root: nat, va: Word, flags: bv12, m': Memory) {
    forall f, i :: f in labels && 0 <= i < 512 ==> MayBecome(m, labels, root, va, flags, f, i, Entry(m', f, i))
  }

  /** So a mapping without the user flag keeps every word of every table present before, the leaf apart. */
  lemma KernelMappingKeepsWords(m: Memory, labels: Labels, root: nat, va: Word, flags: bv12, m': Memory, f: nat, i: nat)
    requires KeepsWords(m, labels, root, va, flags, m') && flags & 4 == 0
    requires f in labels && i < 512 && |labels[f].path| <= 3 && Entry(m, f, i).Present()
    requires !(Descend(m, root, va, 3) == Some(f) && |labels[f].path| == 3 && i == Index(va, 3))
    ensures Entry(m', f, i) == Entry(m, f, i)
  {
  }

  /** And any mapping keeps the way to every address, through every root, with all the flags on it. */
  lemma {:induction false} WayStays(m: Memory, labels: Labels, root: nat, va: Word, flags: bv12, m': Memory,
      r: nat, a: Word, level: nat, held: bv12)
    requires WellLabelled(m, labels) && IsRoot(labels, r) && KeepsWords(m, labels, root, va, flags, m') && level < 4
    requires Descend(m, r, a, level).Some?
    ensures Descend(m', r, a, level) == Descend(m, r, a, level)
    ensures PathHas(m, r, a, level, held) ==> PathHas(m', r, a, level, held)
    decreases level
  {
    hide Index, Entry, WellLabelled, IsRoot, KeepsWords;
    if level == 0 {
    } else {
      WayStays(m, labels, root, va, flags, m', r, a, level - 1, held);
      var f, i := Descend(m, r, a, level - 1).value, Index(a, level - 1);
      LevelOf(m, labels, r, a, level - 1);
      WordStays(m, labels, root, va, flags, m', f, i, held);
    }
  }

  lemma LevelOf(m: Memory, labels: Labels, r: nat, a: Word, level: nat)
    requires WellLabelled(m, labels) && IsRoot(labels, r) && level < 4 && Descend(m, r, a, level).Some?
    ensures var f := Descend(m, r, a, level).value; f in labels && |labels[f].path| == level
  {
    DescendLabel(m, labels, r, a, level);
    PrefixLength(a, level);
  }

  lemma WordStays(m: Memory, labels: Labels, root: nat, va: Word, flags: bv12, m': Memory, f: nat, i: nat, held: bv12)
    requires KeepsWords(m, labels, root, va, flags, m')
    requires f in labels && i < 512 && |labels[f].path| < 3 && Entry(m, f, i).Present()
    ensures Entry(m', f, i).Present() && Entry(m', f, i).frame == Entry(m, f, i).frame
    ensures Entry(m, f, i).low & held == held ==> Entry(m', f, i).low & held == held
  {
    hide Entry, OnWay, Followed, Word.Present;
    FollowedKeeps(Entry(m, f, i), flags, held);
  }

  lemma FollowedKeeps(e: Word, flags: bv12, held: bv12)
    requires e.Present()
    ensures Followed(e, flags).Present() && Followed(e, flags).frame == e.frame
    ensures e.low & held == held ==> Followed(e, flags).low & held == held
    ensures flags & 4 != 0 ==> Followed(e, flags).low & flags == flags
  {
    hide Word.Present;
    OrPresent(e, flags);
    OrKeeps(e.low, flags, held);
  }

  lemma FollowedTwice(e: Word, flags: bv12)
    ensures Followed(Followed(e, flags), flags) == Followed(e, flags)
  {
    if flags & 4 == 0 {
    } else {
      hide Followed;
      FollowedUser(e, flags);
      OrKeeps(e.low, flags, flags);
      FollowedUser(Word(e.frame, e.low | flags), flags);
    }
  }

  lemma FollowedUser(e: Word, flags: bv12)
    requires flags & 4 != 0
    ensures Followed(e, flags) == Word(e.frame, e.low | flags)
  {
  }

  lemma OrKeeps(low: bv12, flags: bv12, held: bv12)
    ensures low & held == held ==> (low | flags) & held == held
    ensures low | flags | flags == low | flags
  {
  }

  /** The next entry on the way is met with `created` tables made so far. */
  lemma GrowWords(m0: Memory, labels0: Labels, root: nat, va: Word, m: Memory, labels: Labels, flags: bv12,
                  level: nat, table: nat, created: nat, child: Frame, m': Memory)
    requires level < 3 && Kept(m0, labels0, root, va, m, labels) && KeepsWords(m0, labels0, root, va, flags, m)
    requires Standing(m0, m, labels, root, va, Word(0, flags).Present(), level, table, created)
    requires created > 0 ==> table !in labels0
    requires !Entry(m, table, Index(va, level)).Present() && child !in labels
    requires Grown(m, table, Index(va, level), child, flags, m')
    ensures KeepsWords(m0, labels0, root, va, flags, m') && child !in labels0
  {
    hide Index, KeepsTops, MayBecome;
    forall f, i | f in labels0 && 0 <= i < 512
      ensures MayBecome(m0, labels0, root, va, flags, f, i, Entry(m', f, i))
    {
      if f == table && i == Index(va, level) {
        TableOnWay(m0, labels0, root, va, m, labels, Word(0, flags).Present(), level, table);
        OrPresent(Entry(m0, f, i), flags);
        GrownWord(m0, labels0, root, va, m, flags, level, table, Word(child, flags));
      } else {
        assert Entry(m', f, i) == Entry(m, f, i);
      }
    }
  }

  lemma GrownWord(m0: Memory, labels0: Labels, root: nat, va: Word, m: Memory, flags: bv12, level: nat, table: nat,
                  w: Word)
    requires level < 3 && table in labels0 && |labels0[table].path| == level
    requires OnWay(m0, labels0, root, va, table, Index(va, level))
    requires MayBecome(m0, labels0, root, va, flags, table, Index(va, level), Entry(m, table, Index(va, level)))
    requires !Entry(m, table, Index(va, level)).Present()
    ensures MayBecome(m0, labels0, root, va, flags, table, Index(va, level), w)
  {
    hide OnWay, Index;
    OrPresent(Entry(m0, table, Index(va, level)), flags);
  }

  lemma TableOnWay(m0: Memory, labels0: Labels, root: nat, va: Word, m: Memory, labels: Labels, linked: bool,
                   level: nat, table: nat)
    requires Kept(m0, labels0, root, va, m, labels) && level < 4
    requires Standing(m0, m, labels, root, va, linked, level, table, 0)
    ensures table in labels0 && OnWay(m0, labels0, root, va, table, Index(va, level)) && |labels0[table].path| == level
  {
    assert Descend(m0, root, va, level) == Some(table);
    LevelOf(m0, labels0, root, va, level);
  }

  lemma FollowWords(m0: Memory, labels0: Labels, root: nat, va: Word, m: Memory, labels: Labels, flags: bv12,
                    linked: bool, level: nat, table: nat)
    requires level < 3 && Kept(m0, labels0, root, va, m, labels) && KeepsWords(m0, labels0, root, va, flags, m)
    requires Standing(m0, m, labels, root, va, linked, level, table, 0)
    ensures KeepsWords(m0, labels0, root, va, flags,
                       Store(m, table, Index(va, level), Followed(Entry(m, table, Index(va, level)), flags)))
  {
    hide Index, Kept, Standing, OnWay, MayBecome, Descend, Entry, Store, Followed, IsRoot;
    TableOnWay(m0, labels0, root, va, m, labels, linked, level, table);
    StandingTable(m0, m, labels, root, va, linked, level, table);
    var e := Entry(m, table, Index(va, level));
    FollowedWord(m0, labels0, root, va, flags, level, table, e);
    StoreWords(m0, labels0, root, va, m, flags, table, Index(va, level), Followed(e, flags));
  }

  lemma StoreWords(m0: Memory, labels0: Labels, root: nat, va: Word, m: Memory, flags: bv12, table: nat, n: nat,
                   w: Word)
    requires KeepsWords(m0, labels0, root, va, flags, m) && n < 512 && InMemory(m, table)
    requires table in labels0 ==> MayBecome(m0, labels0, root, va, flags, table, n, w)
    ensures KeepsWords(m0, labels0, root, va, flags, Store(m, table, n, w))
  {
    hide MayBecome, Entry, Store, InMemory;
    StoreEntry(m, table, n, w);
  }

  lemma FollowedWord(m0: Memory, labels0: Labels, root: nat, va: Word, flags: bv12, level: nat, table: nat, e: Word)
    requires level < 3 && table in labels0 && |labels0[table].path| == level
    requires OnWay(m0, labels0, root, va, table, Index(va, level))
    requires MayBecome(m0, labels0, root, va, flags, table, Index(va, level), e)
    ensures MayBecome(m0, labels0, root, va, flags, table, Index(va, level), Followed(e, flags))
  {
    hide OnWay, Index, Entry, Followed, Word.Present;
    FollowedTwice(Entry(m0, table, Index(va, level)), flags);
  }

  lemma StandingTable(m0: Memory, m: Memory, labels: Labels, root: nat, va: Word, linked: bool, level: nat, table: nat)
    requires level < 4 && Standing(m0, m, labels, root, va, linked, level, table, 0)
    ensures InMemory(m, table)
  {
  }

  lemma FinishWords(m0: Memory, labels0: Labels, root: nat, va: Word, m: Memory, labels: Labels, flags: bv12,
                    linked: bool, table: nat, created: nat, w: Word)
    requires Kept(m0, labels0, root, va, m, labels) && KeepsWords(m0, labels0, root, va, flags, m)
    requires Standing(m0, m, labels, root, va, linked, 3, table, created) && (created > 0 ==> table !in labels0)
    ensures KeepsWords(m0, labels0, root, va, flags, Store(m, table, Index(va, 3), w))
  {
    hide Index, KeepsTops, PathHas;
    StoreEntry(m, table, Index(va, 3), w);
    if created == 0 {
      TableOnWay(m0, labels0, root, va, m, labels, linked, 3, table);
    }
  }

  // ----- the loop of mapPage, as steps --------------------------------------

  ghost predicate Extends(labels: Labels, labels': Labels) {
    forall f :: f in labels ==> f in labels' && labels'[f] == labels[f]
  }

  /** What holds of every translation while the loop runs: nothing has changed yet. */
  ghost predicate Kept(m0: Memory, labels0: Labels, root: nat, va: Word, m: Memory, labels: Labels) {
    && IsRoot(labels0, root) && Extends(labels0, labels)
    && WellLabelled(m0, labels0)
    && (forall r, a :: IsRoot(labels0, r) ==> LeafWord(m, r, a) == LeafWord(m0, r, a))
    && KeepsTops(m0, labels0, root, va, m)
  }

  /** Where the loop stands on entering `level`. As long as new tables are linked by present entries
      (`linked`) the current table is labelled; otherwise it hangs loose. */
  ghost predicate Standing(m0: Memory, m: Memory, labels: Labels, root: nat, va: Word, linked: bool,
                           level: nat, table: nat, created: nat)
    requires level < 4
  {
    && created <= level && InMemory(m, table)
    && (linked || created == 0 ==>
          table in labels && labels[table].path == Prefix(va, level) && Descend(m, root, va, level) == Some(table))
    && (!linked && created > 0 ==> table !in labels)
    && (created == 0 ==> forall k: nat :: k < 4 ==> Descend(m, root, va, k) == Descend(m0, root, va, k))
    && (created > 0 ==>
          && Zeroed(m, table) && Descend(m0, root, va, level - created).Some?
          && Descend(m0, root, va, level - created + 1).None?)
  }

  lemma OutsideKeeps(m: Memory, labels: Labels, m': Memory)
    requires WellLabelled(m, labels) && |m'| == |m|
    requires forall f, j: nat :: f in labels && j < 512 ==> Entry(m', f, j) == Entry(m, f, j)
    ensures WellLabelled(m', labels)
    ensures forall r, a :: IsRoot(labels, r) ==> LeafWord(m', r, a) == LeafWord(m, r, a)
  {
    forall r, a | IsRoot(labels, r) ensures LeafWord(m', r, a) == LeafWord(m, r, a) {
      OutsideDescend(m, labels, m', r, a, 3);
      DescendLabel(m, labels, r, a, 3);
    }
  }

  lemma {:induction false} OutsideDescend(m: Memory, labels: Labels, m': Memory, root: nat, va: Word, level: nat)
    requires WellLabelled(m, labels) && IsRoot(labels, root) && level < 4
    requires forall f, j: nat :: f in labels && j < 512 ==> Entry(m', f, j) == Entry(m, f, j)
    ensures Descend(m', root, va, level) == Descend(m, root, va, level)
    decreases level
  {
    if level == 0 {
    } else {
      OutsideDescend(m, labels, m', root, va, level - 1);
      DescendLabel(m, labels, root, va, level - 1);
    }
  }

  function GrownLabels(labels: Labels, table: nat, i: nat, child: nat, attached: bool): Labels {
    if attached && table in labels then labels[child := ChildLabel(labels, table, i)] else labels
  }

  lemma GrowStep(m0: Memory, labels0: Labels, root: nat, va: Word, m: Memory, labels: Labels, flags: bv12,
                 level: nat, table: nat, created: nat, child: Frame, m': Memory)
    requires level < 3 && Kept(m0, labels0, root, va, m, labels) && WellLabelled(m, labels)
    requires Standing(m0, m, labels, root, va, Word(0, flags).Present(), level, table, created)
    requires !Entry(m, table, Index(va, level)).Present() && child !in labels && InMemory(m, child)
    requires Grown(m, table, Index(va, level), child, flags, m')
    ensures WellLabelled(m', GrownLabels(labels, table, Index(va, level), child, Word(0, flags).Present()))
    ensures Kept(m0, labels0, root, va, m',
                 GrownLabels(labels, table, Index(va, level), child, Word(0, flags).Present()))
  {
    var i, linked := Index(va, level), Word(0, flags).Present();
    if level > 0 {
      PrefixHead(va, level);
    }
    if table in labels {
      GrowLabels(m, labels, table, i, child, flags, m');
      forall r, a | IsRoot(labels0, r) ensures LeafWord(m', r, a) == LeafWord(m0, r, a) {
        GrowKeeps(m, labels, table, i, child, flags, m', r, a);
      }
    } else {
      OutsideKeeps(m, labels, m');
    }
    GrowTops(m0, labels0, root, va, m, labels, flags, level, table, created, child, m');
  }

  lemma GrowTops(m0: Memory, labels0: Labels, root: nat, va: Word, m: Memory, labels: Labels, flags: bv12,
                 level: nat, table: nat, created: nat, child: Frame, m': Memory)
    requires level < 3 && Kept(m0, labels0, root, va, m, labels) && WellLabelled(m, labels)
    requires Standing(m0, m, labels, root, va, Word(0, flags).Present(), level, table, created)
    requires !Entry(m, table, Index(va, level)).Present() && child !in labels
    requires Grown(m, table, Index(va, level), child, flags, m')
    ensures KeepsTops(m0, labels0, root, va, m')
  {
    if level > 0 {
      PrefixHead(va, level);
    } else {
      assert Prefix(va, 0) == [];
      assert Descend(m, root, va, 0) == Some(root);
    }
    forall r, j | IsRoot(labels0, r) && 0 <= j < 512 && !(r == root && j == Index(va, 0) && !Entry(m0, r, j).Present())
      ensures SameLink(Entry(m0, r, j), Entry(m', r, j))
    {
      assert SameLink(Entry(m0, r, j), Entry(m, r, j));
      assert IsRoot(labels, r);
      assert Entry(m', r, j) == Entry(m, r, j);
    }
  }

  lemma GrowStands(m0: Memory, labels0: Labels, root: nat, va: Word, m: Memory, labels: Labels, flags: bv12,
                   level: nat, table: nat, created: nat, child: Frame, m': Memory)
    requires level < 3 && Kept(m0, labels0, root, va, m, labels) && WellLabelled(m, labels)
    requires Standing(m0, m, labels, root, va, Word(0, flags).Present(), level, table, created)
    requires !Entry(m, table, Index(va, level)).Present() && child !in labels && InMemory(m, child)
    requires Grown(m, table, Index(va, level), child, flags, m')
    ensures Standing(m0, m', GrownLabels(labels, table, Index(va, level), child, Word(0, flags).Present()),
                     root, va, Word(0, flags).Present(), level + 1, child, created + 1)
  {
    if level > 0 {
      PrefixHead(va, level);
    } else {
      assert Prefix(va, 0) == [];
    }
    if Word(0, flags).Present() || created == 0 {
      GrowDescend(m, labels, table, Index(va, level), child, flags, m', root, va, level);
      assert Entry(m', table, Index(va, level)) == Word(child, flags);
    }
    if created == 0 {
      assert Descend(m, root, va, level + 1) == Descend(m0, root, va, level + 1);
      assert Descend(m, root, va, level) == Descend(m0, root, va, level);
    }
  }

  lemma GrowAll(m0: Memory, labels0: Labels, root: nat, va: Word, m: Memory, labels: Labels, flags: bv12,
                level: nat, table: nat, created: nat, child: Frame, m': Memory)
    requires level < 3 && Kept(m0, labels0, root, va, m, labels) && WellLabelled(m, labels)
    requires Standing(m0, m, labels, root, va, Word(0, flags).Present(), level, table, created)
    requires !Entry(m, table, Index(va, level)).Present() && child !in labels && InMemory(m, child)
    requires Grown(m, table, Index(va, level), child, flags, m')
    ensures var labels' := GrownLabels(labels, table, Index(va, level), child, Word(0, flags).Present());
            && WellLabelled(m', labels') && Kept(m0, labels0, root, va, m', labels')
            && Standing(m0, m', labels', root, va, Word(0, flags).Present(), level + 1, child, created + 1)
    ensures Word(0, flags).Present() && PathHas(m, root, va, level, flags) ==> PathHas(m', root, va, level + 1, flags)
  {
    GrowStep(m0, labels0, root, va, m, labels, flags, level, table, created, child, m');
    GrowStands(m0, labels0, root, va, m, labels, flags, level, table, created, child, m');
    if Word(0, flags).Present() && PathHas(m, root, va, level, flags) {
      PrefixLength(va, level);
      PathStep(m, labels, m', root, va, level, flags, table);
    }
  }

  lemma FollowStep(m0: Memory, labels0: Labels, root: nat, va: Word, m: Memory, labels: Labels, linked: bool,
                   level: nat, table: nat, created: nat, low: bv12)
    requires level < 3 && Kept(m0, labels0, root, va, m, labels) && WellLabelled(m, labels)
    requires Standing(m0, m, labels, root, va, linked, level, table, created)
    requires var e := Entry(m, table, Index(va, level)); e.Present() && Word(e.frame, low).Present()
    ensures created == 0
    ensures var e := Entry(m, table, Index(va, level));
            var m' := Store(m, table, Index(va, level), Word(e.frame, low));
            && WellLabelled(m', labels) && Kept(m0, labels0, root, va, m', labels)
            && Standing(m0, m', labels, root, va, linked, level + 1, e.frame, 0)
  {
    var i, e := Index(va, level), Entry(m, table, Index(va, level));
    var m' := Store(m, table, i, Word(e.frame, low));
    if level > 0 {
      PrefixHead(va, level);
    } else {
      assert Prefix(va, 0) == [];
    }
    ReflagLabels(m, labels, table, i, low);
    StoreEntry(m, table, i, Word(e.frame, low));
    forall r, a | IsRoot(labels0, r) ensures LeafWord(m', r, a) == LeafWord(m0, r, a) {
      ReflagKeeps(m, labels, table, i, low, r, a);
    }
    forall k: nat | k < 4 ensures Descend(m', root, va, k) == Descend(m0, root, va, k) {
      ReflagDescend(m, table, i, low, root, va, k);
    }
    assert ChildOk(labels, labels[table], i, e.frame);
    ReflagDescend(m, table, i, low, root, va, level);
    forall r, j | IsRoot(labels0, r) && 0 <= j < 512 && !(r == root && j == Index(va, 0) && !Entry(m0, r, j).Present())
      ensures SameLink(Entry(m0, r, j), Entry(m', r, j))
    {
      assert SameLink(Entry(m0, r, j), Entry(m, r, j));
    }
  }

  lemma FollowPath(m0: Memory, labels0: Labels, root: nat, va: Word, m: Memory, labels: Labels, linked: bool,
                   level: nat, table: nat, created: nat, low: bv12, flags: bv12)
    requires level < 3 && Kept(m0, labels0, root, va, m, labels) && WellLabelled(m, labels)
    requires Standing(m0, m, labels, root, va, linked, level, table, created) && created == 0
    requires low & flags == flags && PathHas(m, root, va, level, flags)
    ensures PathHas(Store(m, table, Index(va, level), Word(Entry(m, table, Index(va, level)).frame, low)),
                    root, va, level + 1, flags)
  {
    var w := Word(Entry(m, table, Index(va, level)).frame, low);
    PrefixLength(va, level);
    StoreEntry(m, table, Index(va, level), w);
    PathStep(m, labels, Store(m, table, Index(va, level), w), root, va, level, flags, table);
  }

  lemma {:induction false} DescendTop(m: Memory, root: nat, va: Word, level: nat)
    requires 0 < level < 4 && Descend(m, root, va, level).Some?
    ensures Entry(m, root, Index(va, 0)).Present()
    decreases level
  {
    if level == 1 {
    } else {
      DescendTop(m, root, va, level - 1);
    }
  }

  lemma {:induction false} DescendNone(m: Memory, root: nat, va: Word, level: nat)
    requires level < 4 && Descend(m, root, va, level).None?
    ensures Descend(m, root, va, 3).None?
    decreases 3 - level
  {
    if level == 3 {
    } else {
      DescendNone(m, root, va, level + 1);
    }
  }

  lemma CreatedIsMissing(m: Memory, root: nat, va: Word, created: nat)
    requires created <= 3 && Descend(m, root, va, 3 - created).Some?
    requires created > 0 ==> Descend(m, root, va, 3 - created + 1).None?
    ensures created == Missing(m, root, va)
  {
    assert Descend(m, root, va, 1).None? ==> Descend(m, root, va, 2).None?;
    assert Descend(m, root, va, 2).None? ==> Descend(m, root, va, 3).None?;
  }

  /** Writes at or below level `level` leave the way to that level as it is. */
  lemma {:induction false} UpperDescend(m: Memory, labels: Labels, m': Memory, root: nat, va: Word, level: nat, k: nat)
    requires WellLabelled(m, labels) && IsRoot(labels, root) && k <= level < 4
    requires forall f, j: nat :: f in labels && |labels[f].path| < level && j < 512 ==>
             Entry(m', f, j) == Entry(m, f, j)
    ensures Descend(m', root, va, k) == Descend(m, root, va, k)
    decreases k
  {
    if k == 0 {
    } else {
      UpperDescend(m, labels, m', root, va, level, k - 1);
      DescendLabel(m, labels, root, va, k - 1);
      PrefixLength(va, k - 1);
    }
  }

  lemma {:induction false} PathKept(m: Memory, labels: Labels, m': Memory, root: nat, va: Word, level: nat, k: nat,
      flags: bv12)
    requires WellLabelled(m, labels) && IsRoot(labels, root) && k <= level < 4 && PathHas(m, root, va, k, flags)
    requires forall f, j: nat :: f in labels && |labels[f].path| < level && j < 512 ==>
             Entry(m', f, j) == Entry(m, f, j)
    ensures PathHas(m', root, va, k, flags)
    decreases k
  {
    if k == 0 {
    } else {
      PathKept(m, labels, m', root, va, level, k - 1, flags);
      UpperDescend(m, labels, m', root, va, level, k - 1);
      var table := Descend(m, root, va, k - 1).value;
      assert Entry(m', table, Index(va, k - 1)) == Entry(m, table, Index(va, k - 1)) by {
        DescendLabel(m, labels, root, va, k - 1);
        PrefixLength(va, k - 1);
      }
    }
  }

  /** One more level: the entry just written at level `level` carries the flags. */
  lemma PathStep(m: Memory, labels: Labels, m': Memory, root: nat, va: Word, level: nat, flags: bv12, table: nat)
    requires WellLabelled(m, labels) && IsRoot(labels, root) && level < 3 && PathHas(m, root, va, level, flags)
    requires forall f, j: nat :: f in labels && |labels[f].path| < level && j < 512 ==>
             Entry(m', f, j) == Entry(m, f, j)
    requires Descend(m, root, va, level) == Some(table) && Entry(m', table, Index(va, level)).low & flags == flags
    ensures PathHas(m', root, va, level + 1, flags)
  {
    PathKept(m, labels, m', root, va, level, level, flags);
    UpperDescend(m, labels, m', root, va, level, level);
  }

  /** The leaf write: the requested page is mapped when the walk from the root arrives at the table
      written, and no other page changes. */
  lemma FinishStep(m0: Memory, labels0: Labels, root: nat, va: Word, m: Memory, labels: Labels, linked: bool,
                   table: nat, created: nat, w: Word)
    requires Kept(m0, labels0, root, va, m, labels) && WellLabelled(m, labels)
    requires Standing(m0, m, labels, root, va, linked, 3, table, created)
    ensures var m' := Store(m, table, Index(va, 3), w);
            WellLabelled(m', labels) && KeepsOthers(m0, labels0, root, va, m')
    ensures created == Missing(m0, root, va)
  {
    var i, m' := Index(va, 3), Store(m, table, Index(va, 3), w);
    CreatedIsMissing(m0, root, va, created);
    PrefixHead(va, 3);
    LeafLabels(m, labels, table, i, w);
    forall r, a | IsRoot(labels0, r) && !(SamePage(a, va) && (r == root || Index(va, 0) >= 256))
      ensures LeafWord(m', r, a) == LeafWord(m0, r, a)
    {
      FinishOther(m0, labels0, root, va, m, labels, linked, table, created, w, r, a);
    }
  }

  lemma FinishOther(m0: Memory, labels0: Labels, root: nat, va: Word, m: Memory, labels: Labels, linked: bool,
                    table: nat, created: nat, w: Word, r: nat, a: Word)
    requires Kept(m0, labels0, root, va, m, labels) && WellLabelled(m, labels)
    requires Standing(m0, m, labels, root, va, linked, 3, table, created)
    requires IsRoot(labels0, r) && !(SamePage(a, va) && (r == root || Index(va, 0) >= 256))
    ensures LeafWord(Store(m, table, Index(va, 3), w), r, a) == LeafWord(m0, r, a)
  {
    PrefixHead(va, 3);
    LeafWrite(m, labels, table, Index(va, 3), w, r, a);
    DescendLabel(m, labels, r, a, 3);
    DescendLabel(m, labels, root, va, 3);
    SamePageIndexes(a, va);
    PrefixHead(a, 3);
  }

  lemma FinishMaps(m0: Memory, labels0: Labels, root: nat, va: Word, m: Memory, labels: Labels, linked: bool,
                   table: nat, created: nat, w: Word)
    requires Kept(m0, labels0, root, va, m, labels) && WellLabelled(m, labels)
    requires Standing(m0, m, labels, root, va, linked, 3, table, created)
    ensures LeafWord(Store(m, table, Index(va, 3), w), root, va) == if linked || created == 0 then w else NULL
    ensures linked || created == 0 ==> LeafEntry(Store(m, table, Index(va, 3), w), root, va) == Some(w)
  {
    PrefixHead(va, 3);
    StoreEntry(m, table, Index(va, 3), w);
    LeafDescend(m, labels, table, Index(va, 3), w, root, va, 3);
    LeafWrite(m, labels, table, Index(va, 3), w, root, va);
    DescendLabel(m, labels, root, va, 3);
    assert LeafWord(m, root, va) == LeafWord(m0, root, va);
    if created > 0 {
      DescendNone(m0, root, va, 3 - created + 1);
    }
  }

  lemma SamePageLeaf(m: Memory, root: nat, a: Word, b: Word)
    requires SamePage(a, b)
    ensures LeafWord(m, root, a) == LeafWord(m, root, b)
  {
    SamePageIndexes(a, b);
    SameDescend(m, root, a, b, 3);
  }

  lemma FinishTops(m0: Memory, labels0: Labels, root: nat, va: Word, m: Memory, labels: Labels, linked: bool,
                   table: nat, created: nat, w: Word)
    requires Kept(m0, labels0, root, va, m, labels) && WellLabelled(m, labels)
    requires Standing(m0, m, labels, root, va, linked, 3, table, created)
    ensures KeepsTops(m0, labels0, root, va, Store(m, table, Index(va, 3), w))
    ensures linked ==> Entry(Store(m, table, Index(va, 3), w), root, Index(va, 0)).Present()
  {
    var m' := Store(m, table, Index(va, 3), w);
    PrefixHead(va, 3);
    StoreEntry(m, table, Index(va, 3), w);
    if linked {
      DescendTop(m, root, va, 3);
    }
    forall r, j | IsRoot(labels0, r) && 0 <= j < 512 && !(r == root && j == Index(va, 0) && !Entry(m0, r, j).Present())
      ensures SameLink(Entry(m0, r, j), Entry(m', r, j))
    {
      assert SameLink(Entry(m0, r, j), Entry(m, r, j));
    }
  }

  lemma {:induction false} SameDescend(m: Memory, root: nat, a: Word, b: Word, level: nat)
    requires level < 4 && Prefix(a, level) == Prefix(b, level)
    ensures Descend(m, root, a, level) == Descend(m, root, b, level)
    decreases level
  {
    hide Entry, Index, Prefix;
    if level == 0 {
    } else {
      PrefixParts(a, level);
      PrefixParts(b, level);
      SameDescend(m, root, a, b, level - 1);
    }
  }

  lemma PrefixParts(va: Word, level: nat)
    requires 0 < level < 4
    ensures |Prefix(va, level)| == level && Prefix(va, level)[..level - 1] == Prefix(va, level - 1)
    ensures Prefix(va, level)[level - 1] == Index(va, level - 1)
  {
    PrefixLength(va, level - 1);
  }

  lemma {:induction false} PrefixLength(va: Word, level: nat)
    requires level < 4
    ensures |Prefix(va, level)| == level
    decreases level
  {
    if level == 0 {
    } else {
      PrefixLength(va, level - 1);
    }
  }

  /** A frame is an empty address space exactly when no word in it has the present bit. */
  lemma EmptyExactlyWhen(m: Memory, root: nat)
    ensures (forall a :: Descend(m, root, a, 1).None?) <==> forall i :: 0 <= i < 512 ==> !Entry(m, root, i).Present()
  {
    if a :| Descend(m, root, a, 1).Some? {
      FirstStep(m, root, a);
    } else {
      forall i | 0 <= i < 512 ensures !Entry(m, root, i).Present() {
        var a := Word(i * 0x800_0000, 0);
        FirstStep(m, root, a);
        assert Index(a, 0) == i;
      }
    }
  }

  lemma FirstStep(m: Memory, root: nat, a: Word)
    ensures Descend(m, root, a, 1).None? <==> !Entry(m, root, Index(a, 0)).Present()
  {
    assert Descend(m, root, a, 0) == Some(root);
  }

  class Machine {
    const pmm: FrameAllocator
    var words: array<Word>
    var cr3Val: Frame
    ghost var labels: Labels

    /** Table frames form labelled trees and none of them is free. */
    ghost predicate Valid()
      reads this, words, pmm, pmm.bitmap
    {
      && pmm.Valid() && 512 * pmm.bitmap.Length <= words.Length
      && WellLabelled(Mem(), labels)
      && TablesTaken(labels, pmm.Bits())
    }

    ghost predicate TablesTaken(ls: Labels, bits: seq<bool>) {
      forall f :: f in ls && 0 <= f < |bits| ==> !bits[f]
    }

    ghost function Mem(): Memory
      reads this`words, words
    {
      words[..]
    }

    function Root(cr3: Frame): Frame
      reads this`cr3Val
    {
      if cr3 == 0 then cr3Val else cr3
    }

    /** Memory at boot: any contents, and no address space yet. */
    constructor (pmm: FrameAllocator, words: array<Word>)
      requires pmm.Valid() && 512 * pmm.bitmap.Length <= words.Length
      ensures Valid() && this.pmm == pmm && this.words == words && labels == map[]
    {
      this.pmm, this.words := pmm, words;
      cr3Val := 0;
      labels := map[];
    }

    /** kmemset of one page. */
    method ZeroFrame(frame: nat)
      requires InMemory(Mem(), frame)
      modifies words
      ensures Zeroed(Mem(), frame) && |Mem()| == |old(Mem())|
      ensures forall t: nat, j: nat :: j < 512 && t != frame ==> Entry(Mem(), t, j) == Entry(old(Mem()), t, j)
    {
      for k := 0 to 512
        invariant forall p :: 512 * frame <= p < 512 * frame + k ==> words[p] == NULL
        invariant forall p :: 0 <= p < words.Length && !(512 * frame <= p < 512 * frame + 512) ==>
                  words[p] == old(words[p])
      {
        words[512 * frame + k] := NULL;
      }
    }

    method WriteEntry(table: nat, i: nat, w: Word)
      requires i < 512 && InMemory(Mem(), table)
      modifies words
      ensures Mem() == Store(old(Mem()), table, i, w)
    {
      words[512 * table + i] := w;
    }

    /** The missing-level branch of mapPage's loop: a fresh zeroed table, linked from entry `i`. */
    method NewTable(table: nat, i: nat, flags: bv12) returns (ok: bool, child: Frame)
      requires Valid() && i < 512 && InMemory(Mem(), table)
      requires table < |pmm.Bits()| ==> !pmm.Bits()[table]
      modifies words, pmm`availPages, pmm`lastAllocatedIdx, pmm.bitmap
      ensures pmm.Valid() && TablesTaken(labels, pmm.Bits())
      ensures !ok ==> Mem() == old(Mem())
      ensures ok ==> child < |pmm.Bits()| && old(pmm.Bits()[child]) && !pmm.Bits()[child]
      ensures ok ==> pmm.availPages == old(pmm.availPages) - 1 && Grown(old(Mem()), table, i, child, flags, Mem())
    {
      var page := pmm.KpAlloc();
      if page == 0 {
        return false, 0;
      }
      child := page / PAGE_SIZE;
      CountUpdate(old(pmm.Bits()), child, false);
      ZeroFrame(child);
      ghost var m := Mem();
      WriteEntry(table, i, Word(child, flags));
      StoreEntry(m, table, i, Word(child, flags));
      ok := true;
    }

    /** mapPage. `ok` is false where the kernel panics because kpalloc returned 0. */
    method MapPage(phys: Word, va: Word, flags: bv12, cr3: Frame) returns (ok: bool)
      requires Valid() && IsRoot(labels, Root(cr3))
      modifies this`labels, words, pmm`availPages, pmm`lastAllocatedIdx, pmm.bitmap
      ensures Valid() && Extends(old(labels), labels)
      ensures KeepsOthers(old(Mem()), old(labels), Root(cr3), va, Mem())
      ensures KeepsTops(old(Mem()), old(labels), Root(cr3), va, Mem())
      ensures KeepsWords(old(Mem()), old(labels), Root(cr3), va, flags, Mem())
      ensures ok ==> pmm.availPages == old(pmm.availPages) - Missing(old(Mem()), Root(cr3), va)
      ensures ok ==> forall a :: SamePage(a, va) ==>
                LeafWord(Mem(), Root(cr3), a) ==
                if Word(0, flags).Present() || Missing(old(Mem()), Root(cr3), va) == 0 then
                  Word(phys.frame, phys.low | flags)
                else NULL
      ensures ok && Word(0, flags).Present() ==> Entry(Mem(), Root(cr3), Index(va, 0)).Present()
      ensures ok && (Word(0, flags).Present() || Missing(old(Mem()), Root(cr3), va) == 0) ==>
                && LeafEntry(Mem(), Root(cr3), va) == Some(Word(phys.frame, phys.low | flags))
                && (flags & 4 != 0 ==> PathHas(Mem(), Root(cr3), va, 3, flags))
    {
      var root := Root(cr3);
      ghost var m0, labels0 := Mem(), labels;
      ghost var created;
      var table;
      ok, table, created := FindLeaf(root, va, flags);
      if ok {
        Finish(m0, labels0, root, va, table, created, Word(0, flags).Present(), Word(phys.frame, phys.low | flags),
               flags);
      }
    }

    /** The loop of mapPage over the three upper levels. */
    method FindLeaf(root: Frame, va: Word, flags: bv12) returns (ok: bool, table: nat, ghost created: nat)
      requires Valid() && IsRoot(labels, root)
      modifies this`labels, words, pmm`availPages, pmm`lastAllocatedIdx, pmm.bitmap
      ensures Valid() && Kept(old(Mem()), old(labels), root, va, Mem(), labels)
      ensures KeepsWords(old(Mem()), old(labels), root, va, flags, Mem())
      ensures ok && created > 0 ==> table !in old(labels)
      ensures ok ==> Standing(old(Mem()), Mem(), labels, root, va, Word(0, flags).Present(), 3, table, created)
      ensures ok ==> pmm.availPages == old(pmm.availPages) - created
      ensures ok && flags & 4 != 0 && (Word(0, flags).Present() || created == 0) ==> PathHas(Mem(), root, va, 3, flags)
    {
      table, created, ok := root, 0, true;
      ghost var m0, labels0 := Mem(), labels;
      for i := 0 to 3
        invariant Valid() && Kept(m0, labels0, root, va, Mem(), labels)
        invariant Standing(m0, Mem(), labels, root, va, Word(0, flags).Present(), i, table, created)
        invariant KeepsWords(m0, labels0, root, va, flags, Mem()) && (created > 0 ==> table !in labels0)
        invariant table < |pmm.Bits()| ==> !pmm.Bits()[table]
        invariant pmm.availPages == old(pmm.availPages) - created
        invariant flags & 4 != 0 && (Word(0, flags).Present() || created == 0) ==> PathHas(Mem(), root, va, i, flags)
      {
        ok, table, created := Step(m0, labels0, root, va, flags, i, table, created);
        if !ok {
          return;
        }
      }
    }

    /** The body of mapPage's loop. */
    method Step(ghost m0: Memory, ghost labels0: Labels, ghost root: nat, va: Word, flags: bv12, i: nat, table: nat,
        ghost created: nat)
      returns (ok: bool, next: nat, ghost created': nat)
      requires i < 3 && Valid() && Kept(m0, labels0, root, va, Mem(), labels)
      requires Standing(m0, Mem(), labels, root, va, Word(0, flags).Present(), i, table, created)
      requires KeepsWords(m0, labels0, root, va, flags, Mem()) && (created > 0 ==> table !in labels0)
      requires table < |pmm.Bits()| ==> !pmm.Bits()[table]
      requires flags & 4 != 0 && (Word(0, flags).Present() || created == 0) ==> PathHas(Mem(), root, va, i, flags)
      modifies this`labels, words, pmm`availPages, pmm`lastAllocatedIdx, pmm.bitmap
      ensures Valid() && Kept(m0, labels0, root, va, Mem(), labels)
      ensures KeepsWords(m0, labels0, root, va, flags, Mem()) && (ok && created' > 0 ==> next !in labels0)
      ensures ok ==> Standing(m0, Mem(), labels, root, va, Word(0, flags).Present(), i + 1, next, created')
      ensures ok ==> next < |pmm.Bits()| ==> !pmm.Bits()[next]
      ensures ok ==> pmm.availPages == old(pmm.availPages) - created' + created
      ensures ok && flags & 4 != 0 && (Word(0, flags).Present() || created' == 0) ==>
              PathHas(Mem(), root, va, i + 1, flags)
    {
      hide KeepsOthers, KeepsTops, KeepsWords, PathHas;
      if !words[512 * table + Index(va, i)].Present() {
        ok, next := Grow(m0, labels0, root, va, flags, i, table, created);
        created' := created + 1;
      } else {
        next := Follow(m0, labels0, root, va, flags, i, table, created);
        ok, created' := true, 0;
      }
    }

    /** The leaf write of mapPage. */
    method Finish(ghost m0: Memory, ghost labels0: Labels, ghost root: nat, va: Word, table: nat, ghost created: nat,
                  ghost linked: bool, w: Word, ghost flags: bv12)
      requires Valid() && Kept(m0, labels0, root, va, Mem(), labels)
      requires Standing(m0, Mem(), labels, root, va, linked, 3, table, created)
      requires KeepsWords(m0, labels0, root, va, flags, Mem()) && (created > 0 ==> table !in labels0)
      modifies words
      ensures KeepsWords(m0, labels0, root, va, flags, Mem())
      ensures Valid() && KeepsOthers(m0, labels0, root, va, Mem()) && KeepsTops(m0, labels0, root, va, Mem())
      ensures created == Missing(m0, root, va)
      ensures forall a :: SamePage(a, va) ==> LeafWord(Mem(), root, a) == if linked || created == 0 then w else NULL
      ensures linked ==> Entry(Mem(), root, Index(va, 0)).Present()
      ensures linked || created == 0 ==> LeafEntry(Mem(), root, va) == Some(w)
      ensures (linked || created == 0) && old(PathHas(Mem(), root, va, 3, flags)) ==> PathHas(Mem(), root, va, 3, flags)
    {
      if (linked || created == 0) && PathHas(Mem(), root, va, 3, flags) {
        PrefixHead(va, 3);
        StoreEntry(Mem(), table, Index(va, 3), w);
        PathKept(Mem(), labels, Store(Mem(), table, Index(va, 3), w), root, va, 3, 3, flags);
      }
      FinishWords(m0, labels0, root, va, Mem(), labels, flags, linked, table, created, w);
      FinishStep(m0, labels0, root, va, Mem(), labels, linked, table, created, w);
      FinishTops(m0, labels0, root, va, Mem(), labels, linked, table, created, w);
      FinishMaps(m0, labels0, root, va, Mem(), labels, linked, table, created, w);
      WriteEntry(table, Index(va, 3), w);
      forall a | SamePage(a, va) ensures LeafWord(Mem(), root, a) == LeafWord(Mem(), root, va) {
        SamePageLeaf(Mem(), root, a, va);
      }
    }

    /** The missing-level branch of mapPage's loop body. */
    method Grow(ghost m0: Memory, ghost labels0: Labels, ghost root: nat, va: Word, flags: bv12, i: nat, table: nat,
        ghost created: nat)
      returns (ok: bool, child: Frame)
      requires i < 3 && Valid() && Kept(m0, labels0, root, va, Mem(), labels)
      requires Standing(m0, Mem(), labels, root, va, Word(0, flags).Present(), i, table, created)
      requires !Entry(Mem(), table, Index(va, i)).Present()
      requires table < |pmm.Bits()| ==> !pmm.Bits()[table]
      requires KeepsWords(m0, labels0, root, va, flags, Mem()) && (created > 0 ==> table !in labels0)
      modifies this`labels, words, pmm`availPages, pmm`lastAllocatedIdx, pmm.bitmap
      ensures Valid() && Kept(m0, labels0, root, va, Mem(), labels)
      ensures KeepsWords(m0, labels0, root, va, flags, Mem()) && (ok ==> child !in labels0)
      ensures ok ==> Standing(m0, Mem(), labels, root, va, Word(0, flags).Present(), i + 1, child, created + 1)
      ensures ok ==> child < |pmm.Bits()| && !pmm.Bits()[child] && pmm.availPages == old(pmm.availPages) - 1
      ensures ok && Word(0, flags).Present() && old(PathHas(Mem(), root, va, i, flags)) ==>
              PathHas(Mem(), root, va, i + 1, flags)
    {
      hide WellLabelled, Kept, KeepsWords, PathHas, Prefix, Descend, Grown, Index;
      ghost var m := Mem();
      ok, child := NewTable(table, Index(va, i), flags);
      if ok {
        GrowWords(m0, labels0, root, va, m, labels, flags, i, table, created, child, Mem());
        GrowAll(m0, labels0, root, va, m, labels, flags, i, table, created, child, Mem());
        labels := GrownLabels(labels, table, Index(va, i), child, Word(0, flags).Present());
      }
    }

    /** The other branch: the entry is present, and user mappings add their flags to it. */
    method Follow(ghost m0: Memory, ghost labels0: Labels, ghost root: nat, va: Word, flags: bv12, i: nat, table: nat,
        ghost created: nat)
      returns (next: Frame)
      requires i < 3 && Valid() && Kept(m0, labels0, root, va, Mem(), labels)
      requires Standing(m0, Mem(), labels, root, va, Word(0, flags).Present(), i, table, created)
      requires Entry(Mem(), table, Index(va, i)).Present()
      requires KeepsWords(m0, labels0, root, va, flags, Mem())
      modifies words
      ensures KeepsWords(m0, labels0, root, va, flags, Mem())
      ensures Valid() && Kept(m0, labels0, root, va, Mem(), labels)
      ensures created == 0 && Standing(m0, Mem(), labels, root, va, Word(0, flags).Present(), i + 1, next, 0)
      ensures next < |pmm.Bits()| ==> !pmm.Bits()[next]
      ensures flags & 4 != 0 && old(PathHas(Mem(), root, va, i, flags)) ==> PathHas(Mem(), root, va, i + 1, flags)
    {
      hide Kept, KeepsTops, KeepsWords, PathHas, Prefix, Descend, Index, Word.Present;
      var e := words[512 * table + Index(va, i)];
      assert e == Entry(Mem(), table, Index(va, i));
      ghost var low := Followed(e, flags).low;
      FollowedKeeps(e, flags, flags);
      FollowStep(m0, labels0, root, va, Mem(), labels, Word(0, flags).Present(), i, table, created, low);
      FollowWords(m0, labels0, root, va, Mem(), labels, flags, Word(0, flags).Present(), i, table);
      if flags & 4 != 0 && PathHas(Mem(), root, va, i, flags) {
        FollowPath(m0, labels0, root, va, Mem(), labels, Word(0, flags).Present(), i, table, created, low, flags);
      }
      assert Store(Mem(), table, Index(va, i), e) == Mem();
      var isUser := flags & 4 != 0;
      if isUser {
        FollowedUser(e, flags);
        WriteEntry(table, Index(va, i), Word(e.frame, e.low | flags));
      }
      next := e.frame;
    }

    /** walkTable. The leaf's present bit is not tested, so an unmapped leaf yields the page offset. */
    method WalkTable(va: Word, cr3: Frame) returns (phys: Word)
      requires Valid() && IsRoot(labels, Root(cr3))
      ensures phys.frame == PageOf(Mem(), Root(cr3), va)
      ensures phys.low == if Descend(Mem(), Root(cr3), va, 3).Some? then va.low else 0
    {
      hide Index, Prefix;
      var table: nat := Root(cr3);
      for i := 0 to 3
        invariant Descend(Mem(), Root(cr3), va, i) == Some(table)
      {
        DescendLabel(Mem(), labels, Root(cr3), va, i);
        if !words[512 * table + Index(va, i)].Present() {
          DescendNone(Mem(), Root(cr3), va, i + 1);
          return NULL;
        }
        table := words[512 * table + Index(va, i)].frame;
      }
      DescendLabel(Mem(), labels, Root(cr3), va, 3);
      phys := Word(words[512 * table + Index(va, 3)].frame, va.low);
    }

    /** create_clean_virtual_space. The frame is not zeroed: see EmptyExactlyWhen. */
    method CreateCleanVirtualSpace() returns (cr3: Frame)
      requires Valid()
      modifies this`labels, pmm`availPages, pmm`lastAllocatedIdx, pmm.bitmap
      ensures Valid() && Extends(old(labels), labels)
      ensures cr3 != 0 && (forall i :: 0 <= i < 512 ==> !Entry(Mem(), cr3, i).Present()) ==>
                IsRoot(labels, cr3) && forall a :: LeafWord(Mem(), cr3, a) == NULL
      ensures AllocStep(old(pmm.Bits()), old(pmm.lastAllocatedIdx), old(pmm.availPages),
                        pmm.Bits(), pmm.lastAllocatedIdx, pmm.availPages, cr3 * PAGE_SIZE)
    {
      hide Descend, Index, Prefix;
      var page := pmm.KpAlloc();
      cr3 := page / PAGE_SIZE;
      if page != 0 && forall i :: 0 <= i < 512 ==> !Entry(Mem(), cr3, i).Present() {
        labels := labels[cr3 := Label(cr3, [])];
        forall a ensures LeafWord(Mem(), cr3, a) == NULL {
          FirstStep(Mem(), cr3, a);
          DescendNone(Mem(), cr3, a, 1);
        }
      }
    }

    /** kpfree of a page that holds no table. */
    method FreePage(addr: nat)
      requires Valid() && addr / PAGE_SIZE < |pmm.Bits()| && !pmm.Bits()[addr / PAGE_SIZE]
      requires addr / PAGE_SIZE !in labels
      modifies pmm`availPages, pmm.bitmap
      ensures Valid() && pmm.availPages == old(pmm.availPages) + 1
      ensures pmm.Bits() == old(pmm.Bits())[addr / PAGE_SIZE := true]
    {
      pmm.KpFree(addr);
    }
  }
}
