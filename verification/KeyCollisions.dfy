/** The search for a table by its 9-bit index, when two tables have the same one: when that cannot
    happen, in terms of the pages mapped, and what an unmap does when it does. */
module KeyCollisions {
  import opened Common
  import opened RunLists
  import opened PageTree
  import opened TablePool
  import opened PageRange
  import opened TableSteps

  // ---------------------------------------------------------------- keys in terms of pages

  /** Two pages of different 1 GB slots, or of different 2 MB blocks, whose table indices are equal. */
  predicate Clash(v: int, w: int) {
    || (v / 0x4_0000 != w / 0x4_0000 && v / 0x4_0000 % 512 == w / 0x4_0000 % 512)
    || (v / 512 != w / 512 && v / 512 % 512 == w / 512 % 512)
  }

  /** No two of the pages mapped and of the n pages from start on clash. */
  ghost predicate ClashFree(view: map<Page, int>, start: int, n: int) {
    forall v, w | MappedOrNew(view, start, n, v) && MappedOrNew(view, start, n, w) :: !Clash(v, w)
  }

  ghost predicate MappedOrNew(view: map<Page, int>, start: int, n: int, v: int) {
    0 <= v < PAGES && (PageOf(v) in view || start <= v < start + n)
  }

  lemma SameSlot(v: int, w: int)
    requires 0 <= v && 0 <= w && v / 0x4_0000 == w / 0x4_0000
    ensures !Clash(v, w)
  {
    SlotOfBlock(v);
    SlotOfBlock(w);
  }

  lemma UniqueMeansNoClash(t: Tree)
    requires Owned(t) && KeyUnique(t)
    ensures forall v, w | 0 <= v < PAGES && 0 <= w < PAGES && PageOf(v) in t.view && PageOf(w) in t.view :: !Clash(v, w)
  {
    hide PageOf;
    forall v, w | 0 <= v < PAGES && 0 <= w < PAGES && PageOf(v) in t.view && PageOf(w) in t.view
      ensures !Clash(v, w)
    {
      PageDigits(v);
      PageDigits(w);
      assert HasPt(t, PageOf(v)) && HasPt(t, PageOf(w));
      assert HasPd0(t, PageOf(v).block) && HasPd0(t, PageOf(w).block);
      SlotOfBlock(v);
      SlotOfBlock(w);
    }
  }

  lemma NoClashMeansUnique(t: Tree)
    requires Owned(t) && Tight(t)
    requires forall v, w | 0 <= v < PAGES && 0 <= w < PAGES && PageOf(v) in t.view && PageOf(w) in t.view ::
               !Clash(v, w)
    ensures KeyUnique(t)
  {
    hide PageOf, Tight, Owned;
    forall a, b | a in t.leaves && b in t.leaves && a.index == b.index
      ensures a == b
    {
      var v := SomePage(t, a);
      var w := SomePage(t, b);
      assert !Clash(v, w);
    }
    forall s, r | s in t.dirs && r in t.dirs && s % 512 == r % 512
      ensures s == r
    {
      var v := SomePageOfSlot(t, s);
      var w := SomePageOfSlot(t, r);
      assert !Clash(v, w);
    }
  }

  lemma SomePage(t: Tree, b: Block) returns (v: int)
    requires Owned(t) && Tight(t) && b in t.leaves
    ensures 0 <= v < PAGES && PageOf(v) in t.view && b == Block(v / 0x4_0000, v / 512 % 512)
    ensures v / 512 == b.slot * 512 + b.index && PageOf(v).block == b
  {
    assert HasPage(t.view, b);
    var p :| p in t.view && p.block == b;
    v := PageNumber(t, p);
    PageDigits(v);
    SlotOfBlock(v);
  }

  lemma SomePageOfSlot(t: Tree, s: int) returns (v: int)
    requires Owned(t) && Tight(t) && s in t.dirs
    ensures 0 <= v < PAGES && PageOf(v) in t.view && v / 0x4_0000 == s
  {
    hide PageOf;
    assert HasBlock(t.leaves, s);
    var b :| b in t.leaves && b.slot == s;
    v := SomePage(t, b);
  }

  // ---------------------------------------------------------------- colliding keys

  function Zeroing(mem: seq<Pte>, c: int): (now: seq<Pte>)
    ensures |now| == |mem|
  {
    if 0 <= c < |mem| then mem[c := ZERO] else mem
  }

  /** Table memory after node k was given back, and the PD0 that is found by `dirKey` in the
      shorter list too when that was its last use. */
  ghost function LeafReleased(mem: seq<Pte>, used: seq<TableRun>, k: int, dirKey: int): (now: seq<Pte>)
    requires 0 <= k < |used|
    ensures |now| == |mem|
  {
    var less := Without(used, k);
    var j := FirstTable(less, dirKey, MMU_PD0);
    var now := Zeroing(mem, used[k].tag.entry);
    if j == |less| || Down(less[j].tag.uses) > 0 then now else Zeroing(now, less[j].tag.entry)
  }

  /** Table memory after the entry of a page was cleared, whichever tables are found by key. */
  ghost function EntryCleared(mem: seq<Pte>, used: seq<TableRun>, entry: int, key: int, dirKey: int): (now: seq<Pte>)
    ensures |now| == |mem|
  {
    var k := FirstTable(used, key, MMU_PT);
    var now := Zeroing(mem, entry);
    if k == |used| || Down(used[k].tag.uses) > 0 then now else LeafReleased(now, used, k, dirKey)
  }

  lemma SameRelease(mem: seq<Pte>, used: seq<TableRun>, k: int, uses: int, dirKey: int)
    requires 0 <= k < |used|
    ensures LeafReleased(mem, Recount(used, k, uses), k, dirKey) == LeafReleased(mem, used, k, dirKey)
  {
    assert Without(Recount(used, k, uses), k) == Without(used, k);
  }

  /** Page q is translated through the table of o. */
  predicate Under(q: Page, o: Owner) {
    match o
    case Dir(s) => q.block.slot == s
    case Leaf(b) => q.block == b
  }

  /** The table of o translates no page but v. */
  ghost predicate OnlyPage(view: map<Page, int>, o: Owner, v: int) {
    forall q | q in view && Under(q, o) :: q == PageOf(v)
  }

  /** The PT that is found for page v has more uses counted than one, or translates no other page; and
      if it is given back, likewise the PD0 that is found. */
  ghost predicate Spares(t: Tree, used: seq<TableRun>, v: int) {
    var b := PageOf(v).block;
    var k, j := FirstTable(used, b.index, MMU_PT), FirstTable(used, b.slot % 512, MMU_PD0);
    && k < |used| && j < |used| && used[k].start in t.owner && used[j].start in t.owner
    && (used[k].tag.uses > 1
        || (OnlyPage(t.view, t.owner[used[k].start], v)
            && (used[j].tag.uses > 1 || OnlyPage(t.view, t.owner[used[j].start], v))))
  }

  ghost predicate OthersKept(before: seq<Pte>, after: seq<Pte>, v: int)
    requires |before| == |after| == POOL_END
  {
    forall w | 0 <= w < PAGES && w != v :: Walk(after, w) == Walk(before, w)
  }

  /** Whatever tables share an index, and whatever the counts are: unmapping page v leaves the
      translation of every other page alone if and only if no table is given back that translates
      another page. */
  lemma ClearIsExact(t: Tree, used: seq<TableRun>, pid: int, v: int)
    requires Shape(t) && Linked(t, used, pid) && 0 <= v < PAGES && PageOf(v) in t.view
    ensures HasPt(t, PageOf(v)) && HasPd0(t, PageOf(v).block) && |t.mem| == POOL_END
    ensures var p := PageOf(v);
            OthersKept(t.mem, EntryCleared(t.mem, used, PtCell(t.leaves, p), p.block.index, p.block.slot % 512), v)
            <==> Spares(t, used, v)
  {
    hide Owned, Filled, Linked, PageOf, FirstTable, Walk, EntryCleared, OthersKept, OnlyPage;
    var p := PageOf(v);
    IsMapped(t, p);
    SearchSucceeds(t, used, pid);
    var k, j := FirstTable(used, p.block.index, MMU_PT), FirstTable(used, p.block.slot % 512, MMU_PD0);
    Found(t, used, pid, k);
    Found(t, used, pid, j);
    ClearedSteps(t.mem, used, PtCell(t.leaves, p), p.block.index, p.block.slot % 512);
    var b, s := t.owner[used[k].start].block, t.owner[used[j].start].slot;
    if used[k].tag.uses > 1 {
      ClearPageKeepsShape(t, p);
      WalksAsBefore(t, ClearPage(t, p), v);
    } else if !OnlyPage(t.view, Leaf(b), v) {
      var w := OtherPage(t, Leaf(b), v);
      IsMapped(t, PageOf(w));
      PtLost(t, used, pid, v, w, k);
    } else {
      PtDropped(t, v, b);
      if used[j].tag.uses > 1 {
        WalksAsBefore(t, DropLeaf(ClearPage(t, p), b), v);
      } else if !OnlyPage(t.view, Dir(s), v) {
        var w := OtherPage(t, Dir(s), v);
        IsMapped(t, PageOf(w));
        Pd0Lost(t, used, pid, v, w, j);
      } else {
        Pd0Dropped(t, v, b, s);
      }
    }
  }

  /** The three outcomes, by the nodes found in the list as it was. */
  lemma ClearedSteps(mem: seq<Pte>, used: seq<TableRun>, entry: int, key: int, dirKey: int)
    requires FirstTable(used, key, MMU_PT) < |used| && FirstTable(used, dirKey, MMU_PD0) < |used|
    ensures var k, j := FirstTable(used, key, MMU_PT), FirstTable(used, dirKey, MMU_PD0);
            var one := Zeroing(mem, entry);
            var two := Zeroing(one, used[k].tag.entry);
            EntryCleared(mem, used, entry, key, dirKey) ==
            if used[k].tag.uses > 1 then one else if used[j].tag.uses > 1 then two else Zeroing(two, used[j].tag.entry)
  {
    hide FirstTable;
    WithoutOther(used, FirstTable(used, key, MMU_PT), dirKey, MMU_PD0);
  }

  lemma IsMapped(t: Tree, p: Page)
    requires Owned(t) && Filled(t) && p in t.view
    ensures HasPt(t, p) && HasPd0(t, p.block) && |t.mem| == POOL_END
    ensures POOL <= PtCell(t.leaves, p) < POOL_END && POOL <= Pd0Cell(t.dirs, p.block) < POOL_END
    ensures t.leaves[p.block] in t.owner && t.owner[t.leaves[p.block]] == Leaf(p.block)
    ensures t.dirs[p.block.slot] in t.owner && t.owner[t.dirs[p.block.slot]] == Dir(p.block.slot)
  {
    assert HasPd0(t, p.block);
    PageCell(t, p);
    BlockCell(t, p.block);
  }

  /** What a listed node says about its table. */
  lemma Found(t: Tree, used: seq<TableRun>, pid: int, k: int)
    requires Owned(t) && Linked(t, used, pid) && 0 <= k < |used|
    ensures used[k].start in t.owner
    ensures match t.owner[used[k].start]
            case Dir(s) =>
              && s in t.dirs && 0 <= s < 1024 && t.dirs[s] == used[k].start && used[k].tag.level == MMU_PD0
              && used[k].tag.entry == Pd1Cell(s)
            case Leaf(b) =>
              && b in t.leaves && t.leaves[b] == used[k].start && used[k].tag.level == MMU_PT
              && HasPd0(t, b) && used[k].tag.entry == Pd0Cell(t.dirs, b)
  {
    assert Describes(t, used[k], pid);
  }

  lemma OtherPage(t: Tree, o: Owner, v: int) returns (w: int)
    requires Owned(t) && 0 <= v < PAGES && !OnlyPage(t.view, o, v)
    ensures 0 <= w < PAGES && w != v && PageOf(w) in t.view && Under(PageOf(w), o)
  {
    hide PageOf, Owned;
    var q :| q in t.view && Under(q, o) && q != PageOf(v);
    w := PageNumber(t, q);
  }

  lemma WalksAsBefore(t: Tree, u: Tree, v: int)
    requires Shape(t) && Shape(u) && 0 <= v < PAGES && u.view == t.view - {PageOf(v)}
    ensures |t.mem| == |u.mem| == POOL_END && OthersKept(t.mem, u.mem, v)
  {
    hide PageOf, Walk, Owned;
    forall w | 0 <= w < PAGES && w != v
      ensures Walk(u.mem, w) == Walk(t.mem, w)
    {
      WalkRefinesView(t, w);
      WalkRefinesView(u, w);
      if PageOf(w) == PageOf(v) {
        PageOfInjective(v, w);
      }
    }
  }

  /** The PT of node k is given back when page v is unmapped: a page w in it is lost. */
  lemma PtLost(t: Tree, used: seq<TableRun>, pid: int, v: int, w: int, k: int)
    requires Shape(t) && Linked(t, used, pid) && 0 <= v < PAGES && 0 <= w < PAGES && v != w
    requires PageOf(v) in t.view && PageOf(w) in t.view && HasPt(t, PageOf(v)) && HasPt(t, PageOf(w))
    requires k == FirstTable(used, PageOf(v).block.index, MMU_PT) < |used| && used[k].start == t.leaves[PageOf(w).block]
    requires used[k].tag.uses <= 1
    ensures Walk(t.mem, w) == Some(t.view[PageOf(w)])
    ensures var p := PageOf(v);
            var mem := EntryCleared(t.mem, used, PtCell(t.leaves, p), p.block.index, p.block.slot % 512);
            |t.mem| == |mem| == POOL_END && Walk(mem, w) == None && !OthersKept(t.mem, mem, v)
  {
    hide PageOf, TableEntry, Present, Flagged, FrameOf, Owned, Filled, Linked, Walk, FirstTable, EntryCleared;
    var p, q := PageOf(v), PageOf(w);
    WalkRefinesView(t, w);
    LeafNode(t, used, pid, q.block, k);
    PageCell(t, p);
    IsMapped(t, p);
    SearchSucceeds(t, used, pid);
    Found(t, used, pid, FirstTable(used, p.block.slot % 512, MMU_PD0));
    ClearedSteps(t.mem, used, PtCell(t.leaves, p), p.block.index, p.block.slot % 512);
    EntryLost(t, EntryCleared(t.mem, used, PtCell(t.leaves, p), p.block.index, p.block.slot % 512), w);
  }

  /** The PD0 of node j is given back after the PT: a page w below it is lost. */
  lemma Pd0Lost(t: Tree, used: seq<TableRun>, pid: int, v: int, w: int, j: int)
    requires Shape(t) && Linked(t, used, pid) && 0 <= v < PAGES && 0 <= w < PAGES && v != w
    requires PageOf(v) in t.view && PageOf(w) in t.view && HasPt(t, PageOf(v)) && HasPd0(t, PageOf(w).block)
    requires FirstTable(used, PageOf(v).block.index, MMU_PT) < |used|
    requires used[FirstTable(used, PageOf(v).block.index, MMU_PT)].tag.uses <= 1
    requires j == FirstTable(used, PageOf(v).block.slot % 512, MMU_PD0) < |used| && used[j].tag.uses <= 1
    requires used[j].start == t.dirs[PageOf(w).block.slot]
    ensures var p := PageOf(v);
            var mem := EntryCleared(t.mem, used, PtCell(t.leaves, p), p.block.index, p.block.slot % 512);
            |t.mem| == |mem| == POOL_END && !OthersKept(t.mem, mem, v)
  {
    hide PageOf, TableEntry, Present, Flagged, FrameOf, Owned, Filled, Linked, Walk, FirstTable, EntryCleared;
    var p, q := PageOf(v), PageOf(w);
    WalkRefinesView(t, w);
    PageDigits(w);
    IsMapped(t, p);
    IsMapped(t, q);
    var k := FirstTable(used, p.block.index, MMU_PT);
    Found(t, used, pid, k);
    Found(t, used, pid, j);
    BlockCell(t, t.owner[used[k].start].block);
    ClearedSteps(t.mem, used, PtCell(t.leaves, p), p.block.index, p.block.slot % 512);
    EntryLost(t, EntryCleared(t.mem, used, PtCell(t.leaves, p), p.block.index, p.block.slot % 512), w);
  }

  /** Page v leaves, and the PT of a block that translates no other page. */
  lemma PtDropped(t: Tree, v: int, b: Block)
    requires Shape(t) && 0 <= v < PAGES && PageOf(v) in t.view && b in t.leaves && OnlyPage(t.view, Leaf(b), v)
    ensures HasPt(t, PageOf(v)) && HasPd0(t, b)
    ensures var u := ClearPage(t, PageOf(v));
            && Shape(u) && b in u.leaves && Shape(DropLeaf(u, b)) && DropLeaf(u, b).view == t.view - {PageOf(v)}
            && DropLeaf(u, b).mem == Zeroing(Zeroing(t.mem, PtCell(t.leaves, PageOf(v))), Pd0Cell(t.dirs, b))
  {
    hide PageOf, Filled;
    IsMapped(t, PageOf(v));
    BlockCell(t, b);
    var u := ClearPage(t, PageOf(v));
    ClearPageKeepsShape(t, PageOf(v));
    assert forall p | p in u.view :: !Under(p, Leaf(b));
    DropLeafKeepsShape(u, b);
  }

  /** And then the PD0 of a slot in which no other page is translated. */
  lemma Pd0Dropped(t: Tree, v: int, b: Block, s: int)
    requires Shape(t) && 0 <= v < PAGES && PageOf(v) in t.view && b in t.leaves && OnlyPage(t.view, Leaf(b), v)
    requires s in t.dirs && 0 <= s < 1024 && OnlyPage(t.view, Dir(s), v)
    ensures HasPt(t, PageOf(v)) && HasPd0(t, b) && |t.mem| == POOL_END
    ensures var two := Zeroing(Zeroing(t.mem, PtCell(t.leaves, PageOf(v))), Pd0Cell(t.dirs, b));
            OthersKept(t.mem, Zeroing(two, Pd1Cell(s)), v)
  {
    hide PageOf, Owned, Filled, Walk, OnlyPage;
    PtDropped(t, v, b);
    IsMapped(t, PageOf(v));
    var u := DropLeaf(ClearPage(t, PageOf(v)), b);
    forall w | 0 <= w < PAGES && w != v
      ensures Walk(Zeroing(u.mem, Pd1Cell(s)), w) == Walk(t.mem, w)
    {
      WalkRefinesView(t, w);
      WithoutSlot(u, s, w);
      if PageOf(w) == PageOf(v) {
        PageOfInjective(v, w);
      }
      OutsideSlot(t.view, s, v, w);
    }
  }

  lemma OutsideSlot(view: map<Page, int>, s: int, v: int, w: int)
    requires OnlyPage(view, Dir(s), v) && PageOf(w) != PageOf(v)
    ensures PageOf(w) in view ==> PageOf(w).block.slot != s
  {
    assert PageOf(w) in view && PageOf(w).block.slot == s ==> Under(PageOf(w), Dir(s));
  }

  /** With the PD1 entry of slot s zeroed, the pages of s are not translated, and the others are as
      before. */
  lemma WithoutSlot(t: Tree, s: int, w: int)
    requires Shape(t) && 0 <= s < 1024 && 0 <= w < PAGES
    ensures |t.mem| == POOL_END
    ensures Walk(Zeroing(t.mem, Pd1Cell(s)), w) == if PageOf(w).block.slot == s then None else Lookup(t.view, PageOf(w))
  {
    var mem, p := Zeroing(t.mem, Pd1Cell(s)), PageOf(w);
    var b := p.block;
    Digits(w);
    FromPd2(t, w / 0x800_0000);
    FromPd1(t, b.slot);
    if b.slot == s {
      NextIs(mem, Pd1Cell(s), 0, false);
      Chain(mem, map[], map[], map[], w);
    } else {
      if b.slot in t.dirs {
        FromPd0(t, b);
        if b in t.leaves {
          assert PageOk(t, p);
        }
      }
      Chain(mem, t.dirs, t.leaves, t.view, w);
    }
  }

  lemma EntryLost(t: Tree, mem: seq<Pte>, w: int)
    requires Shape(t) && |mem| == POOL_END && 0 <= w < PAGES && HasPd0(t, PageOf(w).block)
    requires forall c | 0 <= c < POOL :: mem[c] == t.mem[c] || (PD1 <= c && mem[c] == ZERO)
    requires 0 <= Pd0Cell(t.dirs, PageOf(w).block) < POOL_END
    requires mem[Pd0Cell(t.dirs, PageOf(w).block)] == ZERO ||
             (0 <= PageOf(w).block.slot && mem[Pd1Cell(PageOf(w).block.slot)] == ZERO)
    ensures Walk(mem, w) == None
  {
    Digits(w);
    FromPd2(t, w / 0x800_0000);
    FromPd1(t, PageOf(w).block.slot);
    var c := Pd1Cell(PageOf(w).block.slot);
    NextIs(mem, c, 0, false);
    NextIs(mem, Pd0Cell(t.dirs, PageOf(w).block), 0, true);
    Chain(mem, if mem[c] == t.mem[c] then t.dirs else map[], map[], map[], w);
  }
}
