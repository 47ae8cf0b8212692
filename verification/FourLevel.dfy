/** The 40-bit VA / 48-bit PA build of the MMU for one process: table memory, the pool of table
    pages, and the loops that map and unmap the pages of a buffer. */
module FourLevel {
  import opened Common
  import opened RunLists
  import opened Regions
  import opened PageTree
  import opened TablePool
  import opened PageRange
  import opened TableSteps
  import opened KeyCollisions

  const QUARTER := 0x400_0000

  // ---------------------------------------------------------------- table memory

  class PageTables {
    const mem: array<Pte>
    const pool: NodeLists<Table>
    const pid: int
    ghost var tree: Tree

    ghost predicate Valid()
      reads this, mem, pool
    {
      && mem.Length == POOL_END && tree.mem == mem[..]
      && pool.Valid() && pool.lo == POOL && pool.hi == POOL_END
      && Sound(tree, pool.used, pool.free, pid)
    }

    /** The list in use holds whole table pages; nothing is said about the tree. */
    ghost predicate Paged()
      reads this, mem, pool
    {
      && mem.Length == POOL_END && pool.Valid() && pool.lo == POOL && pool.hi == POOL_END && Uniform(pool.free)
      && forall k | 0 <= k < |pool.used| :: IsPage(pool.used[k])
    }

    ghost predicate IsPage(r: TableRun) {
      IsTable(r.start) && r.end == r.start + 512 && 0 <= r.tag.entry < POOL_END
    }

    lemma ValidIsPaged()
      requires Valid()
      ensures Paged()
    {
      forall k | 0 <= k < |pool.used|
        ensures IsPage(pool.used[k])
      {
        assert Describes(tree, pool.used[k], pid);
      }
    }

    ghost predicate CountsRight()
      reads this, pool
    {
      Counted(tree, pool.used)
    }

    /** MMUEnable, MMUWritePD2Entry and PageCreateNode. */
    constructor (pid: int)
      ensures Valid() && CountsRight() && tree.dirs == map[] && tree.leaves == map[] && tree.view == map[]
      ensures pool.used == [] && fresh(mem) && fresh(pool)
    {
      mem := new Pte[POOL_END](_ => ZERO);
      pool := new NodeLists<Table>(POOL, POOL_END, POOL_END - POOL, Table(MMU_NONE, 0, 0, 0, 0));
      this.pid := pid;
      new;
      var pd1 := PD1;
      for i := 0 to 2
        invariant pd1 == PD1 + i * 512
        invariant forall c | 0 <= c < POOL_END && c != PD2 && c != PD2 + 1 :: mem[c] == ZERO
        invariant 0 < i ==> mem[PD2] == TableEntry(PD1, false)
        invariant 1 < i ==> mem[PD2 + 1] == TableEntry(PD1 + 512, false)
        invariant pool.Valid() && pool.lo == POOL && pool.hi == POOL_END && pool.used == [] && fresh(pool)
        invariant fresh(mem)
      {
        mem[PD2 + i] := TableEntry(pd1, false);
        pd1 := pd1 + 512;
      }
      tree := Tree(mem[..], map[], map[], map[], map[]);
      forall x, j | IsTable(x) && 0 <= j < 512
        ensures Covers(pool.free, At(x, j))
      {
        assert POOL <= At(x, j) < POOL_END && !Covers(pool.used, At(x, j));
      }
    }

    // -------------------------------------------------------------- pool and memory primitives

    /** FindFreePageNode, the assignment of the node's fields, and SplitFreePageNode. */
    method NewTable(level: Level, key: int, entry: int) returns (x: int)
      requires Valid() && |pool.used| < TABLES
      modifies pool
      ensures pool.Valid() && pool.used == [NewRun(x, Table(level, key, entry, pid, 0))] + old(pool.used)
      ensures Fresh(tree, old(pool.used), pool.free, pid, x, Table(level, key, entry, pid, 0))
    {
      hide Sound, Fresh, Covers, Apart, Total, Coalesced;
      ghost var free, used := pool.free, pool.used;
      Room(tree, used, free, pid);
      var k := pool.FindFreeNode(512);
      FirstPageOfNode(tree, used, free, pid, k);
      x := pool.free[k].start;
      pool.TagFree(k, Table(level, key, entry, pid, 0));
      pool.SplitFreeNode(k, 512);
      FreshPage(tree, used, free, pid, x, Table(level, key, entry, pid, 0), pool.used[0], pool.free);
    }

    /** GetPageNode. */
    method GetPageNode(key: int, level: Level) returns (k: int)
      ensures k == FirstTable(pool.used, key, level)
    {
      k := 0;
      while k < |pool.used| && !(pool.used[k].tag.key == key && pool.used[k].tag.level == level)
        invariant 0 <= k <= |pool.used|
        invariant forall i | 0 <= i < k :: !(pool.used[i].tag.key == key && pool.used[i].tag.level == level)
      {
        k := k + 1;
      }
    }

    /** WritePDEntry; u is the tree after it. */
    method Store(c: int, e: Pte, ghost u: Tree)
      requires mem.Length == POOL_END && 0 <= c < POOL_END
      modifies this, mem
      ensures mem[..] == old(mem[..])[c := e] && tree == u
    {
      mem[c] := e;
      tree := u;
    }

    /** WritePDEntry followed by the new use count of node k. */
    method StoreAndCount(c: int, e: Pte, k: int, uses: int, ghost u: Tree)
      requires mem.Length == POOL_END && 0 <= c < POOL_END && pool.Valid() && 0 <= k < |pool.used|
      modifies this, mem, pool
      ensures mem[..] == old(mem[..])[c := e] && tree == u
      ensures pool.Valid() && pool.used == Recount(old(pool.used), k, uses) && pool.free == old(pool.free)
    {
      Store(c, e, u);
      SetUses(k, uses);
    }

    /** The use count of node k. */
    method SetUses(k: int, uses: int)
      requires pool.Valid() && 0 <= k < |pool.used|
      modifies pool
      ensures pool.Valid() && pool.used == Recount(old(pool.used), k, uses) && pool.free == old(pool.free)
    {
      pool.TagUsed(k, pool.used[k].tag.(uses := uses));
    }

    /** RemovePageNode for node k, and zero into its parent entry; u is the tree after it. */
    method RemovePageNode(k: int, ghost u: Tree)
      requires Paged() && 0 <= k < |pool.used|
      modifies this, mem, pool
      ensures mem[..] == old(mem[..])[old(pool.used[k].tag.entry) := ZERO] && tree == u
      ensures Paged() && GivenBack(old(pool.used), old(pool.free), k, pool.used, pool.free)
    {
      assert IsPage(pool.used[k]);
      ghost var used, free := pool.used, pool.free;
      var entry := pool.used[k].tag.entry;
      pool.TagUsed(k, pool.used[k].tag.(level := MMU_NONE));
      pool.InsertFree(k);
      StaysUniform(free, pool.free, used[k].start);
      assert pool.used == Without(used, k);
      Store(entry, ZERO, u);
    }

    // -------------------------------------------------------------- GetPageEntry, level by level

    /** Level MMU_PD1: through the PD2 entry to the PD1 cell of page v. */
    method Pd1Entry(v: int) returns (c: int)
      requires Valid() && 0 <= v < PAGES
      ensures c == Pd1Cell(PageOf(v).block.slot)
    {
      Digits(v);
      var e := mem[PD2 + v / 0x800_0000];
      FromPd2(tree, v / 0x800_0000);
      c := TargetOf(e) + v / 0x4_0000 % 512;
    }

    /** Level MMU_PD0: the PD0 cell of page v; the PD0 is allocated when its slot has none. */
    method Pd0Entry(v: int) returns (c: int)
      requires Valid() && 0 <= v < PAGES
      requires PageOf(v).block.slot in tree.dirs || |pool.used| < TABLES
      modifies this, mem, pool
      ensures Valid() && HasPd0(tree, PageOf(v).block) && c == Pd0Cell(tree.dirs, PageOf(v).block)
      ensures DirEnsured(old(tree), |old(pool.used)|, tree, |pool.used|, PageOf(v).block.slot)
      ensures old(PageOf(v).block.slot in tree.dirs) ==> pool.used == old(pool.used)
      ensures old(CountsRight()) ==> CountsRight()
    {
      hide Shape, Linked, Uniform, Zeroed, TargetOf, TableEntry, Counted, Owned, Filled;
      PageDigits(v);
      ghost var s := PageOf(v).block.slot;
      var parent := Pd1Entry(v);
      var table := TargetOf(mem[parent]);
      DirOf(tree, s);
      if table == 0 {
        table := NewDir(v / 0x4_0000, parent);
      }
      c := table + v / 512 % 512;
    }

    /** A new PD0 for slot s, entered into PD1 cell `parent`. */
    method NewDir(s: int, parent: int) returns (x: int)
      requires Valid() && 0 <= s < 1024 && s !in tree.dirs && parent == Pd1Cell(s) && |pool.used| < TABLES
      modifies this, mem, pool
      ensures Valid() && tree == AddDir(old(tree), s, x) && |pool.used| == |old(pool.used)| + 1
      ensures old(CountsRight()) ==> CountsRight()
    {
      ghost var used := pool.used;
      x := NewTable(MMU_PD0, s % 512, parent);
      NewDirRecorded(tree, used, pool.free, pid, s, x);
      Store(parent, TableEntry(x, false), AddDir(tree, s, x));
    }

    /** Level MMU_PT: the PT cell of page v; the PT is allocated when its block has none. */
    method PtEntry(v: int) returns (c: int)
      requires Valid() && 0 <= v < PAGES
      requires PageOf(v).block in tree.leaves || |pool.used| + Needed(tree, PageOf(v).block) <= TABLES
      modifies this, mem, pool
      ensures Valid() && HasPt(tree, PageOf(v)) && c == PtCell(tree.leaves, PageOf(v))
      ensures LeafEnsured(old(tree), |old(pool.used)|, tree, |pool.used|, PageOf(v).block)
      ensures if old(PageOf(v).block in tree.leaves) then pool.used == old(pool.used)
              else FindsPt(tree, pool.used, PageOf(v).block)
      ensures old(CountsRight()) && DirKeyUnique(tree) ==> CountsRight()
    {
      hide Valid, CountsRight, Shape, Owned, Filled, TargetOf, PageOf, FindsPt, FindsPd0, LeafEnsured;
      PageDigits(v);
      IsSound();
      ghost var p := PageOf(v);
      LeafHasDir(tree, p.block);
      var i, key, dirKey := v % 512, v / 512 % 512, v / 0x4_0000 % 512;
      var parent := Pd0Entry(v);
      IsSound();
      LeafOf(tree, p.block);
      var table := TargetOf(mem[parent]);
      ghost var mid, n := tree, |pool.used|;
      if table == 0 {
        FindsDir(p.block.slot);
        table := NewLeaf(p.block, key, dirKey, parent);
      }
      DirThenLeaf(old(tree), |old(pool.used)|, mid, tree, n, p.block, table);
      c := table + i;
    }

    lemma FindsDir(s: int)
      requires Valid() && s in tree.dirs
      ensures DirKeyUnique(tree) ==> FindsPd0(tree, pool.used, s)
    {
      SearchIsExact(tree, pool.used, pid);
    }

    /** A new PT for block b, entered into PD0 cell `parent`; its PD0 counts one more use. */
    method NewLeaf(ghost b: Block, key: int, dirKey: int, parent: int) returns (x: int)
      requires Valid() && HasPd0(tree, b) && b !in tree.leaves && parent == Pd0Cell(tree.dirs, b)
      requires key == b.index && dirKey == b.slot % 512 && |pool.used| < TABLES
      modifies this, mem, pool
      ensures Valid() && tree == AddLeaf(old(tree), b, x) && |pool.used| == |old(pool.used)| + 1
      ensures FindsPt(tree, pool.used, b)
      ensures old(CountsRight() && FindsPd0(tree, pool.used, b.slot)) ==> CountsRight()
    {
      ghost var used := pool.used;
      BlockCell(tree, b);
      x := NewTable(MMU_PT, key, parent);
      var k := GetPageNode(dirKey, MMU_PD0);
      NewLeafRecorded(tree, used, pool.free, pid, b, x, k);
      StoreAndCount(parent, TableEntry(x, true), k, Up(pool.used[k].tag.uses), AddLeaf(tree, b, x));
    }

    // -------------------------------------------------------------- one page

    /** WritePDEntry for a page that is being mapped, and the count of its PT. */
    method WriteEntry(ghost p: Page, key: int, entry: int, e: Pte)
      requires Valid() && HasPt(tree, p) && entry == PtCell(tree.leaves, p) && key == p.block.index
      requires Present(e) && Flagged(e)
      modifies this, mem, pool
      ensures Valid() && tree == SetPage(old(tree), p, e) && |pool.used| == |old(pool.used)|
      ensures FindsPt(tree, pool.used, p.block) <==> old(FindsPt(tree, pool.used, p.block))
      ensures old(CountsRight() && FindsPt(tree, pool.used, p.block) && p !in tree.view) ==> CountsRight()
    {
      PageCell(tree, p);
      var k := GetPageNode(key, MMU_PT);
      NewPageRecorded(tree, pool.used, pool.free, pid, p, e, k);
      StoreAndCount(entry, e, k, Up(pool.used[k].tag.uses), SetPage(tree, p, e));
    }

    /** Zeroing the entry of a page; when the PT found by key counted no other, it goes back to the
        pool and its PD0 entry is zeroed; when the PD0 found by key counted no other, so does it.
        With right counts, and when these are the tables of the page, only the page is unmapped. */
    method ClearEntry(ghost p: Page, key: int, dirKey: int, entry: int)
      requires Valid() && p in tree.view && HasPt(tree, p) && entry == PtCell(tree.leaves, p)
      requires key == p.block.index && dirKey == p.block.slot % 512
      modifies this, mem, pool
      ensures mem[..] == EntryCleared(old(mem[..]), old(pool.used), entry, key, dirKey)
      ensures old(CountsRight() && Finds(tree, pool.used, p.block)) ==>
                && Valid() && CountsRight() && StillFound(old(tree), old(pool.used), tree, pool.used)
                && tree.view == old(tree.view) - {p}
                && (var b := p.block;
                    && tree.leaves == (if HasPage(tree.view, b) then old(tree.leaves) else old(tree.leaves) - {b})
                    && tree.dirs ==
                       if tree.leaves == old(tree.leaves) || HasBlock(tree.leaves, b.slot) then old(tree.dirs)
                       else old(tree.dirs) - {b.slot})
    {
      hide Valid, CountsRight, Finds, StillFound, HasPage, HasBlock, LeafReleased, FirstTable, PtCell;
      ghost var good, t, used := CountsRight() && Finds(tree, pool.used, p.block), tree, pool.used;
      var k := CountOut(p, key, entry);
      ghost var mid, now := tree, pool.used;
      if pool.used[k].tag.uses == 0 {
        CanRelease(p.block, k);
        SameRelease(mem[..], used, k, 0, dirKey);
        ReleaseLeaf(p.block, k, dirKey, good);
        if good {
          FoundTwice(t, used, mid, now, tree, pool.used);
        }
      }
    }

    /** The entry becomes zero, and the PT found by key counts one page less. */
    method CountOut(ghost p: Page, key: int, entry: int) returns (k: int)
      requires Valid() && p in tree.view && HasPt(tree, p) && entry == PtCell(tree.leaves, p) && key == p.block.index
      modifies this, mem, pool
      ensures Valid() && k == FirstTable(old(pool.used), key, MMU_PT) < |old(pool.used)|
      ensures pool.used == Recount(old(pool.used), k, Down(old(pool.used)[k].tag.uses))
      ensures mem[..] == Zeroing(old(mem[..]), entry)
      ensures tree.view == old(tree.view) - {p} && tree.leaves == old(tree.leaves) && tree.dirs == old(tree.dirs)
      ensures StillFound(old(tree), old(pool.used), tree, pool.used)
      ensures old(CountsRight() && Finds(tree, pool.used, p.block)) ==>
                && CountsRight() && Finds(tree, pool.used, p.block) && pool.used[k].start == tree.leaves[p.block]
                && (pool.used[k].tag.uses == 0 <==> !HasPage(tree.view, p.block))
    {
      hide Sound, Shape, Owned, Filled, Counted, StillFound, FindsPt, FindsPd0, HasPage;
      IsSound();
      ghost var good, t, used := CountsRight() && Finds(tree, pool.used, p.block), tree, pool.used;
      PageCell(tree, p);
      k := GetPageNode(key, MMU_PT);
      AnyPageRecorded(tree, pool.used, pool.free, pid, p, k);
      if good {
        OldPageRecorded(tree, pool.used, pool.free, pid, p, k);
      }
      StoreAndCount(entry, ZERO, k, Down(pool.used[k].tag.uses), ClearPage(tree, p));
      RecountFinds(t, tree, used, k, Down(used[k].tag.uses));
      IsSound();
      StillPresent(tree, p.block);
    }

    lemma CanRelease(b: Block, k: int)
      requires Valid() && b in tree.leaves && 0 <= k < |pool.used| && pool.used[k].tag.level == MMU_PT
      ensures Paged() && FirstTable(Without(pool.used, k), b.slot % 512, MMU_PD0) < |pool.used| - 1
    {
      ValidIsPaged();
      Pd0IsListed(tree, pool.used, pid, b, k);
    }

    /** Node k goes back to the pool: when the counts are right, the empty PT of block b. */
    method ReleaseLeaf(ghost b: Block, k: int, dirKey: int, ghost good: bool)
      requires Paged() && 0 <= k < |pool.used| && FirstTable(Without(pool.used, k), dirKey, MMU_PD0) < |pool.used| - 1
      requires good ==> Valid() && CountsRight() && Finds(tree, pool.used, b) && dirKey == b.slot % 512
      requires good ==> pool.used[k].start == tree.leaves[b] && !HasPage(tree.view, b)
      modifies this, mem, pool
      ensures mem[..] == LeafReleased(old(mem[..]), old(pool.used), k, dirKey)
      ensures good ==>
                && Valid() && CountsRight() && StillFound(old(tree), old(pool.used), tree, pool.used)
                && tree.view == old(tree.view) && tree.leaves == old(tree.leaves) - {b}
                && tree.dirs == if HasBlock(tree.leaves, b.slot) then old(tree.dirs) else old(tree.dirs) - {b.slot}
    {
      hide Shape, Owned, Filled, Linked, Counted, StillFound, FindsPt, Uniform, Zeroed, HasBlock, HasPage, BlocksOf,
           DropLeaf, FirstTable;
      ghost var t, used, free := tree, pool.used, pool.free;
      if good {
        LeafNode(t, used, pid, b, k);
      }
      RemovePageNode(k, if good then DropLeaf(t, b) else t);
      ghost var less, more := pool.used, pool.free;
      var j := GetPageNode(dirKey, MMU_PD0);
      if good {
        LostLeafRecorded(t, used, free, pid, b, k, less, more, j);
      }
      SetUses(j, Down(pool.used[j].tag.uses));
      ghost var mid, now := tree, pool.used;
      if good {
        IsSound();
        OtherBlocks(tree, b.slot);
        LeafGone(t, tree, used, b, k);
        RecountFinds(tree, tree, less, j, Down(less[j].tag.uses));
        FoundTwice(t, used, tree, less, tree, now);
      }
      if pool.used[j].tag.uses == 0 {
        ReleaseDir(b.slot, j, good);
        if good {
          FoundTwice(t, used, mid, now, tree, pool.used);
        }
      }
    }

    /** Node k goes back to the pool: when the counts are right, the empty PD0 of slot s. */
    method ReleaseDir(ghost s: int, k: int, ghost good: bool)
      requires Paged() && 0 <= k < |pool.used|
      requires good ==> Valid() && CountsRight() && s in tree.dirs && !HasBlock(tree.leaves, s)
      requires good ==> pool.used[k].start == tree.dirs[s]
      modifies this, mem, pool
      ensures mem[..] == Zeroing(old(mem[..]), old(pool.used[k].tag.entry))
      ensures good ==>
                && Valid() && CountsRight() && StillFound(old(tree), old(pool.used), tree, pool.used)
                && tree.view == old(tree.view) && tree.leaves == old(tree.leaves) && tree.dirs == old(tree.dirs) - {s}
    {
      hide StillFound, HasBlock;
      ghost var t, used, free := tree, pool.used, pool.free;
      assert good ==> Describes(t, used[k], pid);
      RemovePageNode(k, if good then DropDir(t, s) else t);
      if good {
        LostDirRecorded(t, used, free, pid, s, k, pool.used, pool.free);
        DirGone(t, tree, used, s, k);
      }
    }

    /** The choice of the loops: when the PD0 index has not changed, the entry after the last
        one; otherwise GetPageEntry from the top. Both give the same cell. */
    method EntryFor(v: int, key: int, last: int, entry: int) returns (c: int)
      requires Valid() && 0 <= v < PAGES && key == PageOf(v).block.index
      requires last == key ==>
                 && 0 < v && PageOf(v - 1).block.index == key && PageOf(v - 1).block in tree.leaves
                 && entry == PtCell(tree.leaves, PageOf(v - 1))
      requires PageOf(v).block in tree.leaves || |pool.used| + Needed(tree, PageOf(v).block) <= TABLES
      modifies this, mem, pool
      ensures Valid() && HasPt(tree, PageOf(v)) && c == PtCell(tree.leaves, PageOf(v))
      ensures LeafEnsured(old(tree), |old(pool.used)|, tree, |pool.used|, PageOf(v).block)
      ensures if old(PageOf(v).block in tree.leaves) then pool.used == old(pool.used)
              else FindsPt(tree, pool.used, PageOf(v).block)
      ensures old(CountsRight()) && DirKeyUnique(tree) ==> CountsRight()
    {
      hide Valid, CountsRight, FindsPt, PageOf, LeafEnsured, DirKeyUnique;
      if last != key {
        c := PtEntry(v);
      } else {
        SamePt(v);
        c := entry + 1;
      }
    }

    lemma SamePt(v: int)
      requires Valid() && 1 <= v < PAGES && PageOf(v - 1).block.index == PageOf(v).block.index
      requires PageOf(v - 1).block in tree.leaves
      ensures PageOf(v).block == PageOf(v - 1).block && HasPt(tree, PageOf(v))
      ensures PtCell(tree.leaves, PageOf(v)) == PtCell(tree.leaves, PageOf(v - 1)) + 1
      ensures LeafEnsured(tree, |pool.used|, tree, |pool.used|, PageOf(v).block)
    {
      PageDigits(v);
      NextPage(v);
      assert HasPd0(tree, PageOf(v).block);
    }

    /** The mapping loop of MMUMemNodeMap; `lookup` stands for GetPhysicalAddress. */
    method MapPages(start: int, n: int, buffer: int, lookup: int -> nat)
      requires Valid() && Tight(tree) && 0 <= start && 1 <= n && start + n <= PAGES
      requires |pool.used| + TablesFor(n) <= TABLES
      requires forall v | start <= v < start + n :: PageOf(v) !in tree.view
      modifies this, mem, pool
      ensures Valid() && Tight(tree) && Extends(old(tree.view), tree.view, start, n, buffer, lookup)
      ensures |pool.used| <= |old(pool.used)| + TablesFor(n)
      ensures Counting(old(CountsRight()), NewBlocks(old(tree.leaves), start, n))
      ensures NewBlocks(old(tree.leaves), start, n) ==> FindsOwnPt(PageOf(start + n - 1).block)
    {
      hide Valid, CountsRight, DirKeyUnique, LeafKeyUnique, AtPage, FindsOwnPt, Tight, Extends, PageOf, TablesFor,
           NewBlocks;
      var last, entry := 0xFFF, 0;
      TouchedBound(start, n);
      NothingYet(tree.view, start, buffer, lookup);
      for i := 0 to n
        invariant Valid() && Tight(tree) && Extends(old(tree.view), tree.view, start, i, buffer, lookup)
        invariant |pool.used| <= |old(pool.used)| + Touched(start, i)
        invariant i == 0 ==> last == 0xFFF
        invariant 0 < i ==> AtPage(start + i - 1, last, entry)
        invariant Counting(old(CountsRight()), NewBlocks(old(tree.leaves), start, n))
        invariant NewBlocks(old(tree.leaves), start, n) ==> Newest(old(tree.leaves), start, i)
      {
        TouchedGrows(start, i + 1, n);
        last, entry := MapPage(start, i, buffer, lookup, last, entry, old(tree.view), |old(pool.used)|,
                               old(CountsRight()), old(tree.leaves), n);
      }
    }

    /** Counts stay right while no PD0 index is shared, and either no PT index is shared or the
        run has no block in common with an earlier one: each of its PTs is then found first. */
    ghost predicate Counting(counted: bool, alone: bool)
      reads this, pool
    {
      counted && DirKeyUnique(tree) && (LeafKeyUnique(tree) || alone) ==> CountsRight()
    }

    /** The search by key for the PT of block b finds it. */
    ghost predicate FindsOwnPt(b: Block)
      reads this, pool
    {
      b in tree.leaves && FindsPt(tree, pool.used, b)
    }

    /** The PTs added to `leaves` are those of the first i pages; that of the last one is found. */
    ghost predicate Newest(leaves: map<Block, int>, start: int, i: int)
      reads this, pool
    {
      Since(leaves, tree.leaves, start, i) && (0 < i ==> FindsOwnPt(PageOf(start + i - 1).block))
    }

    /** `last` and `entry` are the PD0 index and the PT cell of page v. */
    ghost predicate AtPage(v: int, last: int, entry: int)
      reads this
    {
      && last == PageOf(v).block.index && PageOf(v).block in tree.leaves && entry == PtCell(tree.leaves, PageOf(v))
    }

    /** The body of the loop. */
    method MapPage(start: int, i: int, buffer: int, lookup: int -> nat, last: int, entry: int,
                   ghost before: map<Page, int>, ghost used: int, ghost counted: bool, ghost leaves: map<Block, int>,
                   ghost n: int)
      returns (key: int, c: int)
      requires Valid() && Tight(tree) && 0 <= start && 0 <= i && start + i < PAGES
      requires Extends(before, tree.view, start, i, buffer, lookup) && PageOf(start + i) !in before
      requires |pool.used| <= used + Touched(start, i) && used + Touched(start, i + 1) <= TABLES
      requires i == 0 ==> last == 0xFFF
      requires 0 < i ==> AtPage(start + i - 1, last, entry)
      requires i < n && Counting(counted, NewBlocks(leaves, start, n))
      requires NewBlocks(leaves, start, n) ==> Newest(leaves, start, i)
      modifies this, mem, pool
      ensures Valid() && Tight(tree) && Extends(before, tree.view, start, i + 1, buffer, lookup)
      ensures |pool.used| <= used + Touched(start, i + 1) && AtPage(start + i, key, c)
      ensures Counting(counted, NewBlocks(leaves, start, n))
      ensures NewBlocks(leaves, start, n) ==> Newest(leaves, start, i + 1)
    {
      hide Valid, CountsRight, Tight, Extends, DirKeyUnique, LeafKeyUnique, PageOf, Touched, Needed, Owned, Filled,
           FrameOf, Frame, PageEntry, Present, Flagged, LeafEnsured, SetPage, Since, NewBlocks, FindsPt;
      var v := start + i;
      ghost var p := PageOf(v);
      PageDigits(v);
      key := v / 512 % 512;
      IsSound();
      TouchedStep(tree, start, i);
      NotYetMapped(before, tree.view, start, i, buffer, lookup);
      ghost var t, m := tree, |pool.used|;
      if NewBlocks(leaves, start, n) {
        OnlyTheLast(leaves, t.leaves, start, i, n);
      }
      c := EntryFor(v, key, last, entry);
      ghost var u := tree;
      EnsuredFacts(t, m, u, |pool.used|, p.block);
      FindsLeaf(p.block);
      var address := lookup(buffer + i * 4096);
      PageEntryHolds(address);
      IsSound();
      WriteEntry(p, key, c, PageEntry(address));
      SetPageFacts(u, p, PageEntry(address));
      ExtendsByOne(before, t.view, tree.view, start, i, buffer, lookup);
      TightAfterMap(t, u, tree, p);
    }

    lemma FindsLeaf(b: Block)
      requires Valid() && b in tree.leaves
      ensures LeafKeyUnique(tree) ==> FindsPt(tree, pool.used, b)
    {
      SearchIsExact(tree, pool.used, pid);
    }

    lemma IsSound()
      requires Valid()
      ensures Shape(tree) && Owned(tree) && Filled(tree) && mem.Length == POOL_END && tree.mem == mem[..]
    {
    }

    /** The tables of page v are the ones that its keys find. */
    ghost predicate FindsTables(v: int)
      reads this, pool
    {
      Finds(tree, pool.used, PageOf(v).block)
    }

    /** The clearing loop of MMUMemNodeUnmap. */
    method UnmapPages(start: int, n: int)
      requires Valid() && Tight(tree) && CountsRight() && 0 <= start && 0 <= n && start + n <= PAGES
      requires forall v | start <= v < start + n :: PageOf(v) in tree.view && FindsTables(v)
      modifies this, mem, pool
      ensures Valid() && Tight(tree) && CountsRight() && StillFound(old(tree), old(pool.used), tree, pool.used)
      ensures tree.leaves.Keys <= old(tree.leaves.Keys) && tree.dirs.Keys <= old(tree.dirs.Keys)
      ensures Removes(old(tree.view), tree.view, start, n)
    {
      hide Valid, CountsRight, Tight, Removes, Extends, Finds, StillFound, PageOf;
      var last, entry := 0xFFF, 0;
      NothingYet(tree.view, start, 0, _ => 0);
      SameFound(tree, pool.used);
      for i := 0 to n
        invariant Valid() && Tight(tree) && CountsRight() && StillFound(old(tree), old(pool.used), tree, pool.used)
        invariant tree.leaves.Keys <= old(tree.leaves.Keys) && tree.dirs.Keys <= old(tree.dirs.Keys)
        invariant Removes(old(tree.view), tree.view, start, i)
        invariant i == 0 ==> last == 0xFFF
        invariant 0 < i ==> last == PageOf(start + i - 1).block.index
        invariant 0 < i && PageOf(start + i - 1).block in tree.leaves ==>
                    entry == PtCell(tree.leaves, PageOf(start + i - 1))
      {
        ghost var t, used := tree, pool.used;
        StillMapped(old(tree.view), tree.view, start, i);
        FoundNow(old(tree), old(pool.used), start + i);
        last, entry := UnmapPage(start, i, last, entry, old(tree.view));
        FoundTwice(old(tree), old(pool.used), t, used, tree, pool.used);
      }
    }

    lemma UniqueFinds(v: int)
      requires Valid() && KeyUnique(tree) && PageOf(v) in tree.view
      ensures FindsTables(v)
    {
      hide PageOf;
      MappedHasPt(PageOf(v));
      SearchIsExact(tree, pool.used, pid);
      assert HasPd0(tree, PageOf(v).block);
    }

    lemma FoundNow(t: Tree, used: seq<TableRun>, v: int)
      requires Valid() && StillFound(t, used, tree, pool.used) && PageOf(v) in tree.view
      requires Finds(t, used, PageOf(v).block)
      ensures FindsTables(v)
    {
      MappedHasPt(PageOf(v));
    }

    /** The body of the loop. */
    method UnmapPage(start: int, i: int, last: int, entry: int, ghost before: map<Page, int>) returns (key: int, c: int)
      requires Valid() && Tight(tree) && CountsRight() && FindsTables(start + i)
      requires 0 <= start && 0 <= i && start + i < PAGES && Removes(before, tree.view, start, i)
      requires PageOf(start + i) in before
      requires i == 0 ==> last == 0xFFF
      requires 0 < i ==> last == PageOf(start + i - 1).block.index
      requires 0 < i && PageOf(start + i - 1).block in tree.leaves ==>
                 entry == PtCell(tree.leaves, PageOf(start + i - 1))
      modifies this, mem, pool
      ensures Valid() && Tight(tree) && CountsRight() && StillFound(old(tree), old(pool.used), tree, pool.used)
      ensures tree.leaves.Keys <= old(tree.leaves.Keys) && tree.dirs.Keys <= old(tree.dirs.Keys)
      ensures Removes(before, tree.view, start, i + 1) && key == PageOf(start + i).block.index
      ensures PageOf(start + i).block in tree.leaves ==> c == PtCell(tree.leaves, PageOf(start + i))
    {
      hide Valid, Counted, Tight, Removes, Finds, StillFound, DirKeyUnique, PageOf, Needed, Owned, Filled, LeafEnsured;
      var v := start + i;
      ghost var p := PageOf(v);
      PageDigits(v);
      key := v / 512 % 512;
      StillMapped(before, tree.view, start, i);
      MappedHasPt(p);
      if 0 < i {
        NextPage(v);
      }
      ghost var t, m := tree, |pool.used|;
      c := EntryFor(v, key, last, entry);
      EnsuredFacts(t, m, tree, |pool.used|, p.block);
      ClearEntry(p, key, v / 0x4_0000 % 512, c);
      RemovesOneMore(before, t.view, tree.view, start, i);
      TightAfterUnmap(t, tree, p);
    }

    /** Unmapping page v when the PT found by its key is that of page w, the only page there. */
    lemma LosesPage(v: int, w: int)
      requires Valid() && CountsRight() && 0 <= v < PAGES && 0 <= w < PAGES
      requires PageOf(v) in tree.view && PageOf(w) in tree.view && PageOf(v).block.index == PageOf(w).block.index
      requires PageOf(v).block != PageOf(w).block
      requires FindsOwnPt(PageOf(w).block) && |PagesOf(tree.view, PageOf(w).block)| == 1
      ensures HasPt(tree, PageOf(v))
      ensures var p := PageOf(v);
              var now := EntryCleared(mem[..], pool.used, PtCell(tree.leaves, p), p.block.index, p.block.slot % 512);
              |now| == POOL_END && Walk(now, w) == None
    {
      hide PageOf, Walk, Owned, Filled, Linked, EntryCleared;
      MappedHasPt(PageOf(v));
      MappedHasPt(PageOf(w));
      OnePt(tree, PageOf(w).block);
      PtLost(tree, pool.used, pid, v, w, FirstTable(pool.used, PageOf(v).block.index, MMU_PT));
    }

    lemma MappedHasPt(p: Page)
      requires Valid() && p in tree.view
      ensures HasPt(tree, p)
    {
    }
  }

  // ---------------------------------------------------------------- the driver

  datatype MapResult = Mapped(bus: int) | NoSpace

  /** Region lists and page tables of one process: the pages that the tables translate are
      exactly the pages of the buffers in the map lists, and no table is empty. */
  class Mmu {
    const space: AddressSpace
    const table: PageTables

    ghost predicate Valid()
      reads this, space, space.region, table, table.mem, table.pool
    {
      && space.Valid() && space.q == QUARTER && table.Valid() && Tight(table.tree)
      && forall v | 0 <= v < PAGES :: PageOf(v) in table.tree.view <==> space.Live(v)
    }

    constructor (pid: int, leftover: seq<Buffer>)
      requires |leftover| == 4
      ensures Valid() && table.CountsRight() && table.pool.used == [] && table.tree.view == map[]
      ensures forall e | 0 <= e < 4 ::
                |space.region[e].free| == 1 && space.region[e].free[0].start == FirstPage(e, QUARTER)
      ensures fresh(space) && fresh(space.region) && fresh(table) && fresh(table.mem) && fresh(table.pool)
    {
      space := new AddressSpace(QUARTER, leftover);
      table := new PageTables(pid);
    }

    /** MMUMemNodeMap: `start` is the first page of the run that the buffer gets. */
    method MemNodeMap(buffer: int, size: int, lookup: int -> nat) returns (r: MapResult, ghost start: int)
      requires Valid() && 0 <= size < 0x1_0000_0000
      requires |table.pool.used| + TablesFor(PageCount(size)) <= TABLES
      modifies space`claims, space.region, table, table.mem, table.pool
      ensures Valid() && |table.pool.used| <= |old(table.pool.used)| + TablesFor(PageCount(size))
      ensures old(table.CountsRight()) && KeyUnique(table.tree) ==> table.CountsRight()
      ensures var e := MapRegion(lookup(buffer), size, QUARTER); var n := PageCount(size);
              && (r == NoSpace <==> !exists a :: old(FreeRun(space.region[e].free, a, n)))
              && (r.Mapped? ==>
                    && r.bus == start * PAGE_SIZE && Placed(old(space.region[e].free), old(space.region[e].used),
                              space.region[e].free, space.region[e].used, start, n, Virtual(buffer, table.pid))
                    && FirstPage(e, QUARTER) <= start && start + n <= EndPage(e, QUARTER)
                    && Extends(old(table.tree.view), table.tree.view, start, n, buffer, lookup)
                    && (forall v | start <= v < start + n ::
                          && PageOf(v) !in old(table.tree.view)
                          && Lookup(table.tree.view, PageOf(v)) == Some(Frame(lookup(buffer + (v - start) * 4096))))
                    && space.claims == old(space.claims)[start := Virtual(buffer, table.pid)]
                    && (forall f | 0 <= f < 4 && f != e :: unchanged(space.region[f]))
                    && table.Counting(old(table.CountsRight()), NewBlocks(old(table.tree.leaves), start, n))
                    && (NewBlocks(old(table.tree.leaves), start, n) ==> table.FindsOwnPt(PageOf(start + n - 1).block)))
      ensures r == NoSpace ==> unchanged(space) && unchanged(space.region)
      ensures r == NoSpace ==> unchanged(table) && unchanged(table.mem) && unchanged(table.pool)
    {
      hide PageOf, Extends, Tight, DirKeyUnique, LeafKeyUnique, TablesFor, MapRegion, FreeRun, Covers, Sound, NewBlocks;
      hide PageTables.FindsOwnPt, Placed, Claimed;
      hide PageTables.Valid, PageTables.CountsRight, AddressSpace.Live;
      var n := PageCount(size);
      TouchedBound(0, n);
      var e := MapRegion(lookup(buffer), size, QUARTER);
      var ok, first := space.Reserve(e, n, Virtual(buffer, table.pid));
      start := first;
      if !ok {
        return NoSpace, start;
      }
      ghost var before := table.tree.view;
      table.MapPages(first, n, buffer, lookup);
      ViewExtended(before, table.tree.view, first, n, buffer, lookup);
      r := Mapped(first * PAGE_SIZE % 0x100_0000_0000);
    }

    /** The run that a search of region e finds only has pages whose tables are found by key. Other
        tables may share an index. */
    ghost predicate TablesFound(e: int, key: Key)
      requires |space.region| == 4 && 0 <= e < 4
      reads space, space.region, table, table.pool
    {
      var used := space.region[e].used;
      var k := FirstOf(used, key);
      k < |used| ==> forall v | In(used[k], v) :: table.FindsTables(v)
    }

    lemma KeysSuffice(e: int, key: Key)
      requires Valid() && KeyUnique(table.tree) && 0 <= e < 4
      ensures |space.region| == 4 && TablesFound(e, key)
    {
      hide PageOf, DirKeyUnique, LeafKeyUnique, FirstOf;
      var used := space.region[e].used;
      var k := FirstOf(used, key);
      if k < |used| {
        RunIsMapped(e, k);
        forall v | In(used[k], v)
          ensures table.FindsTables(v)
        {
          table.UniqueFinds(v);
        }
      }
    }

    /** MMUMemNodeUnmap; false stands for the error status. */
    method MemNodeUnmap(buffer: int, lookup: int -> nat) returns (ok: bool)
      requires Valid() && table.CountsRight()
      requires TablesFound(UnmapRegion(lookup(buffer), QUARTER), Virtual(buffer, table.pid))
      modifies space`claims, space.region, table, table.mem, table.pool
      ensures Valid() && table.CountsRight() && (old(KeyUnique(table.tree)) ==> KeyUnique(table.tree))
      ensures var e := UnmapRegion(lookup(buffer), QUARTER); var used := old(space.region[e].used);
              var k := FirstOf(used, Virtual(buffer, table.pid));
              && ok == (k < |used|)
              && (FindsOwn(used, old(space.claims), Virtual(buffer, table.pid))
                  <==> FirstIsOwnSide(used, old(space.claims), Virtual(buffer, table.pid)))
              && (OnlySide(used, old(space.claims), Virtual(buffer, table.pid)) ==>
                    (ok <==> HasClaim(used, old(space.claims), Virtual(buffer, table.pid))))
              && (ok ==>
                    && space.region[e].used == Without(used, k)
                    && space.claims == old(space.claims) - {used[k].start}
                    && Inserted(old(space.region[e].free), used[k], space.region[e].free)
                    && Removes(old(table.tree.view), table.tree.view, used[k].start, used[k].count)
                    && (forall v | In(used[k], v) :: PageOf(v) in old(table.tree.view))
                    && (forall f | 0 <= f < 4 && f != e :: unchanged(space.region[f])))
      ensures !ok ==> unchanged(space) && unchanged(space.region)
      ensures !ok ==> unchanged(table) && unchanged(table.mem) && unchanged(table.pool)
    {
      hide PageOf, Removes, Tight, KeyUnique, UnmapRegion, FirstOf, Covers, Inserted, Sound, FindsOwn,
           FirstIsOwnSide, OnlySide, HasClaim, Claimed;
      hide PageTables.Valid, PageTables.CountsRight, AddressSpace.Live;
      var b := Virtual(buffer, table.pid);
      var e := UnmapRegion(lookup(buffer), QUARTER);
      var k := space.FindUsed(e, b);
      var used := space.region[e].used;
      SearchIsRight(used, space.claims, b);
      if k == |used| {
        return false;
      }
      var p := used[k];
      RunIsMapped(e, k);
      ghost var before := table.tree.view;
      ghost var t := table.tree;
      table.UnmapPages(p.start, p.count);
      FewerKeys(t, table.tree);
      ViewReduced(before, table.tree.view, p.start, p.count);
      space.RemoveNode(e, b);
      return true;
    }

    lemma RunIsMapped(e: int, k: int)
      requires Valid() && 0 <= e < 4 && 0 <= k < |space.region[e].used|
      ensures var p := space.region[e].used[k];
              && 0 <= p.start && 1 <= p.count && p.end == p.start + p.count <= PAGES
              && forall v | In(p, v) :: 0 <= v < PAGES && PageOf(v) in table.tree.view
    {
      hide PageOf;
      var p := space.region[e].used[k];
      assert Fits(p, FirstPage(e, QUARTER), EndPage(e, QUARTER)) by {
        assert space.region[e].Valid();
      }
      forall v | In(p, v)
        ensures 0 <= v < PAGES && PageOf(v) in table.tree.view
      {
        assert Covers(space.region[e].used, v);
        space.Extent(e, v);
      }
    }

    /** Translation, in every reachable state: the walk of a page finds its frame exactly when
        the page belongs to a mapped buffer, and the device may write it then. */
    lemma WalkIsView(v: int)
      requires Valid() && 0 <= v < PAGES
      ensures Walk(table.mem[..], v) == Lookup(table.tree.view, PageOf(v))
      ensures Walk(table.mem[..], v) == None <==> !space.Live(v)
      ensures space.Live(v) ==> MayWrite(table.mem[..], v)
    {
      WalkRefinesView(table.tree, v);
    }

    /** The condition on the tables, in terms of what is mapped: no two tables share an index if
        and only if no two live pages clash. */
    lemma KeysInTermsOfPages()
      requires Valid()
      ensures KeyUnique(table.tree) <==>
              forall v, w | 0 <= v < PAGES && 0 <= w < PAGES && space.Live(v) && space.Live(w) :: !Clash(v, w)
    {
      hide PageOf, AddressSpace.Live, KeyUnique, Shape, Linked, Clash;
      IsSoundTree();
      if KeyUnique(table.tree) {
        UniqueMeansNoClash(table.tree);
      }
      if forall v, w | 0 <= v < PAGES && 0 <= w < PAGES && space.Live(v) && space.Live(w) :: !Clash(v, w) {
        NoClashMeansUnique(table.tree);
      }
    }

    /** When all mapped pages lie in one 1 GB slot no two tables share an index. */
    lemma OneSlotLive(s: int)
      requires Valid() && forall v | 0 <= v < PAGES && space.Live(v) :: v / 0x4_0000 == s
      ensures KeyUnique(table.tree)
    {
      hide AddressSpace.Live, PageTables.Valid, DirKeyUnique, LeafKeyUnique, Clash;
      KeysInTermsOfPages();
      forall v, w | 0 <= v < PAGES && 0 <= w < PAGES && space.Live(v) && space.Live(w)
        ensures !Clash(v, w)
      {
        SameSlot(v, w);
      }
    }

    lemma NothingMapped()
      requires Valid() && forall e | 0 <= e < 4 :: space.region[e].used == []
      ensures forall p :: p !in table.tree.view
      ensures Sound(table.tree, table.pool.used, table.pool.free, table.pid) && Tight(table.tree)
      ensures FreeList(table.pool.free, POOL, POOL_END) && table.tree.mem == table.mem[..]
    {
      hide PageOf, Sound, Tight, FreeList, Owned;
      IsSoundTree();
      forall p
        ensures p !in table.tree.view
      {
        if p in table.tree.view {
          var _ := PageNumber(table.tree, p);
        }
      }
    }

    lemma FourRegions()
      requires Valid()
      ensures |space.region| == 4 && forall i, j | 0 <= i < j < 4 :: space.region[i] != space.region[j]
    {
    }

    /** A one-page buffer goes to the lowest page of an untouched region. */
    method MapLowest(e: int, buffer: int, lookup: int -> nat)
      requires Valid() && table.CountsRight() && 0 <= e < 4 && MapRegion(lookup(buffer), 1, QUARTER) == e
      requires |space.region[e].free| == 1 && space.region[e].free[0].start == FirstPage(e, QUARTER)
      requires |table.pool.used| <= TABLES - 2
      modifies space`claims, space.region, table, table.mem, table.pool
      ensures Valid() && |table.pool.used| <= |old(table.pool.used)| + 2
      ensures forall v | 0 <= v < PAGES ::
                PageOf(v) in table.tree.view <==> PageOf(v) in old(table.tree.view) || v == FirstPage(e, QUARTER)
      ensures forall f | 0 <= f < 4 && f != e :: space.region[f].free == old(space.region[f].free)
      ensures table.Counting(true, NewBlocks(old(table.tree.leaves), FirstPage(e, QUARTER), 1))
      ensures NewBlocks(old(table.tree.leaves), FirstPage(e, QUARTER), 1) ==>
                table.FindsOwnPt(PageOf(FirstPage(e, QUARTER)).block)
    {
      hide Valid, PageTables.CountsRight, KeyUnique, DirKeyUnique, LeafKeyUnique, PageOf, FirstFit, Placed, FreeRun,
           Extends, MapRegion, Covers, NewBlocks, PageTables.FindsOwnPt;
      SmallBuffers();
      LowestFree(e);
      ghost var before, start := table.tree.view, 0;
      var r;
      FourRegions();
      r, start := MemNodeMap(buffer, 1, lookup);
      ViewExtended(before, table.tree.view, start, 1, buffer, lookup);
    }

    lemma TwoPages()
      requires Valid() && OnlyTwo(table.tree.view)
      ensures DirKeyUnique(table.tree) && !KeyUnique(table.tree) && table.Valid() && space.Valid()
      ensures space.Live(QUARTER)
      ensures PageOf(1) in table.tree.view && PageOf(QUARTER) in table.tree.view
      ensures PageOf(1).block in table.tree.leaves && |PagesOf(table.tree.view, PageOf(QUARTER).block)| == 1
      ensures HasPt(table.tree, PageOf(1)) && 0 <= PageOf(1).block.index == PageOf(QUARTER).block.index == 0
      ensures PageOf(1).block != PageOf(QUARTER).block && PageOf(1).block.slot == 0
    {
      hide PageTables.Valid, AddressSpace.Live, DirKeyUnique, LeafKeyUnique;
      IsSoundTree();
      Collide(table.tree);
    }

    lemma OnePage(v: int)
      requires Valid() && 0 <= v < PAGES && forall w | 0 <= w < PAGES :: PageOf(w) in table.tree.view <==> w == v
      ensures KeyUnique(table.tree) && Owned(table.tree) && Tight(table.tree)
    {
      OneSlotLive(v / 0x4_0000);
      IsSoundTree();
    }

    lemma LowestFree(e: int)
      requires Valid() && 0 <= e < 4 && |space.region[e].free| == 1
      requires space.region[e].free[0].start == FirstPage(e, QUARTER)
      ensures |space.region| == 4 && (forall f, g | 0 <= f < g < 4 :: space.region[f] != space.region[g])
      ensures FreeRun(space.region[e].free, FirstPage(e, QUARTER), 1)
      ensures forall used, nowFree, nowUsed, start, key ::
                Placed(space.region[e].free, used, nowFree, nowUsed, start, 1, key) ==> start == FirstPage(e, QUARTER)
    {
    }

    lemma IsSoundTree()
      requires Valid()
      ensures Owned(table.tree) && Tight(table.tree) && space.Lists() && space.q == QUARTER
    {
    }

    /** Reclamation: once nothing is mapped, in whatever order the buffers came and went, every
        table page is back in the pool, the pool is one free run of zeros again, and no
        directory entry is left. */
    lemma AllReclaimed()
      requires Valid() && forall e | 0 <= e < 4 :: space.region[e].used == []
      ensures table.pool.used == []
      ensures |table.pool.free| == 1 && table.pool.free[0].start == POOL && table.pool.free[0].end == POOL_END
      ensures forall c | PD1 <= c < POOL_END && (c < PD1 + 1024 || POOL <= c) :: table.mem[c] == ZERO
    {
      hide Valid, PageTables.Valid, Tight, FreeList;
      NothingMapped();
      EmptyPool(table.tree, table.pool.used, table.pool.free, table.pid);
      assert forall c :: 0 <= c < POOL_END ==> table.tree.mem[c] == table.mem[c];
    }

    /** Where n pages of region e would go, none of them clashes with another one or a live page. */
    ghost predicate NoClash(e: int, n: int)
      requires |space.region| == 4 && 0 <= e < 4
      reads space, space.region, table
    {
      var free := space.region[e].free;
      var k := FirstFit(free, n);
      k < |free| ==> ClashFree(table.tree.view, free[k].start, n)
    }

    /** Unmapping undoes mapping, whatever else is mapped, if and only if the buffer stays inside its
        quarter: translation, map lists, the nodes of every free list and the tables that exist
        are then what they were; otherwise the pages of the buffer stay mapped. */
    method MapThenUnmap(buffer: int, size: int, lookup: int -> nat) returns (r: MapResult, ok: bool)
      requires Valid() && table.CountsRight() && 0 <= size < 0x1_0000_0000
      requires |table.pool.used| + TablesFor(PageCount(size)) <= TABLES
      requires NoClash(MapRegion(lookup(buffer), size, QUARTER), PageCount(size))
      modifies space`claims, space.region, table, table.mem, table.pool
      ensures Valid() && table.CountsRight()
      ensures table.tree.view == old(table.tree.view) <==> r == NoSpace || StaysInside(lookup(buffer), size, QUARTER)
      ensures r == NoSpace || StaysInside(lookup(buffer), size, QUARTER) ==>
                && ok == r.Mapped?
                && table.tree.leaves.Keys == old(table.tree.leaves.Keys)
                && table.tree.dirs.Keys == old(table.tree.dirs.Keys)
                && (forall e | 0 <= e < 4 :: space.region[e].used == old(space.region[e].used))
                && (forall e, a, b | 0 <= e < 4 ::
                      HasNode(space.region[e].free, a, b) <==> old(HasNode(space.region[e].free, a, b)))
    {
      hide Valid, PageTables.Valid, PageTables.CountsRight, AddressSpace.Live, PageOf, KeyUnique, Extends, MapRegion,
           FreeList, UnmapRegion, PageCount, StaysInside, FirstOf, FirstFit, FreeRun, Removes, Inserted, TablesFor,
           Covers, Carve, HasNode, PageTables.Counting, PageTables.FindsOwnPt, NewBlocks, ClashFree, FindsOwn,
           FirstIsOwnSide, Matches, Claim, Owned, Tight;
      var n, e := PageCount(size), MapRegion(lookup(buffer), size, QUARTER);
      RegionsAgree(lookup(buffer), size, QUARTER);
      IsSoundTree();
      ghost var t, free, used, start := table.tree, space.region[e].free, space.region[e].used, 0;
      space.Partition(e);
      ok := false;
      r, start := MemNodeMap(buffer, size, lookup);
      if r.Mapped? {
        ghost var mid := table.tree.view;
        StillUnique(t.view, start, n, buffer, lookup);
        AtHead(space.region[e].used, used, Virtual(buffer, table.pid));
        KeysSuffice(UnmapRegion(lookup(buffer), QUARTER), Virtual(buffer, table.pid));
        ok := MemNodeUnmap(buffer, lookup);
        IsSoundTree();
        if StaysInside(lookup(buffer), size, QUARTER) {
          space.Partition(e);
          UsedDeterminesFree(free, space.region[e].free, used, FirstPage(e, QUARTER), EndPage(e, QUARTER));
          RemovesUndoesExtends(t, mid, table.tree, start, n, buffer, lookup);
          ViewDeterminesTables(t, table.tree);
        } else {
          RunIsMapped(e, 0);
          assert In(space.region[e].used[0], start);
        }
      }
    }

    lemma StillUnique(before: map<Page, int>, start: int, n: int, buffer: int, lookup: int -> nat)
      requires Valid() && Extends(before, table.tree.view, start, n, buffer, lookup) && ClashFree(before, start, n)
      ensures KeyUnique(table.tree)
    {
      hide PageOf, AddressSpace.Live, KeyUnique, Extends, PageTables.Valid, Clash;
      ViewExtended(before, table.tree.view, start, n, buffer, lookup);
      KeysInTermsOfPages();
    }
  }

  /** The run that was placed is found first, and without it the list is as before. */
  lemma AtHead(now: seq<Run<Buffer>>, used: seq<Run<Buffer>>, key: Key)
    requires now != [] && now[1..] == used && Matches(now[0].tag, key)
    ensures FirstOf(now, key) == 0 && Without(now, 0) == used
  {
  }

  // ---------------------------------------------------------------- colliding keys

  lemma SmallBuffers()
    ensures MapRegion(0, 1, QUARTER) == 0 && MapRegion(0x40_0000_0000, 1, QUARTER) == 1
    ensures PageCount(1) == 1 && TablesFor(1) == 2 && FirstPage(0, QUARTER) == 1 && FirstPage(1, QUARTER) == QUARTER
  {
  }

  /** Pages 1 and QUARTER, and no other, are mapped. */
  ghost predicate OnlyTwo(view: map<Page, int>) {
    forall v | 0 <= v < PAGES :: PageOf(v) in view <==> v == 1 || v == QUARTER
  }

  lemma Collide(t: Tree)
    requires Owned(t) && Tight(t) && OnlyTwo(t.view)
    ensures DirKeyUnique(t) && !LeafKeyUnique(t)
    ensures HasPt(t, PageOf(1)) && HasPt(t, PageOf(QUARTER)) && PagesOf(t.view, PageOf(QUARTER).block) == {0}
  {
    hide Tight;
    PageDigits(1);
    PageDigits(QUARTER);
    assert HasPt(t, PageOf(1)) && HasPt(t, PageOf(QUARTER));
    forall s, r | s in t.dirs && r in t.dirs && s % 512 == r % 512
      ensures s == r
    {
      var v := SomePageOfSlot(t, s);
      var w := SomePageOfSlot(t, r);
    }
    forall i | i in PagesOf(t.view, PageOf(QUARTER).block)
      ensures i == 0
    {
      var v := PageNumber(t, Page(PageOf(QUARTER).block, i));
    }
  }

  lemma NotYetThere(t: Tree, v: int)
    requires Owned(t) && Tight(t) && forall w | 0 <= w < PAGES && PageOf(w) in t.view :: w / 512 != v / 512
    requires 0 <= v < PAGES
    ensures NewBlocks(t.leaves, v, 1)
  {
    if PageOf(v).block in t.leaves {
      var w := SomePage(t, PageOf(v).block);
      PageDigits(v);
      SlotOfBlock(v);
    }
  }

  /** One page at the bottom of each of the first two regions is enough for keys to collide:
      region IN starts in slot 0, region OUT in slot 256, and both pages lie in block 0 of
      their slot. The newer PT is then first in the list. */
  method CollidingRegions(pid: int, leftover: seq<Buffer>, lookup: int -> nat, a: int, b: int) returns (mmu: Mmu)
    requires lookup(a) == 0 && lookup(b) == 0x40_0000_0000 && |leftover| == 4
    ensures mmu.Valid() && OnlyTwo(mmu.table.tree.view) && !KeyUnique(mmu.table.tree)
    ensures mmu.table.CountsRight() && mmu.table.FindsOwnPt(PageOf(QUARTER).block)
    ensures fresh(mmu.table) && fresh(mmu.table.mem) && fresh(mmu.table.pool)
  {
    hide Mmu.Valid, PageTables.CountsRight, KeyUnique, PageOf, NewBlocks, PageTables.FindsOwnPt, DirKeyUnique,
         LeafKeyUnique, MapRegion;
    mmu := new Mmu(pid, leftover);
    SmallBuffers();
    mmu.MapLowest(0, a, lookup);
    mmu.OnePage(1);
    NotYetThere(mmu.table.tree, QUARTER);
    mmu.MapLowest(1, b, lookup);
    mmu.TwoPages();
  }

  /** What that leads to: unmapping the older buffer, a single page, finds the PT of the newer
      one, which counts one page, and gives it back. The newer buffer is still in the map list,
      but its page is not translated any more. */
  method LostTranslation(pid: int, leftover: seq<Buffer>, lookup: int -> nat, a: int, b: int) returns (mmu: Mmu)
    requires lookup(a) == 0 && lookup(b) == 0x40_0000_0000 && |leftover| == 4
    ensures mmu.space.Valid() && mmu.space.Live(QUARTER) && mmu.table.mem.Length == POOL_END
    ensures Walk(mmu.table.mem[..], QUARTER) == None
  {
    hide Mmu.Valid, PageTables.Valid, PageTables.CountsRight, PageTables.FindsOwnPt, AddressSpace.Valid,
         AddressSpace.Live, Owned, Filled, PageOf, PagesOf, FindsPt, Walk, KeyUnique, DirKeyUnique, LeafKeyUnique,
         EntryCleared, OnlyTwo;
    mmu := CollidingRegions(pid, leftover, lookup, a, b);
    mmu.TwoPages();
    mmu.table.LosesPage(1, QUARTER);
    mmu.table.IsSound();
    var c := mmu.table.EntryFor(1, 0, 0xFFF, 0);
    mmu.table.IsSound();
    mmu.table.ClearEntry(PageOf(1), 0, 0, c);
  }
}
