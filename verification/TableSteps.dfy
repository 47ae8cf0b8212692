/** Single steps on the four-level tables as values: tree, used list, free list and counts are
    changed together, and stay consistent. */
module TableSteps {
  import opened Common
  import opened RunLists
  import opened PageTree
  import opened TablePool
  import opened PageRange

  /** What GetPageEntry reads from a directory cell: the table, or 0 when there is none. */
  lemma DirOf(t: Tree, s: int)
    requires Shape(t) && 0 <= s < 1024
    ensures TargetOf(t.mem[Pd1Cell(s)]) == if s in t.dirs then t.dirs[s] else 0
    ensures s in t.dirs ==> POOL <= t.dirs[s]
  {
    FromPd1(t, s);
  }

  lemma LeafHasDir(t: Tree, b: Block)
    requires Owned(t)
    ensures b in t.leaves ==> HasPd0(t, b)
  {
  }

  lemma LeafOf(t: Tree, b: Block)
    requires Shape(t) && HasPd0(t, b)
    ensures POOL <= Pd0Cell(t.dirs, b) < POOL_END
    ensures TargetOf(t.mem[Pd0Cell(t.dirs, b)]) == if b in t.leaves then t.leaves[b] else 0
    ensures b in t.leaves ==> POOL <= t.leaves[b]
  {
    FromPd0(t, b);
    assert BlockOk(t, b);
  }

  // ---------------------------------------------------------------- parents

  /** A cell of a PD1 or of a PD0 of the tree. */
  ghost predicate DirectoryCell(t: Tree, c: int) {
    PD1 <= c < PD1 + 1024 || exists b :: HasPd0(t, b) && Pd0Cell(t.dirs, b) == c
  }

  ghost function ParentCell(t: Tree, x: int): int
    requires Owned(t) && x in t.owner
  {
    match t.owner[x]
    case Dir(s) => Pd1Cell(s)
    case Leaf(b) => assert HasPd0(t, b); Pd0Cell(t.dirs, b)
  }

  /** Every table of the pool is named by exactly one directory entry. */
  lemma OneParent(t: Tree, x: int, c: int)
    requires Shape(t) && x in t.owner && DirectoryCell(t, c)
    ensures 0 <= c < POOL_END && (TargetOf(t.mem[c]) == x <==> c == ParentCell(t, x))
    ensures DirectoryCell(t, ParentCell(t, x))
  {
    hide TargetOf, TableEntry, Filled;
    assert POOL <= x;
    if PD1 <= c < PD1 + 1024 {
      var s := c - PD1;
      DirOf(t, s);
      assert c == Pd1Cell(s);
      if t.owner[x].Leaf? {
        BlockCell(t, t.owner[x].block);
      }
    } else {
      var b :| HasPd0(t, b) && Pd0Cell(t.dirs, b) == c;
      LeafOf(t, b);
      if t.owner[x].Leaf? && t.owner[x].block != b {
        DistinctBlocks(t, b, t.owner[x].block);
      }
    }
    if t.owner[x].Leaf? {
      assert HasPd0(t, t.owner[x].block);
    }
  }

  // ---------------------------------------------------------------- no empty tables

  ghost predicate HasPage(view: map<Page, int>, b: Block) {
    exists q :: q in view && q.block == b
  }

  ghost predicate HasBlock(leaves: map<Block, int>, s: int) {
    exists d :: d in leaves && d.slot == s
  }

  /** No table is empty: between calls every PT has a mapped page and every PD0 has a PT. */
  ghost predicate Tight(t: Tree) {
    && (forall b | b in t.leaves :: HasPage(t.view, b))
    && (forall s | s in t.dirs :: HasBlock(t.leaves, s))
  }

  lemma TightAfterMap(t: Tree, u: Tree, w: Tree, p: Page)
    requires Tight(t) && u.view == t.view && u.leaves.Keys == t.leaves.Keys + {p.block}
    requires u.dirs.Keys == t.dirs.Keys + {p.block.slot}
    requires w.leaves == u.leaves && w.dirs == u.dirs && w.view.Keys == u.view.Keys + {p}
    ensures Tight(w)
  {
  }

  lemma TightAfterUnmap(t: Tree, u: Tree, p: Page)
    requires Tight(t) && p.block in t.leaves && u.view == t.view - {p}
    requires u.leaves == if HasPage(u.view, p.block) then t.leaves else t.leaves - {p.block}
    requires u.dirs ==
               if u.leaves == t.leaves || HasBlock(u.leaves, p.block.slot) then t.dirs else t.dirs - {p.block.slot}
    ensures Tight(u)
  {
  }

  /** Between calls the pages mapped determine which tables there are. */
  lemma ViewDeterminesTables(t: Tree, u: Tree)
    requires Owned(t) && Owned(u) && Tight(t) && Tight(u) && t.view == u.view
    ensures t.leaves.Keys == u.leaves.Keys && t.dirs.Keys == u.dirs.Keys
  {
    forall b
      ensures b in t.leaves <==> b in u.leaves
    {
      assert b in t.leaves ==> HasPage(t.view, b);
      assert b in u.leaves ==> HasPage(u.view, b);
      assert forall p | p in t.view :: HasPt(t, p) && HasPt(u, p);
    }
    forall s
      ensures s in t.dirs <==> s in u.dirs
    {
      assert s in t.dirs ==> HasBlock(t.leaves, s);
      assert s in u.dirs ==> HasBlock(u.leaves, s);
      assert forall b | b in t.leaves :: HasPd0(t, b) && HasPd0(u, b);
    }
  }

  lemma NothingLeft(t: Tree)
    requires Owned(t) && Tight(t) && forall p :: p !in t.view
    ensures t.leaves == map[] && t.dirs == map[] && t.owner == map[]
  {
    forall b
      ensures b !in t.leaves
    {
      assert b in t.leaves ==> HasPage(t.view, b);
    }
    forall s
      ensures s !in t.dirs
    {
      assert s in t.dirs ==> HasBlock(t.leaves, s);
    }
    assert forall x :: x !in t.owner;
  }

  // ---------------------------------------------------------------- tree and lists together

  /** The lists of the pool and the tree agree, and what is free is whole pages of zeros.
      Nothing is said here about the use counts. */
  ghost predicate Sound(t: Tree, used: seq<TableRun>, free: seq<TableRun>, pid: int) {
    && Shape(t) && Linked(t, used, pid) && Apart(used) && Uniform(free) && Zeroed(t.mem, free)
    && forall d | POOL <= d < POOL_END :: Covers(used, d) <==> !Covers(free, d)
  }

  /** Tree u is t with a PD0 for slot s, and m tables in use have become n. */
  ghost predicate DirEnsured(t: Tree, m: int, u: Tree, n: int, s: int) {
    && (s in t.dirs ==> u == t)
    && u.view == t.view && u.leaves == t.leaves && u.dirs.Keys == t.dirs.Keys + {s}
    && n == m + if s in t.dirs then 0 else 1
  }

  /** Tree u is t with a PT for block b and a PD0 for its slot. */
  ghost predicate LeafEnsured(t: Tree, m: int, u: Tree, n: int, b: Block) {
    && (b in t.leaves ==> u == t)
    && u.view == t.view && u.leaves.Keys == t.leaves.Keys + {b} && u.dirs.Keys == t.dirs.Keys + {b.slot}
    && n == m + (if b.slot in t.dirs then 0 else 1) + if b in t.leaves then 0 else 1
  }

  lemma EnsuredFacts(t: Tree, m: int, u: Tree, n: int, b: Block)
    requires LeafEnsured(t, m, u, n, b)
    ensures u.view == t.view && u.leaves.Keys == t.leaves.Keys + {b} && u.dirs.Keys == t.dirs.Keys + {b.slot}
    ensures n == m + Needed(t, b) && (b in t.leaves ==> u == t)
    ensures (DirKeyUnique(u) ==> DirKeyUnique(t)) && (LeafKeyUnique(u) ==> LeafKeyUnique(t))
  {
  }

  lemma SetPageFacts(t: Tree, p: Page, e: Pte)
    requires Owned(t) && Filled(t) && HasPt(t, p)
    ensures var u := SetPage(t, p, e);
            && u.leaves == t.leaves && u.dirs == t.dirs && u.view == t.view[p := FrameOf(e)]
            && (DirKeyUnique(u) <==> DirKeyUnique(t)) && (LeafKeyUnique(u) <==> LeafKeyUnique(t))
  {
  }

  lemma DirThenLeaf(t: Tree, m: int, d: Tree, u: Tree, n: int, b: Block, x: int)
    requires Owned(t) && DirEnsured(t, m, d, n, b.slot)
    requires Owned(d) && Filled(d) && HasPd0(d, b)
    requires if b in d.leaves then u == d else u == AddLeaf(d, b, x)
    ensures LeafEnsured(t, m, u, if b in d.leaves then n else n + 1, b)
  {
    assert b in t.leaves ==> HasPd0(t, b);
  }

  /** What is the case after a fresh table page x has been split off the pool. */
  ghost predicate Fresh(t: Tree, used: seq<TableRun>, free: seq<TableRun>, pid: int, x: int, tag: Table) {
    && Shape(t) && Linked(t, used, pid) && Apart([NewRun(x, tag)] + used) && Uniform(free) && Zeroed(t.mem, free)
    && Unowned(t, x) && Blank(t, x)
    && forall d | POOL <= d < POOL_END :: Covers([NewRun(x, tag)] + used, d) <==> !Covers(free, d)
  }

  /** While not all tables are in use the pool has 512 free cells in a row. */
  lemma Room(t: Tree, used: seq<TableRun>, free: seq<TableRun>, pid: int)
    requires Sound(t, used, free, pid) && FreeList(free, POOL, POOL_END) && |used| < TABLES
    requires Total(free) + Total(used) == POOL_END - POOL
    ensures free != [] && FreeRun(free, free[0].start, 512)
  {
    assert forall i | 0 <= i < |used| :: Describes(t, used[i], pid);
    RoomLeft(free, used);
  }

  lemma FirstPageOfNode(t: Tree, used: seq<TableRun>, free: seq<TableRun>, pid: int, k: int)
    requires Sound(t, used, free, pid) && FreeList(free, POOL, POOL_END) && 0 <= k < |free|
    ensures IsTable(free[k].start) && 512 <= free[k].count
  {
    AlignedNodes(free, k);
  }

  /** The page split off the pool belongs to no table, and is all zero. */
  lemma FreshPage(t: Tree, used: seq<TableRun>, free: seq<TableRun>, pid: int, x: int, tag: Table, r: TableRun,
                  now: seq<TableRun>)
    requires Sound(t, used, free, pid) && IsTable(x) && r == NewRun(x, tag) && Apart([r] + used)
    requires forall c | In(r, c) :: Covers(free, c)
    requires forall c :: Covers(now, c) <==> Covers(free, c) && !In(r, c)
    requires forall c | POOL <= c < POOL_END :: Covers([r] + used, c) <==> !Covers(now, c)
    ensures Fresh(t, used, now, pid, x, tag)
  {
    hide Covers, Apart, Shape, Linked;
    NodeIsUnowned(t, used, pid, r);
    StaysUniform(free, now, x);
    forall c | x <= c < x + 512
      ensures t.mem[c] == ZERO
    {
      assert In(r, c);
    }
  }

  lemma Tail<P>(r: Run<P>, used: seq<Run<P>>)
    requires Apart([r] + used)
    ensures Apart(used) && forall d :: Covers(used, d) ==> Covers([r] + used, d)
  {
    var more := [r] + used;
    forall i, j | 0 <= i < j < |used|
      ensures Clear(used[i], used[j])
    {
      assert used[i] == more[i + 1] && used[j] == more[j + 1];
    }
    forall d | Covers(used, d)
      ensures Covers(more, d)
    {
      CoversCons(r, used, d);
    }
  }

  /** Entering a new PD0 into the tree. */
  lemma NewDirRecorded(t: Tree, used: seq<TableRun>, free: seq<TableRun>, pid: int, s: int, x: int)
    requires 0 <= s < 1024 && s !in t.dirs
    requires Fresh(t, used, free, pid, x, Table(MMU_PD0, s % 512, Pd1Cell(s), pid, 0))
    ensures var more := [NewRun(x, Table(MMU_PD0, s % 512, Pd1Cell(s), pid, 0))] + used;
            && Sound(AddDir(t, s, x), more, free, pid)
            && (Counted(t, used) ==> Counted(AddDir(t, s, x), more))
  {
    var tag := Table(MMU_PD0, s % 512, Pd1Cell(s), pid, 0);
    Tail(NewRun(x, tag), used);
    AddDirKeepsShape(t, s, x);
    AddDirKeepsLinked(t, used, pid, s, x);
    if Counted(t, used) {
      forall i | 0 <= i < |used|
        ensures used[i].start in t.owner
      {
        assert Describes(t, used[i], pid);
      }
      NewDirCounted(t, used, s, x, tag);
    }
  }

  /** Entering a new PT into the tree. */
  lemma NewLeafSound(t: Tree, used: seq<TableRun>, free: seq<TableRun>, pid: int, b: Block, x: int)
    requires HasPd0(t, b) && b !in t.leaves
    requires Fresh(t, used, free, pid, x, Table(MMU_PT, b.index, Pd0Cell(t.dirs, b), pid, 0))
    ensures var more := [NewRun(x, Table(MMU_PT, b.index, Pd0Cell(t.dirs, b), pid, 0))] + used;
            Sound(AddLeaf(t, b, x), more, free, pid)
  {
    var r := NewRun(x, Table(MMU_PT, b.index, Pd0Cell(t.dirs, b), pid, 0));
    Tail(r, used);
    AddLeafKeepsShape(t, b, x);
    AddLeafKeepsLinked(t, used, pid, b, x);
    OnePd0(t, b.slot);
    BlockCell(t, b);
    TableIsUsed(t, used, pid, t.dirs[b.slot], Pd0Cell(t.dirs, b));
    hide Shape, Owned, Filled, Linked, TableEntry, Uniform, Apart;
  }

  /** Recounting a node does not touch anything else. */
  lemma RecountSound(t: Tree, used: seq<TableRun>, free: seq<TableRun>, pid: int, k: int, uses: int)
    requires Sound(t, used, free, pid) && 0 <= k < |used|
    ensures Sound(t, Recount(used, k, uses), free, pid)
  {
    RecountKeepsLinked(t, used, pid, k, uses);
    RecountCovers(used, k, uses);
  }

  /** Counting a new PT in the PD0 that GetPageNode finds. */
  lemma NewLeafRecorded(t: Tree, used: seq<TableRun>, free: seq<TableRun>, pid: int, b: Block, x: int, k: int)
    requires HasPd0(t, b) && b !in t.leaves
    requires Fresh(t, used, free, pid, x, Table(MMU_PT, b.index, Pd0Cell(t.dirs, b), pid, 0))
    requires k == FirstTable([NewRun(x, Table(MMU_PT, b.index, Pd0Cell(t.dirs, b), pid, 0))] + used,
                             b.slot % 512, MMU_PD0)
    ensures var more := [NewRun(x, Table(MMU_PT, b.index, Pd0Cell(t.dirs, b), pid, 0))] + used;
            var u := AddLeaf(t, b, x);
            && k < |more| && Sound(u, Recount(more, k, Up(more[k].tag.uses)), free, pid)
            && FindsPt(u, Recount(more, k, Up(more[k].tag.uses)), b)
            && (Counted(t, used) && FindsPd0(t, used, b.slot) ==> Counted(u, Recount(more, k, Up(more[k].tag.uses))))
  {
    hide Owned, Filled, Linked, Counted, Uniform, Zeroed, Apart, Unowned, Blank;
    var r := NewRun(x, Table(MMU_PT, b.index, Pd0Cell(t.dirs, b), pid, 0));
    var more := [r] + used;
    var u := AddLeaf(t, b, x);
    NewLeafSound(t, used, free, pid, b, x);
    SearchSucceeds(u, more, pid);
    RecountSound(u, more, free, pid, k, Up(more[k].tag.uses));
    SameSearch(more, k, Up(more[k].tag.uses), b.index, MMU_PT);
    if Counted(t, used) && FindsPd0(t, used, b.slot) {
      Tail(r, used);
      assert more[1..] == used;
      NewLeafCounted(t, used, pid, b, x, r.tag, k - 1);
    }
  }

  lemma RecountCovers(used: seq<TableRun>, k: int, uses: int)
    requires 0 <= k < |used| && Apart(used)
    ensures Apart(Recount(used, k, uses))
    ensures forall d :: Covers(Recount(used, k, uses), d) <==> Covers(used, d)
  {
    Retagged(used, Recount(used, k, uses), k, POOL, POOL_END);
  }

  lemma SameTables(t: Tree, u: Tree, used: seq<TableRun>, pid: int)
    requires Linked(t, used, pid) && u.owner == t.owner && u.dirs == t.dirs && u.leaves == t.leaves
    ensures Linked(u, used, pid)
  {
  }

  /** A store to the entry of page p and a recount of node k keep everything but the meaning
      of p and that count. */
  lemma PageRecorded(t: Tree, u: Tree, used: seq<TableRun>, free: seq<TableRun>, pid: int, p: Page, e: Pte, k: int,
                     uses: int)
    requires Sound(t, used, free, pid) && HasPt(t, p) && 0 <= k < |used|
    requires 0 <= PtCell(t.leaves, p) < POOL_END
    requires u == t.(mem := t.mem[PtCell(t.leaves, p) := e], view := u.view) && Shape(u)
    ensures Sound(u, Recount(used, k, uses), free, pid)
  {
    hide Owned, Filled, Linked, Apart, Uniform, Covers, HasPage, Recount;
    OnePt(t, p.block);
    TableIsUsed(t, used, pid, t.leaves[p.block], PtCell(t.leaves, p));
    PageCell(t, p);
    SameTables(t, u, used, pid);
    RecountSound(u, used, free, pid, k, uses);
  }

  /** Mapping page p: the entry, and the count in the PT that GetPageNode finds. */
  lemma NewPageRecorded(t: Tree, used: seq<TableRun>, free: seq<TableRun>, pid: int, p: Page, e: Pte, k: int)
    requires Sound(t, used, free, pid) && HasPt(t, p) && Present(e) && Flagged(e)
    requires k == FirstTable(used, p.block.index, MMU_PT)
    ensures k < |used| && Sound(SetPage(t, p, e), Recount(used, k, Up(used[k].tag.uses)), free, pid)
    ensures FindsPt(SetPage(t, p, e), Recount(used, k, Up(used[k].tag.uses)), p.block) <==> FindsPt(t, used, p.block)
    ensures Counted(t, used) && FindsPt(t, used, p.block) && p !in t.view ==>
              Counted(SetPage(t, p, e), Recount(used, k, Up(used[k].tag.uses)))
  {
    SearchSucceeds(t, used, pid);
    SetPageKeepsShape(t, p, e);
    PageCell(t, p);
    PageRecorded(t, SetPage(t, p, e), used, free, pid, p, e, k, Up(used[k].tag.uses));
    SameSearch(used, k, Up(used[k].tag.uses), p.block.index, MMU_PT);
    if Counted(t, used) && FindsPt(t, used, p.block) && p !in t.view {
      NewPageCounted(t, used, pid, p, e, k);
    }
  }

  /** Unmapping page p, whatever PT GetPageNode finds: only the entry and one count change. */
  lemma AnyPageRecorded(t: Tree, used: seq<TableRun>, free: seq<TableRun>, pid: int, p: Page, k: int)
    requires Sound(t, used, free, pid) && HasPt(t, p) && k == FirstTable(used, p.block.index, MMU_PT)
    ensures k < |used| && Sound(ClearPage(t, p), Recount(used, k, Down(used[k].tag.uses)), free, pid)
  {
    SearchSucceeds(t, used, pid);
    ClearPageKeepsShape(t, p);
    PageCell(t, p);
    PageRecorded(t, ClearPage(t, p), used, free, pid, p, ZERO, k, Down(used[k].tag.uses));
  }

  /** Unmapping page p: GetPageNode finds its own PT, whose count becomes the number of pages
      still mapped there. */
  lemma OldPageRecorded(t: Tree, used: seq<TableRun>, free: seq<TableRun>, pid: int, p: Page, k: int)
    requires Sound(t, used, free, pid) && HasPt(t, p) && p in t.view
    requires Counted(t, used) && FindsPt(t, used, p.block) && k == FirstTable(used, p.block.index, MMU_PT)
    ensures k < |used| && used[k].start == t.leaves[p.block]
    ensures var now := Recount(used, k, Down(used[k].tag.uses)); var u := ClearPage(t, p);
            Counted(u, now) && now[k].tag.uses == |PagesOf(u.view, p.block)|
  {
    hide Owned, Filled, Linked, Uniform, Zeroed, Apart, Covers;
    OldPageCounted(t, used, pid, p, k);
    OnePt(t, p.block);
  }

  /** The PD0 of a block is still listed without the PT of node k. */
  lemma Pd0IsListed(t: Tree, used: seq<TableRun>, pid: int, b: Block, k: int)
    requires Owned(t) && Linked(t, used, pid) && b in t.leaves && 0 <= k < |used| && used[k].tag.level == MMU_PT
    ensures FirstTable(Without(used, k), b.slot % 512, MMU_PD0) < |used| - 1
  {
    assert HasPd0(t, b) && Listed(used, t.dirs[b.slot]);
    var i :| 0 <= i < |used| && used[i].start == t.dirs[b.slot];
    assert Describes(t, used[i], pid);
    assert Without(used, k)[if i < k then i else i - 1] == used[i];
  }

  /** The list and the free part after the page x of node k has been given back. */
  ghost predicate GivenBack(used: seq<TableRun>, free: seq<TableRun>, k: int, less: seq<TableRun>, more: seq<TableRun>)
    requires 0 <= k < |used|
  {
    && less == Without(used, k) && Apart(less) && Uniform(more)
    && (forall d :: Covers(more, d) <==> Covers(free, d) || used[k].start <= d < used[k].start + 512)
    && (forall d | POOL <= d < POOL_END :: Covers(less, d) <==> !Covers(more, d))
  }

  /** Taking the empty PT of block b (node k) out, and uncounting it in the PD0 that
      GetPageNode finds in the shorter list, which is the one of its slot. */
  lemma LostLeafRecorded(t: Tree, used: seq<TableRun>, free: seq<TableRun>, pid: int, b: Block, k: int,
                         less: seq<TableRun>, more: seq<TableRun>, j: int)
    requires Sound(t, used, free, pid) && Counted(t, used)
    requires b in t.leaves && b.slot in t.dirs && FindsPd0(t, used, b.slot) && !HasPage(t.view, b)
    requires 0 <= k < |used| && used[k].start == t.leaves[b] && GivenBack(used, free, k, less, more)
    requires j == FirstTable(less, b.slot % 512, MMU_PD0)
    ensures j < |less|
    ensures var now := Recount(less, j, Down(less[j].tag.uses)); var u := DropLeaf(t, b);
            && Sound(u, now, more, pid) && Counted(u, now)
            && now[j].start == t.dirs[b.slot] && now[j].tag.uses == |BlocksOf(u.leaves, b.slot)|
  {
    var u := DropLeaf(t, b);
    assert HasPd0(t, b);
    DropLeafKeepsShape(t, b);
    DropLeafKeepsLinked(t, used, pid, b, k);
    OnePt(t, b);
    OnePd0(t, b.slot);
    WithoutOther(used, k, b.slot % 512, MMU_PD0);
    var uses := Down(less[j].tag.uses);
    RecountKeepsLinked(u, less, pid, j, uses);
    RecountCovers(less, j, uses);
    LostLeafCounted(t, used, pid, b, k, j);
    OnePd0(u, b.slot);
    StillZeroed(t, u, free, more, t.leaves[b], Pd0Cell(t.dirs, b));
  }

  lemma LeafNode(t: Tree, used: seq<TableRun>, pid: int, b: Block, k: int)
    requires Shape(t) && Linked(t, used, pid) && b in t.leaves && 0 <= k < |used| && used[k].start == t.leaves[b]
    ensures Owned(t) && Filled(t) && HasPd0(t, b)
    ensures used[k].tag.entry == Pd0Cell(t.dirs, b) && used[k].tag.key == b.index && |t.mem| == POOL_END
    ensures POOL <= Pd0Cell(t.dirs, b) < POOL_END
    ensures var u := DropLeaf(t, b);
            && u.view == t.view && u.leaves == t.leaves - {b} && u.dirs == t.dirs
            && u.mem == t.mem[Pd0Cell(t.dirs, b) := ZERO]
  {
  }

  /** Taking the empty PD0 of slot s (node k) out. */
  lemma LostDirRecorded(t: Tree, used: seq<TableRun>, free: seq<TableRun>, pid: int, s: int, k: int,
                        less: seq<TableRun>, more: seq<TableRun>)
    requires Sound(t, used, free, pid) && Counted(t, used)
    requires s in t.dirs && 0 <= s < 1024 && !HasBlock(t.leaves, s)
    requires 0 <= k < |used| && used[k].start == t.dirs[s] && GivenBack(used, free, k, less, more)
    ensures var u := DropDir(t, s); Sound(u, less, more, pid) && Counted(u, less)
  {
    DropDirKeepsShape(t, s);
    DropDirKeepsLinked(t, used, pid, s, k);
    LostDirCounted(t, used, s, k);
    StillZeroed(t, DropDir(t, s), free, more, t.dirs[s], Pd1Cell(s));
  }

  /** A table page x that is all zero joined the free part, and one cell was zeroed. */
  lemma StillZeroed(t: Tree, u: Tree, free: seq<TableRun>, more: seq<TableRun>, x: int, c: int)
    requires Zeroed(t.mem, free) && 0 <= c < POOL_END && u.mem == t.mem[c := ZERO] && Blank(u, x)
    requires forall d :: Covers(more, d) <==> Covers(free, d) || x <= d < x + 512
    ensures Zeroed(u.mem, more)
  {
  }

  // ---------------------------------------------------------------- which tables are found

  /** The searches for the PT and the PD0 of block b end at its own. */
  ghost predicate Finds(t: Tree, used: seq<TableRun>, b: Block) {
    b in t.leaves && b.slot in t.dirs && FindsPt(t, used, b) && FindsPd0(t, used, b.slot)
  }

  /** Blocks that still have a PT find their tables if they did. */
  ghost predicate StillFound(t: Tree, used: seq<TableRun>, u: Tree, now: seq<TableRun>) {
    forall b | b in u.leaves && Finds(t, used, b) :: Finds(u, now, b)
  }

  lemma FoundTwice(t: Tree, used: seq<TableRun>, m: Tree, mid: seq<TableRun>, u: Tree, now: seq<TableRun>)
    requires StillFound(t, used, m, mid) && StillFound(m, mid, u, now) && u.leaves.Keys <= m.leaves.Keys
    ensures StillFound(t, used, u, now)
  {
  }

  lemma RecountFinds(t: Tree, u: Tree, used: seq<TableRun>, k: int, uses: int)
    requires 0 <= k < |used| && u.leaves == t.leaves && u.dirs == t.dirs
    ensures StillFound(t, used, u, Recount(used, k, uses))
  {
    forall b | b in u.leaves && Finds(t, used, b)
      ensures Finds(u, Recount(used, k, uses), b)
    {
      SameSearch(used, k, uses, b.index, MMU_PT);
      SameSearch(used, k, uses, b.slot % 512, MMU_PD0);
    }
  }

  /** Table x, node k, leaves: those of the other blocks are still found. */
  lemma WithoutFinds(t: Tree, u: Tree, used: seq<TableRun>, k: int)
    requires Owned(t) && 0 <= k < |used|
    requires u.leaves.Keys <= t.leaves.Keys && forall b | b in u.leaves :: u.leaves[b] == t.leaves[b] != used[k].start
    requires forall b | b in u.leaves :: b.slot in u.dirs && b.slot in t.dirs
    requires forall b | b in u.leaves :: u.dirs[b.slot] == t.dirs[b.slot] != used[k].start
    ensures StillFound(t, used, u, Without(used, k))
  {
    hide Owned;
    forall b | b in u.leaves && Finds(t, used, b)
      ensures Finds(u, Without(used, k), b)
    {
      WithoutOther(used, k, b.index, MMU_PT);
      WithoutOther(used, k, b.slot % 512, MMU_PD0);
    }
  }

  /** The PT of block b, and the PD0 of slot s, leave. */
  lemma LeafGone(t: Tree, u: Tree, used: seq<TableRun>, b: Block, k: int)
    requires Owned(t) && b in t.leaves && u.leaves == t.leaves - {b} && u.dirs == t.dirs
    requires 0 <= k < |used| && used[k].start == t.leaves[b]
    ensures StillFound(t, used, u, Without(used, k))
  {
    OnePt(t, b);
    forall d | d in u.leaves
      ensures d.slot in t.dirs && t.leaves[d] != used[k].start && t.dirs[d.slot] != used[k].start
    {
      assert HasPd0(t, d);
    }
    WithoutFinds(t, u, used, k);
  }

  lemma DirGone(t: Tree, u: Tree, used: seq<TableRun>, s: int, k: int)
    requires Owned(t) && s in t.dirs && !HasBlock(t.leaves, s) && u.leaves == t.leaves && u.dirs == t.dirs - {s}
    requires 0 <= k < |used| && used[k].start == t.dirs[s]
    ensures StillFound(t, used, u, Without(used, k))
  {
    OnePd0(t, s);
    forall d | d in u.leaves
      ensures d.slot in t.dirs && d.slot != s && t.leaves[d] != used[k].start && t.dirs[d.slot] != used[k].start
    {
      assert HasPd0(t, d);
    }
    WithoutFinds(t, u, used, k);
  }

  lemma FewerKeys(t: Tree, u: Tree)
    requires u.leaves.Keys <= t.leaves.Keys && u.dirs.Keys <= t.dirs.Keys
    ensures KeyUnique(t) ==> KeyUnique(u)
  {
  }

  lemma SameFound(t: Tree, used: seq<TableRun>)
    ensures StillFound(t, used, t, used)
  {
  }

  lemma StillPresent(t: Tree, b: Block)
    requires Owned(t)
    ensures |PagesOf(t.view, b)| == 0 <==> !HasPage(t.view, b)
  {
    NoneLeft(t);
    if i :| i in PagesOf(t.view, b) {
      assert Page(b, i) in t.view;
    }
  }

  lemma OtherBlocks(t: Tree, s: int)
    requires Owned(t)
    ensures |BlocksOf(t.leaves, s)| == 0 <==> !HasBlock(t.leaves, s)
  {
    NoneLeft(t);
    if i :| i in BlocksOf(t.leaves, s) {
      assert Block(s, i) in t.leaves;
    }
  }

  /** With nothing mapped and no table empty there are no tables at all. */
  lemma EmptyPool(t: Tree, used: seq<TableRun>, free: seq<TableRun>, pid: int)
    requires Sound(t, used, free, pid) && Tight(t) && FreeList(free, POOL, POOL_END) && forall p :: p !in t.view
    ensures used == [] && |free| == 1 && free[0].start == POOL && free[0].end == POOL_END
    ensures forall c | PD1 <= c < PD1 + 1024 || POOL <= c < POOL_END :: t.mem[c] == ZERO
  {
    hide FreeList, Uniform, Tight;
    NothingLeft(t);
    assert used != [] ==> Describes(t, used[0], pid);
    forall c | POOL <= c < POOL_END
      ensures Covers(free, c)
    {
      assert !Covers(used, c);
    }
    AllReturned(free, POOL, POOL_END);
    forall c | PD1 <= c < PD1 + 1024
      ensures t.mem[c] == ZERO
    {
      assert c == Pd1Cell(c - PD1);
    }
  }
}
