/** The pool that PD0 and PT pages come from, and the list of tables in use with their
    use counts: how that list describes the page-table tree. */
module TablePool {
  import opened RunLists
  import opened PageTree

  datatype Level = MMU_NONE | MMU_PD0 | MMU_PT

  /** The fields of struct MMUPageNode besides the range: level, 9-bit key (page_offset), cell
      of the parent entry (page_table_entry), process and use count. */
  datatype Table = Table(level: Level, key: int, entry: int, pid: int, uses: int)

  type TableRun = Run<Table>

  // ---------------------------------------------------------------- the used list and the tree

  /** Node u is the record of the table it covers. */
  ghost predicate Describes(t: Tree, u: TableRun, pid: int) {
    && u.start in t.owner && u.end == u.start + 512 && u.count == 512 && u.tag.pid == pid
    && match t.owner[u.start]
       case Dir(s) => u.tag.level == MMU_PD0 && u.tag.key == s % 512 && u.tag.entry == Pd1Cell(s)
       case Leaf(b) =>
         HasPd0(t, b) && u.tag.level == MMU_PT && u.tag.key == b.index && u.tag.entry == Pd0Cell(t.dirs, b)
  }

  ghost predicate Listed(used: seq<TableRun>, x: int) {
    exists k | 0 <= k < |used| :: used[k].start == x
  }

  /** The used list holds exactly the tables of the tree. */
  ghost predicate Linked(t: Tree, used: seq<TableRun>, pid: int) {
    && (forall k | 0 <= k < |used| :: Describes(t, used[k], pid))
    && (forall x | x in t.owner :: Listed(used, x))
  }

  ghost function Occupancy(t: Tree, o: Owner): int {
    match o
    case Dir(s) => |BlocksOf(t.leaves, s)|
    case Leaf(b) => |PagesOf(t.view, b)|
  }

  /** Every use count is the number of present entries of its table. */
  ghost predicate Counted(t: Tree, used: seq<TableRun>) {
    forall k | 0 <= k < |used| && used[k].start in t.owner :: used[k].tag.uses == Occupancy(t, t.owner[used[k].start])
  }

  /** No two tables of a level share the 9-bit key that GetPageNode searches by. */
  ghost predicate KeyUnique(t: Tree) {
    DirKeyUnique(t) && LeafKeyUnique(t)
  }

  ghost predicate DirKeyUnique(t: Tree) {
    forall s, r | s in t.dirs && r in t.dirs && s % 512 == r % 512 :: s == r
  }

  ghost predicate LeafKeyUnique(t: Tree) {
    forall a, b | a in t.leaves && b in t.leaves && a.index == b.index :: a == b
  }

  // ---------------------------------------------------------------- the search by key

  /** GetPageNode: the first node of the list with this key and level; |used| if none. */
  ghost function FirstTable(used: seq<TableRun>, key: int, level: Level): (k: int)
    ensures 0 <= k <= |used|
    ensures k < |used| ==> used[k].tag.key == key && used[k].tag.level == level
    ensures forall i | 0 <= i < k :: !(used[i].tag.key == key && used[i].tag.level == level)
  {
    if used == [] then 0
    else if used[0].tag.key == key && used[0].tag.level == level then 0
    else 1 + FirstTable(used[1..], key, level)
  }

  /** The search for the PT of block b ends at the PT of block b. */
  ghost predicate FindsPt(t: Tree, used: seq<TableRun>, b: Block)
    requires b in t.leaves
  {
    var k := FirstTable(used, b.index, MMU_PT);
    k < |used| && used[k].start == t.leaves[b]
  }

  ghost predicate FindsPd0(t: Tree, used: seq<TableRun>, s: int)
    requires s in t.dirs
  {
    var k := FirstTable(used, s % 512, MMU_PD0);
    k < |used| && used[k].start == t.dirs[s]
  }

  lemma SearchSucceeds(t: Tree, used: seq<TableRun>, pid: int)
    requires Owned(t) && Linked(t, used, pid)
    ensures forall b | b in t.leaves :: FirstTable(used, b.index, MMU_PT) < |used|
    ensures forall s | s in t.dirs :: FirstTable(used, s % 512, MMU_PD0) < |used|
  {
    forall b | b in t.leaves
      ensures FirstTable(used, b.index, MMU_PT) < |used|
    {
      assert Listed(used, t.leaves[b]);
      var i :| 0 <= i < |used| && used[i].start == t.leaves[b];
      assert Describes(t, used[i], pid);
    }
    forall s | s in t.dirs
      ensures FirstTable(used, s % 512, MMU_PD0) < |used|
    {
      assert Listed(used, t.dirs[s]);
      var i :| 0 <= i < |used| && used[i].start == t.dirs[s];
      assert Describes(t, used[i], pid);
    }
  }

  /** The search by 9-bit key finds the right table for every block, and for every slot, if and
      only if no two live tables of that level share a key. */
  lemma SearchIsExact(t: Tree, used: seq<TableRun>, pid: int)
    requires Owned(t) && Linked(t, used, pid)
    ensures (forall b | b in t.leaves :: FindsPt(t, used, b)) <==> LeafKeyUnique(t)
    ensures (forall s | s in t.dirs :: FindsPd0(t, used, s)) <==> DirKeyUnique(t)
  {
    SearchSucceeds(t, used, pid);
    PtSearchIsExact(t, used, pid);
    Pd0SearchIsExact(t, used, pid);
  }

  lemma PtSearchIsExact(t: Tree, used: seq<TableRun>, pid: int)
    requires Owned(t) && Linked(t, used, pid) && forall b | b in t.leaves :: FirstTable(used, b.index, MMU_PT) < |used|
    ensures (forall b | b in t.leaves :: FindsPt(t, used, b)) <==> LeafKeyUnique(t)
  {
    if LeafKeyUnique(t) {
      forall b | b in t.leaves
        ensures FindsPt(t, used, b)
      {
        var k := FirstTable(used, b.index, MMU_PT);
        assert Describes(t, used[k], pid);
      }
    } else {
      var a, b :| a in t.leaves && b in t.leaves && a.index == b.index && a != b;
      assert t.owner[t.leaves[a]] != t.owner[t.leaves[b]];
      assert !FindsPt(t, used, a) || !FindsPt(t, used, b);
    }
  }

  lemma Pd0SearchIsExact(t: Tree, used: seq<TableRun>, pid: int)
    requires Owned(t) && Linked(t, used, pid) && forall s | s in t.dirs :: FirstTable(used, s % 512, MMU_PD0) < |used|
    ensures (forall s | s in t.dirs :: FindsPd0(t, used, s)) <==> DirKeyUnique(t)
  {
    if DirKeyUnique(t) {
      forall s | s in t.dirs
        ensures FindsPd0(t, used, s)
      {
        var k := FirstTable(used, s % 512, MMU_PD0);
        assert Describes(t, used[k], pid);
      }
    } else {
      var s, r :| s in t.dirs && r in t.dirs && s % 512 == r % 512 && s != r;
      assert t.owner[t.dirs[s]] != t.owner[t.dirs[r]];
      assert !FindsPd0(t, used, s) || !FindsPd0(t, used, r);
    }
  }

  /** Taking node k out of the list does not change what is found, unless that was node k. */
  lemma WithoutOther(used: seq<TableRun>, k: int, key: int, level: Level)
    requires 0 <= k < |used| && FirstTable(used, key, level) != k
    ensures var j := FirstTable(used, key, level);
            && FirstTable(Without(used, k), key, level) == (if j < k then j else j - 1)
            && (j < |used| ==> Without(used, k)[if j < k then j else j - 1] == used[j])
  {
    hide FirstTable;
    var less, j := Without(used, k), FirstTable(used, key, level);
    forall i | 0 <= i < |less|
      ensures less[i] == used[if i < k then i else i + 1]
    {
    }
    FirstIs(less, key, level, if j < k then j else j - 1);
  }

  lemma FirstIs(used: seq<TableRun>, key: int, level: Level, k: int)
    requires 0 <= k <= |used| && (k < |used| ==> used[k].tag.key == key && used[k].tag.level == level)
    requires forall i | 0 <= i < k :: !(used[i].tag.key == key && used[i].tag.level == level)
    ensures FirstTable(used, key, level) == k
  {
    hide FirstTable;
  }

  /** Counting changes no key. */
  lemma {:induction false} SameSearch(used: seq<TableRun>, k: int, uses: int, key: int, level: Level)
    requires 0 <= k < |used|
    ensures FirstTable(Recount(used, k, uses), key, level) == FirstTable(used, key, level)
  {
    if k > 0 {
      SameSearch(used[1..], k - 1, uses, key, level);
      assert Recount(used, k, uses)[1..] == Recount(used[1..], k - 1, uses);
    }
  }

  // ---------------------------------------------------------------- list updates

  function Recount(used: seq<TableRun>, k: int, uses: int): seq<TableRun>
    requires 0 <= k < |used|
  {
    used[k := used[k].(tag := used[k].tag.(uses := uses))]
  }

  function NewRun(x: int, tag: Table): TableRun {
    Run(x, x + 512, 512, tag)
  }

  lemma RecountKeepsLinked(t: Tree, used: seq<TableRun>, pid: int, k: int, uses: int)
    requires Linked(t, used, pid) && 0 <= k < |used|
    ensures Linked(t, Recount(used, k, uses), pid)
  {
    var now := Recount(used, k, uses);
    forall i | 0 <= i < |now|
      ensures Describes(t, now[i], pid)
    {
      assert Describes(t, used[i], pid);
    }
    forall x | x in t.owner
      ensures Listed(now, x)
    {
      assert Listed(used, x);
      var i :| 0 <= i < |used| && used[i].start == x;
      assert now[i].start == x;
    }
  }

  lemma PrependKeepsLinked(t: Tree, u: Tree, used: seq<TableRun>, pid: int, r: TableRun)
    requires Linked(t, used, pid) && Describes(u, r, pid)
    requires forall i | 0 <= i < |used| :: Describes(t, used[i], pid) ==> Describes(u, used[i], pid)
    requires forall x | x in u.owner :: x in t.owner || x == r.start
    ensures Linked(u, [r] + used, pid)
  {
    var now := [r] + used;
    forall i | 0 <= i < |now|
      ensures Describes(u, now[i], pid)
    {
      if i > 0 {
        assert now[i] == used[i - 1] && Describes(t, used[i - 1], pid);
      }
    }
    forall x | x in u.owner
      ensures Listed(now, x)
    {
      if x == r.start {
        assert now[0].start == x;
      } else {
        assert Listed(used, x);
        var i :| 0 <= i < |used| && used[i].start == x;
        assert now[i + 1].start == x;
      }
    }
  }

  lemma WithoutKeepsLinked(t: Tree, u: Tree, used: seq<TableRun>, pid: int, k: int)
    requires Linked(t, used, pid) && Apart(used) && 0 <= k < |used|
    requires forall i | 0 <= i < |used| && used[i].start != used[k].start ::
               Describes(t, used[i], pid) ==> Describes(u, used[i], pid)
    requires forall x | x in u.owner :: x in t.owner && x != used[k].start
    ensures Linked(u, Without(used, k), pid)
  {
    var now := Without(used, k);
    assert Describes(t, used[k], pid);
    forall i | 0 <= i < |now|
      ensures Describes(u, now[i], pid)
    {
      var j := if i < k then i else i + 1;
      assert now[i] == used[j] && Describes(t, used[j], pid);
      assert Clear(used[if j < k then j else k], used[if j < k then k else j]);
    }
    forall x | x in u.owner
      ensures Listed(now, x)
    {
      assert Listed(used, x);
      var i :| 0 <= i < |used| && used[i].start == x;
      assert now[if i < k then i else i - 1].start == x;
    }
  }

  lemma AddDirKeepsLinked(t: Tree, used: seq<TableRun>, pid: int, s: int, x: int)
    requires Shape(t) && Linked(t, used, pid) && 0 <= s < 1024 && s !in t.dirs && Unowned(t, x)
    ensures Linked(AddDir(t, s, x), [NewRun(x, Table(MMU_PD0, s % 512, Pd1Cell(s), pid, 0))] + used, pid)
  {
    assert x !in t.owner && |t.mem| == POOL_END;
    hide Filled;
    PrependKeepsLinked(t, AddDir(t, s, x), used, pid, NewRun(x, Table(MMU_PD0, s % 512, Pd1Cell(s), pid, 0)));
  }

  lemma AddLeafKeepsLinked(t: Tree, used: seq<TableRun>, pid: int, b: Block, x: int)
    requires Shape(t) && Linked(t, used, pid) && HasPd0(t, b) && b !in t.leaves && Unowned(t, x)
    ensures Linked(AddLeaf(t, b, x), [NewRun(x, Table(MMU_PT, b.index, Pd0Cell(t.dirs, b), pid, 0))] + used, pid)
  {
    assert x !in t.owner && |t.mem| == POOL_END;
    hide Filled;
    PrependKeepsLinked(t, AddLeaf(t, b, x), used, pid, NewRun(x, Table(MMU_PT, b.index, Pd0Cell(t.dirs, b), pid, 0)));
  }

  lemma DropLeafKeepsLinked(t: Tree, used: seq<TableRun>, pid: int, b: Block, k: int)
    requires Shape(t) && Linked(t, used, pid) && Apart(used) && b in t.leaves
    requires 0 <= k < |used| && used[k].start == t.leaves[b]
    ensures Linked(DropLeaf(t, b), Without(used, k), pid)
  {
    hide Filled;
    WithoutKeepsLinked(t, DropLeaf(t, b), used, pid, k);
  }

  lemma DropDirKeepsLinked(t: Tree, used: seq<TableRun>, pid: int, s: int, k: int)
    requires Shape(t) && Linked(t, used, pid) && Apart(used) && s in t.dirs && 0 <= s < 1024
    requires forall b | b in t.leaves :: b.slot != s
    requires 0 <= k < |used| && used[k].start == t.dirs[s]
    ensures Linked(DropDir(t, s), Without(used, k), pid)
  {
    var u := DropDir(t, s);
    forall i | 0 <= i < |used| && used[i].start != used[k].start && Describes(t, used[i], pid)
      ensures Describes(u, used[i], pid)
    {
      if t.owner[used[i].start].Leaf? {
        assert t.owner[used[i].start].block in t.leaves;
      }
    }
    hide Filled;
    WithoutKeepsLinked(t, u, used, pid, k);
  }

  // ---------------------------------------------------------------- counting

  /** use_count + 1, saturating at the number of entries of a table. */
  function Up(uses: int): int {
    if uses >= 512 then 512 else uses + 1
  }

  /** use_count - 1, not below zero. */
  function Down(uses: int): int {
    if uses > 0 then uses - 1 else 0
  }

  lemma NewPageCounted(t: Tree, used: seq<TableRun>, pid: int, p: Page, e: Pte, k: int)
    requires Shape(t) && Linked(t, used, pid) && Apart(used) && Counted(t, used) && HasPt(t, p) && p !in t.view
    requires 0 <= k < |used| && used[k].start == t.leaves[p.block]
    ensures Counted(SetPage(t, p, e), Recount(used, k, Up(used[k].tag.uses)))
  {
    hide Filled, Owned, Linked, Apart, PagesOf, BlocksOf, FrameOf;
    PageAdded(t.view, p, FrameOf(e));
    OnePt(t, p.block);
    CountsFollow(t, SetPage(t, p, e), used, pid, k, Up(used[k].tag.uses));
  }

  lemma OldPageCounted(t: Tree, used: seq<TableRun>, pid: int, p: Page, k: int)
    requires Shape(t) && Linked(t, used, pid) && Apart(used) && Counted(t, used) && HasPt(t, p) && p in t.view
    requires 0 <= k < |used| && used[k].start == t.leaves[p.block]
    ensures Counted(ClearPage(t, p), Recount(used, k, Down(used[k].tag.uses)))
  {
    hide Filled, Owned, Linked, Apart, PagesOf, BlocksOf;
    PageRemoved(t.view, p);
    OnePt(t, p.block);
    CountsFollow(t, ClearPage(t, p), used, pid, k, Down(used[k].tag.uses));
  }

  lemma OnePt(t: Tree, b: Block)
    requires Owned(t) && b in t.leaves
    ensures t.leaves[b] in t.owner && t.owner[t.leaves[b]] == Leaf(b)
    ensures forall x | x in t.owner && x != t.leaves[b] :: t.owner[x] != Leaf(b)
  {
  }

  lemma OnePd0(t: Tree, s: int)
    requires Owned(t) && s in t.dirs
    ensures t.dirs[s] in t.owner && t.owner[t.dirs[s]] == Dir(s)
    ensures forall x | x in t.owner && x != t.dirs[s] :: t.owner[x] != Dir(s)
  {
  }

  /** When only the occupancy of the table of node k changes, recounting node k is enough. */
  lemma CountsFollow(t: Tree, u: Tree, used: seq<TableRun>, pid: int, k: int, uses: int)
    requires Linked(t, used, pid) && Apart(used) && Counted(t, used) && 0 <= k < |used|
    requires u.owner == t.owner && used[k].start in t.owner && uses == Occupancy(u, t.owner[used[k].start])
    requires forall x | x in t.owner && x != used[k].start :: Occupancy(u, t.owner[x]) == Occupancy(t, t.owner[x])
    ensures Counted(u, Recount(used, k, uses))
  {
  }

  lemma NewDirCounted(t: Tree, used: seq<TableRun>, s: int, x: int, tag: Table)
    requires Shape(t) && Counted(t, used) && 0 <= s < 1024 && s !in t.dirs && Unowned(t, x) && tag.uses == 0
    requires forall i | 0 <= i < |used| :: used[i].start in t.owner
    ensures Counted(AddDir(t, s, x), [NewRun(x, tag)] + used)
  {
  }

  /** A new PT: its own count starts at zero, the count of its PD0 (node k) goes up. */
  lemma NewLeafCounted(t: Tree, used: seq<TableRun>, pid: int, b: Block, x: int, tag: Table, k: int)
    requires Shape(t) && Linked(t, used, pid) && Apart(used) && Counted(t, used) && HasPd0(t, b) && b !in t.leaves
    requires Unowned(t, x) && tag.uses == 0
    requires 0 <= k < |used| && used[k].start == t.dirs[b.slot]
    ensures var now := [NewRun(x, tag)] + used;
            Counted(AddLeaf(t, b, x), Recount(now, k + 1, Up(used[k].tag.uses)))
  {
    hide Filled, Owned, Linked, Apart, BlocksOf, PagesOf, TableEntry;
    var u := AddLeaf(t, b, x);
    NothingMapped(t, b);
    BlockAdded(t.leaves, b, x);
    assert x !in t.owner;
    SameStart(t, used, pid, k);
    var now := Recount([NewRun(x, tag)] + used, k + 1, Up(used[k].tag.uses));
    OnePd0(t, b.slot);
    forall i | 0 <= i < |now| && now[i].start in u.owner
      ensures now[i].tag.uses == Occupancy(u, u.owner[now[i].start])
    {
      if i > 0 {
        assert now[i].start == used[i - 1].start;
      }
    }
  }

  lemma NothingMapped(t: Tree, b: Block)
    requires Owned(t) && b !in t.leaves
    ensures PagesOf(t.view, b) == {}
  {
  }

  lemma SameStart(t: Tree, used: seq<TableRun>, pid: int, k: int)
    requires Linked(t, used, pid) && Apart(used) && 0 <= k < |used|
    ensures forall i | 0 <= i < |used| && i != k :: used[i].start != used[k].start
    ensures forall i | 0 <= i < |used| :: used[i].start in t.owner
  {
  }

  lemma WhatDropLeafDrops(t: Tree, b: Block)
    requires Owned(t) && Filled(t) && b in t.leaves
    ensures HasPd0(t, b)
    ensures var u := DropLeaf(t, b);
            && u.leaves == t.leaves - {b} && u.owner == t.owner - {t.leaves[b]} && u.dirs == t.dirs && u.view == t.view
  {
    assert HasPd0(t, b);
  }

  /** A PT leaves: the count of its PD0, node j of the shorter list, goes down. */
  lemma LostLeafCounted(t: Tree, used: seq<TableRun>, pid: int, b: Block, k: int, j: int)
    requires Shape(t) && Linked(t, used, pid) && Apart(used) && Counted(t, used) && b in t.leaves
    requires 0 <= k < |used| && used[k].start == t.leaves[b]
    requires 0 <= j < |used| - 1 && b.slot in t.dirs && Without(used, k)[j].start == t.dirs[b.slot]
    ensures var now := Without(used, k); Counted(DropLeaf(t, b), Recount(now, j, Down(now[j].tag.uses)))
  {
    hide Filled, Owned, Linked, Apart, BlocksOf, PagesOf, DropLeaf;
    var u := DropLeaf(t, b);
    WhatDropLeafDrops(t, b);
    BlockRemoved(t.leaves, b);
    var less := Without(used, k);
    var now := Recount(less, j, Down(less[j].tag.uses));
    SameStart(t, used, pid, if j < k then j else j + 1);
    SameStart(t, used, pid, k);
    OnePd0(t, b.slot);
    forall i | 0 <= i < |now| && now[i].start in u.owner
      ensures now[i].tag.uses == Occupancy(u, u.owner[now[i].start])
    {
      var i' := if i < k then i else i + 1;
      assert now[i].start == used[i'].start && less[i] == used[i'];
    }
  }

  lemma LostDirCounted(t: Tree, used: seq<TableRun>, s: int, k: int)
    requires Shape(t) && Counted(t, used) && s in t.dirs && 0 <= s < 1024 && 0 <= k < |used|
    ensures Counted(DropDir(t, s), Without(used, k))
  {
    var u := DropDir(t, s);
    var now := Without(used, k);
    hide Filled, Owned;
    forall i | 0 <= i < |now| && now[i].start in u.owner
      ensures now[i].tag.uses == Occupancy(u, u.owner[now[i].start])
    {
      assert now[i] == used[if i < k then i else i + 1];
    }
  }

  // ---------------------------------------------------------------- the free part of the pool

  /** A table page is free as a whole or not at all. */
  ghost predicate Uniform(free: seq<TableRun>) {
    forall x, i, j | IsTable(x) && 0 <= i < 512 && 0 <= j < 512 :: Covers(free, At(x, i)) ==> Covers(free, At(x, j))
  }

  /** Every free page is all zero. */
  ghost predicate Zeroed(mem: seq<Pte>, free: seq<TableRun>) {
    |mem| == POOL_END && forall c | POOL <= c < POOL_END && Covers(free, c) :: mem[c] == ZERO
  }

  lemma AlignedNodes(free: seq<TableRun>, k: int)
    requires FreeList(free, POOL, POOL_END) && Uniform(free) && 0 <= k < |free|
    ensures IsTable(free[k].start) && free[k].end % 512 == 0 && 512 <= free[k].count
  {
    var a, b := free[k].start, free[k].end;
    assert Fits(free[k], POOL, POOL_END);
    NodesAreMaximalRuns(free, POOL, POOL_END, a, b);
    assert HasNode(free, a, b);
    assert Covers(free, a) && Covers(free, b - 1);
    if a % 512 != 0 {
      SamePage(free, a);
    }
    if b % 512 != 0 {
      SamePage(free, b);
    }
  }

  lemma SamePage(free: seq<TableRun>, c: int)
    requires Uniform(free) && POOL < c < POOL_END && c % 512 != 0
    ensures Covers(free, c) <==> Covers(free, c - 1)
  {
    var x, i := c - c % 512, c % 512;
    assert IsTable(x) && At(x, i) == c && At(x, i - 1) == c - 1;
  }

  /** While not all tables are in use, there is a free page. */
  lemma RoomLeft(free: seq<TableRun>, used: seq<TableRun>)
    requires FreeList(free, POOL, POOL_END) && Uniform(free) && |used| < TABLES
    requires Total(free) + Total(used) == POOL_END - POOL
    requires forall i | 0 <= i < |used| :: used[i].count == 512
    ensures free != [] && FreeRun(free, free[0].start, 512)
  {
    TotalOfTables(used);
    if free != [] {
      AlignedNodes(free, 0);
      NodeIsFreeRun(free, 0, 512, POOL, POOL_END);
    }
  }

  lemma {:induction false} TotalOfTables(used: seq<TableRun>)
    requires forall i | 0 <= i < |used| :: used[i].count == 512
    ensures Total(used) == 512 * |used|
  {
    if used != [] {
      TotalOfTables(used[1..]);
    }
  }

  /** Taking or returning the whole page x keeps the free part uniform. */
  lemma StaysUniform(free: seq<TableRun>, now: seq<TableRun>, x: int)
    requires Uniform(free) && IsTable(x)
    requires (forall c :: Covers(now, c) <==> Covers(free, c) && !(x <= c < x + 512)) ||
             (forall c :: Covers(now, c) <==> Covers(free, c) || (x <= c < x + 512))
    ensures Uniform(now)
  {
  }

  /** The cells of a table of the tree are in use. */
  lemma TableIsUsed(t: Tree, used: seq<TableRun>, pid: int, x: int, c: int)
    requires Linked(t, used, pid) && x in t.owner && x <= c < x + 512
    ensures Covers(used, c)
  {
  }

  lemma NodeIsUnowned(t: Tree, used: seq<TableRun>, pid: int, r: TableRun)
    requires Linked(t, used, pid) && Apart([r] + used) && IsTable(r.start) && r.end == r.start + 512
    ensures Unowned(t, r.start)
  {
    var now := [r] + used;
    forall y | y in t.owner
      ensures r.start + 512 <= y || y + 512 <= r.start
    {
      assert Listed(used, y);
      var i :| 0 <= i < |used| && used[i].start == y;
      assert Describes(t, used[i], pid) && now[i + 1] == used[i] && Clear(now[0], now[i + 1]);
    }
  }
}
