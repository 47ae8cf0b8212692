/** The four-level page table of the 40-bit VA / 48-bit PA build, as a value: what the cells of
    table memory hold, which tables exist, and what each single write does to the meaning.
    Memory is counted in 8-byte entries, as page_start and page_end are. */
module PageTree {
  import opened Common

  const PAGES := 0x1000_0000

  // Layout of table memory (PCIe build, ddr_offset 0), in entries.
  const PD2 := 0x4_0000
  const PD1 := 0x6_0000
  const POOL := 0x8_0000
  const POOL_END := 0x20_0000
  const TABLES := 3072

  // ---------------------------------------------------------------- entries

  /** One table entry: two 32-bit words. */
  datatype Pte = Pte(lo: int, hi: int)

  const ZERO := Pte(0, 0)

  /** The directory entry for the table at entry address t. Entries of PD0 also carry the
      writable bit 4. The fields are disjoint, so `|` is `+`. */
  function TableEntry(t: int, writable: bool): Pte {
    Pte((t * 8 % 0x1_0000_0000 - t * 8 % 4096) + (if writable then 16 else 0) + 1, t * 8 / 0x1_0000_0000 % 0x1_0000)
  }

  /** The table a directory entry points at; 0 when there is none. */
  function TargetOf(e: Pte): int {
    (e.hi % 0x1_0000 * 0x1_0000_0000 + (e.lo - e.lo % 4096)) / 8
  }

  /** The page entry for a physical address. */
  function PageEntry(address: int): Pte {
    Pte((address % 0x1_0000_0000 - address % 4096) + 16 + 1, address / 0x1_0000_0000 % 0x1_0000)
  }

  /** The page frame of a 48-bit physical address. */
  function Frame(address: int): int {
    address % 0x1_0000_0000_0000 - address % 4096
  }

  function FrameOf(e: Pte): int {
    e.hi % 0x1_0000 * 0x1_0000_0000 + (e.lo - e.lo % 4096)
  }

  predicate Present(e: Pte) {
    e.lo % 2 == 1
  }

  /** Bit 4 of an entry lets the device write. */
  predicate Writable(e: Pte) {
    e.lo / 16 % 2 == 1
  }

  /** The low twelve bits of a page entry: present and writable, and nothing else. */
  predicate Flagged(e: Pte) {
    e.lo % 4096 == 0x11
  }

  lemma FlaggedMeans(e: Pte)
    requires Flagged(e)
    ensures Present(e) && Writable(e)
  {
    LowBits(e.lo / 4096);
  }

  lemma LowBits(k: int)
    ensures (k * 4096 + 17) % 2 == 1 && (k * 4096 + 17) / 16 % 2 == 1 && (k * 4096 + 17) % 4096 == 17
    ensures (k * 4096 + 1) % 2 == 1 && (k * 4096 + 1) / 16 % 2 == 0 && (k * 4096 + 1) % 4096 == 1
  {
    Divides(k * 4096 + 17, 2, k * 2048 + 8, 1);
    Divides(k * 4096 + 17, 16, k * 256 + 1, 1);
    Divides(k * 4096 + 17, 4096, k, 17);
    Divides(k * 256 + 1, 2, k * 128, 1);
    Divides(k * 4096 + 1, 2, k * 2048, 1);
    Divides(k * 4096 + 1, 16, k * 256, 1);
    Divides(k * 4096 + 1, 4096, k, 1);
    Divides(k * 256, 2, k * 128, 0);
  }

  /** The words of a directory entry, bit field by bit field: bits 47..32 and 31..12 of the address of
      the table, and the flags. */
  lemma TableEntryPoints(t: int, w: bool)
    requires 0 <= t < POOL_END && t % 512 == 0
    ensures TargetOf(TableEntry(t, w)) == t && Present(TableEntry(t, w)) && (Writable(TableEntry(t, w)) <==> w)
    ensures TableEntry(t, w).lo % 4096 == (if w then 0x11 else 0x1) && TableEntry(t, w).lo / 4096 == t / 512
    ensures TableEntry(t, w).hi == 0
  {
    var k := t / 512;
    assert t == 512 * k;
    EntryWords(k, w);
    WordsTarget(k, if w then 17 else 1);
    LowBits(k);
    Divides(k * 4096 + if w then 17 else 1, 4096, k, if w then 17 else 1);
  }

  lemma EntryWords(k: int, w: bool)
    requires 0 <= k < 4096
    ensures TableEntry(512 * k, w) == Pte(k * 4096 + (if w then 17 else 1), 0)
  {
  }

  lemma WordsTarget(k: int, flags: int)
    requires 0 <= k < 4096 && (flags == 1 || flags == 17)
    ensures var e := Pte(k * 4096 + flags, 0); TargetOf(e) == 512 * k && Present(e)
  {
    var lo := k * 4096 + flags;
    assert lo % 4096 == flags;
    assert (k * 4096) / 8 == 512 * k;
    assert lo == 2 * (k * 2048 + if flags == 1 then 0 else 8) + 1;
  }

  /** The words of a page entry, bit field by bit field; the frame is recovered from them. */
  lemma PageEntryHolds(address: int)
    requires 0 <= address
    ensures FrameOf(PageEntry(address)) == Frame(address) && Present(PageEntry(address)) && Flagged(PageEntry(address))
    ensures PageEntry(address).lo % 4096 == 0x11 && PageEntry(address).lo / 4096 == address / 4096 % 0x10_0000
    ensures PageEntry(address).hi == address / 0x1_0000_0000 % 0x1_0000
  {
    var off, page, top := address % 4096, address / 4096 % 0x10_0000, address / 4096 / 0x10_0000;
    var low := page * 4096 + off;
    Divides(address, 0x1_0000_0000, top, low);
    Divides(address, 0x1_0000_0000_0000, top / 0x1_0000, top % 0x1_0000 * 0x1_0000_0000 + low);
    assert PageEntry(address) == Pte(page * 4096 + 17, top % 0x1_0000);
    LowBits(page);
    Divides(page * 4096 + 17, 4096, page, 17);
  }

  /** The frame of an address is the page that its low 48 bits are in. */
  lemma FrameIsPage(address: int)
    requires 0 <= address
    ensures Frame(address) % 4096 == 0 && Frame(address) <= address % 0x1_0000_0000_0000 < Frame(address) + 4096
  {
    var p, t := address / 4096, address / 0x1_0000_0000_0000;
    assert address % 0x1_0000_0000_0000 == address - t * 0x1_0000_0000_0000;
    assert Frame(address) == 4096 * (p - t * 0x10_0000_0000);
  }

  // ---------------------------------------------------------------- the tree

  /** A 2 MB block is an entry of the PD0 of a 1 GB slot, a page an entry of the PT of a block. */
  datatype Block = Block(slot: int, index: int)
  datatype Page = Page(block: Block, index: int)

  function PageOf(v: int): Page {
    Page(Block(v / 0x4_0000, v / 512 % 512), v % 512)
  }

  /** A pool table is the PD0 of a slot or the PT of a block. */
  datatype Owner = Dir(slot: int) | Leaf(block: Block)

  /** Table memory with its meaning: `dirs` gives the PD0 of each slot that has one, `leaves`
      the PT of each block that has one, `owner` is their inverse, and `view` is the partial
      map from virtual pages to physical frames. */
  datatype Tree = Tree(mem: seq<Pte>, dirs: map<int, int>, leaves: map<Block, int>, owner: map<int, Owner>,
                       view: map<Page, int>)

  /** The PD1, PD0 and PT cells that hold the entry of a slot, a block and a page. */
  function Pd1Cell(s: int): int {
    PD1 + s
  }

  function Pd0Cell(dirs: map<int, int>, b: Block): int
    requires b.slot in dirs
  {
    dirs[b.slot] + b.index
  }

  function PtCell(leaves: map<Block, int>, p: Page): int
    requires p.block in leaves
  {
    leaves[p.block] + p.index
  }

  ghost predicate HasPd0(t: Tree, b: Block) {
    b.slot in t.dirs && 0 <= b.index < 512
  }

  ghost predicate HasPt(t: Tree, p: Page) {
    p.block in t.leaves && 0 <= p.index < 512
  }

  predicate IsTable(x: int) {
    POOL <= x && x + 512 <= POOL_END && x % 512 == 0
  }

  ghost predicate Holds(e: Pte, view: map<Page, int>, p: Page) {
    if p in view then Present(e) && Flagged(e) && e != ZERO && FrameOf(e) == view[p] else e == ZERO
  }

  /** `owner` and the two maps of tables are inverse to each other, and tables do not overlap. */
  ghost predicate Owned(t: Tree) {
    && (forall x | x in t.owner :: IsTable(x))
    && (forall x, y | x in t.owner && y in t.owner && x != y :: x + 512 <= y || y + 512 <= x)
    && (forall s | s in t.dirs :: 0 <= s < 1024 && t.dirs[s] in t.owner && t.owner[t.dirs[s]] == Dir(s))
    && (forall b | b in t.leaves :: HasPd0(t, b) && t.leaves[b] in t.owner && t.owner[t.leaves[b]] == Leaf(b))
    && (forall x | x in t.owner ::
          match t.owner[x]
          case Dir(s) => s in t.dirs && t.dirs[s] == x
          case Leaf(b) => b in t.leaves && t.leaves[b] == x)
    && (forall p | p in t.view :: HasPt(t, p))
  }

  /** The entry of block b in its PD0. */
  ghost predicate BlockOk(t: Tree, b: Block)
    requires |t.mem| == POOL_END && HasPd0(t, b)
  {
    var c := Pd0Cell(t.dirs, b);
    POOL <= c < POOL_END && t.mem[c] == if b in t.leaves then TableEntry(t.leaves[b], true) else ZERO
  }

  /** The entry of page p in its PT. */
  ghost predicate PageOk(t: Tree, p: Page)
    requires |t.mem| == POOL_END && HasPt(t, p)
  {
    var c := PtCell(t.leaves, p);
    POOL <= c < POOL_END && Holds(t.mem[c], t.view, p)
  }

  /** Every cell holds exactly what the maps say: the single parent entry of each table, the
      page entries of the view, and zero everywhere else. */
  ghost predicate Filled(t: Tree) {
    && |t.mem| == POOL_END
    && t.mem[PD2] == TableEntry(PD1, false) && t.mem[PD2 + 1] == TableEntry(PD1 + 512, false)
    && (forall s | 0 <= s < 1024 :: t.mem[Pd1Cell(s)] == if s in t.dirs then TableEntry(t.dirs[s], false) else ZERO)
    && (forall b | HasPd0(t, b) :: BlockOk(t, b))
    && (forall p | HasPt(t, p) :: PageOk(t, p))
  }

  ghost predicate Shape(t: Tree) {
    Owned(t) && Filled(t)
  }

  // ---------------------------------------------------------------- the walk

  /** The table named by cell c, if the entry there is present. */
  function Next(mem: seq<Pte>, c: int): Option<int>
    requires |mem| == POOL_END && 0 <= c < POOL_END
  {
    var t := TargetOf(mem[c]);
    if !Present(mem[c]) || t < 0 || POOL_END < t + 512 then None else Some(t)
  }

  /** The PD0 and the PT cell that the hardware comes to for page v: PD2, PD1, PD0, by physical
      address. */
  function Path(mem: seq<Pte>, v: int): (cells: Option<(int, int)>)
    requires |mem| == POOL_END && 0 <= v < PAGES
    ensures cells.Some? ==> 0 <= cells.value.0 < POOL_END && 0 <= cells.value.1 < POOL_END
  {
    match Next(mem, PD2 + v / 0x800_0000)
    case None => None
    case Some(pd1) =>
      match Next(mem, pd1 + v / 0x4_0000 % 512)
      case None => None
      case Some(pd0) =>
        match Next(mem, pd0 + v / 512 % 512)
        case None => None
        case Some(pt) => Some((pd0 + v / 512 % 512, pt + v % 512))
  }

  /** The frame that it finds there. */
  function Walk(mem: seq<Pte>, v: int): Option<int>
    requires |mem| == POOL_END && 0 <= v < PAGES
  {
    match Path(mem, v)
    case None => None
    case Some(cells) => if Present(mem[cells.1]) then Some(FrameOf(mem[cells.1])) else None
  }

  /** And whether it lets the device write: the PD0 and the PT entry both have to. */
  predicate MayWrite(mem: seq<Pte>, v: int)
    requires |mem| == POOL_END && 0 <= v < PAGES
  {
    match Path(mem, v)
    case None => false
    case Some(cells) => Writable(mem[cells.0]) && Writable(mem[cells.1])
  }

  lemma NextIs(mem: seq<Pte>, c: int, t: int, w: bool)
    requires |mem| == POOL_END && 0 <= c < POOL_END
    requires 0 <= t && t + 512 <= POOL_END && t % 512 == 0
    ensures mem[c] == TableEntry(t, w) ==> Next(mem, c) == Some(t)
    ensures mem[c] == ZERO ==> Next(mem, c) == None
  {
    TableEntryPoints(t, w);
  }

  lemma Digits(v: int)
    requires 0 <= v < PAGES
    ensures 0 <= v / 0x4_0000 < 1024 && 0 <= v / 0x800_0000 < 2
    ensures v / 0x800_0000 * 512 + v / 0x4_0000 % 512 == v / 0x4_0000
  {
  }

  lemma FromPd2(t: Tree, i: int)
    requires Shape(t) && 0 <= i < 2
    ensures Next(t.mem, PD2 + i) == Some(PD1 + i * 512)
  {
  }

  lemma FromPd1(t: Tree, s: int)
    requires Shape(t) && 0 <= s < 1024
    ensures Next(t.mem, Pd1Cell(s)) == Lookup(t.dirs, s)
  {
    NextIs(t.mem, Pd1Cell(s), if s in t.dirs then t.dirs[s] else 0, false);
  }

  lemma FromPd0(t: Tree, b: Block)
    requires Shape(t) && HasPd0(t, b)
    ensures POOL <= Pd0Cell(t.dirs, b) < POOL_END
    ensures Next(t.mem, Pd0Cell(t.dirs, b)) == Lookup(t.leaves, b)
  {
    assert BlockOk(t, b);
    NextIs(t.mem, Pd0Cell(t.dirs, b), if b in t.leaves then t.leaves[b] else 0, true);
  }

  /** Translation: in every tree of the right shape the four-level walk of a page finds the
      frame it is mapped to, and finds nothing for a page that is not mapped; what is mapped can
      be written. */
  lemma WalkRefinesView(t: Tree, v: int)
    requires Shape(t) && 0 <= v < PAGES
    ensures Walk(t.mem, v) == Lookup(t.view, PageOf(v))
    ensures PageOf(v) in t.view ==> MayWrite(t.mem, v)
  {
    var p := PageOf(v);
    var b := p.block;
    Digits(v);
    FromPd2(t, v / 0x800_0000);
    FromPd1(t, b.slot);
    if b.slot in t.dirs {
      FromPd0(t, b);
      if b in t.leaves {
        assert PageOk(t, p) && BlockOk(t, b);
        if p in t.view {
          TableEntryPoints(t.leaves[b], true);
          FlaggedMeans(t.mem[PtCell(t.leaves, p)]);
        }
      }
    }
    Chain(t.mem, t.dirs, t.leaves, t.view, v);
  }

  lemma Chain(mem: seq<Pte>, dirs: map<int, int>, leaves: map<Block, int>, view: map<Page, int>, v: int)
    requires |mem| == POOL_END && 0 <= v < PAGES
    requires 0 <= v / 0x4_0000 < 1024 && 0 <= v / 0x800_0000 < 2
    requires v / 0x800_0000 * 512 + v / 0x4_0000 % 512 == v / 0x4_0000
    requires Next(mem, PD2 + v / 0x800_0000) == Some(PD1 + v / 0x800_0000 * 512)
    requires Next(mem, Pd1Cell(v / 0x4_0000)) == Lookup(dirs, v / 0x4_0000)
    requires PageOf(v).block in leaves ==> PageOf(v).block.slot in dirs
    requires PageOf(v) in view ==> PageOf(v).block in leaves
    requires v / 0x4_0000 in dirs ==>
               && 0 <= Pd0Cell(dirs, PageOf(v).block) < POOL_END
               && Next(mem, Pd0Cell(dirs, PageOf(v).block)) == Lookup(leaves, PageOf(v).block)
    requires PageOf(v).block in leaves ==>
               0 <= PtCell(leaves, PageOf(v)) < POOL_END && Holds(mem[PtCell(leaves, PageOf(v))], view, PageOf(v))
    ensures Walk(mem, v) == Lookup(view, PageOf(v))
    ensures PageOf(v) in view ==>
              Path(mem, v) == Some((Pd0Cell(dirs, PageOf(v).block), PtCell(leaves, PageOf(v))))
  {
    hide Next, FrameOf;
    assert !Present(ZERO);
    assert PD1 + v / 0x800_0000 * 512 + v / 0x4_0000 % 512 == Pd1Cell(v / 0x4_0000);
  }

  // ---------------------------------------------------------------- distinct cells

  lemma DistinctBlocks(t: Tree, a: Block, b: Block)
    requires Owned(t) && HasPd0(t, a) && HasPd0(t, b) && a != b
    ensures Pd0Cell(t.dirs, a) != Pd0Cell(t.dirs, b)
  {
  }

  /** Different virtual pages use different entry cells. */
  lemma DistinctPages(t: Tree, p: Page, q: Page)
    requires Owned(t) && HasPt(t, p) && HasPt(t, q) && p != q
    ensures PtCell(t.leaves, p) != PtCell(t.leaves, q)
  {
  }

  lemma DistinctLevels(t: Tree, p: Page, b: Block)
    requires Owned(t) && HasPt(t, p) && HasPd0(t, b)
    ensures PtCell(t.leaves, p) != Pd0Cell(t.dirs, b)
  {
  }

  lemma PageCell(t: Tree, p: Page)
    requires Owned(t) && HasPt(t, p)
    ensures POOL <= PtCell(t.leaves, p) < POOL_END
  {
  }

  lemma BlockCell(t: Tree, b: Block)
    requires Owned(t) && HasPd0(t, b)
    ensures POOL <= Pd0Cell(t.dirs, b) < POOL_END
  {
  }

  // ---------------------------------------------------------------- the six writes

  /** Writing a present entry for page p. */
  function SetPage(t: Tree, p: Page, e: Pte): Tree
    requires Owned(t) && Filled(t) && HasPt(t, p)
  {
    PageCell(t, p);
    t.(mem := t.mem[PtCell(t.leaves, p) := e], view := t.view[p := FrameOf(e)])
  }

  /** Zeroing the entry of page p. */
  function ClearPage(t: Tree, p: Page): Tree
    requires Owned(t) && Filled(t) && HasPt(t, p)
  {
    PageCell(t, p);
    t.(mem := t.mem[PtCell(t.leaves, p) := ZERO], view := t.view - {p})
  }

  /** Table x becomes the PD0 of slot s. */
  function AddDir(t: Tree, s: int, x: int): Tree
    requires |t.mem| == POOL_END && 0 <= s < 1024
  {
    t.(mem := t.mem[Pd1Cell(s) := TableEntry(x, false)], dirs := t.dirs[s := x], owner := t.owner[x := Dir(s)])
  }

  /** Table x becomes the PT of block b. */
  function AddLeaf(t: Tree, b: Block, x: int): Tree
    requires Owned(t) && Filled(t) && HasPd0(t, b)
  {
    BlockCell(t, b);
    t.(mem := t.mem[Pd0Cell(t.dirs, b) := TableEntry(x, true)], leaves := t.leaves[b := x],
       owner := t.owner[x := Leaf(b)])
  }

  /** The PT of block b leaves the tree. */
  function DropLeaf(t: Tree, b: Block): Tree
    requires Owned(t) && Filled(t) && b in t.leaves
  {
    BlockCell(t, b);
    t.(mem := t.mem[Pd0Cell(t.dirs, b) := ZERO], leaves := t.leaves - {b}, owner := t.owner - {t.leaves[b]})
  }

  /** The PD0 of slot s leaves the tree. */
  function DropDir(t: Tree, s: int): Tree
    requires |t.mem| == POOL_END && s in t.dirs && 0 <= s < 1024
  {
    t.(mem := t.mem[Pd1Cell(s) := ZERO], dirs := t.dirs - {s}, owner := t.owner - {t.dirs[s]})
  }

  /** Pool cells [x, x + 512) belong to no table. */
  ghost predicate Unowned(t: Tree, x: int) {
    IsTable(x) && forall y | y in t.owner :: x + 512 <= y || y + 512 <= x
  }

  /** Pool cells [x, x + 512) hold zeros. */
  ghost predicate Blank(t: Tree, x: int) {
    |t.mem| == POOL_END && IsTable(x) && forall c | x <= c < x + 512 :: t.mem[c] == ZERO
  }

  // ---------------------------------------------------------------- page writes keep the shape

  /** A write to the entry of page p alone. */
  lemma PageWrite(t: Tree, p: Page, e: Pte, u: Tree)
    requires Shape(t) && HasPt(t, p) && POOL <= PtCell(t.leaves, p) < POOL_END
    requires u == t.(mem := t.mem[PtCell(t.leaves, p) := e], view := u.view)
    requires Holds(e, u.view, p) && forall q | q != p :: Lookup(u.view, q) == Lookup(t.view, q)
    ensures Shape(u)
  {
    hide Present, Flagged, FrameOf, TableEntry;
    forall q | q in u.view
      ensures HasPt(u, q)
    {
      assert q != p ==> Lookup(u.view, q) == Lookup(t.view, q);
    }
    PageWriteBlocks(t, p, e, u);
    PageWritePages(t, p, e, u);
  }

  lemma PageWriteBlocks(t: Tree, p: Page, e: Pte, u: Tree)
    requires Shape(t) && HasPt(t, p) && POOL <= PtCell(t.leaves, p) < POOL_END
    requires u == t.(mem := t.mem[PtCell(t.leaves, p) := e], view := u.view)
    ensures forall b | HasPd0(u, b) :: BlockOk(u, b)
  {
    hide Present, Flagged, FrameOf, TableEntry, Owned;
    forall b | HasPd0(u, b)
      ensures BlockOk(u, b)
    {
      assert HasPd0(t, b) && BlockOk(t, b);
      DistinctLevels(t, p, b);
    }
  }

  lemma PageWritePages(t: Tree, p: Page, e: Pte, u: Tree)
    requires Shape(t) && HasPt(t, p) && POOL <= PtCell(t.leaves, p) < POOL_END
    requires u == t.(mem := t.mem[PtCell(t.leaves, p) := e], view := u.view)
    requires Holds(e, u.view, p) && forall q | q != p :: Lookup(u.view, q) == Lookup(t.view, q)
    ensures forall q | HasPt(u, q) :: PageOk(u, q)
  {
    hide Present, Flagged, FrameOf, TableEntry, Owned;
    forall q | HasPt(u, q)
      ensures PageOk(u, q)
    {
      assert HasPt(t, q) && PageOk(t, q);
      if q != p {
        DistinctPages(t, p, q);
        assert Lookup(u.view, q) == Lookup(t.view, q);
      }
    }
  }

  lemma SetPageKeepsShape(t: Tree, p: Page, e: Pte)
    requires Shape(t) && HasPt(t, p) && Present(e) && Flagged(e)
    ensures Shape(SetPage(t, p, e))
  {
    PageCell(t, p);
    assert e != ZERO;
    hide Present, Flagged, FrameOf, Filled, Owned;
    PageWrite(t, p, e, SetPage(t, p, e));
  }

  lemma ClearPageKeepsShape(t: Tree, p: Page)
    requires Shape(t) && HasPt(t, p)
    ensures Shape(ClearPage(t, p))
  {
    PageCell(t, p);
    hide Filled, Owned;
    PageWrite(t, p, ZERO, ClearPage(t, p));
  }

  // ---------------------------------------------------------------- new tables keep the shape

  lemma AddDirKeepsOwned(t: Tree, s: int, x: int)
    requires Owned(t) && |t.mem| == POOL_END && 0 <= s < 1024 && s !in t.dirs && Unowned(t, x)
    ensures Owned(AddDir(t, s, x))
  {
    hide Filled;
    var u := AddDir(t, s, x);
    forall b | b in u.leaves
      ensures HasPd0(u, b)
    {
      assert HasPd0(t, b);
    }
    forall p | p in u.view
      ensures HasPt(u, p)
    {
      assert HasPt(t, p);
    }
  }

  lemma AddDirKeepsShape(t: Tree, s: int, x: int)
    requires Shape(t) && 0 <= s < 1024 && s !in t.dirs && Unowned(t, x) && Blank(t, x)
    ensures Shape(AddDir(t, s, x))
  {
    hide TableEntry, Present, Flagged, FrameOf;
    var u := AddDir(t, s, x);
    AddDirKeepsOwned(t, s, x);
    NoLeafUnder(t, s);
    hide Owned;
    forall b | HasPd0(u, b)
      ensures BlockOk(u, b)
    {
      if b.slot != s {
        assert HasPd0(t, b) && BlockOk(t, b);
      }
    }
    forall p | HasPt(u, p)
      ensures PageOk(u, p)
    {
      assert HasPt(t, p) && PageOk(t, p);
    }
  }

  lemma NoLeafUnder(t: Tree, s: int)
    requires Owned(t) && s !in t.dirs
    ensures forall b | b in t.leaves :: b.slot != s
  {
  }

  lemma AddLeafKeepsOwned(t: Tree, b: Block, x: int)
    requires Owned(t) && Filled(t) && HasPd0(t, b) && b !in t.leaves && Unowned(t, x)
    ensures Owned(AddLeaf(t, b, x))
  {
    hide Filled;
    var u := AddLeaf(t, b, x);
    forall d | d in u.leaves
      ensures HasPd0(u, d)
    {
      assert d != b ==> HasPd0(t, d);
    }
    forall p | p in u.view
      ensures HasPt(u, p)
    {
      assert HasPt(t, p);
    }
  }

  lemma AddLeafKeepsShape(t: Tree, b: Block, x: int)
    requires Shape(t) && HasPd0(t, b) && b !in t.leaves && Unowned(t, x) && Blank(t, x)
    ensures Shape(AddLeaf(t, b, x))
  {
    AddLeafKeepsOwned(t, b, x);
    AddLeafBlocks(t, b, x);
    AddLeafPages(t, b, x);
    hide Owned, TableEntry, HasPt, HasPd0, PageOk, BlockOk;
  }

  lemma AddLeafBlocks(t: Tree, b: Block, x: int)
    requires Shape(t) && HasPd0(t, b) && b !in t.leaves
    ensures var u := AddLeaf(t, b, x); forall d | HasPd0(u, d) :: BlockOk(u, d)
  {
    var u := AddLeaf(t, b, x);
    BlockCell(t, b);
    hide Owned, TableEntry;
    forall d | HasPd0(u, d)
      ensures BlockOk(u, d)
    {
      assert HasPd0(t, d) && BlockOk(t, d);
      if d != b {
        DistinctBlocks(t, b, d);
      }
    }
  }

  lemma AddLeafPages(t: Tree, b: Block, x: int)
    requires Shape(t) && HasPd0(t, b) && b !in t.leaves && Unowned(t, x) && Blank(t, x)
    ensures var u := AddLeaf(t, b, x); forall p | HasPt(u, p) :: PageOk(u, p)
  {
    hide Owned, Filled, TableEntry, Present, Flagged, FrameOf;
    var u := AddLeaf(t, b, x);
    BlockCell(t, b);
    AddLeafKeepsOwned(t, b, x);
    NoPageUnder(t, b);
    forall p | HasPt(u, p)
      ensures PageOk(u, p)
    {
      DistinctLevels(u, p, b);
      if p.block != b {
        PageIsOk(t, p);
      }
    }
  }

  lemma NoPageUnder(t: Tree, b: Block)
    requires Owned(t) && b !in t.leaves
    ensures forall p | p in t.view :: p.block != b
  {
  }

  // ---------------------------------------------------------------- tables given back

  lemma DropLeafKeepsOwned(t: Tree, b: Block)
    requires Owned(t) && Filled(t) && b in t.leaves && forall p | p in t.view :: p.block != b
    ensures Owned(DropLeaf(t, b)) && Unowned(DropLeaf(t, b), t.leaves[b])
  {
    hide Filled;
    var u := DropLeaf(t, b);
    forall d | d in u.leaves
      ensures HasPd0(u, d)
    {
      assert HasPd0(t, d);
    }
    forall p | p in u.view
      ensures HasPt(u, p)
    {
      assert HasPt(t, p);
    }
  }

  /** Once its last page is cleared, a PT can leave the tree, and all its cells are zero. */
  lemma DropLeafKeepsShape(t: Tree, b: Block)
    requires Shape(t) && b in t.leaves && forall p | p in t.view :: p.block != b
    ensures Shape(DropLeaf(t, b)) && Unowned(DropLeaf(t, b), t.leaves[b]) && Blank(DropLeaf(t, b), t.leaves[b])
  {
    DropLeafKeepsOwned(t, b);
    DropLeafBlocks(t, b);
    DropLeafPages(t, b);
    hide Owned, TableEntry, HasPt, HasPd0, PageOk, BlockOk;
  }

  lemma DropLeafBlocks(t: Tree, b: Block)
    requires Shape(t) && b in t.leaves
    ensures var u := DropLeaf(t, b); forall d | HasPd0(u, d) :: BlockOk(u, d)
  {
    var u := DropLeaf(t, b);
    assert HasPd0(t, b);
    BlockCell(t, b);
    hide Owned, TableEntry;
    forall d | HasPd0(u, d)
      ensures BlockOk(u, d)
    {
      assert HasPd0(t, d) && BlockOk(t, d);
      if d != b {
        DistinctBlocks(t, b, d);
      }
    }
  }

  lemma LeafIsTable(t: Tree, b: Block)
    requires Shape(t) && b in t.leaves
    ensures HasPd0(t, b) && IsTable(t.leaves[b]) && |t.mem| == POOL_END && 0 <= Pd0Cell(t.dirs, b) < POOL_END
  {
    assert HasPd0(t, b);
    BlockCell(t, b);
  }

  lemma PageIsOk(t: Tree, p: Page)
    requires Shape(t) && HasPt(t, p)
    ensures |t.mem| == POOL_END && PageOk(t, p)
  {
  }

  lemma DropLeafPages(t: Tree, b: Block)
    requires Shape(t) && b in t.leaves && forall p | p in t.view :: p.block != b
    ensures var u := DropLeaf(t, b); (forall p | HasPt(u, p) :: PageOk(u, p)) && Blank(u, t.leaves[b])
  {
    hide Owned, Filled, TableEntry, Present, Flagged, FrameOf;
    var u := DropLeaf(t, b);
    var x := t.leaves[b];
    LeafIsTable(t, b);
    forall p | HasPt(t, p)
      ensures PageOk(t, p) && u.mem[PtCell(t.leaves, p)] == t.mem[PtCell(t.leaves, p)]
    {
      PageIsOk(t, p);
      DistinctLevels(t, p, b);
    }
    forall p | HasPt(u, p)
      ensures PageOk(u, p)
    {
      assert HasPt(t, p) && PageOk(t, p);
    }
    forall c | x <= c < x + 512
      ensures u.mem[c] == ZERO
    {
      assert HasPt(t, Page(b, c - x));
    }
  }

  lemma DropDirKeepsOwned(t: Tree, s: int)
    requires Owned(t) && |t.mem| == POOL_END && s in t.dirs && 0 <= s < 1024
    requires forall b | b in t.leaves :: b.slot != s
    ensures Owned(DropDir(t, s)) && Unowned(DropDir(t, s), t.dirs[s])
  {
    hide Filled;
    var u := DropDir(t, s);
    forall b | b in u.leaves
      ensures HasPd0(u, b)
    {
      assert HasPd0(t, b);
    }
    forall p | p in u.view
      ensures HasPt(u, p)
    {
      assert HasPt(t, p);
    }
  }

  /** Once its last PT is gone, a PD0 can leave the tree, and all its cells are zero. */
  lemma DropDirKeepsShape(t: Tree, s: int)
    requires Shape(t) && s in t.dirs && 0 <= s < 1024 && forall b | b in t.leaves :: b.slot != s
    ensures Shape(DropDir(t, s)) && Unowned(DropDir(t, s), t.dirs[s]) && Blank(DropDir(t, s), t.dirs[s])
  {
    hide TableEntry, Present, Flagged, FrameOf;
    var u := DropDir(t, s);
    var x := t.dirs[s];
    DropDirKeepsOwned(t, s);
    hide Owned;
    forall b | HasPd0(u, b)
      ensures BlockOk(u, b)
    {
      assert HasPd0(t, b) && BlockOk(t, b);
    }
    forall p | HasPt(u, p)
      ensures PageOk(u, p)
    {
      assert HasPt(t, p) && PageOk(t, p);
    }
    forall c | x <= c < x + 512
      ensures u.mem[c] == ZERO
    {
      var b := Block(s, c - x);
      assert HasPd0(t, b) && BlockOk(t, b);
    }
  }

  // ---------------------------------------------------------------- occupancy

  /** The indices of the blocks of slot s that have a PT. */
  ghost function BlocksOf(leaves: map<Block, int>, s: int): set<int> {
    set i | 0 <= i < 512 && Block(s, i) in leaves
  }

  /** The indices of the mapped pages of block b. */
  ghost function PagesOf(view: map<Page, int>, b: Block): set<int> {
    set i | 0 <= i < 512 && Page(b, i) in view
  }

  lemma BlockAdded(leaves: map<Block, int>, b: Block, x: int)
    requires b !in leaves && 0 <= b.index < 512
    ensures |BlocksOf(leaves[b := x], b.slot)| == |BlocksOf(leaves, b.slot)| + 1 <= 512
    ensures forall s | s != b.slot :: BlocksOf(leaves[b := x], s) == BlocksOf(leaves, s)
  {
    assert BlocksOf(leaves[b := x], b.slot) == BlocksOf(leaves, b.slot) + {b.index};
    AtMost512(BlocksOf(leaves[b := x], b.slot));
  }

  lemma PageAdded(view: map<Page, int>, p: Page, x: int)
    requires p !in view && 0 <= p.index < 512
    ensures |PagesOf(view[p := x], p.block)| == |PagesOf(view, p.block)| + 1 <= 512
    ensures forall b | b != p.block :: PagesOf(view[p := x], b) == PagesOf(view, b)
  {
    assert PagesOf(view[p := x], p.block) == PagesOf(view, p.block) + {p.index};
    AtMost512(PagesOf(view[p := x], p.block));
  }

  lemma BlockRemoved(leaves: map<Block, int>, b: Block)
    requires b in leaves && 0 <= b.index < 512
    ensures |BlocksOf(leaves - {b}, b.slot)| == |BlocksOf(leaves, b.slot)| - 1
    ensures forall s | s != b.slot :: BlocksOf(leaves - {b}, s) == BlocksOf(leaves, s)
  {
    assert BlocksOf(leaves - {b}, b.slot) == BlocksOf(leaves, b.slot) - {b.index};
    assert b.index in BlocksOf(leaves, b.slot);
  }

  lemma PageRemoved(view: map<Page, int>, p: Page)
    requires p in view && 0 <= p.index < 512
    ensures |PagesOf(view - {p}, p.block)| == |PagesOf(view, p.block)| - 1
    ensures forall b | b != p.block :: PagesOf(view - {p}, b) == PagesOf(view, b)
  {
    assert PagesOf(view - {p}, p.block) == PagesOf(view, p.block) - {p.index};
    assert p.index in PagesOf(view, p.block);
  }

  lemma NoneLeft(t: Tree)
    requires Owned(t)
    ensures forall b | |PagesOf(t.view, b)| == 0 :: forall p | p in t.view :: p.block != b
    ensures forall s | |BlocksOf(t.leaves, s)| == 0 :: forall b | b in t.leaves :: b.slot != s
  {
    forall p | p in t.view
      ensures |PagesOf(t.view, p.block)| > 0
    {
      assert HasPt(t, p) && p.index in PagesOf(t.view, p.block);
    }
    forall b | b in t.leaves
      ensures |BlocksOf(t.leaves, b.slot)| > 0
    {
      assert HasPd0(t, b) && b.index in BlocksOf(t.leaves, b.slot);
    }
  }

  lemma AtMost512(s: set<int>)
    requires forall i | i in s :: 0 <= i < 512
    ensures |s| <= 512
  {
    InRange(s, 512);
  }

  lemma {:induction false} InRange(s: set<int>, n: nat)
    requires forall i | i in s :: 0 <= i < n
    ensures |s| <= n
  {
    if n == 0 {
      assert forall i :: i !in s;
      assert s == {};
    } else {
      InRange(s - {n - 1}, n - 1);
    }
  }

  function At(x: int, i: int): int {
    x + i
  }

  /** The occupancy of a PT counts what is in memory: its non-zero cells. */
  lemma PagesArePresentCells(t: Tree, b: Block)
    requires Shape(t) && b in t.leaves
    ensures PagesOf(t.view, b) == set i | 0 <= i < 512 && t.mem[At(t.leaves[b], i)] != ZERO
  {
    hide TableEntry, Present, Flagged, FrameOf;
    forall i | 0 <= i < 512
      ensures Page(b, i) in t.view <==> t.mem[At(t.leaves[b], i)] != ZERO
    {
      assert HasPt(t, Page(b, i)) && PageOk(t, Page(b, i));
    }
  }

  /** So does the occupancy of a PD0. */
  lemma BlocksArePresentCells(t: Tree, s: int)
    requires Shape(t) && s in t.dirs
    ensures BlocksOf(t.leaves, s) == set i | 0 <= i < 512 && t.mem[At(t.dirs[s], i)] != ZERO
  {
    forall i | 0 <= i < 512
      ensures Block(s, i) in t.leaves <==> t.mem[At(t.dirs[s], i)] != ZERO
    {
      assert HasPd0(t, Block(s, i)) && BlockOk(t, Block(s, i));
      if Block(s, i) in t.leaves {
        TableEntryPoints(t.leaves[Block(s, i)], true);
      }
    }
  }
}
