/** The 32-bit VA / 40-bit PA build of the MMU: one master table (MTLB) of 1024 entries, each
    pointing at a slave table (STLB) of 1024 page entries, all slave tables in one array. */
module TwoLevel {
  import opened Common
  import opened RunLists
  import opened Regions

  const WORD := 0x1_0000_0000
  const PAGES := 0x10_0000
  const QUARTER := 0x4_0000

  // ---------------------------------------------------------------- entries

  /** The page entry MMUMemNodeMap writes: address bits 31..12, address bits 39..32 at bit 4,
      the writable and the present bit. The fields are disjoint, so `|` is `+`. */
  function PageEntry(address: int): (entry: int)
    requires 0 <= address
  {
    (address % WORD - address % PAGE_SIZE) + (address / WORD % 256) * 16 + 4 + 1
  }

  /** What the hardware reads out of a present page entry. */
  function FrameOf(entry: int): int {
    (entry - entry % PAGE_SIZE) + (entry / 16 % 256) * WORD
  }

  /** The page frame of a 40-bit physical address. */
  function Frame(address: int): int {
    address % 0x100_0000_0000 - address % PAGE_SIZE
  }

  /** The word, bit field by bit field: bits 31..12 and 39..32 of the address, and the flags present
      and writable; the frame is recovered from it. */
  lemma EntryHoldsFrame(address: int)
    requires 0 <= address
    ensures FrameOf(PageEntry(address)) == Frame(address) && 0 <= PageEntry(address) < WORD
    ensures PageEntry(address) / 4096 == address / 4096 % 0x10_0000
    ensures PageEntry(address) / 16 % 256 == address / 0x1_0000_0000 % 256
    ensures PageEntry(address) % 16 == 5 && PageEntry(address) % 2 == 1
  {
    var off, page, top := address % PAGE_SIZE, address / PAGE_SIZE % PAGES, address / PAGE_SIZE / PAGES;
    var low := page * PAGE_SIZE + off;
    Divides(address, WORD, top, low);
    Divides(address, 0x100_0000_0000, top / 256, top % 256 * WORD + low);
    var entry := page * PAGE_SIZE + top % 256 * 16 + 5;
    assert PageEntry(address) == entry;
    EntryFields(entry, page, top % 256);
  }

  lemma EntryFields(entry: int, page: int, ext: int)
    requires 0 <= ext < 256 && 0 <= page < PAGES && entry == page * PAGE_SIZE + ext * 16 + 5
    ensures entry / PAGE_SIZE == page && entry / 16 % 256 == ext && entry % 16 == 5 && entry % 2 == 1
    ensures FrameOf(entry) == ext * WORD + page * PAGE_SIZE && 0 <= entry < WORD
  {
    Divides(entry, PAGE_SIZE, page, ext * 16 + 5);
    Divides(entry, 16, page * 256 + ext, 5);
    Divides(page * 256 + ext, 256, page, ext);
    Divides(entry, 2, page * 2048 + ext * 8 + 2, 1);
  }

  /** The frame of an address is the page that its low 40 bits are in. */
  lemma FrameIsPage(address: int)
    requires 0 <= address
    ensures Frame(address) % 4096 == 0 && Frame(address) <= address % 0x100_0000_0000 < Frame(address) + 4096
  {
    var p, t := address / PAGE_SIZE, address / 0x100_0000_0000;
    assert address % 0x100_0000_0000 == address - t * 0x100_0000_0000;
    assert Frame(address) == PAGE_SIZE * (p - t * 0x1000_0000);
  }

  /** Bit 2 of a page entry lets the device write. */
  predicate Writable(entry: int) {
    entry / 4 % 2 == 1
  }

  lemma FlagsMean(entry: int)
    requires entry % 16 == 5
    ensures Writable(entry)
  {
    var k := entry / 16;
    Divides(entry, 4, 4 * k + 1, 1);
    Divides(4 * k + 1, 2, 2 * k, 1);
  }

  /** SetupDynamicSpace: the master entry for the slave table at `address`. */
  function MasterEntry(address: int): int {
    address % WORD + (if address % 2 == 0 then 1 else 0)
  }

  lemma MasterDecodes(stlbPhysical: int, i: int, master: int)
    requires stlbPhysical % PAGE_SIZE == 0 && master == stlbPhysical + i * PAGE_SIZE + 1
    ensures master % 2 == 1 && (master - master % 64 - stlbPhysical) / 4 == i * 1024
  {
    var k := stlbPhysical / PAGE_SIZE + i;
    assert master == 64 * (64 * k) + 1;
    assert master % 64 == 1;
  }

  // ---------------------------------------------------------------- the tables

  /** `after` is `before` with the n pages from start on mapped to the frames of the buffer. */
  ghost predicate Extends(before: map<int, int>, after: map<int, int>, start: int, n: int, buffer: int,
                          lookup: int -> nat)
  {
    && (forall v :: v in after <==> v in before || start <= v < start + n)
    && forall v | v in after ::
         after[v] == if start <= v < start + n then FrameAt(start, buffer, lookup, v) else before[v]
  }

  lemma ExtendsByOne(before: map<int, int>, was: map<int, int>, now: map<int, int>, start: int, n: int,
                     buffer: int, lookup: int -> nat)
    requires 0 <= n && Extends(before, was, start, n, buffer, lookup)
    requires now == was[start + n := Frame(lookup(buffer + n * PAGE_SIZE))]
    ensures Extends(before, now, start, n + 1, buffer, lookup)
  {
  }

  /** `after` is `before` without the pages [a, b). */
  ghost predicate Removes(before: map<int, int>, after: map<int, int>, a: int, b: int)
  {
    && (forall v :: v in after <==> v in before && !(a <= v < b))
    && (forall v | v in after :: after[v] == before[v])
  }

  lemma RemovesUndoesExtends(before: map<int, int>, mid: map<int, int>, after: map<int, int>, start: int, n: int,
                             buffer: int, lookup: int -> nat)
    requires Extends(before, mid, start, n, buffer, lookup) && Removes(mid, after, start, start + n)
    requires forall v | start <= v < start + n :: v !in before
    ensures after == before
  {
    forall v
      ensures v in after <==> v in before
      ensures v in before ==> after[v] == before[v]
    {
      assert v in mid <==> v in before || start <= v < start + n;
      assert v in after ==> after[v] == mid[v];
    }
  }

  /** The frame of page v when the buffer is mapped from page start on; `lookup` stands for
      GetPhysicalAddress. */
  function FrameAt(start: int, buffer: int, lookup: int -> nat, v: int): int {
    Frame(lookup(buffer + (v - start) * PAGE_SIZE))
  }

  /** `view` is the meaning of the tables: the partial map from pages to frames. */
  class PageTable {
    const mtlb: array<int>
    const stlb: array<int>
    const stlbPhysical: int
    ghost var view: map<int, int>

    ghost predicate Valid()
      reads this, mtlb, stlb
    {
      && mtlb.Length == 1024 && stlb.Length == PAGES && mtlb != stlb
      && 0 <= stlbPhysical && stlbPhysical % PAGE_SIZE == 0 && stlbPhysical + 4 * PAGES <= WORD
      && (forall i | 0 <= i < 1024 :: mtlb[i] == stlbPhysical + i * PAGE_SIZE + 1)
      && (forall v | v in view :: 0 <= v < PAGES)
      && forall v | 0 <= v < PAGES ::
           if v in view then stlb[v] % 2 == 1 && stlb[v] % 16 == 5 && FrameOf(stlb[v]) == view[v] else stlb[v] == 0
    }

    /** MMUEnable and SetupDynamicSpace: zeroed slave tables, a filled master table. */
    constructor (stlbPhysical: int)
      requires 0 <= stlbPhysical && stlbPhysical % PAGE_SIZE == 0 && stlbPhysical + 4 * PAGES <= WORD
      ensures Valid() && fresh(mtlb) && fresh(stlb) && view == map[]
    {
      this.stlbPhysical := stlbPhysical;
      mtlb := new int[1024];
      stlb := new int[PAGES](_ => 0);
      view := map[];
      new;
      var address := stlbPhysical;
      for i := 0 to 1024
        invariant address == stlbPhysical + i * PAGE_SIZE
        invariant view == map[] && forall k | 0 <= k < PAGES :: stlb[k] == 0
        invariant forall k | 0 <= k < i :: mtlb[k] == stlbPhysical + k * PAGE_SIZE + 1
      {
        mtlb[i] := MasterEntry(address);
        address := address + PAGE_SIZE;
      }
    }

    /** The word that the hardware comes to for page v: the master entry names a slave table in
        physical memory. */
    ghost function Path(v: int): Option<int>
      requires Valid() && 0 <= v < PAGES
      reads this, mtlb, stlb
    {
      var master := mtlb[v / 1024];
      var word := (master - master % 64 - stlbPhysical) / 4 + v % 1024;
      if master % 2 == 0 || word < 0 || PAGES <= word then None else Some(word)
    }

    /** The frame that it finds there. */
    ghost function Walk(v: int): Option<int>
      requires Valid() && 0 <= v < PAGES
      reads this, mtlb, stlb
    {
      match Path(v)
      case None => None
      case Some(word) => if 0 <= word < PAGES && stlb[word] % 2 == 1 then Some(FrameOf(stlb[word])) else None
    }

    /** And whether it lets the device write. */
    ghost predicate MayWrite(v: int)
      requires Valid() && 0 <= v < PAGES
      reads this, mtlb, stlb
    {
      match Path(v)
      case None => false
      case Some(word) => 0 <= word < PAGES && Writable(stlb[word])
    }

    /** In every valid state the hardware finds what the abstract map says, and nothing else, and
        what is mapped can be written. */
    lemma WalkRefinesView(v: int)
      requires Valid() && 0 <= v < PAGES
      ensures Walk(v) == Lookup(view, v) && (v in view ==> MayWrite(v))
    {
      hide FrameOf, Writable;
      MasterDecodes(stlbPhysical, v / 1024, mtlb[v / 1024]);
      if v in view {
        FlagsMean(stlb[v]);
      }
    }

    /** GetPageEntry: the slave-table word of page `start + i`. */
    method GetPageEntry(start: int, i: int) returns (entry: int)
      requires 0 <= start < PAGES
      ensures entry == start + i
    {
      var master, slave := start / 1024 % 1024, start % 1024;
      entry := master * 1024 + slave + i;
    }

    /** WritePageEntry with the entry for `address`. */
    method WriteEntry(entry: int, address: nat)
      requires Valid() && 0 <= entry < PAGES
      modifies this, stlb
      ensures Valid() && view == old(view)[entry := Frame(address)]
    {
      EntryHoldsFrame(address);
      stlb[entry] := PageEntry(address);
      view := view[entry := Frame(address)];
    }

    /** WritePageEntry with zero. */
    method ClearEntry(entry: int)
      requires Valid() && 0 <= entry < PAGES
      modifies this, stlb
      ensures Valid() && view == old(view) - {entry}
    {
      stlb[entry] := 0;
      view := view - {entry};
    }

    /** The mapping loop of MMUMemNodeMap. */
    method MapPages(start: int, n: int, buffer: int, lookup: int -> nat)
      requires Valid() && 0 <= start && 0 <= n && start + n <= PAGES
      modifies this, stlb
      ensures Valid() && Extends(old(view), view, start, n, buffer, lookup)
    {
      for i := 0 to n
        invariant Valid() && Extends(old(view), view, start, i, buffer, lookup)
      {
        var entry := GetPageEntry(start, i);
        ghost var was := view;
        WriteEntry(entry, lookup(buffer + i * PAGE_SIZE));
        ExtendsByOne(old(view), was, view, start, i, buffer, lookup);
      }
    }

    /** The clearing loop of MMUMemNodeUnmap. */
    method ClearPages(start: int, n: int)
      requires Valid() && 0 <= start && 0 <= n && start + n <= PAGES
      modifies this, stlb
      ensures Valid() && Removes(old(view), view, start, start + n)
    {
      for i := 0 to n
        invariant Valid() && Removes(old(view), view, start, start + i)
      {
        var entry := GetPageEntry(start, i);
        ClearEntry(entry);
      }
    }
  }

  // ---------------------------------------------------------------- the driver

  datatype MapResult = Mapped(bus: int) | NoSpace

  /** Region lists and page table of one process: the pages the hardware translates are
      exactly the pages of the buffers in the map lists. */
  class Mmu {
    const space: AddressSpace
    const table: PageTable

    ghost predicate Valid()
      reads this, space, space.region, table, table.mtlb, table.stlb
    {
      && space.Valid() && space.q == QUARTER && table.Valid()
      && forall v :: v in table.view <==> space.Live(v)
    }

    constructor (stlbPhysical: int, leftover: seq<Buffer>)
      requires 0 <= stlbPhysical && stlbPhysical % PAGE_SIZE == 0 && stlbPhysical + 4 * PAGES <= WORD && |leftover| == 4
      ensures Valid() && table.view == map[]
      ensures forall e | 0 <= e < 4 ::
                var first, end := FirstPage(e, QUARTER), EndPage(e, QUARTER);
                space.region[e].used == [] && space.region[e].free == [Run(first, end, end - first, leftover[e])]
      ensures fresh(space) && fresh(space.region) && fresh(table) && fresh(table.mtlb) && fresh(table.stlb)
    {
      space := new AddressSpace(QUARTER, leftover);
      table := new PageTable(stlbPhysical);
    }

    /** MMUMemNodeMap: `start` is the first page of the run that the buffer gets. */
    method MemNodeMap(buffer: int, size: int, pid: int, lookup: int -> nat) returns (r: MapResult, ghost start: int)
      requires Valid() && 0 <= size < WORD
      modifies space`claims, space.region, table, table.stlb
      ensures Valid()
      ensures var e := MapRegion(lookup(buffer), size, QUARTER); var n := PageCount(size);
              && (r == NoSpace <==> !exists a :: old(FreeRun(space.region[e].free, a, n)))
              && (r.Mapped? ==>
                    && r.bus == start * PAGE_SIZE && Placed(old(space.region[e].free), old(space.region[e].used),
                              space.region[e].free, space.region[e].used, start, n, Virtual(buffer, pid))
                    && FirstPage(e, QUARTER) <= start && start + n <= EndPage(e, QUARTER)
                    && (forall v | start <= v < start + n ::
                          && v !in old(table.view) && v in table.view
                          && table.view[v] == Frame(lookup(buffer + (v - start) * PAGE_SIZE)))
                    && Extends(old(table.view), table.view, start, n, buffer, lookup)
                    && space.claims == old(space.claims)[start := Virtual(buffer, pid)]
                    && (forall f | 0 <= f < 4 && f != e :: unchanged(space.region[f])))
      ensures r == NoSpace ==> unchanged(space) && unchanged(space.region) && unchanged(table) && unchanged(table.stlb)
    {
      hide PageTable.Valid, AddressSpace.Live, MapRegion, PageCount, FreeRun, Frame;
      var n := PageCount(size);
      var e := MapRegion(lookup(buffer), size, QUARTER);
      var ok, first := space.Reserve(e, n, Virtual(buffer, pid));
      start := first;
      if !ok {
        return NoSpace, start;
      }
      table.MapPages(first, n, buffer, lookup);
      r := Mapped(first * PAGE_SIZE % 0x100_0000_0000);
    }

    /** MMUMemNodeUnmap; false stands for the error status. */
    method MemNodeUnmap(buffer: int, pid: int, lookup: int -> nat) returns (ok: bool)
      requires Valid()
      modifies space`claims, space.region, table, table.stlb
      ensures Valid()
      ensures var e := UnmapRegion(lookup(buffer), QUARTER); var used := old(space.region[e].used);
              var k := FirstOf(used, Virtual(buffer, pid));
              && ok == (k < |used|)
              && (FindsOwn(used, old(space.claims), Virtual(buffer, pid))
                  <==> FirstIsOwnSide(used, old(space.claims), Virtual(buffer, pid)))
              && (OnlySide(used, old(space.claims), Virtual(buffer, pid)) ==>
                    (ok <==> HasClaim(used, old(space.claims), Virtual(buffer, pid))))
              && (ok ==>
                    && space.region[e].used == Without(used, k)
                    && space.claims == old(space.claims) - {used[k].start}
                    && Inserted(old(space.region[e].free), used[k], space.region[e].free)
                    && Removes(old(table.view), table.view, used[k].start, used[k].end)
                    && (forall v | In(used[k], v) :: v in old(table.view))
                    && (forall f | 0 <= f < 4 && f != e :: unchanged(space.region[f])))
              && (!ok ==> unchanged(space) && unchanged(space.region) && unchanged(table) && unchanged(table.stlb))
    {
      hide PageTable.Valid, AddressSpace.Live, UnmapRegion, FirstOf, Covers, Inserted, FindsOwn, FirstIsOwnSide,
           OnlySide, HasClaim, Claimed;
      var b := Virtual(buffer, pid);
      var e := UnmapRegion(lookup(buffer), QUARTER);
      var k := space.FindUsed(e, b);
      var used := space.region[e].used;
      SearchIsRight(used, space.claims, b);
      if k == |used| {
        return false;
      }
      var p := used[k];
      RunIsMapped(e, k);
      table.ClearPages(p.start, p.count);
      space.RemoveNode(e, b);
      return true;
    }

    lemma FourRegions()
      requires Valid()
      ensures |space.region| == 4 && forall i, j | 0 <= i < j < 4 :: space.region[i] != space.region[j]
    {
    }

    // -------------------------------------------------------------- kernel buffers

    /** MMUKernelMemNodeMap: a physically contiguous buffer, claimed by its bus address. */
    method KernelMemNodeMap(bus: nat, size: int, pid: int) returns (r: MapResult, ghost start: int)
      requires Valid() && 0 <= size < WORD
      modifies space`claims, space.region, table, table.stlb
      ensures Valid()
      ensures var e := MapRegion(bus, size, QUARTER); var n := PageCount(size);
              && (r == NoSpace <==> !exists a :: old(FreeRun(space.region[e].free, a, n)))
              && (r.Mapped? ==>
                    && r.bus == start * PAGE_SIZE && Placed(old(space.region[e].free), old(space.region[e].used),
                              space.region[e].free, space.region[e].used, start, n, Bus(bus, pid, pid))
                    && FirstPage(e, QUARTER) <= start && start + n <= EndPage(e, QUARTER)
                    && (forall v | start <= v < start + n ::
                          && v !in old(table.view) && v in table.view
                          && table.view[v] == Frame(bus + (v - start) * PAGE_SIZE))
                    && Extends(old(table.view), table.view, start, n, bus, Contiguous)
                    && space.claims == old(space.claims)[start := Bus(bus, pid, pid)]
                    && (forall f | 0 <= f < 4 && f != e :: unchanged(space.region[f])))
      ensures r == NoSpace ==> unchanged(space) && unchanged(space.region) && unchanged(table) && unchanged(table.stlb)
    {
      hide PageTable.Valid, AddressSpace.Live, MapRegion, PageCount, FreeRun, Frame;
      var n := PageCount(size);
      var e := MapRegion(bus, size, QUARTER);
      var ok, first := space.Reserve(e, n, Bus(bus, pid, pid));
      start := first;
      if !ok {
        return NoSpace, start;
      }
      table.MapPages(first, n, bus, Contiguous);
      r := Mapped(first * PAGE_SIZE % 0x100_0000_0000);
    }

    /** MMUKernelMemNodeUnmap: the node is found by the whole bus address, but returned by its low
        32 bits. The translation and the map lists agree afterwards if and only if the bus
        address fits 32 bits; otherwise the pages cleared stay reserved. */
    method KernelMemNodeUnmap(bus: nat, pid: int, init: int) returns (ok: bool)
      requires Valid()
      modifies space`claims, space.region, table, table.stlb
      ensures space.Valid() && table.Valid() && (Valid() <==> !ok || bus < WORD)
      ensures var e := UnmapRegion(bus, QUARTER); var used := old(space.region[e].used);
              var k := FirstOf(used, Bus(bus, pid, init)); var j := FirstOf(used, Bus(bus % WORD, pid, init));
              && ok == (k < |used|)
              && (FindsOwn(used, old(space.claims), Bus(bus, pid, init))
                  <==> FirstIsOwnSide(used, old(space.claims), Bus(bus, pid, init)))
              && (OnlySide(used, old(space.claims), Bus(bus, pid, init)) ==>
                    (ok <==> HasClaim(used, old(space.claims), Bus(bus, pid, init))))
              && (ok ==>
                    && Removes(old(table.view), table.view, used[k].start, used[k].end)
                    && (forall v | In(used[k], v) :: v in old(table.view))
                    && (bus < WORD ==> j == k)
                    && space.region[e].used == (if j < |used| then Without(used, j) else used)
                    && space.claims == old(space.claims) - (if j < |used| then {used[j].start} else {})
                    && (forall f | 0 <= f < 4 && f != e :: unchanged(space.region[f])))
              && (!ok ==> unchanged(space) && unchanged(space.region) && unchanged(table) && unchanged(table.stlb))
    {
      hide PageTable.Valid, AddressSpace.Live, UnmapRegion, FirstOf, Covers, Inserted, Matches, FindsOwn,
           FirstIsOwnSide, OnlySide, HasClaim, Claimed;
      var e := UnmapRegion(bus, QUARTER);
      var k := space.FindUsed(e, Bus(bus, pid, init));
      var used := space.region[e].used;
      SearchIsRight(used, space.claims, Bus(bus, pid, init));
      if k == |used| {
        return false;
      }
      var p := used[k];
      RunIsMapped(e, k);
      table.ClearPages(p.start, p.count);
      space.RemoveNode(e, Bus(bus % WORD, pid, init));
      OnlyLowKeys(used, bus, pid, init);
      if WORD <= bus {
        StillLive(e, k, used, FirstOf(used, Bus(bus % WORD, pid, init)));
      }
      return true;
    }

    /** The run k that was cleared is still in the list when another one was returned. */
    lemma StillLive(e: int, k: int, used: seq<Run<Buffer>>, j: int)
      requires space.Valid() && 0 <= e < 4 && 0 <= k < |used| && 0 <= j <= |used| && j != k
      requires Sized(used, FirstPage(e, space.q), EndPage(e, space.q)) && Apart(used)
      requires space.region[e].used == if j < |used| then Without(used, j) else used
      ensures space.Live(used[k].start) && In(used[k], used[k].start)
    {
      var v := used[k].start;
      assert Fits(used[k], FirstPage(e, space.q), EndPage(e, space.q)) && In(used[k], v) && Covers(used, v);
      if j < |used| {
        CoversWithout(used, j, v);
      }
      space.Extent(e, v);
    }

    lemma RunIsMapped(e: int, k: int)
      requires Valid() && 0 <= e < 4 && 0 <= k < |space.region[e].used|
      ensures var p := space.region[e].used[k];
              && 0 <= p.start && 1 <= p.count && p.end == p.start + p.count <= PAGES
              && forall v | In(p, v) :: v in table.view
    {
    }

    /** Unmapping undoes mapping if and only if the buffer stays inside its quarter: translation, map
        lists and the nodes of every free list are then what they were; otherwise the pages of
        the buffer stay mapped, because unmap looks in another region. */
    method MapThenUnmap(buffer: int, size: int, pid: int, lookup: int -> nat) returns (r: MapResult)
      requires Valid() && 0 <= size < WORD
      modifies space`claims, space.region, table, table.stlb
      ensures Valid() && (table.view == old(table.view) <==> r == NoSpace || StaysInside(lookup(buffer), size, QUARTER))
      ensures r == NoSpace || StaysInside(lookup(buffer), size, QUARTER) ==>
                && (forall e | 0 <= e < 4 :: space.region[e].used == old(space.region[e].used))
                && (forall e, a, b | 0 <= e < 4 ::
                      HasNode(space.region[e].free, a, b) <==> old(HasNode(space.region[e].free, a, b)))
    {
      hide PageTable.Valid, NodeLists.Valid, AddressSpace.Live, MapRegion, UnmapRegion, PageCount, StaysInside,
           FreeList, Covers, Carve, FirstFit, Inserted, Extends, Removes, HasNode, Frame, FindsOwn, FirstIsOwnSide,
           OnlySide, HasClaim, Claimed;
      ghost var start;
      RegionsAgree(lookup(buffer), size, QUARTER);
      var e := MapRegion(lookup(buffer), size, QUARTER);
      ghost var free, used := space.region[e].free, space.region[e].used;
      ghost var before := table.view;
      space.Partition(e);
      r, start := MemNodeMap(buffer, size, pid, lookup);
      if r.Mapped? {
        ghost var mid := table.view;
        FoundAtOnce(space.region[e].used, Virtual(buffer, pid));
        var ok := MemNodeUnmap(buffer, pid, lookup);
        if StaysInside(lookup(buffer), size, QUARTER) {
          assert space.region[e].used == used;
          space.Partition(e);
          UsedDeterminesFree(free, space.region[e].free, used, FirstPage(e, QUARTER), EndPage(e, QUARTER));
          RemovesUndoesExtends(before, mid, table.view, start, PageCount(size), buffer, lookup);
        } else {
          RunIsMapped(e, 0);
          assert In(space.region[e].used[0], start);
        }
      }
    }
  }

  /** Physical addresses of a contiguous buffer. */
  function Contiguous(address: int): nat {
    if address < 0 then 0 else address
  }

  /** The low 32 bits find the same node only when they are the whole address. */
  lemma OnlyLowKeys(used: seq<Run<Buffer>>, bus: nat, pid: int, init: int)
    ensures var k := FirstOf(used, Bus(bus, pid, init)); var j := FirstOf(used, Bus(bus % WORD, pid, init));
            if bus < WORD then j == k else k < |used| ==> j != k
  {
    hide FirstOf;
    if bus < WORD {
      assert bus % WORD == bus;
    } else {
      assert bus % WORD < bus;
    }
  }

  /** The lowest kernel buffer for which that goes wrong: one page at 4 GB is mapped and unmapped.
      Its page is not translated any more, but stays reserved. */
  method HighBus(stlbPhysical: int, leftover: seq<Buffer>, pid: int, init: int)
    returns (mmu: Mmu, kernel: MapResult, ok: bool)
    requires 0 <= stlbPhysical && stlbPhysical % PAGE_SIZE == 0 && stlbPhysical + 4 * PAGES <= WORD && |leftover| == 4
    ensures kernel.Mapped? && ok && !mmu.Valid()
    ensures mmu.space.Valid() && mmu.space.Live(1) && 1 !in mmu.table.view
  {
    hide PageTable.Valid, AddressSpace.Valid, Mmu.Valid, AddressSpace.Live, MapRegion, UnmapRegion, PageCount, Placed,
         FreeRun, Extends, Removes, Inserted, FirstOf, Matches, Claim, Frame, FirstPage, EndPage;
    RegionOfHighBus();
    mmu := new Mmu(stlbPhysical, leftover);
    mmu.FourRegions();
    ghost var start, p := 0, Run(1, QUARTER, QUARTER - 1, leftover[0]);
    OnlyNodeIsFree(p, 1);
    kernel, start := mmu.KernelMemNodeMap(WORD, 1, pid);
    FromOnlyNode(p, mmu.space.region[0].free, mmu.space.region[0].used, start, 1, Bus(WORD, pid, pid));
    p := mmu.space.region[0].used[0];
    FoundByWholeAddress(p, leftover[0], pid, init);
    ghost var view := mmu.table.view;
    ok := mmu.KernelMemNodeUnmap(WORD, pid, init);
    NotTranslated(view, mmu.table.view, p);
    mmu.space.FirstIsLive(p);
  }

  lemma RegionOfHighBus()
    ensures MapRegion(WORD, 1, QUARTER) == 0 && UnmapRegion(WORD, QUARTER) == 0 && PageCount(1) == 1
    ensures FirstPage(0, QUARTER) == 1 && EndPage(0, QUARTER) == QUARTER
  {
  }

  lemma FoundByWholeAddress(p: Run<Buffer>, b: Buffer, pid: int, init: int)
    requires p.tag == Claim(b, Bus(WORD, pid, pid))
    ensures FirstOf([p], Bus(WORD, pid, init)) == 0 && FirstOf([p], Bus(WORD % WORD, pid, init)) == 1
  {
  }

  lemma NotTranslated(before: map<int, int>, after: map<int, int>, p: Run<Buffer>)
    requires Removes(before, after, p.start, p.end) && p.start < p.end
    ensures p.start !in after
  {
  }

  // ---------------------------------------------------------------- keys that outlive their buffer

  lemma RegionIn(bus: int)
    requires 0 <= bus && bus + 1 < QUARTER * PAGE_SIZE
    ensures MapRegion(0, (QUARTER - 1) * PAGE_SIZE, QUARTER) == 0 && PageCount((QUARTER - 1) * PAGE_SIZE) == QUARTER - 1
    ensures UnmapRegion(0, QUARTER) == 0 && MapRegion(bus, 1, QUARTER) == 0 && PageCount(1) == 1
    ensures FirstPage(0, QUARTER) == 1 && EndPage(0, QUARTER) == QUARTER
  {
  }

  /** Taking n pages from the only free node p. */
  lemma FromOnlyNode(p: Run<Buffer>, nowFree: seq<Run<Buffer>>, nowUsed: seq<Run<Buffer>>, start: int, n: int, key: Key)
    requires Placed([p], [], nowFree, nowUsed, start, n, key) && p.end == p.start + p.count && 1 <= n <= p.count
    ensures start == p.start && nowUsed == [Run(start, start + n, n, Claim(p.tag, key))]
    ensures n == p.count ==> nowFree == []
  {
    assert Without([p], 0) == [];
  }

  lemma OnlyNodeIsFree(p: Run<Buffer>, n: int)
    requires p.end == p.start + p.count && 1 <= n <= p.count
    ensures FreeRun([p], p.start, n)
  {
    forall x | p.start <= x < p.start + n
      ensures Covers([p], x)
    {
      assert In([p][0], x);
    }
  }

  lemma OnlyRunLeaves(p: Run<Buffer>, key: Key, now: seq<Run<Buffer>>)
    requires Matches(p.tag, key)
    ensures FirstOf([p], key) == 0 && Without([p], 0) == [] && (Inserted([], p, now) ==> now == [p])
  {
  }

  /** The owner fields of a node outlive its buffer. A client maps the whole of region IN and
      unmaps it again; the kernel maps one page, and gets a node that still bears the client's
      address; the client's second unmap, of a buffer that is not mapped, then succeeds, and takes
      the mapping of the kernel away. */
  method StaleKey(stlbPhysical: int, leftover: seq<Buffer>, buffer: int, bus: nat, pid: int, lookup: int -> nat)
    returns (mmu: Mmu, mapped: MapResult, kernel: MapResult, again: bool, ghost claim: Key)
    requires 0 <= stlbPhysical && stlbPhysical % PAGE_SIZE == 0 && stlbPhysical + 4 * PAGES <= WORD && |leftover| == 4
    requires lookup(buffer) == 0 && bus + 1 < QUARTER * PAGE_SIZE
    ensures mapped.Mapped? && kernel.Mapped? && again
    ensures mmu.Valid() && mmu.space.region[0].used == [] && claim == Bus(bus, pid, pid)
  {
    hide PageTable.Valid, AddressSpace.Valid, Mmu.Valid, MapRegion, UnmapRegion, PageCount, Placed, FreeRun, Extends,
         Removes, Inserted, FirstOf, Matches, Claim, Frame, FirstPage, EndPage;
    RegionIn(bus);
    mmu := new Mmu(stlbPhysical, leftover);
    mmu.FourRegions();
    ghost var start, key := 0, Virtual(buffer, pid);
    ghost var p := Run(1, QUARTER, QUARTER - 1, leftover[0]);
    OnlyNodeIsFree(p, QUARTER - 1);
    mapped, start := mmu.MemNodeMap(buffer, (QUARTER - 1) * PAGE_SIZE, pid, lookup);
    FromOnlyNode(p, mmu.space.region[0].free, mmu.space.region[0].used, start, QUARTER - 1, key);
    p := mmu.space.region[0].used[0];
    again := mmu.MemNodeUnmap(buffer, pid, lookup);
    OnlyRunLeaves(p, key, mmu.space.region[0].free);
    OnlyNodeIsFree(p, 1);
    kernel, start := mmu.KernelMemNodeMap(bus, 1, pid);
    FromOnlyNode(p, mmu.space.region[0].free, mmu.space.region[0].used, start, 1, Bus(bus, pid, pid));
    KeepsAddress(p.tag, key, Bus(bus, pid, pid));
    p := mmu.space.region[0].used[0];
    OnlyRunLeaves(p, key, []);
    claim := mmu.space.claims[p.start];
    again := mmu.MemNodeUnmap(buffer, pid, lookup);
  }

  /** Claiming a node for the kernel leaves the client's address in it. */
  lemma KeepsAddress(b: Buffer, key: Key, bus: Key)
    requires Matches(b, key) && key.Virtual? && bus.Bus? && bus.pid == key.pid
    ensures Matches(Claim(b, bus), key)
  {
  }

  lemma FoundAtOnce(used: seq<Run<Buffer>>, key: Key)
    requires used != [] && Matches(used[0].tag, key)
    ensures FirstOf(used, key) == 0
  {
  }
}
