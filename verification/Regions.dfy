/** The four regions of the device address space: their extents (CreateNode), how a buffer
    is assigned to one of them, and how page runs are reserved and given back. */
module Regions {
  import opened RunLists

  const PAGE_SIZE := 4096

  /** The owner fields of a node: buf_virtual_address, buf_bus_address and process_id. They stay
      in a node when it goes back to the free list. */
  datatype Buffer = Buffer(virt: int, bus: int, pid: int)

  /** What a node is claimed and searched by: the virtual address of a client's buffer, or the bus
      address of a kernel buffer, which also matches the nodes of process `init`. */
  datatype Key = Virtual(address: int, pid: int) | Bus(address: int, pid: int, init: int)

  predicate Matches(b: Buffer, key: Key) {
    match key
    case Virtual(address, pid) => b.virt == address && b.pid == pid
    case Bus(address, pid, init) => b.bus == address && (b.pid == pid || b.pid == init)
  }

  /** The owner fields after a node is claimed: the other address is left as it was. */
  function Claim(b: Buffer, key: Key): (c: Buffer)
    ensures Matches(c, key)
    ensures key.Virtual? ==> c.virt == key.address && c.pid == key.pid && c.bus == b.bus
    ensures key.Bus? ==> c.bus == key.address && c.pid == key.pid && c.virt == b.virt
  {
    match key
    case Virtual(address, pid) => b.(virt := address, pid := pid)
    case Bus(address, pid, _) => b.(bus := address, pid := pid)
  }

  /** Calls of a client, or of the kernel, all of them. */
  predicate SameSide(a: Key, b: Key) {
    a.Virtual? == b.Virtual?
  }

  /** The claim is one that the key is meant to find. */
  predicate Answers(claim: Key, key: Key) {
    match key
    case Virtual(_, _) => claim == key
    case Bus(address, pid, init) => claim.Bus? && claim.address == address && (claim.pid == pid || claim.pid == init)
  }

  // ---------------------------------------------------------------- geometry

  /** First page of region e, when each region spans q pages. Page 0 is never handed out. */
  function FirstPage(e: int, q: int): int {
    if e == 0 then 1 else e * q
  }

  /** One past the last page of region e. The public region stops one page short of the end. */
  function EndPage(e: int, q: int): int {
    if e == 3 then 4 * q - 1 else (e + 1) * q
  }

  /** The region whose extent page v falls into. */
  function RegionOf(v: int, q: int): (e: int)
    ensures 0 <= e < 4
  {
    if v < q then 0 else if v < 2 * q then 1 else if v < 3 * q then 2 else 3
  }

  /** MMUMemNodeMap: the region for a buffer of `size` bytes at physical address a. */
  function MapRegion(a: int, size: int, q: int): (e: int)
    requires 0 < q
    ensures 0 <= e < 4
  {
    var bytes := q * PAGE_SIZE;
    var x := a % (4 * bytes);
    if 0 <= x && x + size < bytes then 0
    else if bytes <= x && x + size < 2 * bytes then 1
    else if 2 * bytes <= x && x + size < 3 * bytes then 2
    else 3
  }

  /** MMUMemNodeUnmap: the region searched for a buffer at physical address a. */
  function UnmapRegion(a: int, q: int): (e: int)
    requires 0 < q
    ensures 0 <= e < 4
  {
    var bytes := q * PAGE_SIZE;
    var x := a % (4 * bytes);
    if 0 <= x < bytes then 0
    else if bytes <= x < 2 * bytes then 1
    else if 2 * bytes <= x < 3 * bytes then 2
    else 3
  }

  /** Map chooses one of the first three regions exactly for a buffer that lies inside its quarter and
      ends before the end of it; unmap chooses the quarter that holds the address. */
  lemma QuarterChosen(a: int, size: int, q: int, e: int)
    requires 0 < q && 0 <= size && 0 <= e < 4
    ensures var x := a % (4 * q * 4096);
            && (e < 3 ==> (MapRegion(a, size, q) == e <==> e * q * 4096 <= x && x + size < (e + 1) * q * 4096))
            && (UnmapRegion(a, q) == e <==> e * q * 4096 <= x < (e + 1) * q * 4096)
  {
    var bytes := q * PAGE_SIZE;
    assert 4 * q * 4096 == 4 * bytes && e * q * 4096 == e * bytes && (e + 1) * q * 4096 == (e + 1) * bytes;
    assert 0 <= a % (4 * bytes) < 4 * bytes;
  }

  /** Where the quarter of the address space that holds x ends. */
  function QuarterEnd(x: int, bytes: int): int {
    if x < bytes then bytes else if x < 2 * bytes then 2 * bytes
    else if x < 3 * bytes then 3 * bytes else 4 * bytes
  }

  /** The buffer ends before the quarter it starts in, or starts in the last quarter. */
  predicate StaysInside(a: int, size: int, q: int)
    requires 0 < q
  {
    var bytes := q * PAGE_SIZE;
    var x := a % (4 * bytes);
    3 * bytes <= x || x + size < QuarterEnd(x, bytes)
  }

  /** Unmap looks in the region that map chose exactly when the buffer stays inside the
      quarter it starts in: map tests the end of the buffer, unmap only its start. */
  lemma RegionsAgree(a: int, size: int, q: int)
    requires 0 < q && 0 <= size
    ensures MapRegion(a, size, q) == UnmapRegion(a, q) <==> StaysInside(a, size, q)
  {
  }

  /** Number of pages of a buffer: unsigned 32-bit arithmetic, so size 0 counts as 4 GB. */
  function PageCount(size: int): (n: int)
    requires 0 <= size < 0x1_0000_0000
    ensures 1 <= n <= 0x10_0000
    ensures size > 0 ==> (n - 1) * PAGE_SIZE < size <= n * PAGE_SIZE
    ensures size == 0 ==> n * PAGE_SIZE == 0x1_0000_0000
  {
    (size - 1) % 0x1_0000_0000 / PAGE_SIZE + 1
  }

  // ---------------------------------------------------------------- the used list

  /** The first used run, in list order, that matches the key; |s| when there is none. */
  ghost function FirstOf(s: seq<Run<Buffer>>, key: Key): (k: int)
    ensures 0 <= k <= |s|
    ensures k < |s| ==> Matches(s[k].tag, key)
    ensures forall i | 0 <= i < k :: !Matches(s[i].tag, key)
  {
    if s == [] then 0 else if Matches(s[0].tag, key) then 0 else 1 + FirstOf(s[1..], key)
  }

  /** The first free node, in list order, with at least n pages; |s| when there is none. */
  ghost function FirstFit(s: seq<Run<Buffer>>, n: int): (k: int)
    ensures 0 <= k <= |s|
    ensures k < |s| ==> n <= s[k].count
    ensures forall i | 0 <= i < k :: s[i].count < n
  {
    if s == [] then 0 else if n <= s[0].count then 0 else 1 + FirstFit(s[1..], n)
  }

  /** The first fitting node gave n pages, from `start` on, to the head of the list in use. */
  ghost predicate Placed(free: seq<Run<Buffer>>, used: seq<Run<Buffer>>, nowFree: seq<Run<Buffer>>,
                         nowUsed: seq<Run<Buffer>>, start: int, n: int, key: Key)
  {
    var k := FirstFit(free, n);
    && k < |free| && start == free[k].start && nowFree == Carve(free, k, n)
    && nowUsed == [Run(start, start + n, n, Claim(free[k].tag, key))] + used
  }

  /** Every run in use bears the key it was claimed by; `claims` records it at its first page. */
  ghost predicate Claimed(used: seq<Run<Buffer>>, claims: map<int, Key>) {
    forall i | 0 <= i < |used| ::
      used[i].start in claims && used[i].tag == Claim(used[i].tag, claims[used[i].start])
  }

  /** Some run in use was claimed by a call that the key answers to. */
  ghost predicate HasClaim(used: seq<Run<Buffer>>, claims: map<int, Key>, key: Key) {
    exists i | 0 <= i < |used| :: used[i].start in claims && Answers(claims[used[i].start], key)
  }

  /** All runs in use were claimed by the side that the key belongs to. */
  ghost predicate OnlySide(used: seq<Run<Buffer>>, claims: map<int, Key>, key: Key) {
    forall i | 0 <= i < |used| :: used[i].start in claims && SameSide(claims[used[i].start], key)
  }

  /** The search by the key ends at a run that the key is meant to find, or ends nowhere because
      there is none. */
  ghost predicate FindsOwn(used: seq<Run<Buffer>>, claims: map<int, Key>, key: Key) {
    var k := FirstOf(used, key);
    if k < |used| then used[k].start in claims && Answers(claims[used[k].start], key) else !HasClaim(used, claims, key)
  }

  /** The first run that bears the key, if there is one, was not claimed by the other side. */
  ghost predicate FirstIsOwnSide(used: seq<Run<Buffer>>, claims: map<int, Key>, key: Key) {
    var k := FirstOf(used, key);
    k < |used| ==> used[k].start in claims && SameSide(claims[used[k].start], key)
  }

  /** Nodes keep the address that the other side gave them before. So a search finds what was
      claimed, and refuses what was not, if and only if the first bearer of the key was not claimed
      by the other side; in particular while only one side has buffers in the region. */
  lemma SearchIsRight(used: seq<Run<Buffer>>, claims: map<int, Key>, key: Key)
    requires Claimed(used, claims)
    ensures FindsOwn(used, claims, key) <==> FirstIsOwnSide(used, claims, key)
    ensures OnlySide(used, claims, key) ==>
              FindsOwn(used, claims, key) && (FirstOf(used, key) < |used| <==> HasClaim(used, claims, key))
  {
    var k := FirstOf(used, key);
    assert k < |used| ==> used[k].start in claims && used[k].tag == Claim(used[k].tag, claims[used[k].start]);
  }

  lemma ClaimedMore(used: seq<Run<Buffer>>, claims: map<int, Key>, r: Run<Buffer>, b: Buffer)
    requires Claimed(used, claims) && r.start in claims && r.tag == Claim(b, claims[r.start])
    ensures Claimed([r] + used, claims)
  {
    var more := [r] + used;
    forall i | 0 <= i < |more|
      ensures more[i].start in claims && more[i].tag == Claim(more[i].tag, claims[more[i].start])
    {
      assert i > 0 ==> more[i] == used[i - 1];
    }
  }

  lemma ClaimedLess(used: seq<Run<Buffer>>, claims: map<int, Key>, k: int)
    requires Claimed(used, claims) && 0 <= k < |used|
    ensures Claimed(Without(used, k), claims)
  {
    var less := Without(used, k);
    forall i | 0 <= i < |less|
      ensures less[i].start in claims && less[i].tag == Claim(less[i].tag, claims[less[i].start])
    {
      assert less[i] == used[if i < k then i else i + 1];
    }
  }

  /** The region lists of one process, with the claims that the runs in use were taken by. */
  class AddressSpace {
    const q: int
    const region: seq<NodeLists<Buffer>>
    ghost var claims: map<int, Key>

    ghost predicate Valid()
      reads this, region
    {
      Lists() && forall e | 0 <= e < 4 :: Claimed(region[e].used, claims)
    }

    ghost predicate Lists()
      reads region
    {
      && 0x1000 <= q && |region| == 4
      && (forall i, j | 0 <= i < j < 4 :: region[i] != region[j])
      && (forall e | 0 <= e < 4 ::
            region[e].Valid() && region[e].lo == FirstPage(e, q) && region[e].hi == EndPage(e, q))
    }

    /** Page v belongs to a buffer that is mapped now. */
    ghost predicate Live(v: int)
      requires |region| == 4
      reads region
    {
      Covers(region[RegionOf(v, q)].used, v)
    }

    /** CreateNode, with the page counts it computes; the owner fields of the nodes are whatever
        kmalloc leaves in them. */
    constructor (q: int, leftover: seq<Buffer>)
      requires 0x1000 <= q && |leftover| == 4
      ensures Valid() && fresh(region) && this.q == q
      ensures forall e | 0 <= e < 4 :: region[e].used == []
      ensures forall e | 0 <= e < 4 ::
                region[e].free == [Run(FirstPage(e, q), EndPage(e, q), EndPage(e, q) - FirstPage(e, q), leftover[e])]
      ensures forall v :: !Live(v)
    {
      hide NodeLists.Valid;
      var r0 := new NodeLists<Buffer>(1, q, q - 1, leftover[0]);
      var r1 := new NodeLists<Buffer>(q, 2 * q, q, leftover[1]);
      var r2 := new NodeLists<Buffer>(2 * q, 3 * q, q, leftover[2]);
      var r3 := new NodeLists<Buffer>(3 * q, 4 * q - 1, (4 * q - 1) - 3 * q, leftover[3]);
      this.q := q;
      claims := map[];
      region := [r0, r1, r2, r3];
      new;
      assert region[0] == r0 && region[1] == r1 && region[2] == r2 && region[3] == r3;
      assert forall e | 0 <= e < 4 :: region[e].used == [] && region[e].Valid();
      assert forall e | 0 <= e < 4 :: region[e].lo == FirstPage(e, q) && region[e].hi == EndPage(e, q);
    }

    /** Region e is partitioned by its two lists, and its free list is fully joined. */
    lemma Partition(e: int)
      requires Lists() && 0 <= e < 4
      ensures FreeList(region[e].free, FirstPage(e, q), EndPage(e, q))
      ensures forall v | FirstPage(e, q) <= v < EndPage(e, q) ::
                Covers(region[e].used, v) <==> !Covers(region[e].free, v)
      ensures Total(region[e].free) + Total(region[e].used) == EndPage(e, q) - FirstPage(e, q)
    {
    }

    /** Pages held by region e, free or used, lie in its extent and nowhere else. */
    lemma Extent(e: int, v: int)
      requires Lists() && 0 <= e < 4
      ensures Covers(region[e].used, v) || Covers(region[e].free, v) ==>
                FirstPage(e, q) <= v < EndPage(e, q) && RegionOf(v, q) == e
    {
    }

    /** The regions hold every page but the first and the last, each those of its own quarter. */
    lemma WhatRegionsHold(e: int, v: int)
      requires Lists() && 0 <= e < 4
      ensures Covers(region[e].used, v) || Covers(region[e].free, v) <==>
              e * q <= v < (e + 1) * q && 1 <= v < 4 * q - 1
    {
      assert region[e].Valid();
      Extent(e, v);
      assert e == 0 || e == 1 || e == 2 || e == 3;
    }

    lemma FirstIsLive(p: Run<Buffer>)
      requires Valid() && region[0].used == [p] && p.start == 1 && p.end == 2
      ensures Live(1)
    {
      assert In([p][0], 1);
    }

    lemma FreeIsNotLive(e: int, v: int)
      requires Lists() && 0 <= e < 4 && Covers(region[e].free, v)
      ensures !Live(v)
    {
    }

    /** No run in use starts at a page that is not live, so a claim there touches no other. */
    lemma ClaimsKept(v: int, key: Key)
      requires Valid() && !Live(v)
      ensures forall e | 0 <= e < 4 ::
                Claimed(region[e].used, claims[v := key]) && Claimed(region[e].used, claims - {v})
    {
      forall e, i | 0 <= e < 4 && 0 <= i < |region[e].used|
        ensures region[e].used[i].start != v
      {
        NotAt(e, i, v);
      }
    }

    lemma NotAt(e: int, i: int, v: int)
      requires Lists() && !Live(v) && 0 <= e < 4 && 0 <= i < |region[e].used|
      ensures region[e].used[i].start != v
    {
      var r := region[e].used[i];
      assert region[e].Valid() && Fits(r, FirstPage(e, q), EndPage(e, q));
      assert In(r, r.start) && Covers(region[e].used, r.start);
      Extent(e, r.start);
    }

    /** FindFreeNode, SplitFreeNode and the assignment of the owner. */
    method Reserve(e: int, n: int, key: Key) returns (ok: bool, start: int)
      requires Valid() && 0 <= e < 4 && 1 <= n
      modifies `claims, region[e]
      ensures Valid() && claims == if ok then old(claims)[start := key] else old(claims)
      ensures ok <==> exists a :: old(FreeRun(region[e].free, a, n))
      ensures !ok ==> unchanged(region[e])
      ensures ok ==>
                Placed(old(region[e].free), old(region[e].used), region[e].free, region[e].used, start, n, key)
      ensures ok ==> FirstPage(e, q) <= start && start + n <= EndPage(e, q)
      ensures ok ==> forall v | start <= v < start + n :: !old(Live(v))
      ensures forall v :: Live(v) <==> old(Live(v)) || (ok && start <= v < start + n)
    {
      hide Lists, Live, Carve, Claimed, Claim, Matches;
      start := 0;
      AreDistinct();
      var k := region[e].FindFreeNode(n);
      ok := k >= 0;
      if ok {
        ghost var was, tag := region[e].used, region[e].free[k].tag;
        start := region[e].free[k].start;
        FreeNode(e, k, n);
        assert forall v :: old(Live(v)) == Live(v);
        ClaimsKept(start, key);
        Take(e, k, n, key);
        claims := claims[start := key];
        ClaimedMore(was, claims, region[e].used[0], tag);
      }
    }

    lemma AreDistinct()
      requires Lists()
      ensures |region| == 4 && 0x1000 <= q && (forall i, j | 0 <= i < j < 4 :: region[i] != region[j])
      ensures forall e | 0 <= e < 4 :: region[e].Valid()
    {
    }

    /** The first n pages of a free node are pages of the region that are not live. */
    lemma FreeNode(e: int, k: int, n: int)
      requires Lists() && 0 <= e < 4 && 0 <= k < |region[e].free| && 1 <= n <= region[e].free[k].count
      ensures var start := region[e].free[k].start;
              && FirstPage(e, q) <= start && start + n <= EndPage(e, q)
              && forall v | start <= v < start + n :: !Live(v)
    {
      var lists := region[e];
      NodeIsFreeRun(lists.free, k, n, lists.lo, lists.hi);
      assert Fits(lists.free[k], lists.lo, lists.hi);
      forall v | lists.free[k].start <= v < lists.free[k].start + n
        ensures !Live(v)
      {
        FreeIsNotLive(e, v);
      }
    }

    /** SplitFreeNode and the assignment of the owner. */
    method Take(e: int, k: int, n: int, key: Key)
      requires Lists() && 0 <= e < 4 && 0 <= k < |region[e].free| && 1 <= n <= region[e].free[k].count
      modifies region[e]
      ensures Lists() && region[e].free == Carve(old(region[e].free), k, n)
      ensures var node := old(region[e].free[k]);
              && region[e].used == [Run(node.start, node.start + n, n, Claim(node.tag, key))] + old(region[e].used)
              && forall v :: Live(v) <==> old(Live(v)) || node.start <= v < node.start + n
    {
      hide Total, Apart, Coalesced;
      var lists := region[e];
      ghost var was := lists.used;
      ghost var start := lists.free[k].start;
      lists.SplitFreeNode(k, n);
      lists.TagUsed(0, Claim(lists.used[0].tag, key));
      assert lists.used == [lists.used[0]] + was;
      assert Fits(lists.used[0], lists.lo, lists.hi);
      forall v
        ensures Live(v) <==> old(Live(v)) || start <= v < start + n
      {
        CoversCons(lists.used[0], was, v);
        Extent(e, v);
      }
    }

    /** The walk over the map list of region e. */
    method FindUsed(e: int, key: Key) returns (k: int)
      requires Valid() && 0 <= e < 4
      ensures k == FirstOf(region[e].used, key)
    {
      var used := region[e].used;
      k := 0;
      while k < |used| && !Matches(used[k].tag, key)
        invariant 0 <= k <= |used|
        invariant forall i | 0 <= i < k :: !Matches(used[i].tag, key)
      {
        k := k + 1;
      }
    }

    /** RemoveNode and RemoveKernelNode: search again, and return the run found to the free list. */
    method RemoveNode(e: int, key: Key)
      requires Valid() && 0 <= e < 4
      modifies `claims, region[e]
      ensures Valid()
      ensures var k := FirstOf(old(region[e].used), key);
              if k == |old(region[e].used)| then unchanged(region[e]) && claims == old(claims)
              else
                && claims == old(claims) - {old(region[e].used[k].start)}
                && region[e].used == Without(old(region[e].used), k)
                && Inserted(old(region[e].free), old(region[e].used[k]), region[e].free)
                && forall v :: Live(v) <==> old(Live(v)) && !In(old(region[e].used[k]), v)
    {
      hide Lists, Live, Claimed, FirstOf, Covers, Inserted;
      AreDistinct();
      var k := FindUsed(e, key);
      if k < |region[e].used| {
        ghost var was := region[e].used;
        ghost var p := was[k];
        ClaimedLess(was, claims, k);
        GiveBack(e, k);
        ClaimsKept(p.start, key);
        claims := claims - {p.start};
      }
    }

    /** Run k leaves the list in use, and its pages become free. */
    method GiveBack(e: int, k: int)
      requires Lists() && 0 <= e < 4 && 0 <= k < |region[e].used|
      modifies region[e]
      ensures Lists() && region[e].used == Without(old(region[e].used), k)
      ensures Inserted(old(region[e].free), old(region[e].used[k]), region[e].free)
      ensures forall v :: Live(v) <==> old(Live(v)) && !In(old(region[e].used[k]), v)
      ensures !Live(old(region[e].used[k]).start)
    {
      var lists := region[e];
      ghost var was := lists.used;
      ghost var p := was[k];
      assert Fits(p, FirstPage(e, q), EndPage(e, q)) && In(p, p.start);
      forall v
        ensures In(p, v) ==> RegionOf(v, q) == e
      {
        Extent(e, v);
      }
      lists.InsertFree(k);
      forall v
        ensures Live(v) <==> old(Live(v)) && !In(p, v)
      {
        CoversWithout(was, k, v);
      }
    }

    /** Whatever was mapped and unmapped before: a region in which nothing is mapped any more
        is back to the single free node that CreateNode gave it. */
    lemma AllUnmapped(e: int)
      requires Valid() && 0 <= e < 4 && region[e].used == []
      ensures var free := region[e].free;
              && |free| == 1 && free[0].start == FirstPage(e, q) && free[0].end == EndPage(e, q)
              && free[0].count == EndPage(e, q) - FirstPage(e, q)
    {
      assert region[e].Valid();
      assert EndPage(e, q) - FirstPage(e, q) > 0;
      forall x | region[e].lo <= x < region[e].hi
        ensures Covers(region[e].free, x)
      {
        assert !Covers(region[e].used, x);
      }
      AllReturned(region[e].free, region[e].lo, region[e].hi);
    }
  }
}
