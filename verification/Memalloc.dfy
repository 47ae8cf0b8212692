/** The linear memory allocator of memalloc.c. The table has one entry per chunk, but only the
    first chunk of a block carries its length and owner; the search skips over whole blocks. */
module Memalloc {
  import opened Common

  const CHUNK_SIZE := 16384

  // ---------------------------------------------------------------- the table as a value

  /** r[k] is chunks_reserved of entry k: blocks end inside the table and hold no second head. */
  ghost predicate WellFormed(r: seq<int>) {
    forall k | 0 <= k < |r| :: 0 <= r[k] && (r[k] > 0 ==> BlockAt(r, k, r[k]))
  }

  ghost predicate BlockAt(r: seq<int>, k: int, n: int) {
    0 <= k && k + n <= |r| && forall j | k < j < k + n :: r[j] == 0
  }

  /** Chunk j belongs to the block whose head is k. */
  ghost predicate Belongs(r: seq<int>, k: int, j: int) {
    0 <= k < |r| && k <= j < k + r[k]
  }

  ghost predicate Occupied(r: seq<int>, j: int) {
    exists k :: Belongs(r, k, j)
  }

  /** The n chunks from a on exist and belong to no block. */
  ghost predicate FreeRun(r: seq<int>, a: int, n: int) {
    0 <= a && a + n <= |r| && forall j | a <= j < a + n :: !Occupied(r, j)
  }

  /** s is the lowest start of n free chunks. */
  ghost predicate FirstFit(r: seq<int>, s: int, n: int) {
    FreeRun(r, s, n) && forall a | 0 <= a < s :: !FreeRun(r, a, n)
  }

  /** No block reaches across i. */
  ghost predicate Boundary(r: seq<int>, i: int) {
    0 <= i <= |r| && forall k | 0 <= k < i :: k + r[k] <= i
  }

  /** Live blocks are in range and pairwise disjoint. */
  lemma BlocksDisjoint(r: seq<int>, k: int, m: int, j: int)
    requires WellFormed(r) && Belongs(r, k, j) && Belongs(r, m, j)
    ensures k == m && 0 <= j < |r|
  {
  }

  // ---------------------------------------------------------------- sizes

  /** Chunks that hold `size` bytes. */
  function ChunksFor(size: int): (n: int)
    ensures (n - 1) * CHUNK_SIZE < size <= n * CHUNK_SIZE
  {
    (size + CHUNK_SIZE - 1) / CHUNK_SIZE
  }

  /** What AllocMemory computes: a 64-bit sum, a quotient, stored in 32 bits. */
  function AllocChunks(size: int): (n: int)
    ensures 0 <= n < 0x1_0000_0000
    ensures 1 <= size <= 0xFFFF_FFFF * CHUNK_SIZE ==> n == ChunksFor(size) > 0
    ensures 0 <= size < 0x1_0000_0000_0000_0000 ==> n == ChunksFor(size) % 0x1_0000_0000
  {
    (size + CHUNK_SIZE - 1) % 0x1_0000_0000_0000_0000 / CHUNK_SIZE % 0x1_0000_0000
  }

  // ---------------------------------------------------------------- the search

  /** The first entry in [j, last) that is a block head; last if there is none. */
  function NextHead(r: seq<int>, j: int, last: int): (k: int)
    requires 0 <= j && last <= |r|
    ensures j <= last ==> j <= k <= last
    ensures last < j ==> k == last
    ensures forall i | j <= i < k :: r[i] == 0
    ensures j <= last && k < last ==> r[k] != 0
    decreases last - j
  {
    if last <= j then last else if r[j] != 0 then j else NextHead(r, j + 1, last)
  }

  /** The outer loop from entry i on: the entry chosen for a block of n chunks. The end of the
      candidate is computed in 32 bits. */
  function Scan(r: seq<int>, i: int, n: int): Option<int>
    requires forall k | 0 <= k < |r| :: 0 <= r[k]
    requires 0 <= i && 0 <= n
    decreases |r| - i
  {
    if |r| <= i then None
    else if r[i] != 0 then Scan(r, i + r[i], n)
    else
      var last := (i + n) % 0x1_0000_0000;
      if |r| < last then None
      else
        var j := NextHead(r, i, last);
        if i <= j < last then Scan(r, j + r[j], n) else Some(i)
  }

  /** Although only heads are marked, and whole blocks are skipped, the search finds the lowest
      run of n free chunks from a block boundary on, and fails only when there is none. */
  lemma {:induction false} ScanIsFirstFit(r: seq<int>, i: int, n: int)
    requires WellFormed(r) && Boundary(r, i) && 1 <= n && n + |r| <= 0x1_0000_0000
    ensures match Scan(r, i, n)
            case None => forall a | i <= a :: !FreeRun(r, a, n)
            case Some(s) => i <= s && FreeRun(r, s, n) && forall a | i <= a < s :: !FreeRun(r, a, n)
    decreases |r| - i
  {
    hide WellFormed, Boundary, FreeRun;
    InTable(r, i, n);
    if i < |r| {
      if r[i] != 0 {
        SkipBlock(r, i, i, n);
        ScanIsFirstFit(r, i + r[i], n);
      } else if i + n <= |r| {
        var j := NextHead(r, i, i + n);
        if j < i + n {
          SkipBlock(r, i, j, n);
          ScanIsFirstFit(r, j + r[j], n);
        } else {
          FreeFromHere(r, i, n);
        }
      }
    }
  }

  lemma InTable(r: seq<int>, i: int, n: int)
    requires WellFormed(r) && Boundary(r, i)
    ensures 0 <= i <= |r| && forall k | 0 <= k < |r| :: 0 <= r[k]
    ensures |r| < i + n ==> forall a | i <= a :: !FreeRun(r, a, n)
  {
  }

  /** From a boundary i, j is the first head, and a run of n chunks from i would contain it: no
      run starts before the end of that block, which is a boundary again. */
  lemma SkipBlock(r: seq<int>, i: int, j: int, n: int)
    requires WellFormed(r) && Boundary(r, i) && i <= j < i + n && j < |r| && r[j] != 0
    requires forall k | i <= k < j :: r[k] == 0
    ensures Boundary(r, j + r[j])
    ensures forall a | i <= a < j + r[j] :: !FreeRun(r, a, n)
  {
    assert BlockAt(r, j, r[j]);
    forall a | i <= a < j + r[j]
      ensures !FreeRun(r, a, n)
    {
      assert Belongs(r, j, if a < j then j else a);
      assert Occupied(r, if a < j then j else a);
    }
  }

  lemma FreeFromHere(r: seq<int>, i: int, n: int)
    requires WellFormed(r) && Boundary(r, i) && 0 <= n && i + n <= |r|
    requires forall k | i <= k < i + n :: r[k] == 0
    ensures FreeRun(r, i, n)
  {
  }

  // ---------------------------------------------------------------- when the sizes are right

  /** The outcome a caller expects from a table r for `size` bytes. */
  ghost predicate Right(r: seq<int>, size: int)
    requires WellFormed(r) && 0 <= size
  {
    match Scan(r, 0, AllocChunks(size))
    case None => forall a :: !FreeRun(r, a, ChunksFor(size))
    case Some(s) => 0 < AllocChunks(size) == ChunksFor(size) && FirstFit(r, s, ChunksFor(size))
  }

  /** What a caller can check: some chunk is asked for, the count was not truncated into
      something that fits the table, and no entry number plus the count reaches 32 bits. */
  predicate SizeIsSafe(size: int, chunks: int) {
    var n := AllocChunks(size);
    0 < n && (n == ChunksFor(size) || chunks < n) && n + chunks <= 0x1_0000_0000
  }

  lemma SmallSizesAreSafe(size: int, chunks: int)
    requires 1 <= size <= 0x7FFF_FFFF * CHUNK_SIZE && 0 <= chunks < 0x8000_0000
    ensures SizeIsSafe(size, chunks)
  {
  }

  /** The allocator is exact first fit on every table of the given length if and only if the
      size is safe. */
  lemma ExactlyWhenSafe(size: int, chunks: int)
    requires 0 <= size < 0x1_0000_0000_0000_0000 && 1 <= chunks < 0x8000_0000
    ensures SizeIsSafe(size, chunks) <==> forall r | WellFormed(r) && |r| == chunks :: Right(r, size)
  {
    if SizeIsSafe(size, chunks) {
      forall r | WellFormed(r) && |r| == chunks
        ensures Right(r, size)
      {
        SafeIsRight(r, size);
      }
    } else {
      var n := AllocChunks(size);
      var i := if n <= chunks then 0 else 0x1_0000_0000 - n;
      UnsafeIsWrong(size, chunks, i);
      assert WellFormed(FullUpTo(i, chunks)) && !Right(FullUpTo(i, chunks), size);
    }
  }

  lemma SafeIsRight(r: seq<int>, size: int)
    requires WellFormed(r) && 0 <= size < 0x1_0000_0000_0000_0000 && SizeIsSafe(size, |r|)
    ensures Right(r, size)
  {
    ScanIsFirstFit(r, 0, AllocChunks(size));
    ChunksInRange(size);
  }

  lemma ChunksInRange(size: int)
    requires 0 <= size < 0x1_0000_0000_0000_0000
    ensures AllocChunks(size) != ChunksFor(size) ==> 0x1_0000_0000 <= ChunksFor(size)
  {
  }

  /** A table of `chunks` entries whose first i chunks are one block and whose rest is free. */
  function FullUpTo(i: int, chunks: int): (r: seq<int>)
    requires 0 <= i < chunks
    ensures |r| == chunks && WellFormed(r)
    ensures forall k | 0 <= k < chunks :: r[k] == if k == 0 then i else 0
  {
    seq(chunks, k => if k == 0 then i else 0)
  }

  /** An unsafe size succeeds on such a table with a block that is not what was asked for. */
  lemma UnsafeIsWrong(size: int, chunks: int, i: int)
    requires 0 <= size < 0x1_0000_0000_0000_0000 && 1 <= chunks < 0x8000_0000 && !SizeIsSafe(size, chunks)
    requires i == if AllocChunks(size) <= chunks then 0 else 0x1_0000_0000 - AllocChunks(size)
    ensures 0 <= i < chunks && Scan(FullUpTo(i, chunks), 0, AllocChunks(size)) == Some(i)
    ensures !Right(FullUpTo(i, chunks), size)
  {
  }

  /** Two such sizes: nothing at all, and 64 TB. Both are granted the first chunk of an empty
      table, and nothing is marked as reserved. */
  lemma TwoBadSizes(chunks: int)
    requires 1 <= chunks < 0x8000_0000
    ensures AllocChunks(0) == 0 && AllocChunks(0x4000_0000_0000) == 0 && ChunksFor(0x4000_0000_0000) == 0x1_0000_0000
    ensures Scan(FullUpTo(0, chunks), 0, AllocChunks(0)) == Some(0)
    ensures !Right(FullUpTo(0, chunks), 0) && !Right(FullUpTo(0, chunks), 0x4000_0000_0000)
  {
  }

  // ---------------------------------------------------------------- changes to the table

  /** In u the n chunks from s on are taken, and otherwise the same as in r. */
  ghost predicate Takes(r: seq<int>, u: seq<int>, s: int, n: int) {
    forall j :: Occupied(u, j) <==> Occupied(r, j) || s <= j < s + n
  }

  lemma AllocKeeps(r: seq<int>, s: int, n: int)
    requires WellFormed(r) && FreeRun(r, s, n) && 1 <= n
    ensures r[s] == 0 && WellFormed(r[s := n]) && Takes(r, r[s := n], s, n)
  {
    var u := r[s := n];
    forall k | s <= k < s + n
      ensures r[k] == 0
    {
      assert !Occupied(r, k);
      assert r[k] > 0 ==> Belongs(r, k, k);
    }
    forall k | 0 <= k < |u| && u[k] > 0
      ensures BlockAt(u, k, u[k])
    {
      if k != s {
        assert BlockAt(r, k, r[k]);
        assert Belongs(r, k, s) ==> Occupied(r, s);
      }
    }
    forall j
      ensures Occupied(u, j) <==> Occupied(r, j) || s <= j < s + n
    {
      if k :| Belongs(u, k, j) {
        assert k != s ==> Belongs(r, k, j);
      }
      if k :| Belongs(r, k, j) {
        assert Belongs(u, k, j);
      }
      if s <= j < s + n {
        assert Belongs(u, s, j);
      }
    }
  }

  /** u is r with the blocks at some heads taken out. */
  lemma FreeKeeps(r: seq<int>, u: seq<int>)
    requires WellFormed(r) && |u| == |r| && forall k | 0 <= k < |r| :: u[k] == r[k] || u[k] == 0
    ensures WellFormed(u)
    ensures forall j :: Occupied(u, j) <==> exists k :: Belongs(r, k, j) && u[k] == r[k]
  {
    forall k | 0 <= k < |u| && u[k] > 0
      ensures BlockAt(u, k, u[k])
    {
      assert BlockAt(r, k, r[k]);
    }
    forall j
      ensures Occupied(u, j) <==> exists k :: Belongs(r, k, j) && u[k] == r[k]
    {
      if k :| Belongs(u, k, j) {
        assert Belongs(r, k, j);
      }
      if k :| Belongs(r, k, j) && u[k] == r[k] {
        assert Belongs(u, k, j);
      }
    }
  }

  /** What a successful search means for the table, for a safe size. */
  lemma Granted(r: seq<int>, size: int, s: int, n: int)
    requires WellFormed(r) && 0 <= size < 0x1_0000_0000_0000_0000 && SizeIsSafe(size, |r|)
    requires n == AllocChunks(size) && Scan(r, 0, n) == Some(s)
    ensures n == ChunksFor(size) && FirstFit(r, s, n) && 0 <= s < |r| && r[s] == 0 && (s * CHUNK_SIZE) / CHUNK_SIZE == s
    ensures WellFormed(r[s := n]) && Takes(r, r[s := n], s, n)
  {
    SafeIsRight(r, size);
    AllocKeeps(r, s, n);
  }

  // ---------------------------------------------------------------- the driver

  /** hlina_chunks. A client is the number of its open file; 0 is no client. */
  class ChunkTable {
    const busAddress: array<int>
    const chunksReserved: array<int>
    const filp: array<int>
    const allocBase: int
    const addrTransl: int

    ghost predicate Sized()
      reads busAddress, chunksReserved, filp
    {
      && 1 <= chunksReserved.Length < 0x8000_0000
      && busAddress.Length == chunksReserved.Length && filp.Length == chunksReserved.Length
      && busAddress != chunksReserved && busAddress != filp && chunksReserved != filp
      && 1 <= allocBase && allocBase + chunksReserved.Length * CHUNK_SIZE <= 0x1_0000_0000_0000_0000
      && 0 <= addrTransl < 0x1_0000_0000_0000_0000
    }

    /** Between calls: addresses in place, blocks disjoint and in range, and an entry has an
        owner if and only if it is the head of a block. */
    ghost predicate Valid()
      reads busAddress, chunksReserved, filp
    {
      && Sized()
      && (forall k | 0 <= k < busAddress.Length :: busAddress[k] == allocBase + k * CHUNK_SIZE)
      && WellFormed(chunksReserved[..])
      && forall k | 0 <= k < filp.Length :: chunksReserved[k] > 0 <==> filp[k] != 0
    }

    /** memalloc_init, up to the call of ResetMems. */
    constructor (chunks: int, allocBase: int, addrTransl: int)
      requires 1 <= chunks < 0x8000_0000 && 1 <= allocBase
      requires allocBase + chunks * CHUNK_SIZE <= 0x1_0000_0000_0000_0000
      requires 0 <= addrTransl < 0x1_0000_0000_0000_0000
      ensures Sized() && chunksReserved.Length == chunks && this.allocBase == allocBase && this.addrTransl == addrTransl
      ensures fresh(busAddress) && fresh(chunksReserved) && fresh(filp)
    {
      busAddress := new int[chunks];
      chunksReserved := new int[chunks];
      filp := new int[chunks];
      this.allocBase := allocBase;
      this.addrTransl := addrTransl;
    }

    method ResetMems()
      requires Sized()
      modifies busAddress, chunksReserved, filp
      ensures Valid() && forall k | 0 <= k < filp.Length :: filp[k] == 0 && chunksReserved[k] == 0
    {
      var ba := allocBase;
      for i := 0 to chunksReserved.Length
        invariant ba == allocBase + i * CHUNK_SIZE
        invariant forall k | 0 <= k < i :: busAddress[k] == allocBase + k * CHUNK_SIZE
        invariant forall k | 0 <= k < i :: filp[k] == 0 && chunksReserved[k] == 0
      {
        busAddress[i] := ba;
        filp[i] := 0;
        chunksReserved[i] := 0;
        ba := ba + CHUNK_SIZE;
      }
    }

    /** AllocMemory; bus address 0 stands for the error status. */
    method AllocMemory(size: int, client: int) returns (busaddr: int)
      requires Valid() && 0 <= size < 0x1_0000_0000_0000_0000 && client != 0
      modifies chunksReserved, filp
      ensures match old(Scan(chunksReserved[..], 0, AllocChunks(size)))
              case None => busaddr == 0 && chunksReserved[..] == old(chunksReserved[..]) && filp[..] == old(filp[..])
              case Some(s) =>
                && 0 <= s < chunksReserved.Length && busaddr == allocBase + s * CHUNK_SIZE
                && chunksReserved[..] == old(chunksReserved[..])[s := AllocChunks(size)]
                && filp[..] == old(filp[..])[s := client]
      ensures SizeIsSafe(size, chunksReserved.Length) ==>
                && Valid()
                && (busaddr == 0 <==> forall a :: !old(FreeRun(chunksReserved[..], a, ChunksFor(size))))
                && (busaddr != 0 ==>
                      var s := (busaddr - allocBase) / CHUNK_SIZE;
                      && old(FirstFit(chunksReserved[..], s, ChunksFor(size))) && chunksReserved[s] == ChunksFor(size)
                      && Takes(old(chunksReserved[..]), chunksReserved[..], s, ChunksFor(size)))
    {
      hide Occupied, BlockAt, FreeRun, Takes, FirstFit, ChunksFor, SizeIsSafe, Right;
      var n := AllocChunks(size);
      ghost var r, f := chunksReserved[..], filp[..];
      busaddr := 0;
      var i := 0;
      while i < chunksReserved.Length
        invariant 0 <= i && chunksReserved[..] == r && filp[..] == f && busaddr == 0
        invariant Scan(r, 0, n) == Scan(r, i, n)
        decreases chunksReserved.Length - i
      {
        var skip := false;
        if chunksReserved[i] == 0 {
          var last := (i + n) % 0x1_0000_0000;
          if last > chunksReserved.Length {
            break;
          }
          var j := i;
          while j < last
            invariant i <= j && (last < i ==> j == i) && (i <= last ==> j <= last)
            invariant chunksReserved[..] == r && filp[..] == f
            invariant NextHead(r, i, last) == NextHead(r, j, last)
          {
            if chunksReserved[j] != 0 {
              skip := true;
              break;
            }
            j := j + 1;
          }
          if skip {
            i := j + chunksReserved[j];
          } else {
            busaddr := busAddress[i];
            filp[i] := client;
            chunksReserved[i] := n;
            break;
          }
        } else {
          i := i + chunksReserved[i];
        }
      }
      if SizeIsSafe(size, |r|) {
        SafeIsRight(r, size);
        if busaddr != 0 {
          Granted(r, size, Scan(r, 0, n).value, n);
        }
      }
    }

    /** FreeMemory: the address is the one handed out, less addr_transl. */
    method FreeMemory(busaddr: int, client: int)
      requires Valid() && 0 <= busaddr < 0x1_0000_0000_0000_0000 && client != 0
      modifies chunksReserved, filp
      ensures Valid()
      ensures forall k | 0 <= k < filp.Length ::
                var hit := busAddress[k] == (busaddr + addrTransl) % 0x1_0000_0000_0000_0000 && old(filp[k]) == client;
                && filp[k] == (if hit then 0 else old(filp[k]))
                && chunksReserved[k] == if hit then 0 else old(chunksReserved[k])
    {
      ghost var r := chunksReserved[..];
      var i := 0;
      while i < busAddress.Length && busAddress[i] != (busaddr + addrTransl) % 0x1_0000_0000_0000_0000
        invariant 0 <= i <= busAddress.Length
        invariant forall k | 0 <= k < i :: busAddress[k] != (busaddr + addrTransl) % 0x1_0000_0000_0000_0000
      {
        i := i + 1;
      }
      if i < busAddress.Length && filp[i] == client {
        filp[i] := 0;
        chunksReserved[i] := 0;
        FreeKeeps(r, chunksReserved[..]);
      }
    }

    /** memalloc_release: what the client did not free goes back, and nothing else. */
    method Release(client: int)
      requires Valid() && client != 0
      modifies chunksReserved, filp
      ensures Valid()
      ensures forall k | 0 <= k < filp.Length ::
                && filp[k] == (if old(filp[k]) == client then 0 else old(filp[k]))
                && chunksReserved[k] == if old(filp[k]) == client then 0 else old(chunksReserved[k])
      ensures forall j :: Occupied(chunksReserved[..], j) <==>
                exists k :: old(Belongs(chunksReserved[..], k, j)) && old(filp[k]) != client
    {
      ghost var r := chunksReserved[..];
      for i := 0 to chunksReserved.Length
        invariant forall k | 0 <= k < i ::
                    && filp[k] == (if old(filp[k]) == client then 0 else old(filp[k]))
                    && chunksReserved[k] == if old(filp[k]) == client then 0 else old(chunksReserved[k])
        invariant forall k | i <= k < filp.Length ::
                    filp[k] == old(filp[k]) && chunksReserved[k] == old(chunksReserved[k])
      {
        if filp[i] == client {
          filp[i] := 0;
          chunksReserved[i] := 0;
        }
      }
      FreeKeeps(r, chunksReserved[..]);
    }

    /** Freeing what was just allocated restores the table exactly. */
    method AllocThenFree(size: int, client: int)
      requires Valid() && 0 <= size < 0x1_0000_0000_0000_0000 && client != 0 && SizeIsSafe(size, chunksReserved.Length)
      modifies chunksReserved, filp
      ensures Valid() && chunksReserved[..] == old(chunksReserved[..]) && filp[..] == old(filp[..])
    {
      ghost var r, f := chunksReserved[..], filp[..];
      var busaddr := AllocMemory(size, client);
      if busaddr != 0 {
        Granted(r, size, Scan(r, 0, AllocChunks(size)).value, AllocChunks(size));
      }
      if busaddr != 0 {
        var address := (busaddr - addrTransl) % 0x1_0000_0000_0000_0000;
        assert (address + addrTransl) % 0x1_0000_0000_0000_0000 == busaddr;
        FreeMemory(address, client);
        assert forall k | 0 <= k < filp.Length :: chunksReserved[k] == r[k] && filp[k] == f[k];
      }
    }
  }
}
