/** Lists of page runs, as the MMU keeps them: an unordered list of free runs and a list of
    runs in use (struct MMUNode and struct MMUPageNode of vcx_mmu.c, which carry the same
    algorithms under two names). A run holds the half-open range [start, end), its length
    `count`, and a `tag` with the fields that only one of the two structs has. */
module RunLists {

  datatype Run<P> = Run(start: int, end: int, count: int, tag: P)

  // ---------------------------------------------------------------- vocabulary

  ghost predicate In<P>(r: Run<P>, x: int) {
    r.start <= x < r.end
  }

  /** Some run of s holds page x. */
  ghost predicate Covers<P>(s: seq<Run<P>>, x: int) {
    exists i | 0 <= i < |s| :: In(s[i], x)
  }

  ghost predicate Fits<P>(r: Run<P>, lo: int, hi: int) {
    lo <= r.start < r.end <= hi && r.count == r.end - r.start
  }

  ghost predicate Sized<P>(s: seq<Run<P>>, lo: int, hi: int) {
    forall i | 0 <= i < |s| :: Fits(s[i], lo, hi)
  }

  ghost predicate Clear<P>(a: Run<P>, b: Run<P>) {
    a.end <= b.start || b.end <= a.start
  }

  ghost predicate Apart<P>(s: seq<Run<P>>) {
    forall i, j | 0 <= i < j < |s| :: Clear(s[i], s[j])
  }

  predicate Touch<P>(a: Run<P>, b: Run<P>) {
    a.end == b.start || b.end == a.start
  }

  /** No two runs of s are neighbours. */
  ghost predicate Coalesced<P>(s: seq<Run<P>>) {
    forall i, j | 0 <= i < j < |s| :: !Touch(s[i], s[j])
  }

  ghost predicate FreeList<P>(s: seq<Run<P>>, lo: int, hi: int) {
    Sized(s, lo, hi) && Apart(s) && Coalesced(s)
  }

  ghost function Total<P>(s: seq<Run<P>>): int {
    if s == [] then 0 else s[0].count + Total(s[1..])
  }

  function Without<T>(s: seq<T>, i: int): seq<T>
    requires 0 <= i < |s|
  {
    s[..i] + s[i + 1..]
  }

  /** n consecutive pages from a on are all free. */
  ghost predicate FreeRun<P>(s: seq<Run<P>>, a: int, n: int) {
    forall x | a <= x < a + n :: Covers(s, x)
  }

  /** [a, b) is a free run that cannot be extended on either side. */
  ghost predicate MaximalRun<P>(s: seq<Run<P>>, a: int, b: int) {
    a < b && FreeRun(s, a, b - a) && !Covers(s, a - 1) && !Covers(s, b)
  }

  /** [a, b) is a node of s. */
  ghost predicate HasNode<P>(s: seq<Run<P>>, a: int, b: int) {
    exists i | 0 <= i < |s| :: s[i].start == a && s[i].end == b
  }

  /** s after the first n pages of node k have been carved off. */
  function Carve<P>(s: seq<Run<P>>, k: int, n: int): (t: seq<Run<P>>)
    requires 0 <= k < |s|
    ensures k <= |t| && t[..k] == s[..k]
    ensures s[k].count == n ==> t[k..] == s[k + 1..]
    ensures s[k].count != n ==> k < |t| && t[k + 1..] == s[k + 1..] && t[k].tag == s[k].tag
    ensures s[k].count != n ==> t[k].start == s[k].start + n && t[k].end == s[k].end
  {
    if s[k].count == n then Without(s, k)
    else s[k := Run(s[k].start + n, s[k].end, s[k].count - n, s[k].tag)]
  }

  /** What becomes of the list when node i is the first that p touches. With a node on the other side
      of p too, that one takes all three at its place, with its fields, and node i is gone. */
  ghost predicate Merged<P>(s: seq<Run<P>>, p: Run<P>, i: int, now: seq<Run<P>>)
    requires 0 <= i < |s|
  {
    var n := s[i].count + p.count;
    if s[i].end == p.start then
      && (forall j | 0 <= j < |s| && s[j].start == p.end ::
            now == Without(s[j := Run(s[i].start, s[j].end, n + s[j].count, s[j].tag)], i))
      && ((forall j | 0 <= j < |s| :: s[j].start != p.end) ==> now == s[i := Run(s[i].start, p.end, n, s[i].tag)])
    else
      && (forall j | 0 <= j < |s| && s[j].end == p.start ::
            now == Without(s[j := Run(s[j].start, s[i].end, n + s[j].count, s[j].tag)], i))
      && ((forall j | 0 <= j < |s| :: s[j].end != p.start) ==> now == s[i := Run(p.start, s[i].end, n, s[i].tag)])
  }

  /** The list after p was inserted: it is merged, or becomes the first node with the fields it has. */
  ghost predicate Inserted<P>(s: seq<Run<P>>, p: Run<P>, now: seq<Run<P>>) {
    && ((forall i | 0 <= i < |s| :: !Touch(s[i], p)) ==> now == [p] + s)
    && forall i | 0 <= i < |s| && Touch(s[i], p) && (forall k | 0 <= k < i :: !Touch(s[k], p)) :: Merged(s, p, i, now)
  }

  // ---------------------------------------------------------------- list arithmetic

  lemma {:induction false} TotalUpdate<P>(s: seq<Run<P>>, i: int, r: Run<P>)
    requires 0 <= i < |s|
    ensures Total(s[i := r]) == Total(s) - s[i].count + r.count
  {
    if i == 0 {
      assert s[i := r][1..] == s[1..];
    } else {
      assert s[i := r][1..] == s[1..][i - 1 := r];
      TotalUpdate(s[1..], i - 1, r);
    }
  }

  lemma {:induction false} TotalWithout<P>(s: seq<Run<P>>, i: int)
    requires 0 <= i < |s|
    ensures Total(Without(s, i)) == Total(s) - s[i].count
  {
    if i == 0 {
      assert Without(s, i) == s[1..];
    } else {
      assert Without(s, i)[1..] == Without(s[1..], i - 1);
      TotalWithout(s[1..], i - 1);
    }
  }

  // Removing element i: what the remaining list covers.
  lemma CoversWithout<P>(s: seq<Run<P>>, i: int, x: int)
    requires 0 <= i < |s| && Apart(s)
    ensures Covers(Without(s, i), x) <==> Covers(s, x) && !In(s[i], x)
  {
    var t := Without(s, i);
    if Covers(s, x) && !In(s[i], x) {
      var k :| 0 <= k < |s| && In(s[k], x);
      assert s[k] == t[if k < i then k else k - 1];
    }
    if Covers(t, x) {
      var k :| 0 <= k < |t| && In(t[k], x);
      var k' := if k < i then k else k + 1;
      assert t[k] == s[k'];
      assert Clear(s[if k' < i then k' else i], s[if k' < i then i else k']);
    }
  }

  lemma CoversUpdate<P>(s: seq<Run<P>>, i: int, r: Run<P>, x: int)
    requires 0 <= i < |s| && Apart(s)
    ensures Covers(s[i := r], x) <==> In(r, x) || (Covers(s, x) && !In(s[i], x))
  {
    var t := s[i := r];
    if In(r, x) {
      assert In(t[i], x);
    }
    if Covers(s, x) && !In(s[i], x) {
      var k :| 0 <= k < |s| && In(s[k], x);
      assert t[k] == s[k];
    }
    if Covers(t, x) && !In(r, x) {
      var k :| 0 <= k < |t| && In(t[k], x);
      assert t[k] == s[k];
      assert Clear(s[if k < i then k else i], s[if k < i then i else k]);
    }
  }

  lemma CoversCons<P>(r: Run<P>, s: seq<Run<P>>, x: int)
    ensures Covers([r] + s, x) <==> In(r, x) || Covers(s, x)
  {
    var t := [r] + s;
    if In(r, x) {
      assert In(t[0], x);
    }
    if Covers(s, x) {
      var k :| 0 <= k < |s| && In(s[k], x);
      assert t[k + 1] == s[k];
    }
    if Covers(t, x) && !In(r, x) {
      var k :| 0 <= k < |t| && In(t[k], x);
      assert t[k] == s[k - 1];
    }
  }

  lemma CoveredInside<P>(s: seq<Run<P>>, lo: int, hi: int, x: int)
    requires Sized(s, lo, hi) && Covers(s, x)
    ensures lo <= x < hi
  {
  }

  // ---------------------------------------------------------------- the three splices of MergeNode

  ghost predicate Joins<P>(r: Run<P>, a: Run<P>, b: Run<P>) {
    && Touch(a, b) && r.count == a.count + b.count
    && r.start == (if a.start < b.start then a.start else b.start)
    && r.end == (if a.start < b.start then b.end else a.end)
  }

  /** Widening run i of s over the neighbouring run p. */
  lemma Widen<P>(s: seq<Run<P>>, i: int, p: Run<P>, r: Run<P>, lo: int, hi: int)
    requires 0 <= i < |s| && FreeList(s, lo, hi) && Fits(p, lo, hi) && Joins(r, s[i], p)
    requires forall k | 0 <= k < |s| :: Clear(s[k], p)
    ensures Sized(s[i := r], lo, hi) && Apart(s[i := r])
    ensures Total(s[i := r]) == Total(s) + p.count
    ensures forall x :: Covers(s[i := r], x) <==> Covers(s, x) || In(p, x)
    ensures forall j, k | 0 <= j < k < |s| && j != i && k != i :: !Touch(s[j], s[k])
    ensures forall k | 0 <= k < |s| && k != i :: Touch(s[k], r) ==> Touch(s[k], p)
  {
    TotalUpdate(s, i, r);
    forall x
      ensures Covers(s[i := r], x) <==> Covers(s, x) || In(p, x)
    {
      CoversUpdate(s, i, r, x);
      if In(s[i], x) {
        assert Covers(s, x);
      }
    }
    forall k | 0 <= k < |s| && k != i
      ensures Clear(s[k], r) && (Touch(s[k], r) ==> Touch(s[k], p))
    {
      assert Clear(s[if k < i then k else i], s[if k < i then i else k]);
      assert !Touch(s[if k < i then k else i], s[if k < i then i else k]);
      assert Fits(s[k], lo, hi) && Fits(s[i], lo, hi);
    }
  }

  /** Run j of s swallows its neighbour i, which leaves the list. */
  lemma Swallow<P>(s: seq<Run<P>>, i: int, j: int, r: Run<P>, lo: int, hi: int)
    requires 0 <= i < |s| && 0 <= j < |s| && i != j
    requires Sized(s, lo, hi) && Apart(s) && Joins(r, s[j], s[i])
    ensures var t := Without(s[j := r], i);
            && Sized(t, lo, hi) && Apart(t) && Total(t) == Total(s)
            && (forall x :: Covers(t, x) <==> Covers(s, x))
  {
    var u := s[j := r];
    var t := Without(u, i);
    TotalUpdate(s, j, r);
    TotalWithout(u, i);
    SwallowApart(s, i, j, r, lo, hi);
    forall x
      ensures Covers(t, x) <==> Covers(s, x)
    {
      SwallowCovers(s, i, j, r, x);
    }
  }

  lemma SwallowApart<P>(s: seq<Run<P>>, i: int, j: int, r: Run<P>, lo: int, hi: int)
    requires 0 <= i < |s| && 0 <= j < |s| && i != j
    requires Sized(s, lo, hi) && Apart(s) && Joins(r, s[j], s[i])
    ensures Sized(Without(s[j := r], i), lo, hi) && Apart(Without(s[j := r], i))
  {
  }

  lemma SwallowCovers<P>(s: seq<Run<P>>, i: int, j: int, r: Run<P>, x: int)
    requires 0 <= i < |s| && 0 <= j < |s| && i != j && Joins(r, s[j], s[i])
    requires s[i].start < s[i].end && s[j].start < s[j].end
    ensures Covers(Without(s[j := r], i), x) <==> Covers(s, x)
  {
    var u := s[j := r];
    var t := Without(u, i);
    var j' := if j < i then j else j - 1;
    assert t[j'] == r;
    if Covers(s, x) {
      var k :| 0 <= k < |s| && In(s[k], x);
      if k == i || k == j {
        assert In(t[j'], x);
      } else {
        assert t[if k < i then k else k - 1] == s[k];
      }
    }
    if Covers(t, x) {
      var k :| 0 <= k < |t| && In(t[k], x);
      if k == j' {
        assert In(s[i], x) || In(s[j], x);
      } else {
        assert t[k] == s[if k < i then k else k + 1];
      }
    }
  }

  // ---------------------------------------------------------------- canonical form

  /** Between two nodes of a free list there is at least one page that is not free. */
  lemma Gap<P>(s: seq<Run<P>>, i: int, j: int, lo: int, hi: int)
    requires FreeList(s, lo, hi) && 0 <= i < |s| && 0 <= j < |s| && i != j
    ensures s[i].end < s[j].start || s[j].end < s[i].start
  {
  }

  /** A contiguous free run lies inside one node, because neighbours are always joined. */
  lemma {:induction false} RunInOneNode<P>(s: seq<Run<P>>, lo: int, hi: int, a: int, n: int) returns (i: int)
    requires FreeList(s, lo, hi) && 1 <= n && FreeRun(s, a, n)
    ensures 0 <= i < |s| && s[i].start <= a && a + n <= s[i].end && n <= s[i].count
    decreases n
  {
    var last := a + n - 1;
    assert Covers(s, last);
    i :| 0 <= i < |s| && In(s[i], last);
    assert Fits(s[i], lo, hi);
    if n > 1 {
      var j := RunInOneNode(s, lo, hi, a, n - 1);
      if i != j {
        Gap(s, i, j, lo, hi);
      }
    }
  }

  /** The free list holds exactly the maximal runs of the free set. */
  lemma NodesAreMaximalRuns<P>(s: seq<Run<P>>, lo: int, hi: int, a: int, b: int)
    requires FreeList(s, lo, hi)
    ensures MaximalRun(s, a, b) <==> HasNode(s, a, b)
  {
    if MaximalRun(s, a, b) {
      var i := RunInOneNode(s, lo, hi, a, b - a);
      assert s[i].start < a ==> In(s[i], a - 1);
      assert b < s[i].end ==> In(s[i], b);
    }
    if HasNode(s, a, b) {
      var i :| 0 <= i < |s| && s[i].start == a && s[i].end == b;
      forall x | a <= x < b
        ensures Covers(s, x)
      {
        assert In(s[i], x);
      }
      assert Fits(s[i], lo, hi);
      forall j | 0 <= j < |s|
        ensures !In(s[j], a - 1) && !In(s[j], b)
      {
        if i != j {
          Gap(s, i, j, lo, hi);
        }
      }
    }
  }

  /** Two free lists over the same free pages have the same nodes, whatever their history. */
  lemma CanonicalForm<P>(s: seq<Run<P>>, t: seq<Run<P>>, lo: int, hi: int)
    requires FreeList(s, lo, hi) && FreeList(t, lo, hi)
    requires forall x :: Covers(s, x) <==> Covers(t, x)
    ensures forall a, b :: HasNode(s, a, b) <==> HasNode(t, a, b)
  {
    forall a, b
      ensures HasNode(s, a, b) <==> HasNode(t, a, b)
    {
      NodesAreMaximalRuns(s, lo, hi, a, b);
      NodesAreMaximalRuns(t, lo, hi, a, b);
      assert MaximalRun(s, a, b) <==> MaximalRun(t, a, b);
    }
  }

  /** The nodes of the free list are determined by the runs in use. */
  lemma UsedDeterminesFree<P>(s: seq<Run<P>>, t: seq<Run<P>>, used: seq<Run<P>>, lo: int, hi: int)
    requires FreeList(s, lo, hi) && FreeList(t, lo, hi)
    requires forall x | lo <= x < hi :: Covers(used, x) <==> !Covers(s, x)
    requires forall x | lo <= x < hi :: Covers(used, x) <==> !Covers(t, x)
    ensures forall a, b :: HasNode(s, a, b) <==> HasNode(t, a, b)
  {
    forall x
      ensures Covers(s, x) <==> Covers(t, x)
    {
      if Covers(s, x) {
        CoveredInside(s, lo, hi, x);
      }
      if Covers(t, x) {
        CoveredInside(t, lo, hi, x);
      }
    }
    CanonicalForm(s, t, lo, hi);
  }

  // ---------------------------------------------------------------- the two lists of a region or pool

  /** The free list and the list of runs in use over the pages [lo, hi). The tail sentinels
      of the C lists, which no search condition can match, are not represented. */
  class NodeLists<P> {
    var free: seq<Run<P>>
    var used: seq<Run<P>>
    ghost const lo: int
    ghost const hi: int

    /** Free and used runs partition [lo, hi), and neighbouring free runs are always joined. */
    ghost predicate Valid()
      reads this
    {
      && FreeList(free, lo, hi)
      && Sized(used, lo, hi) && Apart(used)
      && (forall x | lo <= x < hi :: Covers(used, x) <==> !Covers(free, x))
      && Total(free) + Total(used) == hi - lo
    }

    /** One iteration of CreateNode, or PageCreateNode: a single free run. */
    constructor (start: int, end: int, count: int, tag: P)
      requires start < end && count == end - start
      ensures Valid() && lo == start && hi == end
      ensures free == [Run(start, end, count, tag)] && used == []
    {
      free := [Run(start, end, count, tag)];
      used := [];
      lo := start;
      hi := end;
      new;
      assert free[1..] == [];
      forall x | lo <= x < hi
        ensures Covers(free, x)
      {
        assert In(free[0], x);
      }
    }

    /** FindFreeNode: the first free node, in list order, that is long enough. Failure means
        that the region has no n consecutive free pages at all. */
    method FindFreeNode(n: int) returns (k: int)
      requires Valid() && 1 <= n
      ensures k < 0 <==> !exists a :: FreeRun(free, a, n)
      ensures 0 <= k ==> k < |free| && n <= free[k].count
      ensures forall i | 0 <= i < |free| && (i < k || k < 0) :: free[i].count < n
    {
      k := 0;
      while k < |free|
        invariant 0 <= k <= |free|
        invariant forall i | 0 <= i < k :: free[i].count < n
      {
        if free[k].count >= n {
          NodeIsFreeRun(free, k, n, lo, hi);
          return;
        }
        k := k + 1;
      }
      if a :| FreeRun(free, a, n) {
        var _ := RunInOneNode(free, lo, hi, a, n);
      }
      k := -1;
    }

    /** SplitFreeNode: carve the first n pages off free node k; the new node heads `used`. */
    method SplitFreeNode(k: int, n: int)
      requires Valid() && 0 <= k < |free| && 1 <= n <= free[k].count
      modifies this
      ensures Valid()
      ensures free == Carve(old(free), k, n)
      ensures var node := old(free[k]);
              && used == [Run(node.start, node.start + n, n, node.tag)] + old(used)
              && (forall x :: Covers(free, x) <==> old(Covers(free, x)) && !In(used[0], x))
              && (forall x | In(used[0], x) :: old(Covers(free, x)))
    {
      var node := free[k];
      var piece := Run(node.start, node.start + n, n, node.tag);
      used := [piece] + used;
      if node.count - n == 0 {
        free := Without(free, k);
      } else {
        free := free[k := Run(piece.end, node.end, node.count - n, node.tag)];
      }
      Carved(old(free), free, k, piece, lo, hi);
      UsedGrows(old(used), old(free), piece, lo, hi);
      forall x | lo <= x < hi
        ensures Covers(used, x) <==> !Covers(free, x)
      {
        CoversCons(piece, old(used), x);
      }
      assert used[1..] == old(used);
    }

    /** MergeNode: join p to a neighbouring free node, and then that node to the free node
        on the other side, wherever the two stand in the list. */
    method MergeNode(p: Run<P>) returns (merged: bool)
      requires FreeList(free, lo, hi) && Fits(p, lo, hi)
      requires forall i | 0 <= i < |free| :: Clear(free[i], p)
      modifies this`free
      ensures merged <==> exists i | 0 <= i < |old(free)| :: Touch(old(free)[i], p)
      ensures !merged ==> free == old(free)
      ensures merged ==> FreeList(free, lo, hi) && Total(free) == old(Total(free)) + p.count
      ensures merged ==> forall x :: Covers(free, x) <==> old(Covers(free, x)) || In(p, x)
      ensures merged ==> Inserted(old(free), p, free)
    {
      ghost var s := free;
      var i := 0;
      while i < |free|
        invariant 0 <= i <= |free| && free == s
        invariant forall k | 0 <= k < i :: !Touch(s[k], p)
      {
        var node := free[i];
        if node.end == p.start {
          // p continues node i; then look for the node behind p
          var wide := node.(end := p.end, count := node.count + p.count);
          free := free[i := wide];
          MergeBehind(i, p, s);
          return true;
        } else if node.start == p.end {
          // node i continues p; then look for the node in front of p
          var wide := node.(start := p.start, count := node.count + p.count);
          free := free[i := wide];
          MergeInFront(i, p, s);
          return true;
        }
        i := i + 1;
      }
      return false;
    }

    /** The inner loop of MergeNode after node i took p at its end: the node that starts
        where p ends, if there is one, absorbs node i. */
    method MergeBehind(i: int, p: Run<P>, ghost s: seq<Run<P>>)
      requires FreeList(s, lo, hi) && Fits(p, lo, hi) && 0 <= i < |s| && s[i].end == p.start
      requires forall k | 0 <= k < |s| :: Clear(s[k], p)
      requires free == s[i := s[i].(end := p.end, count := s[i].count + p.count)]
      modifies this`free
      ensures FreeList(free, lo, hi) && Total(free) == Total(s) + p.count && Merged(s, p, i, free)
      ensures forall x :: Covers(free, x) <==> Covers(s, x) || In(p, x)
    {
      hide FreeList, Covers, Merged, Total;
      InExtent(s, i, lo, hi);
      var wide := free[i];
      ghost var w := free;
      var j := 0;
      while j < |free|
        invariant 0 <= j <= |free| && free == w
        invariant forall k | 0 <= k < j :: w[k].start != wide.end
      {
        if free[j].start == wide.end {
          MergedBoth(s, p, i, j, wide, lo, hi);
          BothSides(s, i, j, p, wide, lo, hi);
          free := Without(free[j := free[j].(start := wide.start, count := free[j].count + wide.count)], i);
          return;
        }
        j := j + 1;
      }
      MergedOne(s, w, p, i, wide, lo, hi);
      OneSide(s, w, i, p, wide, lo, hi);
    }

    /** The mirror image: node i took p at its start. */
    method MergeInFront(i: int, p: Run<P>, ghost s: seq<Run<P>>)
      requires FreeList(s, lo, hi) && Fits(p, lo, hi) && 0 <= i < |s| && s[i].start == p.end
      requires forall k | 0 <= k < |s| :: Clear(s[k], p)
      requires free == s[i := s[i].(start := p.start, count := s[i].count + p.count)]
      modifies this`free
      ensures FreeList(free, lo, hi) && Total(free) == Total(s) + p.count && Merged(s, p, i, free)
      ensures forall x :: Covers(free, x) <==> Covers(s, x) || In(p, x)
    {
      hide FreeList, Covers, Merged, Total;
      InExtent(s, i, lo, hi);
      var wide := free[i];
      ghost var w := free;
      var j := 0;
      while j < |free|
        invariant 0 <= j <= |free| && free == w
        invariant forall k | 0 <= k < j :: w[k].end != wide.start
      {
        if free[j].end == wide.start {
          MergedBoth(s, p, i, j, wide, lo, hi);
          BothSides(s, i, j, p, wide, lo, hi);
          free := Without(free[j := free[j].(end := wide.end, count := free[j].count + wide.count)], i);
          return;
        }
        j := j + 1;
      }
      MergedOne(s, w, p, i, wide, lo, hi);
      OneSide(s, w, i, p, wide, lo, hi);
    }

    /** InsertNode(free): node k leaves `used` and its pages become free again. */
    method InsertFree(k: int)
      requires Valid() && 0 <= k < |used|
      modifies this
      ensures Valid()
      ensures used == Without(old(used), k)
      ensures forall x :: Covers(free, x) <==> old(Covers(free, x)) || In(old(used[k]), x)
      ensures Inserted(old(free), old(used[k]), free)
    {
      var p := used[k];
      UsedIsClear(free, used, k, lo, hi);
      var merged := MergeNode(p);
      used := Without(used, k);
      if !merged {
        free := [p] + free;
        Prepended(old(free), p, lo, hi);
      }
      TotalWithout(old(used), k);
      Kept(old(used), k, lo, hi);
      forall x | lo <= x < hi
        ensures Covers(used, x) <==> !Covers(free, x)
      {
        CoversWithout(old(used), k, x);
        if In(p, x) {
          assert Covers(old(used), x);
        }
      }
    }

    /** Writing the descriptive fields of a used node. */
    method TagUsed(k: int, tag: P)
      requires Valid() && 0 <= k < |used|
      modifies this`used
      ensures Valid()
      ensures used == old(used)[k := old(used[k]).(tag := tag)]
      ensures forall x :: Covers(used, x) <==> old(Covers(used, x))
    {
      used := used[k := used[k].(tag := tag)];
      Retagged(old(used), used, k, lo, hi);
    }

    /** Writing the descriptive fields of a free node. */
    method TagFree(k: int, tag: P)
      requires Valid() && 0 <= k < |free|
      modifies this`free
      ensures Valid()
      ensures free == old(free)[k := old(free[k]).(tag := tag)]
      ensures forall x :: Covers(free, x) <==> old(Covers(free, x))
    {
      free := free[k := free[k].(tag := tag)];
      Retagged(old(free), free, k, lo, hi);
    }
  }

  // ---------------------------------------------------------------- what the methods rely on

  lemma NodeIsFreeRun<P>(s: seq<Run<P>>, k: int, n: int, lo: int, hi: int)
    requires Sized(s, lo, hi) && 0 <= k < |s| && n <= s[k].count
    ensures FreeRun(s, s[k].start, n)
  {
  }

  lemma Carved<P>(s: seq<Run<P>>, t: seq<Run<P>>, k: int, piece: Run<P>, lo: int, hi: int)
    requires FreeList(s, lo, hi) && 0 <= k < |s|
    requires piece.start == s[k].start && Fits(piece, lo, hi) && piece.end <= s[k].end
    requires t == if piece.end == s[k].end then Without(s, k)
                  else s[k := s[k].(start := piece.end, count := s[k].count - piece.count)]
    ensures FreeList(t, lo, hi) && Total(t) == Total(s) - piece.count
    ensures forall x :: Covers(t, x) <==> Covers(s, x) && !In(piece, x)
    ensures forall x | In(piece, x) :: Covers(s, x)
  {
    assert Fits(s[k], lo, hi);
    if piece.end == s[k].end {
      CarvedAll(s, k, lo, hi);
    } else {
      CarvedPart(s, t[k], k, piece, lo, hi);
    }
    forall x | In(piece, x)
      ensures Covers(s, x)
    {
      assert In(s[k], x);
    }
  }

  lemma CarvedAll<P>(s: seq<Run<P>>, k: int, lo: int, hi: int)
    requires FreeList(s, lo, hi) && 0 <= k < |s|
    ensures FreeList(Without(s, k), lo, hi) && Total(Without(s, k)) == Total(s) - s[k].count
    ensures forall x :: Covers(Without(s, k), x) <==> Covers(s, x) && !In(s[k], x)
  {
    hide Total;
    var t := Without(s, k);
    TotalWithout(s, k);
    Kept(s, k, lo, hi);
    forall i, j | 0 <= i < j < |t|
      ensures !Touch(t[i], t[j])
    {
      assert t[i] == s[if i < k then i else i + 1] && t[j] == s[if j < k then j else j + 1];
    }
    forall x
      ensures Covers(t, x) <==> Covers(s, x) && !In(s[k], x)
    {
      CoversWithout(s, k, x);
    }
  }

  lemma CarvedPart<P>(s: seq<Run<P>>, r: Run<P>, k: int, piece: Run<P>, lo: int, hi: int)
    requires FreeList(s, lo, hi) && 0 <= k < |s| && Fits(piece, lo, hi)
    requires piece.start == s[k].start && piece.end < s[k].end
    requires r == s[k].(start := piece.end, count := s[k].count - piece.count)
    ensures FreeList(s[k := r], lo, hi) && Total(s[k := r]) == Total(s) - piece.count
    ensures forall x :: Covers(s[k := r], x) <==> Covers(s, x) && !In(piece, x)
  {
    TotalUpdate(s, k, r);
    assert Fits(s[k], lo, hi);
    forall i | 0 <= i < |s| && i != k
      ensures Clear(s[i], r) && !Touch(s[i], r)
    {
      Gap(s, i, k, lo, hi);
    }
    forall x
      ensures Covers(s[k := r], x) <==> Covers(s, x) && !In(piece, x)
    {
      CoversUpdate(s, k, r, x);
      if In(r, x) {
        assert In(s[k], x);
      }
    }
  }

  lemma UsedGrows<P>(used: seq<Run<P>>, free: seq<Run<P>>, piece: Run<P>, lo: int, hi: int)
    requires Sized(used, lo, hi) && Apart(used) && Fits(piece, lo, hi)
    requires forall x | lo <= x < hi :: Covers(used, x) <==> !Covers(free, x)
    requires forall x | In(piece, x) :: Covers(free, x)
    ensures Sized([piece] + used, lo, hi) && Apart([piece] + used)
  {
    forall i | 0 <= i < |used|
      ensures Clear(piece, used[i])
    {
      assert Fits(used[i], lo, hi);
      if !Clear(piece, used[i]) {
        var x := if piece.start < used[i].start then used[i].start else piece.start;
        assert In(piece, x) && In(used[i], x);
        assert Covers(used, x);
      }
    }
  }

  lemma UsedIsClear<P>(free: seq<Run<P>>, used: seq<Run<P>>, k: int, lo: int, hi: int)
    requires Sized(free, lo, hi) && Sized(used, lo, hi) && 0 <= k < |used|
    requires forall x | lo <= x < hi :: Covers(used, x) <==> !Covers(free, x)
    ensures Fits(used[k], lo, hi) && forall i | 0 <= i < |free| :: Clear(free[i], used[k])
  {
    assert Fits(used[k], lo, hi);
    forall i | 0 <= i < |free|
      ensures Clear(free[i], used[k])
    {
      assert Fits(free[i], lo, hi);
      if !Clear(free[i], used[k]) {
        var x := if free[i].start < used[k].start then used[k].start else free[i].start;
        assert In(free[i], x) && In(used[k], x);
        assert Covers(used, x) && Covers(free, x);
      }
    }
  }

  lemma Kept<P>(s: seq<Run<P>>, k: int, lo: int, hi: int)
    requires Sized(s, lo, hi) && Apart(s) && 0 <= k < |s|
    ensures Sized(Without(s, k), lo, hi) && Apart(Without(s, k))
  {
  }

  lemma Prepended<P>(s: seq<Run<P>>, p: Run<P>, lo: int, hi: int)
    requires FreeList(s, lo, hi) && Fits(p, lo, hi)
    requires forall i | 0 <= i < |s| :: Clear(s[i], p) && !Touch(s[i], p)
    ensures FreeList([p] + s, lo, hi) && Total([p] + s) == Total(s) + p.count
    ensures forall x :: Covers([p] + s, x) <==> Covers(s, x) || In(p, x)
  {
    var t := [p] + s;
    assert t[1..] == s;
    forall i, j | 0 <= i < j < |t|
      ensures Clear(t[i], t[j]) && !Touch(t[i], t[j])
    {
      assert t[j] == s[j - 1];
      if i > 0 {
        assert t[i] == s[i - 1];
      }
    }
    forall x
      ensures Covers(t, x) <==> Covers(s, x) || In(p, x)
    {
      CoversCons(p, s, x);
    }
  }

  lemma Retagged<P>(s: seq<Run<P>>, t: seq<Run<P>>, k: int, lo: int, hi: int)
    requires 0 <= k < |s| == |t| && t == s[k := s[k].(tag := t[k].tag)]
    ensures Sized(s, lo, hi) ==> Sized(t, lo, hi)
    ensures Apart(s) ==> Apart(t)
    ensures Coalesced(s) ==> Coalesced(t)
    ensures Total(t) == Total(s)
    ensures forall x :: Covers(t, x) <==> Covers(s, x)
  {
    TotalUpdate(s, k, t[k]);
    forall x
      ensures Covers(t, x) <==> Covers(s, x)
    {
      if Covers(s, x) {
        var i :| 0 <= i < |s| && In(s[i], x);
        assert In(t[i], x);
      }
      if Covers(t, x) {
        var i :| 0 <= i < |t| && In(t[i], x);
        assert In(s[i], x);
      }
    }
    if Sized(s, lo, hi) {
      forall i | 0 <= i < |t|
        ensures Fits(t[i], lo, hi)
      {
        assert Fits(s[i], lo, hi);
      }
    }
    if Apart(s) {
      forall i, j | 0 <= i < j < |t|
        ensures Clear(t[i], t[j])
      {
        assert Clear(s[i], s[j]);
      }
    }
    if Coalesced(s) {
      forall i, j | 0 <= i < j < |t|
        ensures !Touch(t[i], t[j])
      {
        assert !Touch(s[i], s[j]);
      }
    }
  }

  lemma InExtent<P>(s: seq<Run<P>>, i: int, lo: int, hi: int)
    requires FreeList(s, lo, hi) && 0 <= i < |s|
    ensures Fits(s[i], lo, hi)
  {
  }

  /** The node on the other side of p is the only one there. */
  lemma MergedBoth<P>(s: seq<Run<P>>, p: Run<P>, i: int, j: int, r: Run<P>, lo: int, hi: int)
    requires FreeList(s, lo, hi) && Fits(p, lo, hi) && 0 <= i < |s| && 0 <= j < |s|
    requires if s[i].end == p.start then r == s[i].(end := p.end, count := s[i].count + p.count)
             else s[i].start == p.end && r == s[i].(start := p.start, count := s[i].count + p.count)
    requires if s[i].end == p.start then s[i := r][j].start == r.end else s[i := r][j].end == r.start
    ensures i != j
    ensures var q := if s[i].end == p.start then s[j].(start := r.start, count := s[j].count + r.count)
                     else s[j].(end := r.end, count := s[j].count + r.count);
            Merged(s, p, i, Without(s[i := r][j := q], i))
  {
    assert Fits(s[i], lo, hi) && Fits(s[j], lo, hi);
    assert i != j;
    var q := if s[i].end == p.start then s[j].(start := r.start, count := s[j].count + r.count)
             else s[j].(end := r.end, count := s[j].count + r.count);
    assert Without(s[i := r][j := q], i) == Without(s[j := q], i);
    forall k | 0 <= k < |s| && (if s[i].end == p.start then s[k].start == p.end else s[k].end == p.start)
      ensures k == j
    {
      assert Fits(s[k], lo, hi);
    }
  }

  /** There is none, going by the list with node i widened. */
  lemma MergedOne<P>(s: seq<Run<P>>, w: seq<Run<P>>, p: Run<P>, i: int, r: Run<P>, lo: int, hi: int)
    requires FreeList(s, lo, hi) && Fits(p, lo, hi) && 0 <= i < |s|
    requires if s[i].end == p.start then r == s[i].(end := p.end, count := s[i].count + p.count)
             else s[i].start == p.end && r == s[i].(start := p.start, count := s[i].count + p.count)
    requires w == s[i := r]
    requires forall k | 0 <= k < |w| :: if s[i].end == p.start then w[k].start != r.end else w[k].end != r.start
    ensures Merged(s, p, i, w)
  {
    assert Fits(s[i], lo, hi);
    forall k | 0 <= k < |s|
      ensures if s[i].end == p.start then s[k].start != p.end else s[k].end != p.start
    {
      assert k != i ==> w[k] == s[k];
    }
  }

  /** Node i of s was widened over p and no other node touches the result. */
  lemma OneSide<P>(s: seq<Run<P>>, w: seq<Run<P>>, i: int, p: Run<P>, r: Run<P>, lo: int, hi: int)
    requires 0 <= i < |s| && FreeList(s, lo, hi) && Fits(p, lo, hi) && Joins(r, s[i], p)
    requires w == s[i := r] && forall k | 0 <= k < |s| :: Clear(s[k], p)
    requires forall k | 0 <= k < |w| && k != i ::
               if s[i].end == p.start then w[k].start != r.end else w[k].end != r.start
    ensures FreeList(w, lo, hi) && Total(w) == Total(s) + p.count
    ensures forall x :: Covers(w, x) <==> Covers(s, x) || In(p, x)
  {
    Widen(s, i, p, r, lo, hi);
    assert Fits(s[i], lo, hi);
    forall k | 0 <= k < |s| && k != i
      ensures !Touch(w[k], r)
    {
      Gap(s, k, i, lo, hi);
      assert Fits(s[k], lo, hi) && w[k] == s[k];
    }
  }

  /** Node i of s was widened over p, and node j continues it on the other side. */
  lemma BothSides<P>(s: seq<Run<P>>, i: int, j: int, p: Run<P>, r: Run<P>, lo: int, hi: int)
    requires 0 <= i < |s| && 0 <= j < |s| && FreeList(s, lo, hi) && Fits(p, lo, hi) && Joins(r, s[i], p)
    requires forall k | 0 <= k < |s| :: Clear(s[k], p)
    requires if s[i].end == p.start then s[i := r][j].start == r.end else s[i := r][j].end == r.start
    ensures i != j
    ensures var q := if s[i].end == p.start then s[j].(start := r.start, count := s[j].count + r.count)
                     else s[j].(end := r.end, count := s[j].count + r.count);
            var t := Without(s[i := r][j := q], i);
            && FreeList(t, lo, hi) && Total(t) == Total(s) + p.count
            && (forall x :: Covers(t, x) <==> Covers(s, x) || In(p, x))
  {
    assert Fits(s[i], lo, hi);
    assert i != j;
    var q := if s[i].end == p.start then s[j].(start := r.start, count := s[j].count + r.count)
             else s[j].(end := r.end, count := s[j].count + r.count);
    Widen(s, i, p, r, lo, hi);
    Swallow(s[i := r], i, j, q, lo, hi);
    var t := Without(s[i := r][j := q], i);
    forall a, b | 0 <= a < b < |t|
      ensures !Touch(t[a], t[b])
    {
      var a', b' := if a < i then a else a + 1, if b < i then b else b + 1;
      assert t[a] == (if a' == j then q else s[a']) && t[b] == if b' == j then q else s[b'];
      if a' == j || b' == j {
        var k := if a' == j then b' else a';
        Gap(s, k, i, lo, hi);
        Gap(s, k, j, lo, hi);
      }
    }
  }

  /** Once nothing is in use, whatever was allocated and returned and in whatever order, the
      free list is again the single run the region started with. */
  lemma AllReturned<P>(free: seq<Run<P>>, lo: int, hi: int)
    requires FreeList(free, lo, hi) && lo < hi
    requires forall x | lo <= x < hi :: Covers(free, x)
    ensures |free| == 1 && free[0].start == lo && free[0].end == hi && free[0].count == hi - lo
  {
    var i := RunInOneNode(free, lo, hi, lo, hi - lo);
    assert Fits(free[i], lo, hi);
    if |free| > 1 {
      var j := if i == 0 then 1 else 0;
      assert Fits(free[j], lo, hi);
      Gap(free, i, j, lo, hi);
    }
  }
}
