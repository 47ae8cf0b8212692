/** Runs of virtual pages in the four-level tables: how the table indices move from one page to
    the next, how many tables a run can need, and what mapping or unmapping a run means. */
module PageRange {
  import opened Common
  import opened PageTree

  // ---------------------------------------------------------------- pages in sequence

  /** Consecutive pages: while the PD0 index stays the same the block does, and the entry is
      the next one; otherwise the next block begins. */
  lemma NextPage(v: int)
    requires 1 <= v < PAGES
    ensures var p, q := PageOf(v - 1), PageOf(v);
            if q.block.index == p.block.index then q == Page(p.block, p.index + 1) && v / 512 == (v - 1) / 512
            else v / 512 == (v - 1) / 512 + 1 && q.block != p.block
  {
    var d, e := (v - 1) / 512, v / 512;
    assert d <= e <= d + 1;
    if d == e {
      SlotOfBlock(v);
      SlotOfBlock(v - 1);
    } else {
      assert d % 512 != e % 512;
    }
  }

  lemma SlotOfBlock(v: int)
    requires 0 <= v
    ensures v / 0x4_0000 == v / 512 / 512
  {
  }

  lemma PageDigits(v: int)
    requires 0 <= v < PAGES
    ensures var p := PageOf(v);
            && p.index == v % 512 && p.block.index == v / 512 % 512 && p.block.slot == v / 0x4_0000
            && 0 <= p.index < 512 && 0 <= p.block.index < 512 && 0 <= p.block.slot < 1024
            && v == p.block.slot * 0x4_0000 + p.block.index * 512 + p.index
  {
  }

  lemma PageOfInjective(v: int, w: int)
    requires 0 <= v < PAGES && 0 <= w < PAGES && PageOf(v) == PageOf(w)
    ensures v == w
  {
    PageDigits(v);
    PageDigits(w);
  }

  lemma PageNumber(t: Tree, p: Page) returns (v: int)
    requires Owned(t) && p in t.view
    ensures 0 <= v < PAGES && PageOf(v) == p
  {
    assert HasPt(t, p) && HasPd0(t, p.block);
    v := p.block.slot * 0x4_0000 + p.block.index * 512 + p.index;
    assert v / 512 == p.block.slot * 512 + p.block.index;
    SlotOfBlock(v);
  }

  /** The number of blocks and slots that the n pages from start on touch. */
  function Touched(start: int, n: int): int {
    if n == 0 then 0
    else ((start + n - 1) / 512 - start / 512 + 1) + ((start + n - 1) / 0x4_0000 - start / 0x4_0000 + 1)
  }

  /** It counts the different blocks and the different slots. */
  lemma TouchedIsCount(start: int, n: int)
    requires 0 <= start && 1 <= n
    ensures Touched(start, n) ==
            |set v | start <= v < start + n :: v / 512| + |set v | start <= v < start + n :: v / 0x4_0000|
  {
    Numbered(start, n, 512);
    Numbered(start, n, 0x4_0000);
  }

  lemma {:induction false} Numbered(start: int, n: int, d: int)
    requires 0 <= start && 1 <= n && 1 <= d
    ensures |set v | start <= v < start + n :: v / d| == (start + n - 1) / d - start / d + 1
  {
    var s := set v | start <= v < start + n :: v / d;
    var last := start + n - 1;
    if n == 1 {
      assert s == {start / d};
    } else {
      Numbered(start, n - 1, d);
      var less := set v | start <= v < start + n - 1 :: v / d;
      assert s == less + {last / d};
      NextQuotient(last, d);
      if last / d == (last - 1) / d {
        assert (last - 1) / d in less;
        assert s == less;
      } else {
        forall v | start <= v < last
          ensures v / d != last / d
        {
          InOrder(v, last - 1, d);
        }
        assert last / d !in less;
      }
    }
  }
  lemma NextQuotient(x: int, d: int)
    requires 1 <= x && 1 <= d
    ensures x / d == (x - 1) / d || x / d == (x - 1) / d + 1
  {
    var a, b := x / d, (x - 1) / d;
    assert x == d * a + x % d && x - 1 == d * b + (x - 1) % d;
    assert d * (b + 2) == d * b + 2 * d && d * (a + 1) == d * a + d;
    Cancel(d, a, b + 2);
    Cancel(d, b, a + 1);
  }

  lemma InOrder(x: int, y: int, d: int)
    requires 0 <= x <= y && 1 <= d
    ensures x / d <= y / d
  {
    var a, b := x / d, y / d;
    assert x == d * a + x % d && y == d * b + y % d;
    assert d * (b + 1) == d * b + d;
    Cancel(d, a, b + 1);
  }

  lemma Cancel(d: int, a: int, b: int)
    requires 1 <= d && d * a < d * b
    ensures a < b
  {
    assert a >= b ==> d * a >= d * b;
  }

  /** Wherever n pages start, they touch no more than this many blocks and slots; from the last page of
      a slot on they touch as many. */
  function TablesFor(n: int): int {
    (n + 1022) / 512 + (n + 0x7_FFFE) / 0x4_0000
  }

  lemma TouchedBound(start: int, n: int)
    requires 0 <= start && 1 <= n
    ensures 2 <= Touched(start, n) <= TablesFor(n) == Touched(0x3_FFFF, n)
  {
    var a, b := start / 512, start % 512;
    assert (start + n - 1) / 512 == a + (b + n - 1) / 512;
    var c, d := start / 0x4_0000, start % 0x4_0000;
    assert (start + n - 1) / 0x4_0000 == c + (d + n - 1) / 0x4_0000;
  }

  lemma TouchedGrows(start: int, i: int, n: int)
    requires 0 <= start && 0 <= i <= n
    ensures Touched(start, i) <= Touched(start, n)
  {
    if 0 < i {
      assert (start + i - 1) / 512 <= (start + n - 1) / 512;
      assert (start + i - 1) / 0x4_0000 <= (start + n - 1) / 0x4_0000;
    }
  }

  /** Number of tables that GetPageEntry has to allocate for block b. */
  ghost function Needed(t: Tree, b: Block): int {
    (if b.slot in t.dirs then 0 else 1) + if b in t.leaves then 0 else 1
  }

  /** One page further: the tables it can need are paid for by what it touches first. */
  lemma TouchedStep(t: Tree, start: int, i: int)
    requires 0 <= start && 0 <= i && start + i < PAGES && Owned(t)
    requires 0 < i ==> PageOf(start + i - 1).block in t.leaves
    ensures Needed(t, PageOf(start + i).block) <= Touched(start, i + 1) - Touched(start, i)
  {
    if 0 < i {
      var v := start + i;
      NextPage(v);
      SlotOfBlock(v);
      SlotOfBlock(v - 1);
      assert HasPd0(t, PageOf(v - 1).block);
    }
  }

  function BlockNumber(b: Block): int {
    b.slot * 512 + b.index
  }

  /** None of the n pages from start on lies in a block that has a PT. */
  ghost predicate NewBlocks(leaves: map<Block, int>, start: int, n: int) {
    forall v | start <= v < start + n :: PageOf(v).block !in leaves
  }

  /** The blocks in `now` that are not in `before` come no later than the first i pages. */
  ghost predicate Since(before: map<Block, int>, now: map<Block, int>, start: int, i: int) {
    forall b | b in now && b !in before :: 0 < i && BlockNumber(b) <= (start + i - 1) / 512
  }

  /** Only the last block that was touched can be that of the next page; one page further. */
  lemma OnlyTheLast(before: map<Block, int>, now: map<Block, int>, start: int, i: int, n: int)
    requires 0 <= start && 0 <= i < n && start + i < PAGES && NewBlocks(before, start, n)
    requires Since(before, now, start, i)
    ensures var b := PageOf(start + i).block;
            && (b in now ==> 0 < i && b == PageOf(start + i - 1).block)
            && forall later: map<Block, int> | later.Keys == now.Keys + {b} :: Since(before, later, start, i + 1)
  {
    var v := start + i;
    PageDigits(v);
    SlotOfBlock(v);
    if 0 < i {
      NextPage(v);
    }
  }

  // ---------------------------------------------------------------- the effect on the view

  function FrameAt(start: int, buffer: int, lookup: int -> nat, v: int): int {
    Frame(lookup(buffer + (v - start) * 4096))
  }

  /** `after` is `before` with the n pages from start on mapped to the frames of the buffer. */
  ghost predicate Extends(before: map<Page, int>, after: map<Page, int>, start: int, n: int, buffer: int,
                          lookup: int -> nat)
  {
    forall v | 0 <= v < PAGES ::
      Lookup(after, PageOf(v)) ==
      if start <= v < start + n then Some(FrameAt(start, buffer, lookup, v)) else Lookup(before, PageOf(v))
  }

  /** `after` is `before` without the n pages from start on. */
  ghost predicate Removes(before: map<Page, int>, after: map<Page, int>, start: int, n: int)
  {
    forall v | 0 <= v < PAGES ::
      Lookup(after, PageOf(v)) == if start <= v < start + n then None else Lookup(before, PageOf(v))
  }

  lemma ExtendsByOne(before: map<Page, int>, was: map<Page, int>, now: map<Page, int>, start: int, n: int,
                     buffer: int, lookup: int -> nat)
    requires 0 <= start && 0 <= n && start + n < PAGES && Extends(before, was, start, n, buffer, lookup)
    requires now == was[PageOf(start + n) := Frame(lookup(buffer + n * 4096))]
    ensures Extends(before, now, start, n + 1, buffer, lookup)
  {
    assert (start + n) - start == n;
    hide Frame, PageOf;
    forall v | 0 <= v < PAGES && v != start + n
      ensures PageOf(v) != PageOf(start + n)
    {
      if PageOf(v) == PageOf(start + n) {
        PageOfInjective(v, start + n);
      }
    }
  }

  lemma NotYetMapped(before: map<Page, int>, now: map<Page, int>, start: int, i: int, buffer: int, lookup: int -> nat)
    requires Extends(before, now, start, i, buffer, lookup) && 0 <= start && 0 <= i && start + i < PAGES
    requires PageOf(start + i) !in before
    ensures PageOf(start + i) !in now
  {
  }

  lemma StillMapped(before: map<Page, int>, now: map<Page, int>, start: int, i: int)
    requires Removes(before, now, start, i) && 0 <= start && 0 <= i && start + i < PAGES
    requires PageOf(start + i) in before
    ensures PageOf(start + i) in now
  {
  }

  lemma NothingYet(view: map<Page, int>, start: int, buffer: int, lookup: int -> nat)
    ensures Extends(view, view, start, 0, buffer, lookup) && Removes(view, view, start, 0)
  {
  }

  lemma RemovesOneMore(before: map<Page, int>, was: map<Page, int>, now: map<Page, int>, start: int, n: int)
    requires 0 <= start && 0 <= n && start + n < PAGES && Removes(before, was, start, n)
    requires now == was - {PageOf(start + n)}
    ensures Removes(before, now, start, n + 1)
  {
    hide PageOf;
    forall v | 0 <= v < PAGES && v != start + n
      ensures PageOf(v) != PageOf(start + n)
    {
      if PageOf(v) == PageOf(start + n) {
        PageOfInjective(v, start + n);
      }
    }
  }

  lemma ViewExtended(before: map<Page, int>, after: map<Page, int>, start: int, n: int, buffer: int, lookup: int -> nat)
    requires Extends(before, after, start, n, buffer, lookup)
    ensures forall v | 0 <= v < PAGES :: PageOf(v) in after <==> PageOf(v) in before || start <= v < start + n
    ensures forall v | 0 <= v < PAGES && start <= v < start + n ::
              Lookup(after, PageOf(v)) == Some(Frame(lookup(buffer + (v - start) * 4096)))
  {
  }

  lemma ViewReduced(before: map<Page, int>, after: map<Page, int>, start: int, n: int)
    requires Removes(before, after, start, n)
    ensures forall v | 0 <= v < PAGES :: PageOf(v) in after <==> PageOf(v) in before && !(start <= v < start + n)
  {
  }

  lemma RemovesUndoesExtends(t: Tree, mid: map<Page, int>, u: Tree, start: int, n: int, buffer: int, lookup: int -> nat)
    requires Owned(t) && Owned(u) && Extends(t.view, mid, start, n, buffer, lookup) && Removes(mid, u.view, start, n)
    requires forall v | start <= v < start + n :: PageOf(v) !in t.view
    ensures u.view == t.view
  {
    hide PageOf, Owned;
    forall p
      ensures Lookup(u.view, p) == Lookup(t.view, p)
    {
      if p in t.view {
        var v := PageNumber(t, p);
      } else if p in u.view {
        var v := PageNumber(u, p);
      }
    }
    forall p
      ensures p in u.view <==> p in t.view
      ensures p in u.view ==> u.view[p] == t.view[p]
    {
      assert Lookup(u.view, p) == Lookup(t.view, p);
    }
  }
}
