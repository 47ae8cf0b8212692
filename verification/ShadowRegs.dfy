/** The register access of one decoder core: a flush may skip registers whose value has not
    changed since the driver last saw it, going by a shadow copy. */
module ShadowRegs {

  // ---------------------------------------------------------------- the effect of each access

  /** The registers after a flush of `dec`: 3 and up where the filter lets them through, then 2,
      then 1. Register 0 is never written. */
  function Flushed(hw: seq<int>, shadow: seq<int>, dec: seq<int>, filter: bool): (r: seq<int>)
    requires |hw| == |shadow| == |dec|
    ensures |r| == |hw|
    ensures forall i | 0 <= i < |hw| ::
              r[i] == if i == 0 || (3 <= i && filter && dec[i] == shadow[i]) then hw[i] else dec[i]
  {
    seq(|hw|, i requires 0 <= i < |hw| => if i == 0 || (3 <= i && filter && dec[i] == shadow[i]) then hw[i] else dec[i])
  }

  /** The shadow after it. */
  function Shadowed(shadow: seq<int>, dec: seq<int>, filter: bool): (r: seq<int>)
    requires |shadow| == |dec|
    ensures |r| == |shadow|
    ensures forall i | 0 <= i < |shadow| :: r[i] == if i == 0 || (3 <= i && !filter) then shadow[i] else dec[i]
  {
    seq(|shadow|, i requires 0 <= i < |shadow| => if i == 0 || (3 <= i && !filter) then shadow[i] else dec[i])
  }

  /** s with the values v from position `first` on. */
  function Put(s: seq<int>, first: int, v: seq<int>): (r: seq<int>)
    requires 0 <= first && first + |v| <= |s|
    ensures |r| == |s|
    ensures forall i | 0 <= i < |s| :: r[i] == if first <= i < first + |v| then v[i - first] else s[i]
  {
    s[..first] + v + s[first + |v|..]
  }

  /** The registers that the shortened refresh reads. */
  predicate Refreshed(i: int) {
    i == 0 || i == 1 || i == 62 || i == 63 || i == 168 || i == 169
  }

  /** s with the refreshed registers taken from hw. */
  function Refresh(s: seq<int>, hw: seq<int>): (r: seq<int>)
    requires |s| == |hw|
    ensures |r| == |s| && forall i | 0 <= i < |s| :: r[i] == if Refreshed(i) then hw[i] else s[i]
  {
    seq(|s|, i requires 0 <= i < |s| => if Refreshed(i) then hw[i] else s[i])
  }

  // ---------------------------------------------------------------- the driver

  /** dec_regs, shadow_dec_regs and the registers themselves, of a core of type HW_VCD (`vcd`) or
      HW_VCDJ. `filter` is reg_access_opt. */
  class Core {
    const decRegs: array<int>
    const shadow: array<int>
    const hw: array<int>
    const vcd: bool
    const filter: bool

    ghost predicate Valid()
      reads decRegs, shadow, hw
    {
      && 170 <= hw.Length && shadow.Length == hw.Length && decRegs.Length == hw.Length
      && decRegs != shadow && decRegs != hw && shadow != hw
    }

    /** The access did what the event of that name does to registers and shadow. */
    ghost predicate Follows(h: seq<int>, s: seq<int>, e: Event)
      reads shadow, hw
    {
      && |h| == |s| && Enabled(|h|, e)
      && var t := Filtered(State(h, s, {}), vcd, e); t.hw == hw[..] && t.shadow == shadow[..]
    }

    constructor (registers: int, vcd: bool, filter: bool)
      requires 170 <= registers
      ensures Valid() && hw.Length == registers && this.vcd == vcd && this.filter == filter
      ensures fresh(decRegs) && fresh(shadow) && fresh(hw)
      ensures shadow[..] == hw[..]
    {
      decRegs := new int[registers](_ => 0);
      shadow := new int[registers](_ => 0);
      hw := new int[registers](_ => 0);
      this.vcd := vcd;
      this.filter := filter;
    }

    /** DecFlushRegs */
    method DecFlushRegs(regs: seq<int>)
      requires Valid() && |regs| == hw.Length
      modifies decRegs, shadow, hw
      ensures decRegs[..] == regs
      ensures hw[..] == old(Flushed(hw[..], shadow[..], regs, filter))
      ensures shadow[..] == old(Shadowed(shadow[..], regs, filter))
      ensures filter ==> Follows(old(hw[..]), old(shadow[..]), Flush(regs))
    {
      forall i | 0 <= i < decRegs.Length {
        decRegs[i] := regs[i];
      }
      ghost var h, s := hw[..], shadow[..];
      for i := 3 to hw.Length
        invariant decRegs[..] == regs
        invariant forall k | 0 <= k < hw.Length ::
                    hw[k] == if 3 <= k < i && !(filter && regs[k] == s[k]) then regs[k] else h[k]
        invariant forall k | 0 <= k < hw.Length :: shadow[k] == if 3 <= k < i && filter then regs[k] else s[k]
      {
        if filter {
          if decRegs[i] != shadow[i] {
            hw[i] := decRegs[i];
            shadow[i] := decRegs[i];
          }
        } else {
          hw[i] := decRegs[i];
        }
      }
      hw[2] := decRegs[2];
      shadow[2] := decRegs[2];
      hw[1] := decRegs[1];
      shadow[1] := decRegs[1];
      assert hw[..] == Flushed(h, s, regs, filter);
      assert shadow[..] == Shadowed(s, regs, filter);
    }

    /** DecWriteRegs; false stands for the error status. The values go through the start of
        dec_regs, whatever register they are for. */
    method DecWriteRegs(first: int, values: seq<int>) returns (ok: bool)
      requires Valid() && 0 <= first && (first + |values|) * 4 < 0x1_0000_0000
      modifies decRegs, shadow, hw
      ensures ok <==> first + |values| <= hw.Length
      ensures if ok then
                && hw[..] == Put(old(hw[..]), first, values) && decRegs[..] == Put(old(decRegs[..]), 0, values)
                && shadow[..] == if vcd then Put(old(shadow[..]), first, values) else old(shadow[..])
              else hw[..] == old(hw[..]) && shadow[..] == old(shadow[..]) && decRegs[..] == old(decRegs[..])
      ensures ok ==> Follows(old(hw[..]), old(shadow[..]), Write(first, values))
    {
      if first + |values| > hw.Length {
        return false;
      }
      ghost var h, s, d := hw[..], shadow[..], decRegs[..];
      forall i | 0 <= i < |values| {
        decRegs[i] := values[i];
      }
      for i := first to first + |values|
        invariant forall k | 0 <= k < decRegs.Length :: decRegs[k] == if k < |values| then values[k] else d[k]
        invariant forall k | 0 <= k < hw.Length :: hw[k] == if first <= k < i then values[k - first] else h[k]
        invariant forall k | 0 <= k < hw.Length ::
                    shadow[k] == if first <= k < i && vcd then values[k - first] else s[k]
      {
        hw[i] := decRegs[i - first];
        if vcd {
          shadow[i] := decRegs[i - first];
        }
      }
      ok := true;
      assert hw[..] == Put(h, first, values);
      assert decRegs[..] == Put(d, 0, values);
      assert shadow[..] == if vcd then Put(s, first, values) else s;
    }

    /** DecReadRegs */
    method DecReadRegs(first: int, n: int) returns (ok: bool, values: seq<int>)
      requires Valid() && 0 <= first && 0 <= n && (first + n) * 4 < 0x1_0000_0000
      modifies decRegs, shadow
      ensures ok <==> first + n <= hw.Length
      ensures if ok then
                && values == hw[first..first + n] && decRegs[..] == Put(old(decRegs[..]), first, values)
                && shadow[..] == if vcd then Put(old(shadow[..]), first, values) else old(shadow[..])
              else values == [] && shadow[..] == old(shadow[..]) && decRegs[..] == old(decRegs[..])
      ensures ok ==> Follows(old(hw[..]), old(shadow[..]), ReadBack(first, n))
    {
      if first + n > hw.Length {
        return false, [];
      }
      ghost var s, d := shadow[..], decRegs[..];
      for i := first to first + n
        invariant forall k | 0 <= k < decRegs.Length :: decRegs[k] == if first <= k < i then hw[k] else d[k]
        invariant forall k | 0 <= k < hw.Length :: shadow[k] == if first <= k < i && vcd then hw[k] else s[k]
      {
        decRegs[i] := hw[i];
        if vcd {
          shadow[i] := decRegs[i];
        }
      }
      ok, values := true, decRegs[first..first + n];
      assert decRegs[..] == Put(d, first, values);
      assert shadow[..] == if vcd then Put(s, first, values) else s;
    }

    method RefreshReg(i: int)
      requires Valid() && 0 <= i < hw.Length
      modifies decRegs, shadow
      ensures decRegs[..] == old(decRegs[..])[i := hw[i]] && shadow[..] == old(shadow[..])[i := hw[i]]
    {
      decRegs[i] := hw[i];
      shadow[i] := decRegs[i];
    }

    /** DecRefreshRegs */
    method DecRefreshRegs() returns (values: seq<int>)
      requires Valid()
      modifies decRegs, shadow
      ensures values == decRegs[..] == if filter then old(Refresh(decRegs[..], hw[..])) else hw[..]
      ensures shadow[..] == if filter then old(Refresh(shadow[..], hw[..])) else old(shadow[..])
      ensures forall i | 0 <= i < hw.Length ::
                var read := i in {0, 1, 62, 63, 168, 169};
                && decRegs[i] == (if !filter || read then hw[i] else old(decRegs[i]))
                && shadow[i] == (if filter && read then hw[i] else old(shadow[i]))
      ensures filter ==> Follows(old(hw[..]), old(shadow[..]), RefreshAll)
    {
      if !filter {
        forall i | 0 <= i < hw.Length {
          decRegs[i] := hw[i];
        }
        assert decRegs[..] == hw[..];
      } else {
        ghost var s, d := shadow[..], decRegs[..];
        RefreshReg(0);
        RefreshReg(1);
        RefreshReg(62);
        RefreshReg(63);
        RefreshReg(168);
        RefreshReg(169);
        assert shadow[..] == Refresh(s, hw[..]);
        assert decRegs[..] == Refresh(d, hw[..]);
      }
      values := decRegs[..];
    }
  }

  // ---------------------------------------------------------------- one flush

  /** A filtered flush leaves the same registers as an unfiltered one if and only if every
      register that the filter skips already holds the value. */
  lemma FilterIsHarmless(hw: seq<int>, shadow: seq<int>, dec: seq<int>)
    requires |hw| == |shadow| == |dec|
    ensures Flushed(hw, shadow, dec, true) == Flushed(hw, shadow, dec, false)
            <==> forall i | 3 <= i < |hw| && dec[i] == shadow[i] :: hw[i] == shadow[i]
  {
  }

  // ---------------------------------------------------------------- runs

  /** The accesses of a client, and the hardware changing a register on its own. */
  datatype Event =
    | Flush(dec: seq<int>)
    | Write(first: int, values: seq<int>)
    | ReadBack(first: int, n: int)
    | RefreshAll
    | Alter(i: int, value: int)

  predicate Enabled(n: int, e: Event) {
    match e
    case Flush(dec) => |dec| == n
    case Write(first, values) => 0 <= first && first + |values| <= n
    case ReadBack(first, m) => 0 <= first && 0 <= m && first + m <= n
    case RefreshAll => true
    case Alter(i, value) => 0 <= i < n
  }

  /** A core with the filter on; `stale` are the registers whose shadow may be out of date: the
      hardware changed them, or a core of type HW_VCDJ was written directly, and nothing has
      brought the shadow up to date since. */
  datatype State = State(hw: seq<int>, shadow: seq<int>, stale: set<int>)

  function Range(first: int, n: int): (r: set<int>)
    requires 0 <= n
    ensures forall i :: i in r <==> first <= i < first + n
  {
    if n == 0 then {} else Range(first, n - 1) + {first + n - 1}
  }

  function Filtered(s: State, vcd: bool, e: Event): (t: State)
    requires |s.hw| == |s.shadow| && Enabled(|s.hw|, e)
    ensures |t.hw| == |t.shadow| == |s.hw|
  {
    match e
    case Flush(dec) =>
      State(Flushed(s.hw, s.shadow, dec, true), Shadowed(s.shadow, dec, true),
            set i | i in s.stale && !(1 <= i < |dec| && (i < 3 || dec[i] != s.shadow[i])))
    case Write(first, v) =>
      State(Put(s.hw, first, v), if vcd then Put(s.shadow, first, v) else s.shadow,
            if vcd then s.stale - Range(first, |v|) else s.stale + Range(first, |v|))
    case ReadBack(first, m) =>
      State(s.hw, if vcd then Put(s.shadow, first, s.hw[first..first + m]) else s.shadow,
            if vcd then s.stale - Range(first, m) else s.stale)
    case RefreshAll => State(s.hw, Refresh(s.shadow, s.hw), set i | i in s.stale && !Refreshed(i))
    case Alter(i, value) => State(s.hw[i := value], s.shadow, s.stale + {i})
  }

  /** After a flush, stale is what was stale and has not been written: register 0, and those the filter
      skipped. */
  lemma StaleAfterFlush(s: State, vcd: bool, dec: seq<int>, i: int)
    requires |s.hw| == |s.shadow| == |dec| && 0 <= i < |dec|
    ensures i in Filtered(s, vcd, Flush(dec)).stale <==> i in s.stale && (i == 0 || (3 <= i && dec[i] == s.shadow[i]))
  {
  }

  /** The same core with the filter off. */
  function Plain(hw: seq<int>, e: Event): (r: seq<int>)
    requires Enabled(|hw|, e)
    ensures |r| == |hw|
  {
    match e
    case Flush(dec) => Flushed(hw, hw, dec, false)
    case Write(first, v) => Put(hw, first, v)
    case ReadBack(first, m) => hw
    case RefreshAll => hw
    case Alter(i, value) => hw[i := value]
  }

  ghost predicate AllEnabled(n: int, es: seq<Event>) {
    forall i | 0 <= i < |es| :: Enabled(n, es[i])
  }

  function RunFiltered(s: State, vcd: bool, es: seq<Event>): (t: State)
    requires |s.hw| == |s.shadow| && AllEnabled(|s.hw|, es)
    ensures |t.hw| == |t.shadow| == |s.hw|
    decreases |es|
  {
    if es == [] then s else RunFiltered(Filtered(s, vcd, es[0]), vcd, es[1..])
  }

  function RunPlain(hw: seq<int>, es: seq<Event>): (r: seq<int>)
    requires AllEnabled(|hw|, es)
    ensures |r| == |hw|
    decreases |es|
  {
    if es == [] then hw else RunPlain(Plain(hw, es[0]), es[1..])
  }

  /** At every flush, no register from 3 on is stale. */
  ghost predicate NoStaleFlush(s: State, vcd: bool, es: seq<Event>)
    requires |s.hw| == |s.shadow| && AllEnabled(|s.hw|, es)
    decreases |es|
  {
    es != [] ==>
      && (es[0].Flush? ==> forall i | i in s.stale :: i < 3)
      && NoStaleFlush(Filtered(s, vcd, es[0]), vcd, es[1..])
  }

  /** The shadow of every register from 3 on that is not stale is right. */
  ghost predicate Tracks(s: State) {
    |s.hw| == |s.shadow| && forall i | 3 <= i < |s.hw| && i !in s.stale :: s.shadow[i] == s.hw[i]
  }

  lemma StepTracks(s: State, vcd: bool, e: Event)
    requires Tracks(s) && Enabled(|s.hw|, e)
    requires e.Flush? ==> forall i | i in s.stale :: i < 3
    ensures Tracks(Filtered(s, vcd, e)) && Filtered(s, vcd, e).hw == Plain(s.hw, e)
  {
    if e.Flush? {
      FilterIsHarmless(s.hw, s.shadow, e.dec);
    }
  }

  /** Over any sequence of accesses of a core of either type in which no flush happens while a
      register from 3 on is stale, the filter makes no difference to the hardware. */
  lemma {:induction false} FilterNeverShows(s: State, vcd: bool, es: seq<Event>)
    requires Tracks(s) && AllEnabled(|s.hw|, es) && NoStaleFlush(s, vcd, es)
    ensures Tracks(RunFiltered(s, vcd, es)) && RunFiltered(s, vcd, es).hw == RunPlain(s.hw, es)
    decreases |es|
  {
    if es != [] {
      StepTracks(s, vcd, es[0]);
      FilterNeverShows(Filtered(s, vcd, es[0]), vcd, es[1..]);
    }
  }

  /** The hardware only ever changes registers below 3, and a core of type HW_VCDJ is only
      written directly below 3. */
  ghost predicate Quiet(vcd: bool, es: seq<Event>) {
    forall i | 0 <= i < |es| :: match es[i]
      case Alter(r, _) => r < 3
      case Write(first, v) => vcd || first + |v| <= 3
      case _ => true
  }

  /** Then the filter never shows. */
  lemma QuietHardware(s: State, vcd: bool, es: seq<Event>)
    requires |s.hw| == |s.shadow| && s.hw == s.shadow && s.stale == {} && AllEnabled(|s.hw|, es) && Quiet(vcd, es)
    ensures RunFiltered(s, vcd, es).hw == RunPlain(s.hw, es)
  {
    LowStale(s, vcd, es);
    FilterNeverShows(s, vcd, es);
  }

  lemma {:induction false} LowStale(s: State, vcd: bool, es: seq<Event>)
    requires |s.hw| == |s.shadow| && (forall i | i in s.stale :: i < 3) && AllEnabled(|s.hw|, es) && Quiet(vcd, es)
    ensures NoStaleFlush(s, vcd, es)
    decreases |es|
  {
    if es != [] {
      assert forall i | 0 <= i < |es[1..]| :: es[1..][i] == es[i + 1];
      LowStale(Filtered(s, vcd, es[0]), vcd, es[1..]);
    }
  }

  // ---------------------------------------------------------------- exactly when

  /** The two cores hold the same registers after every event of the run. */
  ghost predicate SameThroughout(s: State, hw: seq<int>, vcd: bool, es: seq<Event>)
    requires |s.hw| == |s.shadow| == |hw| && AllEnabled(|s.hw|, es)
    decreases |es|
  {
    s.hw == hw && (es != [] ==> SameThroughout(Filtered(s, vcd, es[0]), Plain(hw, es[0]), vcd, es[1..]))
  }

  /** At every flush the registers that the filter skips already hold the value. */
  ghost predicate SkipsRightly(s: State, vcd: bool, es: seq<Event>)
    requires |s.hw| == |s.shadow| && AllEnabled(|s.hw|, es)
    decreases |es|
  {
    es != [] ==>
      && (es[0].Flush? ==> forall i | 3 <= i < |s.hw| && es[0].dec[i] == s.shadow[i] :: s.hw[i] == s.shadow[i])
      && SkipsRightly(Filtered(s, vcd, es[0]), vcd, es[1..])
  }

  /** The filter shows nowhere in a run of a core of either type if and only if no flush skips a
      register that holds another value. */
  lemma {:induction false} ShowsExactly(s: State, vcd: bool, es: seq<Event>)
    requires |s.hw| == |s.shadow| && AllEnabled(|s.hw|, es)
    ensures SameThroughout(s, s.hw, vcd, es) <==> SkipsRightly(s, vcd, es)
    decreases |es|
  {
    if es != [] {
      var next := Filtered(s, vcd, es[0]);
      if es[0].Flush? {
        FilterIsHarmless(s.hw, s.shadow, es[0].dec);
        assert Flushed(s.hw, s.shadow, es[0].dec, false) == Plain(s.hw, es[0]);
      } else {
        assert next.hw == Plain(s.hw, es[0]);
      }
      if next.hw == Plain(s.hw, es[0]) {
        ShowsExactly(next, vcd, es[1..]);
      }
    }
  }

  // ---------------------------------------------------------------- where it does show

  lemma TwoEvents(s: State, vcd: bool, e: Event, f: Event)
    requires |s.hw| == |s.shadow| && Enabled(|s.hw|, e) && Enabled(|s.hw|, f)
    ensures AllEnabled(|s.hw|, [e, f])
    ensures RunFiltered(s, vcd, [e, f]) == Filtered(Filtered(s, vcd, e), vcd, f)
    ensures RunPlain(s.hw, [e, f]) == Plain(Plain(s.hw, e), f)
  {
    hide Filtered, Plain, Enabled;
    var t := Filtered(s, vcd, e);
    assert [e, f][1..] == [f] && [f][1..] == [];
    assert RunFiltered(t, vcd, [f]) == RunFiltered(Filtered(t, vcd, f), vcd, []);
    assert RunPlain(Plain(s.hw, e), [f]) == RunPlain(Plain(Plain(s.hw, e), f), []);
  }

  /** A core of type HW_VCDJ does not keep the shadow up to date on direct writes: write register
      5 directly, flush its old value, and the filter leaves the new one in place. */
  lemma JpegShows(hw: seq<int>) returns (es: seq<Event>)
    requires 170 <= |hw|
    ensures AllEnabled(|hw|, es) && forall i | 0 <= i < |es| :: !es[i].Alter?
    ensures RunFiltered(State(hw, hw, {}), false, es).hw != RunPlain(hw, es)
  {
    var s := State(hw, hw, {});
    var w, f := Write(5, [hw[5] + 1]), Flush(hw);
    es := [w, f];
    TwoEvents(s, false, w, f);
    assert RunFiltered(s, false, es).hw[5] == hw[5] + 1 && RunPlain(hw, es)[5] == hw[5];
  }

  /** And so does a VCD core when the hardware changes a register from 3 on by itself. */
  lemma StaleShows(hw: seq<int>, i: int) returns (es: seq<Event>)
    requires 3 <= i < |hw|
    ensures AllEnabled(|hw|, es) && RunFiltered(State(hw, hw, {}), true, es).hw != RunPlain(hw, es)
  {
    var s := State(hw, hw, {});
    var a, f := Alter(i, hw[i] + 1), Flush(hw);
    es := [a, f];
    TwoEvents(s, true, a, f);
    assert RunFiltered(s, true, es).hw[i] == hw[i] + 1 && RunPlain(hw, es)[i] == hw[i];
  }
}
