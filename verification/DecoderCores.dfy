/** Reservation of decoder cores: a semaphore that starts at the number of cores, a search for a
    free core that suits the client, and waits that signals can interrupt. */
module DecoderCores {
  import opened Common

  // ---------------------------------------------------------------- the search

  /** IsValideCore: bit `core` of the low 16 bits of the format word. */
  predicate IsValidCore(core: int, format: bv32)
    requires 0 <= core < 32
  {
    ((format & 0xFFFF) >> core) & 1 == 1
  }

  lemma OnlyLowCores(core: int, format: bv32)
    requires 0 <= core < 32 && IsValidCore(core, format)
    ensures core < 16
  {
  }

  /** A format that core c alone suits. */
  function Only(c: int): bv32
    requires 0 <= c < 16
  {
    (1 as bv32) << c
  }

  /** The format that has the bits of these cores, and of no other below 16. */
  function FormatOf(cores: seq<int>): bv32
    requires forall i | 0 <= i < |cores| :: 0 <= cores[i] < 16
  {
    if cores == [] then 0 else FormatOf(cores[..|cores| - 1]) | Only(cores[|cores| - 1])
  }

  /** What a client asks for with a format word: exactly the cores whose bits are set among the low 16;
      the bits above mean nothing here. */
  ghost predicate AsksFor(format: bv32, cores: seq<int>) {
    (forall i | 0 <= i < |cores| :: 0 <= cores[i] < 16) && format & 0xFFFF == FormatOf(cores)
  }

  /** A core suits a format exactly when the client asks for it, for every set of cores. */
  lemma SuitsExactly(c: int, format: bv32, cores: seq<int>)
    requires 0 <= c < 32 && AsksFor(format, cores)
    ensures IsValidCore(c, format) <==> c in cores
  {
    hide IsValidCore, FormatOf;
    LowBitsCount(c, format);
    UnionSuits(c, cores);
  }

  lemma LowBitsCount(c: int, format: bv32)
    requires 0 <= c < 32
    ensures IsValidCore(c, format) <==> IsValidCore(c, format & 0xFFFF)
  {
  }

  lemma {:induction false} UnionSuits(c: int, cores: seq<int>)
    requires 0 <= c < 32 && forall i | 0 <= i < |cores| :: 0 <= cores[i] < 16
    ensures IsValidCore(c, FormatOf(cores)) <==> c in cores
  {
    hide IsValidCore, Only;
    if cores == [] {
      NoBit(c);
    } else {
      var less, d := cores[..|cores| - 1], cores[|cores| - 1];
      UnionSuits(c, less);
      EitherSuits(c, FormatOf(less), Only(d));
      OnlyThat(d, c);
      assert cores == less + [d];
    }
  }

  lemma NoBit(c: int)
    requires 0 <= c < 32
    ensures !IsValidCore(c, 0)
  {
  }

  lemma EitherSuits(c: int, f: bv32, g: bv32)
    requires 0 <= c < 32
    ensures IsValidCore(c, f | g) <==> IsValidCore(c, f) || IsValidCore(c, g)
  {
    SameShift(c, f | g);
    SameShift(c, f);
    SameShift(c, g);
    BitOfEither(c as bv6, f, g);
  }

  lemma SameShift(c: int, f: bv32)
    requires 0 <= c < 32
    ensures (f & 0xFFFF) >> c == (f & 0xFFFF) >> (c as bv6)
  {
  }

  lemma BitOfEither(c: bv6, f: bv32, g: bv32)
    requires c < 32
    ensures (((f | g) & 0xFFFF) >> c) & 1 == 1 <==> ((f & 0xFFFF) >> c) & 1 == 1 || ((g & 0xFFFF) >> c) & 1 == 1
  {
  }

  lemma OnlyThat(c: int, d: int)
    requires 0 <= c < 16 && 0 <= d < 32
    ensures IsValidCore(d, Only(c)) <==> d == c
  {
  }

  /** subsys_mgr.core_owner; 0 is no owner. */
  class CoreTable {
    const owner: array<int>

    constructor (cores: int)
      requires 1 <= cores <= 32
      ensures owner.Length == cores && fresh(owner) && forall c | 0 <= c < cores :: owner[c] == 0
    {
      owner := new int[cores](_ => 0);
    }

    /** GetDecCore */
    method GetDecCore(core: int, client: int, format: bv32) returns (success: bool)
      requires 0 <= core < owner.Length <= 32
      modifies owner
      ensures success <==> IsValidCore(core, format) && old(owner[core]) == 0
      ensures forall cores | AsksFor(format, cores) :: success <==> core in cores && old(owner[core]) == 0
      ensures owner[..] == if success then old(owner[..])[core := client] else old(owner[..])
    {
      hide IsValidCore;
      forall cores | AsksFor(format, cores)
        ensures IsValidCore(core, format) <==> core in cores
      {
        SuitsExactly(core, format, cores);
      }
      success := false;
      if IsValidCore(core, format) && owner[core] == 0 {
        owner[core] := client;
        success := true;
      }
    }

    /** GetDecCoreAny, when nobody else runs: the lowest free core that suits, -1 if there is none. */
    method GetDecCoreAny(client: int, format: bv32) returns (core: int)
      requires owner.Length <= 32
      modifies owner
      ensures if core == -1 then owner[..] == old(owner[..])
              else 0 <= core < owner.Length && owner[..] == old(owner[..])[core := client]
      ensures core != -1 ==> IsValidCore(core, format) && old(owner[core]) == 0
      ensures forall c | 0 <= c < (if core == -1 then owner.Length else core) ::
                !(IsValidCore(c, format) && old(owner[c]) == 0)
      ensures forall cores | AsksFor(format, cores) ::
                && (core != -1 ==> core in cores && old(owner[core]) == 0)
                && forall c | 0 <= c < (if core == -1 then owner.Length else core) :: c !in cores || old(owner[c]) != 0
    {
      hide IsValidCore, AsksFor;
      forall cores, c | AsksFor(format, cores) && 0 <= c < owner.Length
        ensures IsValidCore(c, format) <==> c in cores
      {
        SuitsExactly(c, format, cores);
      }
      core := -1;
      for c := 0 to owner.Length
        invariant core == -1 && owner[..] == old(owner[..])
        invariant forall d | 0 <= d < c :: !(IsValidCore(d, format) && old(owner[d]) == 0)
      {
        var success := GetDecCore(c, client, format);
        if success {
          core := c;
          return;
        }
      }
    }
  }

  // ---------------------------------------------------------------- the protocol

  type Task = int

  /** A task past the semaphore: its format word, and the next core that its search looks at. */
  datatype Search = Search(client: int, format: bv32, next: int)

  /** A release that has passed the owner test: its core, and how many times a core had been handed
      out by then. */
  datatype Release = Release(core: int, since: int)

  /** `owner` is core_owner; `holder` records which task was given each core, `handed` the cores in
      the order in which they were given; `searching` are the tasks past the semaphore without a
      core, `checked` those past the owner test of a release that have not yet cleared the owner,
      `posting` those that have but not yet raised the semaphore; `lost` counts the interrupted
      waits, which never do. */
  datatype Cores = Cores(owner: seq<int>, sema: int, searching: map<Task, Search>, holder: map<int, Task>,
                         handed: seq<int>, checked: map<Task, Release>, posting: set<Task>, lost: int)

  /** The semaphore taken; one core looked at under the lock; the search begun again after looking
      at all; the wait interrupted; the owner test of a release, without the lock; the owner
      cleared under it, unconditionally; the semaphore raised. */
  datatype Event =
    | Down(task: Task, client: int, format: bv32)
    | Look(task: Task)
    | Again(task: Task)
    | Interrupt(task: Task)
    | Check(task: Task, core: int, client: int)
    | Clear(task: Task)
    | Up(task: Task)

  function Start(cores: int): Cores
    requires 0 <= cores
  {
    Cores(seq(cores, _ => 0), cores, map[], map[], [], map[], {}, 0)
  }

  /** Between its calls. */
  predicate Outside(s: Cores, t: Task) {
    t !in s.searching && t !in s.checked && t !in s.posting
  }

  predicate Enabled(s: Cores, e: Event) {
    match e
    case Down(t, client, format) => 0 < s.sema && Outside(s, t) && client != 0
    case Look(t) => t in s.searching && 0 <= s.searching[t].next < |s.owner| <= 32
    case Again(t) => t in s.searching && |s.owner| <= s.searching[t].next
    case Interrupt(t) => t in s.searching && |s.owner| <= s.searching[t].next
    case Check(t, c, client) => Outside(s, t) && 0 <= c < |s.owner| && client != 0 && s.owner[c] == client
    case Clear(t) => t in s.checked && t !in s.posting && 0 <= s.checked[t].core < |s.owner|
    case Up(t) => t in s.posting
  }

  function Step(s: Cores, e: Event): Cores
    requires Enabled(s, e)
  {
    match e
    case Down(t, client, format) => s.(sema := s.sema - 1, searching := s.searching[t := Search(client, format, 0)])
    case Look(t) =>
      var q := s.searching[t];
      if IsValidCore(q.next, q.format) && s.owner[q.next] == 0 then
        s.(owner := s.owner[q.next := q.client], holder := s.holder[q.next := t], handed := s.handed + [q.next],
           searching := s.searching - {t})
      else s.(searching := s.searching[t := q.(next := q.next + 1)])
    case Again(t) => s.(searching := s.searching[t := s.searching[t].(next := 0)])
    case Interrupt(t) => s.(searching := s.searching - {t}, lost := s.lost + 1)
    case Check(t, c, client) => s.(checked := s.checked[t := Release(c, |s.handed|)])
    case Clear(t) =>
      var c := s.checked[t].core;
      s.(owner := s.owner[c := 0], holder := s.holder - {c}, checked := s.checked - {t}, posting := s.posting + {t})
    case Up(t) => s.(sema := s.sema + 1, posting := s.posting - {t})
  }

  ghost predicate Reaches(s: Cores, es: seq<Event>, u: Cores)
    decreases |es|
  {
    if es == [] then s == u else Enabled(s, es[0]) && Reaches(Step(s, es[0]), es[1..], u)
  }

  /** No core has two checked releases outstanding. */
  ghost predicate Single(s: Cores) {
    forall t, u | t in s.checked && u in s.checked && s.checked[t].core == s.checked[u].core :: t == u
  }

  /** Nor has any state of the run. */
  ghost predicate OneRelease(s: Cores, es: seq<Event>)
    decreases |es|
  {
    Single(s) && (es != [] && Enabled(s, es[0]) ==> OneRelease(Step(s, es[0]), es[1..]))
  }

  // ---------------------------------------------------------------- what every step keeps

  /** The semaphore, the searches, the cores in use, the releases under way and the losses add up
      to the number of cores; a core has a holder exactly when it has an owner; and a core whose
      release was checked is still held and was not handed out again. */
  ghost predicate Safe(s: Cores, cores: int) {
    Balanced(s, cores) && Held(s, cores) && CheckedHeld(s)
  }

  ghost predicate Balanced(s: Cores, n: int) {
    && 0 <= s.sema && 0 <= s.lost
    && s.sema + |s.searching| + |s.holder| + |s.posting| + s.lost == n
  }

  ghost predicate Held(s: Cores, cores: int) {
    && |s.owner| == cores
    && (forall c :: c in s.holder <==> 0 <= c < cores && s.owner[c] != 0)
    && (forall c | c in s.holder :: c < 16)
    && (forall t | t in s.searching :: s.searching[t].client != 0)
  }

  ghost predicate CheckedHeld(s: Cores) {
    forall t | t in s.checked ::
      && s.checked[t].core in s.holder && 0 <= s.checked[t].since <= |s.handed|
      && s.checked[t].core !in s.handed[s.checked[t].since..] && t !in s.searching && t !in s.posting
  }

  lemma RemoveOne<K, V>(m: map<K, V>, k: K)
    requires k in m
    ensures |m - {k}| == |m| - 1
  {
    assert (m - {k}).Keys == m.Keys - {k};
    SameSize(m);
    SameSize(m - {k});
  }

  lemma AddOne<K, V>(m: map<K, V>, k: K, v: V)
    ensures |m[k := v]| == |m| + if k in m then 0 else 1
  {
    assert m[k := v].Keys == m.Keys + {k};
    SameSize(m);
    SameSize(m[k := v]);
  }

  lemma SameSize<K, V>(m: map<K, V>)
    ensures |m.Keys| == |m|
  {
  }

  lemma OneMore(s: set<Task>, t: Task)
    requires t !in s
    ensures |s + {t}| == |s| + 1
  {
  }

  lemma OneLess(s: set<Task>, t: Task)
    requires t in s
    ensures |s - {t}| == |s| - 1
  {
  }

  lemma StepKeepsBalance(s: Cores, n: int, e: Event)
    requires Balanced(s, n) && Enabled(s, e)
    requires e.Look? && s.owner[s.searching[e.task].next] == 0 ==> s.searching[e.task].next !in s.holder
    requires e.Clear? ==> s.checked[e.task].core in s.holder
    ensures Balanced(Step(s, e), n)
  {
    hide IsValidCore;
    match e
    case Down(t, client, format) => AddOne(s.searching, t, Search(client, format, 0));
    case Look(t) => LookKeepsBalance(s, n, t);
    case Again(t) => AddOne(s.searching, t, s.searching[t].(next := 0));
    case Interrupt(t) => RemoveOne(s.searching, t);
    case Check(t, _, _) =>
    case Clear(t) => ClearKeepsBalance(s, n, t);
    case Up(t) => OneLess(s.posting, t);
  }

  lemma LookKeepsBalance(s: Cores, n: int, t: Task)
    requires Balanced(s, n) && Enabled(s, Look(t))
    requires s.owner[s.searching[t].next] == 0 ==> s.searching[t].next !in s.holder
    ensures Balanced(Step(s, Look(t)), n)
  {
    hide IsValidCore;
    var q := s.searching[t];
    RemoveOne(s.searching, t);
    AddOne(s.holder, q.next, t);
    AddOne(s.searching, t, q.(next := q.next + 1));
  }

  lemma ClearKeepsBalance(s: Cores, n: int, t: Task)
    requires Balanced(s, n) && Enabled(s, Clear(t)) && s.checked[t].core in s.holder
    ensures Balanced(Step(s, Clear(t)), n)
  {
    RemoveOne(s.holder, s.checked[t].core);
    OneMore(s.posting, t);
  }

  /** A search only takes a core that nobody holds. */
  lemma StepKeepsHeld(s: Cores, cores: int, e: Event)
    requires Held(s, cores) && Enabled(s, e)
    ensures Held(Step(s, e), cores)
    ensures forall c | c in s.holder && c in Step(s, e).holder :: Step(s, e).holder[c] == s.holder[c]
  {
    hide IsValidCore;
    if e.Look? && IsValidCore(s.searching[e.task].next, s.searching[e.task].format) {
      OnlyLowCores(s.searching[e.task].next, s.searching[e.task].format);
    }
  }

  lemma StepKeepsChecked(s: Cores, cores: int, e: Event)
    requires Held(s, cores) && CheckedHeld(s) && Single(s) && Enabled(s, e)
    ensures CheckedHeld(Step(s, e)) && (!e.Check? ==> Single(Step(s, e)))
  {
    hide IsValidCore;
  }

  lemma StepKeepsSafe(s: Cores, cores: int, e: Event)
    requires Safe(s, cores) && Single(s) && Enabled(s, e)
    ensures Safe(Step(s, e), cores)
    ensures forall c | c in s.holder && c in Step(s, e).holder :: Step(s, e).holder[c] == s.holder[c]
  {
    hide Balanced, Step;
    StepKeepsBalance(s, cores, e);
    StepKeepsHeld(s, cores, e);
    StepKeepsChecked(s, cores, e);
  }

  lemma {:induction false} AlwaysSafe(s: Cores, cores: int, es: seq<Event>, u: Cores)
    requires Safe(s, cores) && Reaches(s, es, u) && OneRelease(s, es)
    ensures Safe(u, cores) && Single(u) && s.lost <= u.lost
    decreases |es|
  {
    if es != [] {
      StepKeepsSafe(s, cores, es[0]);
      AlwaysSafe(Step(s, es[0]), cores, es[1..], u);
    }
  }

  // ---------------------------------------------------------------- the results

  /** The number of cores that nobody owns. */
  function FreeCores(owner: seq<int>): int {
    if owner == [] then 0 else FreeCores(owner[..|owner| - 1]) + if owner[|owner| - 1] == 0 then 1 else 0
  }

  /** The tasks past the semaphore without a core do not outnumber the free cores, not even
      together with the interrupted waits. */
  ghost predicate HasRoom(s: Cores) {
    |s.searching| + s.lost <= FreeCores(s.owner)
  }

  /** In every run with one release of a core at a time, interrupted waits included. */
  lemma SearchersHaveRoom(cores: int, es: seq<Event>, s: Cores)
    requires 0 <= cores && Reaches(Start(cores), es, s) && OneRelease(Start(cores), es)
    ensures HasRoom(s) && |s.searching| + |s.holder| <= cores
  {
    AlwaysSafe(Start(cores), cores, es, s);
    Room(s, cores, cores);
  }

  lemma Room(s: Cores, cores: int, n: int)
    requires Held(s, cores) && Balanced(s, n)
    ensures |s.searching| + s.lost + s.sema + |s.posting| == FreeCores(s.owner) + (n - cores)
  {
    SameSize(s.holder);
    FreeAndHeld(s.owner, s.holder.Keys);
  }

  lemma {:induction false} FreeAndHeld(owner: seq<int>, held: set<int>)
    requires forall c :: c in held <==> 0 <= c < |owner| && owner[c] != 0
    ensures FreeCores(owner) + |held| == |owner|
    decreases |owner|
  {
    if owner == [] {
      assert forall c :: c !in held;
    } else {
      var n := |owner| - 1;
      FreeAndHeld(owner[..n], held - {n});
      if owner[n] == 0 {
        assert held - {n} == held;
      } else {
        assert |held - {n}| == |held| - 1;
      }
    }
  }

  /** No event of the run clears core c. */
  ghost predicate NotCleared(s: Cores, es: seq<Event>, c: int)
    decreases |es|
  {
    es != [] && Enabled(s, es[0]) ==>
      (es[0].Clear? ==> s.checked[es[0].task].core != c) && NotCleared(Step(s, es[0]), es[1..], c)
  }

  /** No core has two owners: as long as a core is not released it stays with the task that got
      it, whatever the others do. */
  lemma {:induction false} StaysWithHolder(s: Cores, cores: int, es: seq<Event>, u: Cores, c: int)
    requires Safe(s, cores) && Reaches(s, es, u) && OneRelease(s, es) && c in s.holder && NotCleared(s, es, c)
    ensures |u.owner| == |s.owner| && 0 <= c < |s.owner| && u.owner[c] == s.owner[c] != 0
    ensures c in u.holder && u.holder[c] == s.holder[c]
    decreases |es|
  {
    if es != [] {
      StepKeepsSafe(s, cores, es[0]);
      var next := Step(s, es[0]);
      assert c in next.holder && next.owner[c] == s.owner[c];
      StaysWithHolder(next, cores, es[1..], u, c);
    }
  }

  /** An interrupted wait costs a core for good: after `lost` of them no more than the remaining
      cores are ever in use together. */
  lemma LostForGood(cores: int, es: seq<Event>, s: Cores, more: seq<Event>, u: Cores)
    requires 0 <= cores && Reaches(Start(cores), es, s) && Reaches(s, more, u)
    requires OneRelease(Start(cores), es) && OneRelease(s, more)
    ensures |u.holder| + |u.searching| <= cores - s.lost
  {
    AlwaysSafe(Start(cores), cores, es, s);
    AlwaysSafe(s, cores, more, u);
  }

  // ---------------------------------------------------------------- two releases of one core

  ghost predicate NoChecks(es: seq<Event>) {
    forall i | 0 <= i < |es| :: !es[i].Check?
  }

  lemma {:induction false} StaysSingle(s: Cores, cores: int, es: seq<Event>, u: Cores)
    requires Safe(s, cores) && Single(s) && NoChecks(es) && Reaches(s, es, u)
    ensures OneRelease(s, es)
    decreases |es|
  {
    if es != [] {
      StepKeepsSafe(s, cores, es[0]);
      StepKeepsChecked(s, cores, es[0]);
      assert forall i | 0 <= i < |es[1..]| :: es[1..][i] == es[i + 1];
      StaysSingle(Step(s, es[0]), cores, es[1..], u);
    }
  }

  /** A state whose checked releases are all still justified keeps the balance in every
      continuation without new releases if and only if no core has two of them outstanding. */
  lemma ExactlySingle(s: Cores, cores: int)
    requires Safe(s, cores)
    ensures Single(s) <==> forall es, u | NoChecks(es) && Reaches(s, es, u) :: HasRoom(u)
  {
    if Single(s) {
      forall es, u | NoChecks(es) && Reaches(s, es, u)
        ensures HasRoom(u)
      {
        StaysSingle(s, cores, es, u);
        AlwaysSafe(s, cores, es, u);
        Room(u, cores, cores);
      }
    } else {
      var es, u := DoubleRelease(s, cores);
      assert NoChecks(es) && Reaches(s, es, u) && !HasRoom(u);
    }
  }

  lemma ClearedTwice(s: Cores, cores: int, t1: Task, t2: Task)
    requires Safe(s, cores) && t1 in s.checked && t2 in s.checked && s.checked[t1].core == s.checked[t2].core
    requires t1 != t2
    ensures Enabled(s, Clear(t1)) && Enabled(Step(s, Clear(t1)), Clear(t2))
    ensures var u := Step(Step(s, Clear(t1)), Clear(t2)); Held(u, cores) && Balanced(u, cores + 1)
  {
    var s1 := Step(s, Clear(t1));
    StepKeepsBalance(s, cores, Clear(t1));
    StepKeepsHeld(s, cores, Clear(t1));
    StepKeepsHeld(s1, cores, Clear(t2));
    assert s1.holder - {s.checked[t1].core} == s1.holder;
    assert |s1.posting + {t2}| == |s1.posting| + 1;
  }

  /** Both releases clear the core and raise the semaphore: more tasks get past it than there are
      cores. */
  lemma DoubleRelease(s: Cores, cores: int) returns (es: seq<Event>, u: Cores)
    requires Safe(s, cores) && !Single(s)
    ensures NoChecks(es) && Reaches(s, es, u) && !HasRoom(u)
  {
    hide Step, Enabled, Held, Balanced, Reaches, FreeCores;
    var t1, t2 :| t1 in s.checked && t2 in s.checked && s.checked[t1].core == s.checked[t2].core && t1 != t2;
    ClearedTwice(s, cores, t1, t2);
    var s1 := Step(s, Clear(t1));
    var s2 := Step(s1, Clear(t2));
    es, u := Drain(s2, cores, cores + 1);
    Room(u, cores, cores + 1);
    Prefixed(s1, Clear(t2), s2, es, u);
    Prefixed(s, Clear(t1), s1, [Clear(t2)] + es, u);
    es := [Clear(t1)] + ([Clear(t2)] + es);
  }

  /** Everything posted, and as many new tasks as the semaphore lets past. */
  lemma {:induction false} Drain(s: Cores, cores: int, n: int) returns (es: seq<Event>, u: Cores)
    requires Held(s, cores) && Balanced(s, n)
    ensures NoChecks(es) && Reaches(s, es, u) && Held(u, cores) && Balanced(u, n) && u.sema == 0 && u.posting == {}
    decreases 2 * |s.posting| + s.sema
  {
    if s.posting == {} && s.sema == 0 {
      es, u := [], s;
    } else {
      var e;
      if s.posting == {} {
        e := NewTask(s, 0);
      } else {
        var t := AnyOf(s.posting);
        e := Up(t);
        assert |s.posting - {t}| == |s.posting| - 1;
      }
      StepKeepsBalance(s, n, e);
      StepKeepsHeld(s, cores, e);
      es, u := Drain(Step(s, e), cores, n);
      Prefixed(s, e, Step(s, e), es, u);
      es := [e] + es;
    }
  }

  /** A reservation by a task that is in no other call. */
  lemma NewTask(s: Cores, format: bv32) returns (e: Event)
    requires 0 < s.sema
    ensures e.Down? && Enabled(s, e) && e.format == format
  {
    var t := NewNumber(s.searching.Keys + s.checked.Keys + s.posting);
    e := Down(t, 1, format);
  }

  // ---------------------------------------------------------------- two owners

  /** No release is under way that would take a core from a task that got it after the test. */
  ghost predicate NoTheft(s: Cores) {
    forall t | t in s.checked && 0 <= s.checked[t].since <= |s.handed| ::
      !(s.checked[t].core in s.holder && s.checked[t].core in s.handed[s.checked[t].since..])
  }

  /** From a state whose checked releases are all still justified, in every continuation without new
      releases a core is only released by the one it was given to, if and only if no core has two
      of them outstanding. */
  lemma ExactlyOneOwner(s: Cores, cores: int)
    requires Safe(s, cores) && cores <= 32
    ensures Single(s) <==> forall es, u | NoChecks(es) && Reaches(s, es, u) :: NoTheft(u)
  {
    if Single(s) {
      forall es, u | NoChecks(es) && Reaches(s, es, u)
        ensures NoTheft(u)
      {
        StaysSingle(s, cores, es, u);
        AlwaysSafe(s, cores, es, u);
      }
    } else {
      var es, u := Theft(s, cores);
      assert NoChecks(es) && Reaches(s, es, u) && !NoTheft(u);
    }
  }

  /** One release clears the core, a new task gets it, and the other release is still to come. */
  lemma Theft(s: Cores, cores: int) returns (es: seq<Event>, u: Cores)
    requires Safe(s, cores) && cores <= 32 && !Single(s)
    ensures NoChecks(es) && Reaches(s, es, u) && !NoTheft(u)
  {
    hide Reaches, IsValidCore, Only, Balanced;
    SemaphoreNotNegative(s, cores);
    var t1, t2 :| t1 in s.checked && t2 in s.checked && s.checked[t1].core == s.checked[t2].core && t1 != t2;
    var c := s.checked[t1].core;
    var s1 := Step(s, Clear(t1));
    var s2 := Step(s1, Up(t1));
    var down := NewTask(s2, Only(c));
    var s3 := Step(s2, down);
    es, u := Seek(s3, down.task, c, 0);
    HandedSince(s.handed, s.checked[t2].since, c);
    assert t2 in u.checked;
    Prefixed(s2, down, s3, es, u);
    Prefixed(s1, Up(t1), s2, [down] + es, u);
    Prefixed(s, Clear(t1), s1, [Up(t1)] + ([down] + es), u);
    es := [Clear(t1)] + ([Up(t1)] + ([down] + es));
  }

  lemma SemaphoreNotNegative(s: Cores, n: int)
    requires Balanced(s, n)
    ensures 0 <= s.sema
  {
  }

  lemma HandedSince(handed: seq<int>, since: int, c: int)
    requires 0 <= since <= |handed|
    ensures c in (handed + [c])[since..]
  {
    assert (handed + [c])[since..][|handed| - since] == c;
  }

  /** The search passes the cores below c and takes c. */
  lemma {:induction false} Seek(s: Cores, t: Task, c: int, i: int) returns (es: seq<Event>, u: Cores)
    requires 0 <= i <= c < 16 && c < |s.owner| <= 32 && s.owner[c] == 0
    requires t in s.searching && s.searching[t].format == Only(c) && s.searching[t].next == i
    ensures NoChecks(es) && Reaches(s, es, u) && u.checked == s.checked && u.handed == s.handed + [c] && c in u.holder
    decreases c - i
  {
    hide IsValidCore, Only;
    OnlyThat(c, i);
    var next := Step(s, Look(t));
    if i == c {
      es, u := [], next;
    } else {
      es, u := Seek(next, t, c, i + 1);
    }
    Prefixed(s, Look(t), next, es, u);
    es := [Look(t)] + es;
  }

  /** A task past the semaphore that is left alone gets a core while a free one suits it, wherever its
      search stands: it goes on to the end, and begins again with core 0. */
  lemma {:induction false} FindsFree(s: Cores, t: Task, c: int) returns (es: seq<Event>, u: Cores, d: int)
    requires t in s.searching && 0 <= s.searching[t].next <= |s.owner| <= 32
    requires 0 <= c < |s.owner| && s.owner[c] == 0 && IsValidCore(c, s.searching[t].format)
    ensures Reaches(s, es, u) && forall i | 0 <= i < |es| :: es[i] == Look(t) || es[i] == Again(t)
    ensures 0 <= d < |s.owner| && s.owner[d] == 0 && IsValidCore(d, s.searching[t].format)
    ensures u.owner == s.owner[d := s.searching[t].client] && d in u.holder && u.holder[d] == t && t !in u.searching
    decreases if s.searching[t].next <= c then 0 else 1, |s.owner| - s.searching[t].next
  {
    hide IsValidCore;
    var i := s.searching[t].next;
    var e := if i == |s.owner| then Again(t) else Look(t);
    var next := Step(s, e);
    if i < |s.owner| && IsValidCore(i, s.searching[t].format) && s.owner[i] == 0 {
      es, u, d := [], next, i;
    } else {
      es, u, d := FindsFree(next, t, c);
    }
    Prefixed(s, e, next, es, u);
    es := [e] + es;
  }

  /** One core: free, or with task t, which is also its client. */
  function Idle(handed: seq<int>, checked: map<Task, Release>): Cores {
    Cores([0], 1, map[], map[], handed, checked, {}, 0)
  }

  function Busy(t: Task, handed: seq<int>, checked: map<Task, Release>): Cores {
    Cores([t], 0, map[], map[0 := t], handed, checked, {}, 0)
  }

  lemma Takes(t: Task, handed: seq<int>, checked: map<Task, Release>)
    requires t != 0 && t !in checked
    ensures Reaches(Idle(handed, checked), [Down(t, t, 1), Look(t)], Busy(t, handed + [0], checked))
  {
    hide IsValidCore;
    BitSet();
    var mid := Cores([0], 0, map[t := Search(t, 1, 0)], map[], handed, checked, {}, 0);
    var end := Busy(t, handed + [0], checked);
    Prefixed(mid, Look(t), end, [], end);
    Prefixed(Idle(handed, checked), Down(t, t, 1), mid, [Look(t)], end);
    assert [Down(t, t, 1)] + [Look(t)] == [Down(t, t, 1), Look(t)];
  }

  lemma GivesBack(t: Task, r: Task, handed: seq<int>, checked: map<Task, Release>)
    requires r in checked && checked[r].core == 0
    ensures Reaches(Busy(t, handed, checked), [Clear(r), Up(r)], Idle(handed, checked - {r}))
  {
    hide IsValidCore;
    var mid, end := Cores([0], 0, map[], map[], handed, checked - {r}, {r}, 0), Idle(handed, checked - {r});
    Prefixed(mid, Up(r), end, [], end);
    Prefixed(Busy(t, handed, checked), Clear(r), mid, [Up(r)], end);
    assert [Clear(r)] + [Up(r)] == [Clear(r), Up(r)];
  }

  lemma TwoChecks(t: Task)
    requires t != 0
    ensures Reaches(Busy(t, [0], map[]), [Check(10, 0, t), Check(11, 0, t)],
                    Busy(t, [0], map[10 := Release(0, 1), 11 := Release(0, 1)]))
  {
    hide IsValidCore;
    var mid, end := Busy(t, [0], map[10 := Release(0, 1)]), Busy(t, [0], map[10 := Release(0, 1), 11 := Release(0, 1)]);
    Prefixed(mid, Check(11, 0, t), end, [], end);
    Prefixed(Busy(t, [0], map[]), Check(10, 0, t), mid, [Check(11, 0, t)], end);
    assert [Check(10, 0, t)] + [Check(11, 0, t)] == [Check(10, 0, t), Check(11, 0, t)];
  }

  lemma {:induction false} Joined(s: Cores, es: seq<Event>, u: Cores, fs: seq<Event>, w: Cores)
    requires Reaches(s, es, u) && Reaches(u, fs, w)
    ensures Reaches(s, es + fs, w)
    decreases |es|
  {
    hide IsValidCore;
    if es == [] {
      assert es + fs == fs;
    } else {
      Joined(Step(s, es[0]), es[1..], u, fs, w);
      assert (es + fs)[1..] == es[1..] + fs;
    }
  }

  /** Two tasks of client 1 release core 0; between the two clearings client 2 gets it, and after
      the second client 3. In `more` client 2 releases nothing. */
  lemma TwoOwners() returns (es: seq<Event>, s: Cores, more: seq<Event>, u: Cores)
    ensures Reaches(Start(1), es, s) && s.owner == [2] && s.holder == map[0 := 2]
    ensures Reaches(s, more, u) && NoChecks(more) && u.owner == [3] && u.holder == map[0 := 3]
  {
    hide Reaches;
    var one := map[11 := Release(0, 1)];
    var two := map[10 := Release(0, 1), 11 := Release(0, 1)];
    assert Start(1) == Idle([], map[]) && two - {10} == one && one - {11} == map[] && [] + [0] == [0];
    s, u := Busy(2, [0] + [0], one), Busy(3, [0] + [0] + [0], map[]);
    Takes(1, [], map[]);
    TwoChecks(1);
    GivesBack(1, 10, [0], two);
    Takes(2, [0], one);
    es := [Clear(10), Up(10)] + [Down(2, 2, 1), Look(2)];
    Joined(Busy(1, [0], two), [Clear(10), Up(10)], Idle([0], one), [Down(2, 2, 1), Look(2)], s);
    Joined(Busy(1, [0], map[]), [Check(10, 0, 1), Check(11, 0, 1)], Busy(1, [0], two), es, s);
    es := [Check(10, 0, 1), Check(11, 0, 1)] + es;
    Joined(Start(1), [Down(1, 1, 1), Look(1)], Busy(1, [0], map[]), es, s);
    es := [Down(1, 1, 1), Look(1)] + es;
    GivesBack(2, 11, [0] + [0], one);
    Takes(3, [0] + [0], map[]);
    Joined(s, [Clear(11), Up(11)], Idle([0] + [0], map[]), [Down(3, 3, 1), Look(3)], u);
    more := [Clear(11), Up(11)] + [Down(3, 3, 1), Look(3)];
  }

  lemma BitSet()
    ensures IsValidCore(0, 1)
  {
  }

  // ---------------------------------------------------------------- interrupted waits

  /** One core, one client whose wait for it is interrupted because its format does not suit: the
      core is free, and nobody can reserve it any more. */
  lemma OneInterruptIsEnough() returns (es: seq<Event>, s: Cores)
    ensures Reaches(Start(1), es, s) && s.owner == [0] && s.searching == map[]
    ensures forall t, client, format :: !Enabled(s, Down(t, client, format))
  {
    hide IsValidCore;
    NoBitSet();
    var down, look, interrupt := Down(7, 1, 0), Look(7), Interrupt(7);
    var s1 := Cores([0], 0, map[7 := Search(1, 0, 0)], map[], [], map[], {}, 0);
    var s2 := Cores([0], 0, map[7 := Search(1, 0, 1)], map[], [], map[], {}, 0);
    s := Cores([0], 0, map[], map[], [], map[], {}, 1);
    Prefixed(s2, interrupt, s, [], s);
    Prefixed(s1, look, s2, [interrupt], s);
    Prefixed(Start(1), down, s1, [look] + [interrupt], s);
    es := [down] + ([look] + [interrupt]);
  }

  lemma NoBitSet()
    ensures !IsValidCore(0, 0)
  {
  }

  lemma Prefixed(s: Cores, e: Event, next: Cores, es: seq<Event>, u: Cores)
    requires Enabled(s, e) && Step(s, e) == next && Reaches(next, es, u)
    ensures Reaches(s, [e] + es, u)
  {
    hide IsValidCore;
    assert ([e] + es)[1..] == es;
  }
}
