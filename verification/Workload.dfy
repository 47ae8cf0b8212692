/** Admission of command buffers by workload: a process adds the workload of a new command
    buffer to a 32-bit total first, and then waits until the total is small enough. */
module Workload {

  const WORD := 0x1_0000_0000

  /** PROCESS_MAX_WORKLOAD of the encoder and of the decoder. */
  const ENCODER_MAX := 8192 * 4096 * 32
  const DECODER_MAX := 8192 * 4096 * 64

  /** The largest workload of one command buffer: the encoder masks bit 31 off, the decoder
      adds a 64-bit number to its 32-bit total. */
  const ENCODER_LARGEST := 0x7FFF_FFFF
  const DECODER_LARGEST := 0xFFFF_FFFF_FFFF_FFFF

  /** A reservation waits, is granted, was abandoned by an interrupt with its workload still in
      the total, has been subtracted again, or has also lost its workload and its owner. */
  datatype Phase = Pending | Granted | Leaked | Returned | Cleared
  datatype Reservation = Reservation(amount: int, phase: Phase)

  type Task = int

  /** A task that has passed both tests of a release of reservation r; `done` once it subtracted. */
  datatype Release = Release(r: int, done: bool)

  /** total_workload, every reservation the process ever made, and the releases under way. */
  datatype Process = Process(total: int, log: seq<Reservation>, checked: map<Task, Release>)

  /** The locked addition of acquire_process_resource; its wait seeing a small enough total; the
      wait, or the later wait for a slot, being interrupted. Of a release: the tests of owner and
      workload, without a lock; the locked subtraction; and the workload zeroed and the owner
      taken away, which is one step because a release that comes in between reads a zero. A
      release that reads a zero workload only takes the owner away. */
  datatype Event =
    | Add(amount: int)
    | Admit(r: int)
    | Interrupt(r: int)
    | Skip(r: int)
    | Check(task: Task, r: int)
    | Subtract(task: Task)
    | Finish(task: Task)

  function Start(): Process {
    Process(0, [], map[])
  }

  /** The reservation that an event is about. */
  function Subject(p: Process, e: Event): int {
    match e
    case Add(_) => |p.log|
    case Subtract(t) => if t in p.checked then p.checked[t].r else -1
    case Finish(t) => if t in p.checked then p.checked[t].r else -1
    case _ => e.r
  }

  predicate Enabled(p: Process, max: int, e: Event) {
    var r := Subject(p, e);
    if e.Add? then 0 <= e.amount
    else
      && 0 <= r < |p.log|
      && match e
         case Admit(_) => p.log[r].phase == Pending && p.total <= max
         case Interrupt(_) => p.log[r].phase == Pending || (p.log[r].phase == Granted && Unchecked(p, r))
         case Skip(_) => p.log[r].phase == Granted && p.log[r].amount % WORD == 0
         case Check(t, _) =>
           && t !in p.checked && (p.log[r].phase == Granted || p.log[r].phase == Returned)
           && p.log[r].amount % WORD != 0
         case Subtract(t) => !p.checked[t].done
         case Finish(t) => p.checked[t].done
  }

  /** Reservation r is not being released; a task whose wait is interrupted has nothing to release. */
  predicate Unchecked(p: Process, r: int) {
    forall t | t in p.checked :: p.checked[t].r != r
  }

  /** What a locked subtraction reads; the field has 32 bits. */
  function Field(x: Reservation): int {
    if x.phase == Cleared then 0 else x.amount % WORD
  }

  function Step(p: Process, e: Event): Process
    requires e.Add? || 0 <= Subject(p, e) < |p.log|
  {
    var r := Subject(p, e);
    match e
    case Add(w) => p.(total := (p.total + w) % WORD, log := p.log + [Reservation(w, Pending)])
    case Admit(_) => p.(log := Mark(p.log, r, Granted))
    case Interrupt(_) => p.(log := Mark(p.log, r, Leaked))
    case Skip(_) => p.(log := Mark(p.log, r, Cleared))
    case Check(t, _) => p.(checked := p.checked[t := Release(r, false)])
    case Subtract(t) =>
      p.(total := (p.total - Field(p.log[r])) % WORD, checked := p.checked[t := Release(r, true)],
         log := if p.log[r].phase == Granted then Mark(p.log, r, Returned) else p.log)
    case Finish(t) => p.(log := Mark(p.log, r, Cleared), checked := p.checked - {t})
  }

  function Mark(log: seq<Reservation>, r: int, phase: Phase): seq<Reservation>
    requires 0 <= r < |log|
  {
    log[r := log[r].(phase := phase)]
  }

  /** The workload of all reservations in a phase. */
  function Sum(log: seq<Reservation>, phase: Phase): int {
    if log == [] then 0
    else Sum(log[..|log| - 1], phase) + Part(log[|log| - 1], phase)
  }

  function Part(r: Reservation, phase: Phase): int {
    if r.phase == phase then r.amount else 0
  }

  /** The total as it would be without a word size. */
  function TrueTotal(log: seq<Reservation>): int {
    Sum(log, Pending) + Sum(log, Granted) + Sum(log, Leaked)
  }

  lemma {:induction false} SumMark(log: seq<Reservation>, r: int, now: Phase, phase: Phase)
    requires 0 <= r < |log|
    ensures Sum(Mark(log, r, now), phase) == Sum(log, phase) - Part(log[r], phase) + Part(log[r].(phase := now), phase)
  {
    var u := Mark(log, r, now);
    if r < |log| - 1 {
      assert u[..|log| - 1] == Mark(log[..|log| - 1], r, now);
      SumMark(log[..|log| - 1], r, now, phase);
    } else {
      assert u[..|log| - 1] == log[..|log| - 1];
    }
  }

  lemma SumAdd(log: seq<Reservation>, x: Reservation, phase: Phase)
    ensures Sum(log + [x], phase) == Sum(log, phase) + Part(x, phase)
  {
  }

  ghost predicate Amounts(log: seq<Reservation>) {
    forall r | 0 <= r < |log| :: 0 <= log[r].amount
  }

  lemma {:induction false} SumNotNegative(log: seq<Reservation>, phase: Phase)
    requires Amounts(log)
    ensures 0 <= Sum(log, phase)
    ensures forall r | 0 <= r < |log| && log[r].phase == phase :: log[r].amount <= Sum(log, phase)
  {
    if log != [] {
      var rest := log[..|log| - 1];
      assert forall r | 0 <= r < |rest| :: rest[r] == log[r];
      SumNotNegative(rest, phase);
      forall r | 0 <= r < |log| && log[r].phase == phase
        ensures log[r].amount <= Sum(log, phase)
      {
        assert r < |rest| ==> log[r] == rest[r];
      }
    }
  }

  // ---------------------------------------------------------------- accounting

  /** The 32-bit total is what is pending, granted and leaked, and nothing else. */
  ghost predicate Accounted(p: Process) {
    p.total == TrueTotal(p.log) % WORD && Amounts(p.log)
  }

  /** No reservation has two releases under way. */
  ghost predicate Single(p: Process) {
    forall t, u | t in p.checked && u in p.checked && p.checked[t].r == p.checked[u].r :: t == u
  }

  /** The releases under way are of reservations that are still granted, or were until this very
      release, and have something to subtract. */
  ghost predicate Justified(p: Process) {
    && (forall t | t in p.checked :: Right(p.log, p.checked[t]))
    && (forall t, u | t in p.checked && u in p.checked && p.checked[t].done && p.checked[t] == p.checked[u] :: t == u)
    && (forall r | 0 <= r < |p.log| && p.log[r].phase == Returned :: !Unchecked(p, r))
  }

  ghost predicate Right(log: seq<Reservation>, x: Release) {
    0 <= x.r < |log| && log[x.r].phase == (if x.done then Returned else Granted) && log[x.r].amount % WORD != 0
  }

  ghost predicate Safe(p: Process) {
    Accounted(p) && Justified(p)
  }

  /** How a change of phase moves workload. */
  lemma Moved(log: seq<Reservation>, r: int, now: Phase)
    requires 0 <= r < |log|
    ensures var u := Mark(log, r, now); var x := log[r].(phase := now);
            && Sum(u, Pending) == Sum(log, Pending) - Part(log[r], Pending) + Part(x, Pending)
            && Sum(u, Granted) == Sum(log, Granted) - Part(log[r], Granted) + Part(x, Granted)
            && Sum(u, Leaked) == Sum(log, Leaked) - Part(log[r], Leaked) + Part(x, Leaked)
  {
    SumMark(log, r, now, Pending);
    SumMark(log, r, now, Granted);
    SumMark(log, r, now, Leaked);
  }

  lemma Added(log: seq<Reservation>, w: int)
    ensures var u := log + [Reservation(w, Pending)];
            && Sum(u, Pending) == Sum(log, Pending) + w
            && Sum(u, Granted) == Sum(log, Granted) && Sum(u, Leaked) == Sum(log, Leaked)
  {
    SumAdd(log, Reservation(w, Pending), Pending);
    SumAdd(log, Reservation(w, Pending), Granted);
    SumAdd(log, Reservation(w, Pending), Leaked);
  }

  /** Every step keeps the account, if a subtraction is the first one for its reservation. */
  lemma StepKeepsAccounted(p: Process, max: int, e: Event)
    requires Accounted(p) && Enabled(p, max, e)
    requires e.Subtract? ==> p.log[Subject(p, e)].phase == Granted
    requires e.Finish? ==> p.log[Subject(p, e)].phase == Returned
    ensures Accounted(Step(p, e))
  {
    hide Sum;
    var x, r := TrueTotal(p.log), Subject(p, e);
    match e
    case Add(w) =>
      Added(p.log, w);
      Wrap(x, w);
    case Admit(_) => Moved(p.log, r, Granted);
    case Interrupt(_) => Moved(p.log, r, Leaked);
    case Check(_, _) =>
    case Subtract(_) =>
      Moved(p.log, r, Returned);
      Wrap(x, -p.log[r].amount);
    case _ =>
      Moved(p.log, r, Cleared);
      Wrap(x, -p.log[r].amount);
  }

  lemma Wrap(x: int, d: int)
    ensures (x % WORD + d) % WORD == (x + d) % WORD
    ensures (x % WORD - (-d) % WORD) % WORD == (x + d) % WORD
  {
  }

  lemma StepKeepsJustified(p: Process, max: int, e: Event)
    requires Justified(p) && Single(p) && Enabled(p, max, e) && Single(Step(p, e))
    ensures Justified(Step(p, e))
  {
    var q, r := Step(p, e), Subject(p, e);
    if e.Check? {
      forall u | u in p.checked
        ensures p.checked[u].r != r
      {
        assert u in q.checked && e.task in q.checked && u != e.task;
      }
    }
    forall t | t in q.checked
      ensures Right(q.log, q.checked[t])
    {
      if t in p.checked {
        assert Right(p.log, p.checked[t]);
      }
    }
    forall i | 0 <= i < |q.log| && q.log[i].phase == Returned
      ensures !Unchecked(q, i)
    {
      if p.log[i].phase == Returned {
        var t :| t in p.checked && p.checked[t].r == i;
        assert t in q.checked && q.checked[t].r == i;
      } else {
        assert e.task in q.checked && q.checked[e.task].r == i;
      }
    }
  }

  lemma StepKeepsSafe(p: Process, max: int, e: Event)
    requires Safe(p) && Single(p) && Enabled(p, max, e) && Single(Step(p, e))
    ensures Safe(Step(p, e))
  {
    hide Accounted;
    StepKeepsAccounted(p, max, e);
    StepKeepsJustified(p, max, e);
  }

  // ---------------------------------------------------------------- runs

  /** The number of reservations that are pending or leaked: added to the total, but not granted. */
  function Open(log: seq<Reservation>): (n: int)
    ensures 0 <= n
  {
    if log == [] then 0 else Open(log[..|log| - 1]) + OpenPart(log[|log| - 1])
  }

  function OpenPart(r: Reservation): int {
    if r.phase == Pending || r.phase == Leaked then 1 else 0
  }

  /** A run from p to q in which no workload exceeds `largest` and never more than k reservations
      are open. */
  ghost predicate Runs(p: Process, max: int, k: int, largest: int, es: seq<Event>, q: Process)
    decreases |es|
  {
    && Open(p.log) <= k
    && if es == [] then p == q
       else
         && Enabled(p, max, es[0]) && (es[0].Add? ==> es[0].amount <= largest)
         && Runs(Step(p, es[0]), max, k, largest, es[1..], q)
  }

  lemma {:induction false} OpenMark(log: seq<Reservation>, r: int, now: Phase)
    requires 0 <= r < |log|
    ensures Open(Mark(log, r, now)) == Open(log) - OpenPart(log[r]) + OpenPart(log[r].(phase := now))
  {
    var u := Mark(log, r, now);
    if r < |log| - 1 {
      assert u[..|log| - 1] == Mark(log[..|log| - 1], r, now);
      OpenMark(log[..|log| - 1], r, now);
    } else {
      assert u[..|log| - 1] == log[..|log| - 1];
    }
  }

  lemma OpenAdd(log: seq<Reservation>, x: Reservation)
    ensures Open(log + [x]) == Open(log) + OpenPart(x)
  {
    assert (log + [x])[..|log|] == log;
  }

  /** What is open weighs at most `largest` apiece. */
  lemma {:induction false} OpenWeight(log: seq<Reservation>, largest: int)
    requires Amounts(log) && forall r | 0 <= r < |log| :: log[r].amount <= largest
    ensures 0 <= Sum(log, Pending) + Sum(log, Leaked) <= Open(log) * largest
  {
    if log != [] {
      var rest := log[..|log| - 1];
      assert forall r | 0 <= r < |rest| :: rest[r] == log[r];
      OpenWeight(rest, largest);
      assert (Open(rest) + 1) * largest == Open(rest) * largest + largest;
    }
  }

  lemma {:induction false} NothingOpen(log: seq<Reservation>)
    requires Open(log) == 0
    ensures Sum(log, Pending) == 0 && Sum(log, Leaked) == 0
  {
    if log != [] {
      NothingOpen(log[..|log| - 1]);
    }
  }

  /** No state of the run has two releases of a reservation under way. */
  ghost predicate OneReturn(p: Process, max: int, es: seq<Event>)
    decreases |es|
  {
    Single(p) && (es != [] && Enabled(p, max, es[0]) ==> OneReturn(Step(p, es[0]), max, es[1..]))
  }

  /** In every run with one release of a reservation at a time, the total is what is pending,
      granted and leaked, modulo its word. */
  lemma {:induction false} AlwaysAccounted(p: Process, max: int, k: int, largest: int, es: seq<Event>, q: Process)
    requires Safe(p) && Runs(p, max, k, largest, es, q) && OneReturn(p, max, es)
    ensures Accounted(q)
    decreases |es|
  {
    hide Justified, Accounted;
    if es != [] {
      StepKeepsSafe(p, max, es[0]);
      AlwaysAccounted(Step(p, es[0]), max, k, largest, es[1..], q);
    }
  }

  ghost predicate NoChecks(es: seq<Event>) {
    forall i | 0 <= i < |es| :: !es[i].Check?
  }

  lemma {:induction false} StaysSingle(p: Process, max: int, k: int, largest: int, es: seq<Event>, q: Process)
    requires Single(p) && NoChecks(es) && Runs(p, max, k, largest, es, q)
    ensures OneReturn(p, max, es)
    decreases |es|
  {
    if es != [] {
      assert forall i | 0 <= i < |es[1..]| :: es[1..][i] == es[i + 1];
      StaysSingle(Step(p, es[0]), max, k, largest, es[1..], q);
    }
  }

  lemma {:induction false} Joined(p: Process, max: int, k: int, largest: int, es: seq<Event>, q: Process,
                                  fs: seq<Event>, r: Process)
    requires Runs(p, max, k, largest, es, q) && Runs(q, max, k, largest, fs, r)
    ensures Runs(p, max, k, largest, es + fs, r)
    decreases |es|
  {
    if es == [] {
      assert es + fs == fs;
    } else {
      Joined(Step(p, es[0]), max, k, largest, es[1..], q, fs, r);
      assert (es + fs)[1..] == es[1..] + fs;
    }
  }

  lemma OneStep(p: Process, max: int, k: int, largest: int, e: Event)
    requires Enabled(p, max, e) && (e.Add? ==> e.amount <= largest) && Open(p.log) <= k && Open(Step(p, e).log) <= k
    ensures Runs(p, max, k, largest, [e], Step(p, e))
  {
    assert [e][1..] == [];
    assert Runs(Step(p, e), max, k, largest, [], Step(p, e));
  }

  // ---------------------------------------------------------------- when the limits fit

  /** What runs within the limits keep. */
  ghost predicate Bounded(p: Process, max: int, largest: int) {
    && Safe(p) && Sum(p.log, Granted) <= max
    && forall r | 0 <= r < |p.log| :: p.log[r].amount <= largest
  }

  /** While maximum and open workload together fit the word, the total is the true one. */
  lemma TotalIsTrue(p: Process, max: int, k: int, largest: int)
    requires Bounded(p, max, largest) && 0 <= largest && Open(p.log) <= k && max + k * largest < WORD
    ensures p.total == TrueTotal(p.log) < WORD
  {
    hide Open, Sum, Justified;
    OpenWeight(p.log, largest);
    SumNotNegative(p.log, Granted);
    Monotone(Open(p.log), k, largest);
  }

  lemma Monotone(a: int, b: int, n: int)
    requires a <= b && 0 <= n
    ensures a * n <= b * n
  {
  }

  lemma StepKeepsBounded(p: Process, max: int, k: int, largest: int, e: Event)
    requires Bounded(p, max, largest) && 0 <= largest && Open(p.log) <= k && max + k * largest < WORD
    requires Enabled(p, max, e) && (e.Add? ==> e.amount <= largest) && Single(p) && Single(Step(p, e))
    ensures Bounded(Step(p, e), max, largest)
  {
    hide Sum, Open, Single;
    var r := Subject(p, e);
    StepKeepsSafe(p, max, e);
    TotalIsTrue(p, max, k, largest);
    SumNotNegative(p.log, Pending);
    SumNotNegative(p.log, Leaked);
    hide Justified, Accounted;
    match e
    case Add(w) => Added(p.log, w);
    case Admit(_) => Moved(p.log, r, Granted);
    case Interrupt(_) => Moved(p.log, r, Leaked);
    case Check(_, _) =>
    case Subtract(_) => Moved(p.log, r, Returned);
    case _ => Moved(p.log, r, Cleared);
  }

  /** In every interleaving with at most k open reservations, and one release of a reservation at a
      time, what is granted never exceeds the maximum, and the total never wraps, provided the
      limits fit. */
  lemma {:induction false} GrantedBounded(p: Process, max: int, k: int, largest: int, es: seq<Event>, q: Process)
    requires Bounded(p, max, largest) && 0 <= largest && max + k * largest < WORD
    requires Runs(p, max, k, largest, es, q) && OneReturn(p, max, es)
    ensures Sum(q.log, Granted) <= max && q.total == TrueTotal(q.log)
    decreases |es|
  {
    hide Bounded, Single, Open, Sum;
    if es == [] {
      TotalIsTrue(p, max, k, largest);
      assert Sum(p.log, Granted) <= max by {
        BoundedMeans(p, max, largest);
      }
    } else {
      StepKeepsBounded(p, max, k, largest, es[0]);
      GrantedBounded(Step(p, es[0]), max, k, largest, es[1..], q);
    }
  }

  lemma BoundedMeans(p: Process, max: int, largest: int)
    requires Bounded(p, max, largest)
    ensures Sum(p.log, Granted) <= max
  {
  }

  // ---------------------------------------------------------------- when they do not

  function Min(a: int, b: int): int {
    if a < b then a else b
  }

  /** With nothing open, reservations can be added and granted one by one up to any goal, even when
      the total reads `off` too little. */
  lemma {:induction false} Fill(p: Process, max: int, k: int, largest: int, off: int, goal: int)
    returns (es: seq<Event>, q: Process)
    requires Amounts(p.log) && Open(p.log) == 0 && 0 <= off <= Sum(p.log, Granted) && 1 <= k && 1 <= largest
    requires p.total == Sum(p.log, Granted) - off && Sum(p.log, Granted) <= goal <= max + off && max < WORD
    ensures Runs(p, max, k, largest, es, q) && NoChecks(es) && Amounts(q.log) && Open(q.log) == 0
    ensures q.total == Sum(q.log, Granted) - off && Sum(q.log, Granted) == goal
    decreases goal - Sum(p.log, Granted)
  {
    hide Sum, Open;
    if Sum(p.log, Granted) == goal {
      es, q := Nothing(p, max, k, largest);
    } else {
      var w := Min(goal - Sum(p.log, Granted), largest);
      var add, admit := Add(w), Admit(|p.log|);
      var p1 := Step(p, add);
      OpenAdd(p.log, Reservation(w, Pending));
      Added(p.log, w);
      OneStep(p, max, k, largest, add);
      OpenMark(p1.log, |p.log|, Granted);
      Moved(p1.log, |p.log|, Granted);
      OneStep(p1, max, k, largest, admit);
      es, q := Fill(Step(p1, admit), max, k, largest, off, goal);
      Joined(p1, max, k, largest, [admit], Step(p1, admit), es, q);
      Joined(p, max, k, largest, [add], p1, [admit] + es, q);
      es := [add] + ([admit] + es);
    }
  }

  lemma Nothing(p: Process, max: int, k: int, largest: int) returns (es: seq<Event>, q: Process)
    requires Open(p.log) <= k
    ensures es == [] && q == p && Runs(p, max, k, largest, es, q)
  {
    es, q := [], p;
  }

  ghost predicate NoneLeaked(log: seq<Reservation>) {
    forall r | 0 <= r < |log| :: log[r].phase != Leaked
  }

  /** Up to k reservations of at most `largest` each can be added on top. */
  lemma {:induction false} Pile(p: Process, max: int, k: int, largest: int, more: int)
    returns (es: seq<Event>, q: Process)
    requires Accounted(p) && NoneLeaked(p.log) && Open(p.log) <= k && 1 <= largest
    requires 0 <= more <= (k - Open(p.log)) * largest
    ensures Runs(p, max, k, largest, es, q) && NoChecks(es) && Accounted(q) && NoneLeaked(q.log) && Open(q.log) <= k
    ensures Sum(q.log, Granted) == Sum(p.log, Granted) && Sum(q.log, Pending) == Sum(p.log, Pending) + more
    decreases more
  {
    hide Sum, Open;
    if more == 0 {
      es, q := Nothing(p, max, k, largest);
    } else {
      var add := Add(Min(more, largest));
      var p1 := Step(p, add);
      OpenAdd(p.log, Reservation(add.amount, Pending));
      assert (k - Open(p1.log)) * largest == (k - Open(p.log)) * largest - largest;
      RoomForOne(k - Open(p.log), largest, more);
      Added(p.log, add.amount);
      StepKeepsAccounted(p, max, add);
      OneStep(p, max, k, largest, add);
      es, q := Pile(p1, max, k, largest, more - add.amount);
      Joined(p, max, k, largest, [add], p1, es, q);
      es := [add] + es;
    }
  }

  lemma RoomForOne(n: int, largest: int, more: int)
    requires 0 <= n && 1 <= largest && 1 <= more <= n * largest
    ensures 1 <= n && (more < largest ==> 0 <= (n - 1) * largest)
  {
    assert n == 0 ==> n * largest == 0;
  }

  /** While the total reads no more than the maximum, everything pending can be granted. */
  lemma {:induction false} AdmitAll(p: Process, max: int, k: int, largest: int) returns (es: seq<Event>, q: Process)
    requires Accounted(p) && NoneLeaked(p.log) && Open(p.log) <= k && p.total <= max
    ensures Runs(p, max, k, largest, es, q) && NoChecks(es)
    ensures Sum(q.log, Granted) == Sum(p.log, Granted) + Sum(p.log, Pending)
    decreases Open(p.log)
  {
    if r :| 0 <= r < |p.log| && p.log[r].phase == Pending {
      var admit := Admit(r);
      var p1 := Step(p, admit);
      OpenMark(p.log, r, Granted);
      Moved(p.log, r, Granted);
      StepKeepsAccounted(p, max, admit);
      OneStep(p, max, k, largest, admit);
      es, q := AdmitAll(p1, max, k, largest);
      Joined(p, max, k, largest, [admit], p1, es, q);
      es := [admit] + es;
    } else {
      NonePending(p.log);
      es, q := [], p;
    }
  }

  lemma {:induction false} NonePending(log: seq<Reservation>)
    requires forall r | 0 <= r < |log| :: log[r].phase != Pending
    ensures Sum(log, Pending) == 0
  {
    if log != [] {
      NonePending(log[..|log| - 1]);
    }
  }

  lemma {:induction false} AllGranted(log: seq<Reservation>)
    requires Open(log) == 0
    ensures NoneLeaked(log)
  {
    if log != [] {
      AllGranted(log[..|log| - 1]);
      assert forall r | 0 <= r < |log| - 1 :: log[r] == log[..|log| - 1][r];
    }
  }

  /** When maximum and k workloads do not fit the word together, there is a run that grants a
      whole word: fill up to the maximum, pile up what is missing to the word, and the total
      reads zero. */
  lemma TooLarge(max: int, k: int, largest: int) returns (es: seq<Event>, q: Process)
    requires 0 <= max < WORD && 1 <= k && 1 <= largest && WORD <= max + k * largest
    ensures Runs(Start(), max, k, largest, es, q) && OneReturn(Start(), max, es) && Sum(q.log, Granted) == WORD > max
  {
    hide Runs, Open;
    StartIsEmpty();
    var fill, full := Fill(Start(), max, k, largest, 0, max);
    NothingOpen(full.log);
    AllGranted(full.log);
    var pile, piled := Pile(full, max, k, largest, WORD - max);
    NonePendingLeaked(piled.log);
    var admit, all := AdmitAll(piled, max, k, largest);
    Joined(full, max, k, largest, pile, piled, admit, all);
    Joined(Start(), max, k, largest, fill, full, pile + admit, all);
    es, q := fill + (pile + admit), all;
    StaysSingle(Start(), max, k, largest, es, q);
  }

  lemma StartIsEmpty()
    ensures Open(Start().log) == 0 && Sum(Start().log, Granted) == 0
  {
  }

  lemma {:induction false} NonePendingLeaked(log: seq<Reservation>)
    requires NoneLeaked(log)
    ensures Sum(log, Leaked) == 0
  {
    if log != [] {
      assert forall r | 0 <= r < |log| - 1 :: log[r] == log[..|log| - 1][r];
      NonePendingLeaked(log[..|log| - 1]);
    }
  }

  // ---------------------------------------------------------------- the exact condition

  /** What is granted stays within the maximum in every run with workloads of at most `largest`, at
      most k of them pending or leaked at a time, and one release of a reservation at a time, if
      and only if the maximum and k workloads fit the word together. */
  lemma ExactLimits(max: int, k: int, largest: int)
    requires 0 <= max < WORD && 1 <= k && 1 <= largest
    ensures max + k * largest < WORD
            <==> forall es, q | Runs(Start(), max, k, largest, es, q) && OneReturn(Start(), max, es) ::
                   Sum(q.log, Granted) <= max
  {
    hide Runs, Sum, OneReturn;
    StartIsBounded(max, largest);
    if max + k * largest < WORD {
      forall es, q | Runs(Start(), max, k, largest, es, q) && OneReturn(Start(), max, es)
        ensures Sum(q.log, Granted) <= max
      {
        GrantedBounded(Start(), max, k, largest, es, q);
      }
    } else {
      var es, q := TooLarge(max, k, largest);
      assert Runs(Start(), max, k, largest, es, q) && OneReturn(Start(), max, es) && !(Sum(q.log, Granted) <= max);
    }
  }

  lemma StartIsBounded(max: int, largest: int)
    requires 0 <= max
    ensures Bounded(Start(), max, largest)
  {
  }

  /** The encoder is safe with one reservation open at a time, interrupted ones included. */
  lemma EncoderIsSafe(es: seq<Event>, q: Process)
    requires Runs(Start(), ENCODER_MAX, 1, ENCODER_LARGEST, es, q) && OneReturn(Start(), ENCODER_MAX, es)
    ensures Sum(q.log, Granted) <= ENCODER_MAX && q.total == TrueTotal(q.log)
  {
    GrantedBounded(Start(), ENCODER_MAX, 1, ENCODER_LARGEST, es, q);
  }

  /** With two it is not. */
  lemma EncoderTwoPending() returns (es: seq<Event>, q: Process)
    ensures Runs(Start(), ENCODER_MAX, 2, ENCODER_LARGEST, es, q) && OneReturn(Start(), ENCODER_MAX, es)
    ensures Sum(q.log, Granted) > ENCODER_MAX
  {
    es, q := TooLarge(ENCODER_MAX, 2, ENCODER_LARGEST);
  }

  /** The decoder is not even safe with one. */
  lemma DecoderIsNot() returns (es: seq<Event>, q: Process)
    ensures Runs(Start(), DECODER_MAX, 1, DECODER_LARGEST, es, q) && OneReturn(Start(), DECODER_MAX, es)
    ensures Sum(q.log, Granted) > DECODER_MAX
  {
    es, q := TooLarge(DECODER_MAX, 1, DECODER_LARGEST);
  }

  // ---------------------------------------------------------------- two releases of one reservation

  /** From a state whose releases are all still justified, the total stays accounted for in every
      continuation in which no further release passes the tests, if and only if no reservation
      has two of them under way. */
  lemma ExactlySingle(p: Process, max: int)
    requires Safe(p)
    ensures Single(p) <==> forall k, largest, es, q | NoChecks(es) && Runs(p, max, k, largest, es, q) :: Accounted(q)
  {
    hide Runs, Accounted, Justified, OneReturn;
    if Single(p) {
      forall k, largest, es, q | NoChecks(es) && Runs(p, max, k, largest, es, q)
        ensures Accounted(q)
      {
        StaysSingle(p, max, k, largest, es, q);
        AlwaysAccounted(p, max, k, largest, es, q);
      }
    } else {
      var es, q := SubtractedTwice(p, max);
      assert NoChecks(es) && Runs(p, max, Open(p.log), 0, es, q) && !Accounted(q);
    }
  }

  lemma SubtractedTwice(p: Process, max: int) returns (es: seq<Event>, q: Process)
    requires Safe(p) && !Single(p)
    ensures NoChecks(es) && Runs(p, max, Open(p.log), 0, es, q) && !Accounted(q)
  {
    hide Sum, Open;
    var t, u :| t in p.checked && u in p.checked && p.checked[t].r == p.checked[u].r && t != u;
    var r := p.checked[t].r;
    assert Right(p.log, p.checked[t]) && Right(p.log, p.checked[u]);
    var p1 := Step(p, Subtract(t));
    q := Step(p1, Subtract(u));
    OpenMark(p.log, r, Returned);
    OneStep(p, max, Open(p.log), 0, Subtract(t));
    OneStep(p1, max, Open(p.log), 0, Subtract(u));
    Joined(p, max, Open(p.log), 0, [Subtract(t)], p1, [Subtract(u)], q);
    es := [Subtract(t)] + [Subtract(u)];
    StepKeepsAccounted(p, max, Subtract(t));
    Differs(TrueTotal(p1.log), p.log[r].amount);
  }

  /** The second release does no harm if the first has finished by then: it reads a zero workload. */
  lemma FinishedFirst(p: Process, max: int, t: Task, u: Task)
    requires Safe(p) && t in p.checked && u in p.checked && t != u && p.checked[t].r == p.checked[u].r
    requires !p.checked[t].done
    ensures var p1 := Step(p, Subtract(t));
            && Enabled(p1, max, Finish(t))
            && var p2 := Step(p1, Finish(t));
               && Enabled(p2, max, Subtract(u))
               && Step(p2, Subtract(u)).total == p1.total && Accounted(Step(p2, Subtract(u)))
  {
    hide Sum;
    assert Right(p.log, p.checked[t]) && Right(p.log, p.checked[u]);
    StepKeepsAccounted(p, max, Subtract(t));
    StepKeepsAccounted(Step(p, Subtract(t)), max, Finish(t));
  }

  lemma Differs(x: int, w: int)
    requires w % WORD != 0
    ensures (x % WORD - w % WORD) % WORD != x % WORD
  {
  }

  lemma Few(x: Reservation, y: Reservation)
    ensures Open([]) == 0 && Open([x]) == OpenPart(x) && Open([x, y]) == OpenPart(x) + OpenPart(y)
    ensures Sum([x, y], Granted) == Part(x, Granted) + Part(y, Granted)
  {
    assert [x, y][..1] == [x] && [x][..0] == [];
    assert Sum([x], Granted) == Part(x, Granted);
  }

  lemma UnitTwice(max: int, k: int, largest: int) returns (es: seq<Event>, p: Process)
    requires 1 <= max < WORD && 1 <= k && 1 <= largest
    ensures Runs(Start(), max, k, largest, es, p) && Amounts(p.log) && Open(p.log) == 0
    ensures p.total == 0 && Sum(p.log, Granted) == 1
  {
    var one, two, both := Release(0, false), Release(0, true), map[1 := Release(0, true), 2 := Release(0, true)];
    var log := [Reservation(1, Returned), Reservation(1, Granted)];
    p := Process(0, log, both);
    hide Sum, Open;
    es := [];
    Few(log[0], log[1]);
    Few(Reservation(1, Pending), log[1]);
    Few(log[1], log[1]);
    Few(log[0], Reservation(1, Pending));
    var p7 := Process(0, [log[0], Reservation(1, Pending)], both);
    assert Mark(p7.log, 1, Granted) == log;
    es := Before(p7, Admit(1), p, max, k, largest, es, p);
    var p6 := Process(WORD - 1, [log[0]], both);
    es := Before(p6, Add(1), p7, max, k, largest, es, p);
    var p5 := Process(0, [log[0]], map[1 := two, 2 := one]);
    es := Before(p5, Subtract(2), p6, max, k, largest, es, p);
    var p4 := Process(1, [Reservation(1, Granted)], map[1 := one, 2 := one]);
    es := Before(p4, Subtract(1), p5, max, k, largest, es, p);
    var p3 := Process(1, [Reservation(1, Granted)], map[1 := one]);
    es := Before(p3, Check(2, 0), p4, max, k, largest, es, p);
    var p2 := Process(1, [Reservation(1, Granted)], map[]);
    es := Before(p2, Check(1, 0), p3, max, k, largest, es, p);
    var p1 := Process(1, [Reservation(1, Pending)], map[]);
    es := Before(p1, Admit(0), p2, max, k, largest, es, p);
    es := Before(Start(), Add(1), p1, max, k, largest, es, p);
  }

  /** A run with one event put in front. */
  lemma Before(p: Process, e: Event, next: Process, max: int, k: int, largest: int, es: seq<Event>, q: Process)
    returns (fs: seq<Event>)
    requires Enabled(p, max, e) && (e.Add? ==> e.amount <= largest) && Open(p.log) <= k && Step(p, e) == next
    requires Runs(next, max, k, largest, es, q)
    ensures fs == [e] + es && Runs(p, max, k, largest, fs, q)
  {
    fs := [e] + es;
    assert fs[1..] == es;
  }

  /** With two releases of a reservation at once no limits are safe: grant one unit, subtract it
      twice, and the total reads one too little from then on. */
  lemma NoLimitsHold(max: int, k: int, largest: int) returns (es: seq<Event>, q: Process)
    requires 1 <= max < WORD && 1 <= k && 1 <= largest
    ensures Runs(Start(), max, k, largest, es, q) && Sum(q.log, Granted) > max
  {
    hide Runs, Open, Sum;
    var twice, p := UnitTwice(max, k, largest);
    var fill;
    fill, q := Fill(p, max, k, largest, 1, max + 1);
    Joined(Start(), max, k, largest, twice, p, fill, q);
    es := twice + fill;
  }

  /** An interrupt leaves workload behind: one reservation of more than the maximum, interrupted while it
      waits, is enough for nothing ever to be admitted again. */
  lemma OneLeakBlocks(max: int) returns (es: seq<Event>, q: Process)
    requires 0 <= max < WORD - 1
    ensures Runs(Start(), max, 1, max + 1, es, q) && OneReturn(Start(), max, es)
    ensures Sum(q.log, Leaked) == max + 1 && forall r :: !Enabled(q, max, Admit(r))
  {
    hide Sum, Open;
    StartIsEmpty();
    var p := Process(max + 1, [Reservation(max + 1, Pending)], map[]);
    q := Process(max + 1, [Reservation(max + 1, Leaked)], map[]);
    Few(Reservation(max + 1, Pending), Reservation(max + 1, Pending));
    Few(Reservation(max + 1, Leaked), Reservation(max + 1, Leaked));
    NothingYet();
    Added([], max + 1);
    Moved(p.log, 0, Leaked);
    es, q := Nothing(q, max, 1, max + 1);
    es := Before(p, Interrupt(0), q, max, 1, max + 1, es, q);
    es := Before(Start(), Add(max + 1), p, max, 1, max + 1, es, q);
    StaysSingle(Start(), max, 1, max + 1, es, q);
  }

  lemma NothingYet()
    ensures forall phase :: Sum([], phase) == 0
  {
  }

  /** Leaks are for good: once interrupted reservations have left more than the maximum in the
      total, and as long as it does not wrap, no reservation of this process is admitted. */
  lemma LeakBlocks(p: Process, max: int, r: int)
    requires Accounted(p) && TrueTotal(p.log) < WORD && max < Sum(p.log, Leaked)
    ensures !Enabled(p, max, Admit(r))
  {
    SumNotNegative(p.log, Pending);
    SumNotNegative(p.log, Granted);
  }
}
