/** The pool of 256 command-buffer slots: a singly linked queue of free slots, guarded by a
    spinlock, and a semaphore that counts them. Tasks may run between any two atomic steps. */
module SlotPool {
  import opened Common

  const SLOTS := 256

  // ---------------------------------------------------------------- the queue

  /** struct si_linked_list with its nodes embedded: a node is its index, -1 is NULL. */
  class SlotQueue {
    const next: array<int>
    var head: int
    var tail: int
    ghost var queue: seq<int>

    ghost predicate Valid()
      reads this, next
    {
      && next.Length == SLOTS
      && Distinct(queue) && (forall i | 0 <= i < |queue| :: 0 <= queue[i] < SLOTS)
      && head == (if queue == [] then -1 else queue[0])
      && (queue != [] ==> tail == queue[|queue| - 1])
      && forall i | 0 <= i < |queue| :: Linked(i)
    }

    ghost predicate Linked(i: int)
      requires 0 <= i < |queue| && 0 <= queue[i] < next.Length
      reads this, next
    {
      next[queue[i]] == if i + 1 < |queue| then queue[i + 1] else -1
    }

    /** vcmd_init_free_obj_list */
    constructor ()
      ensures Valid() && fresh(next) && queue == Slots(SLOTS)
      ensures |queue| == 256 && forall i | 0 <= i < 256 :: queue[i] == i
    {
      next := new int[SLOTS];
      head, tail, queue := -1, -1, [];
      new;
      for i := 0 to SLOTS
        invariant Valid() && queue == Slots(i) && fresh(next)
      {
        SlotsBelow(i);
        AppendsNew(queue, i);
        Put(i);
      }
    }

    /** _si_list_put. A node that is already on the list becomes its end. */
    method Put(node: int)
      requires Valid() && 0 <= node < SLOTS
      modifies this, next
      ensures Valid() && queue == Enqueue(old(queue), node)
      ensures node !in old(queue) ==> queue == old(queue) + [node]
      ensures forall k | 0 <= k < |old(queue)| && old(queue)[k] == node && node !in old(queue)[..k] ::
                queue == old(queue)[..k + 1]
    {
      ghost var k := IndexOf(queue, node);
      if head == -1 {
        head := node;
        tail := node;
      } else {
        next[tail] := node;
        tail := node;
      }
      next[node] := -1;
      ghost var was := queue;
      queue := Enqueue(queue, node);
      assert forall i | 0 <= i < |was| && i < |queue| :: queue[i] == was[i];
      forall i | 0 <= i < |queue|
        ensures Linked(i)
      {
        assert i < |queue| - 1 ==> old(Linked(i));
      }
    }

    /** _si_list_get; -1 when the list is empty. */
    method Get() returns (node: int)
      requires Valid()
      modifies this, next
      ensures Valid()
      ensures if old(queue) == [] then node == -1 && queue == [] else node == old(queue[0]) && queue == old(queue[1..])
    {
      node := head;
      if head != -1 {
        assert Linked(0);
        head := next[node];
        if head == -1 {
          tail := -1;
        }
        ghost var was := queue;
        queue := queue[1..];
        forall i | 0 <= i < |queue|
          ensures Linked(i)
        {
          assert queue[i] == was[i + 1] && old(Linked(i + 1));
        }
      }
    }
  }

  /** What a put makes of the queue. */
  function Enqueue(s: seq<int>, n: int): seq<int> {
    if IndexOf(s, n) < |s| then s[..IndexOf(s, n) + 1] else s + [n]
  }

  lemma AppendsNew(s: seq<int>, n: int)
    requires n !in s
    ensures Enqueue(s, n) == s + [n]
  {
  }

  function Slots(n: int): (s: seq<int>)
    requires 0 <= n
    ensures |s| == n && forall i | 0 <= i < n :: s[i] == i
  {
    if n == 0 then [] else Slots(n - 1) + [n - 1]
  }

  lemma {:induction false} SlotsBelow(n: int)
    requires 0 <= n
    ensures |Slots(n)| == n && Distinct(Slots(n)) && forall x :: x in Slots(n) <==> 0 <= x < n
  {
    if n > 0 {
      SlotsBelow(n - 1);
      Appended(Slots(n - 1), n - 1);
    }
  }

  lemma Appended(s: seq<int>, n: int)
    requires Distinct(s) && n !in s
    ensures Distinct(s + [n]) && forall x :: x in s + [n] <==> x in s || x == n
  {
  }

  // ---------------------------------------------------------------- the protocol

  type Task = int

  /** A release that has passed the owner test: its slot, and how many slots had been handed out
      by then. */
  datatype Release = Release(slot: int, since: int)

  /** The pool between two atomic steps. `getting` are the tasks that have taken the semaphore
      but not yet a slot, `posting` those that have queued a slot but not yet raised the
      semaphore, `held` the slots in the hands of clients, `checked` the tasks that have passed
      the owner test of a release but not yet put the slot back. `handed` and `given` record every
      slot taken from the queue and every slot put on it, in order. */
  datatype Pool = Pool(queue: seq<int>, sema: int, getting: set<Task>, posting: set<Task>, held: set<int>,
                       checked: map<Task, Release>, handed: seq<int>, given: seq<int>)

  /** down_interruptible succeeding or being interrupted; the locked get of acquire_cmdbuf; the
      owner test of release_cmdbuf, without a lock; the locked put of return_cmdbuf; up. */
  datatype Event =
    | Down(task: Task)
    | Interrupted(task: Task)
    | Get(task: Task)
    | Check(task: Task, slot: int)
    | Put(task: Task)
    | Up(task: Task)

  function Start(): Pool {
    Pool(Slots(SLOTS), SLOTS, {}, {}, {}, map[], [], Slots(SLOTS))
  }

  /** Between its calls. */
  predicate Outside(p: Pool, t: Task) {
    t !in p.getting && t !in p.posting && t !in p.checked
  }

  predicate Enabled(p: Pool, e: Event) {
    match e
    case Down(t) => 0 < p.sema && Outside(p, t)
    case Interrupted(t) => Outside(p, t)
    case Get(t) => t in p.getting
    case Check(t, slot) => slot in p.held && Outside(p, t)
    case Put(t) => t in p.checked && t !in p.posting
    case Up(t) => t in p.posting
  }

  /** One step. Get on an empty queue is the "get NULL node" error: the task gives up, and what
      it took from the semaphore is lost. */
  function Step(p: Pool, e: Event): Pool
    requires Enabled(p, e)
  {
    match e
    case Down(t) => p.(sema := p.sema - 1, getting := p.getting + {t})
    case Interrupted(t) => p
    case Get(t) =>
      if p.queue == [] then p.(getting := p.getting - {t})
      else
        p.(getting := p.getting - {t}, queue := p.queue[1..], held := p.held + {p.queue[0]},
           handed := p.handed + [p.queue[0]])
    case Check(t, slot) => p.(checked := p.checked[t := Release(slot, |p.handed|)])
    case Put(t) =>
      var slot := p.checked[t].slot;
      p.(posting := p.posting + {t}, queue := Enqueue(p.queue, slot), held := p.held - {slot},
         checked := p.checked - {t}, given := p.given + [slot])
    case Up(t) => p.(sema := p.sema + 1, posting := p.posting - {t})
  }

  /** Reachable by some interleaving. */
  ghost predicate Reaches(p: Pool, es: seq<Event>, q: Pool)
    decreases |es|
  {
    if es == [] then p == q else Enabled(p, es[0]) && Reaches(Step(p, es[0]), es[1..], q)
  }

  /** No slot has two checked releases outstanding. */
  ghost predicate Single(p: Pool) {
    forall t, u | t in p.checked && u in p.checked && p.checked[t].slot == p.checked[u].slot :: t == u
  }

  /** Nor has it in any state of the run. */
  ghost predicate OneReturn(p: Pool, es: seq<Event>)
    decreases |es|
  {
    Single(p) && (es != [] && Enabled(p, es[0]) ==> OneReturn(Step(p, es[0]), es[1..]))
  }

  /** Free slots are the semaphore's count, those promised to tasks about to take one, and those
      put back but not yet counted; every slot is in exactly one place; slots leave the queue in
      the order in which they entered it; and a slot whose release was checked is still held. */
  ghost predicate Safe(p: Pool) {
    && 0 <= p.sema && |p.queue| == p.sema + |p.getting| + |p.posting|
    && OnePlace(p.queue, p.held)
    && p.given == p.handed + p.queue
    && Justified(p)
  }

  /** What the tasks are about to put back is held and was not handed out since their owner test, and
      they are doing nothing else. */
  ghost predicate Justified(p: Pool) {
    forall t | t in p.checked ::
      && p.checked[t].slot in p.held && 0 <= p.checked[t].since <= |p.handed|
      && p.checked[t].slot !in p.handed[p.checked[t].since..] && t !in p.getting && t !in p.posting
  }

  ghost predicate OnePlace(queue: seq<int>, held: set<int>) {
    && Distinct(queue)
    && (forall x :: 0 <= x < SLOTS <==> x in queue || x in held)
    && (forall x | x in queue :: x !in held)
  }

  lemma HandedOut(queue: seq<int>, held: set<int>)
    requires OnePlace(queue, held) && queue != []
    ensures OnePlace(queue[1..], held + {queue[0]}) && queue[0] !in held
  {
    assert queue == [queue[0]] + queue[1..];
    assert forall x :: x in queue <==> x == queue[0] || x in queue[1..];
    assert queue[0] !in queue[1..];
  }

  lemma OtherHanded(handed: seq<int>, since: int, slot: int, x: int)
    requires 0 <= since <= |handed| && slot !in handed[since..] && slot != x
    ensures slot !in (handed + [x])[since..]
  {
    assert (handed + [x])[since..] == handed[since..] + [x];
  }

  lemma GivenBack(queue: seq<int>, held: set<int>, slot: int)
    requires OnePlace(queue, held) && slot in held
    ensures Enqueue(queue, slot) == queue + [slot] && OnePlace(queue + [slot], held - {slot})
  {
    AppendsNew(queue, slot);
    Appended(queue, slot);
  }

  lemma GetKeepsSafe(p: Pool, t: Task)
    requires Safe(p) && t in p.getting
    ensures Safe(Step(p, Get(t)))
  {
    hide OnePlace;
    NeverNull(p, t);
    HandedOut(p.queue, p.held);
    forall u | u in p.checked
      ensures p.checked[u].slot !in (p.handed + [p.queue[0]])[p.checked[u].since..]
    {
      OtherHanded(p.handed, p.checked[u].since, p.checked[u].slot, p.queue[0]);
    }
    assert |p.getting - {t}| == |p.getting| - 1;
    assert p.handed + [p.queue[0]] + p.queue[1..] == p.handed + p.queue;
  }

  lemma PutKeepsSafe(p: Pool, t: Task)
    requires Safe(p) && Single(p) && Enabled(p, Put(t))
    ensures Safe(Step(p, Put(t)))
  {
    hide OnePlace, Enqueue;
    var slot := p.checked[t].slot;
    GivenBack(p.queue, p.held, slot);
    assert |p.posting + {t}| == |p.posting| + 1;
    assert p.handed + (p.queue + [slot]) == p.given + [slot];
  }

  lemma StepKeepsSafe(p: Pool, e: Event)
    requires Safe(p) && Single(p) && Enabled(p, e)
    ensures Safe(Step(p, e)) && (!e.Check? ==> Single(Step(p, e)))
  {
    hide OnePlace, Enqueue;
    match e
    case Get(t) => GetKeepsSafe(p, t);
    case Put(t) => PutKeepsSafe(p, t);
    case Down(t) => assert |p.getting + {t}| == |p.getting| + 1;
    case Up(t) => assert |p.posting - {t}| == |p.posting| - 1;
    case _ =>
  }

  /** The branch that reports a NULL node cannot be taken: a task past the semaphore always
      finds a slot. */
  lemma NeverNull(p: Pool, t: Task)
    requires Safe(p) && t in p.getting
    ensures p.queue != []
  {
  }

  /** A task that finds none gives up, and what it took from the semaphore is lost. */
  lemma FailedGet(p: Pool, t: Task)
    requires t in p.getting && p.queue == []
    ensures var q := Step(p, Get(t));
            && q == p.(getting := q.getting) && t !in q.getting
            && q.sema + |q.getting| + |q.posting| == p.sema + |p.getting| + |p.posting| - 1
  {
    assert |p.getting - {t}| == |p.getting| - 1;
  }

  lemma StartIsSafe()
    ensures Safe(Start())
  {
    SlotsBelow(SLOTS);
  }

  /** In every interleaving with one release of a slot at a time, from any safe state on. */
  lemma {:induction false} AlwaysSafe(p: Pool, es: seq<Event>, q: Pool)
    requires Safe(p) && Reaches(p, es, q) && OneReturn(p, es)
    ensures Safe(q) && Single(q)
    decreases |es|
  {
    if es != [] {
      StepKeepsSafe(p, es[0]);
      AlwaysSafe(Step(p, es[0]), es[1..], q);
    }
  }

  /** In every reachable state: the count, the partition of the slots, and the order. */
  lemma ReachableStates(es: seq<Event>, p: Pool)
    requires Reaches(Start(), es, p) && OneReturn(Start(), es)
    ensures |p.queue| == p.sema + |p.getting| + |p.posting| && |p.queue| <= SLOTS
    ensures forall t | t in p.getting :: p.queue != []
    ensures forall x | 0 <= x < SLOTS :: x in p.queue <==> x !in p.held
    ensures Distinct(p.queue) && p.given == p.handed + p.queue
  {
    StartIsSafe();
    AlwaysSafe(Start(), es, p);
    forall t | t in p.getting
      ensures p.queue != []
    {
      NeverNull(p, t);
    }
    AtMost(p.queue, SLOTS);
  }

  lemma {:induction false} AtMost(s: seq<int>, n: int)
    requires 0 <= n && Distinct(s) && forall x | x in s :: 0 <= x < n
    ensures |s| <= n
    decreases n
  {
    if s != [] {
      assert s[0] in s;
      if i :| 0 <= i < |s| && s[i] == n - 1 {
        var t := s[..i] + s[i + 1..];
        assert forall x | x in t :: x in s && x != n - 1;
        AtMost(t, n - 1);
      } else {
        AtMost(s, n - 1);
      }
    }
  }

  /** With no task between its steps, the free slots are exactly what the semaphore counts, and
      once every client has given back its slots all 256 are free. */
  lemma QuietPool(es: seq<Event>, p: Pool)
    requires Reaches(Start(), es, p) && OneReturn(Start(), es) && p.getting == {} && p.posting == {}
    ensures |p.queue| == p.sema && (p.held == {} ==> p.sema == SLOTS)
  {
    ReachableStates(es, p);
    if p.held == {} {
      AtLeast(p.queue, SLOTS);
    }
  }

  lemma {:induction false} AtLeast(s: seq<int>, n: int)
    requires 0 <= n && forall x | 0 <= x < n :: x in s
    ensures n <= |s|
    decreases n
  {
    if n > 0 {
      assert n - 1 in s;
      var i :| 0 <= i < |s| && s[i] == n - 1;
      var t := s[..i] + s[i + 1..];
      forall x | 0 <= x < n - 1
        ensures x in t
      {
        assert x in s;
        var j :| 0 <= j < |s| && s[j] == x;
        assert x == t[if j < i then j else j - 1];
      }
      AtLeast(t, n - 1);
    }
  }

  // ---------------------------------------------------------------- two releases of one slot

  ghost predicate NoChecks(es: seq<Event>) {
    forall i | 0 <= i < |es| :: !es[i].Check?
  }

  ghost predicate NoNull(p: Pool) {
    p.getting != {} ==> p.queue != []
  }

  lemma {:induction false} StaysSingle(p: Pool, es: seq<Event>, q: Pool)
    requires Safe(p) && Single(p) && NoChecks(es) && Reaches(p, es, q)
    ensures OneReturn(p, es)
    decreases |es|
  {
    if es != [] {
      StepKeepsSafe(p, es[0]);
      assert forall i | 0 <= i < |es[1..]| :: es[1..][i] == es[i + 1];
      StaysSingle(Step(p, es[0]), es[1..], q);
    }
  }

  /** From a state whose checked releases are all still justified, the NULL-node branch stays
      unreachable in every continuation without new releases if and only if no slot has two of
      them outstanding. */
  lemma ExactlySingle(p: Pool)
    requires Safe(p)
    ensures Single(p) <==> forall es, q | NoChecks(es) && Reaches(p, es, q) :: NoNull(q)
  {
    if Single(p) {
      forall es, q | NoChecks(es) && Reaches(p, es, q)
        ensures NoNull(q)
      {
        StaysSingle(p, es, q);
        AlwaysSafe(p, es, q);
        forall t | t in q.getting
          ensures q.queue != []
        {
          NeverNull(q, t);
        }
      }
    } else {
      var es, q := DoubleReturn(p);
      assert NoChecks(es) && Reaches(p, es, q) && !NoNull(q);
    }
  }

  /** The second put finds the slot at the end of the queue and leaves the queue as it is, but the
      semaphore is raised twice. */
  lemma DoubleReturn(p: Pool) returns (es: seq<Event>, q: Pool)
    requires Safe(p) && !Single(p)
    ensures NoChecks(es) && Reaches(p, es, q) && !NoNull(q)
  {
    hide Reaches, NoNull, Safe;
    var t, u :| t in p.checked && u in p.checked && p.checked[t].slot == p.checked[u].slot && t != u;
    PutTwice(p, t, u);
    var p1 := Step(p, Put(t));
    var p2 := Step(p1, Put(u));
    es, q := Drain(p2);
    Prefixed(p1, Put(u), es, q);
    Prefixed(p, Put(t), [Put(u)] + es, q);
    es := [Put(t)] + ([Put(u)] + es);
  }

  lemma PutTwice(p: Pool, t: Task, u: Task)
    requires Safe(p) && t in p.checked && u in p.checked && p.checked[t].slot == p.checked[u].slot && t != u
    ensures Enabled(p, Put(t)) && Enabled(Step(p, Put(t)), Put(u))
    ensures Short(Step(Step(p, Put(t)), Put(u)))
  {
    hide Enqueue;
    GivenBack(p.queue, p.held, p.checked[t].slot);
    AtEnd(p.queue, p.checked[t].slot);
    assert |p.posting + {t}| == |p.posting| + 1 && |p.posting + {t} + {u}| == |p.posting| + 2;
  }

  lemma AtEnd(s: seq<int>, n: int)
    requires Enqueue(s, n) == s + [n]
    ensures Enqueue(s + [n], n) == s + [n]
  {
    assert (s + [n])[|s|] == n && n in s + [n];
    assert forall i | 0 <= i < |s| :: (s + [n])[i] == s[i] && s[i] != n;
  }

  /** The semaphore promises more slots than are queued. */
  ghost predicate Short(p: Pool) {
    0 <= p.sema && |p.queue| < p.sema + |p.getting| + |p.posting|
  }

  lemma {:induction false} Drain(p: Pool) returns (es: seq<Event>, q: Pool)
    requires Short(p)
    ensures NoChecks(es) && Reaches(p, es, q) && !NoNull(q)
    decreases |p.queue|, |p.posting|, p.sema
  {
    if p.queue == [] && p.getting != {} {
      es, q := [], p;
    } else {
      var e: Event;
      if p.getting != {} {
        var t := AnyOf(p.getting);
        e := Get(t);
        assert |p.getting - {t}| == |p.getting| - 1;
      } else if p.posting != {} {
        var t := AnyOf(p.posting);
        e := Up(t);
        assert |p.posting - {t}| == |p.posting| - 1;
      } else {
        var t := NewNumber(p.checked.Keys);
        e := Down(t);
      }
      es, q := Drain(Step(p, e));
      Prefixed(p, e, es, q);
      es := [e] + es;
    }
  }

  lemma Prefixed(p: Pool, e: Event, es: seq<Event>, q: Pool)
    requires Enabled(p, e) && Reaches(Step(p, e), es, q)
    ensures Reaches(p, [e] + es, q)
  {
    hide Enqueue;
    assert ([e] + es)[1..] == es;
  }

  // ---------------------------------------------------------------- two holders of one slot

  /** No release is under way that would take a slot from a client that got it after the test. */
  ghost predicate NoTheft(p: Pool) {
    forall t | t in p.checked && 0 <= p.checked[t].since <= |p.handed| ::
      !(p.checked[t].slot in p.held && p.checked[t].slot in p.handed[p.checked[t].since..])
  }

  /** From a state whose checked releases are all still justified, in every continuation without new
      releases a slot is only put back by the one it was handed to, if and only if no slot has
      two of them outstanding. */
  lemma ExactlyOneHolder(p: Pool)
    requires Safe(p)
    ensures Single(p) <==> forall es, q | NoChecks(es) && Reaches(p, es, q) :: NoTheft(q)
  {
    if Single(p) {
      forall es, q | NoChecks(es) && Reaches(p, es, q)
        ensures NoTheft(q)
      {
        StaysSingle(p, es, q);
        AlwaysSafe(p, es, q);
      }
    } else {
      var es, q := Theft(p);
      assert NoChecks(es) && Reaches(p, es, q) && !NoTheft(q);
    }
  }

  /** One release puts the slot back, the queue is emptied until a new client gets it, and the other
      release is still to come. */
  lemma Theft(p: Pool) returns (es: seq<Event>, q: Pool)
    requires Safe(p) && !Single(p)
    ensures NoChecks(es) && Reaches(p, es, q) && !NoTheft(q)
  {
    hide Reaches, OnePlace, Enqueue;
    var t, u :| t in p.checked && u in p.checked && p.checked[t].slot == p.checked[u].slot && t != u;
    GivenBack(p.queue, p.held, p.checked[t].slot);
    var p1 := Step(p, Put(t));
    OneMore(p.posting, t);
    es, q := HandOut(p1, u);
    Prefixed(p, Put(t), es, q);
    es := [Put(t)] + es;
  }

  lemma OneMore(s: set<Task>, t: Task)
    requires t !in s
    ensures |s + {t}| == |s| + 1
  {
  }

  /** While the semaphore counts right, every slot on the queue can be handed out. */
  lemma {:induction false} HandOut(p: Pool, u: Task) returns (es: seq<Event>, q: Pool)
    requires 0 <= p.sema && |p.queue| == p.sema + |p.getting| + |p.posting|
    requires u in p.checked && p.checked[u].slot in p.queue && 0 <= p.checked[u].since <= |p.handed|
    ensures NoChecks(es) && Reaches(p, es, q) && !NoTheft(q)
    decreases |p.queue|, |p.posting|, p.sema
  {
    var e: Event;
    if p.getting != {} {
      var t := AnyOf(p.getting);
      e := Get(t);
      assert |p.getting - {t}| == |p.getting| - 1;
      assert p.queue == [p.queue[0]] + p.queue[1..];
    } else if p.posting != {} {
      var t := AnyOf(p.posting);
      e := Up(t);
      assert |p.posting - {t}| == |p.posting| - 1;
    } else {
      var t := NewNumber(p.checked.Keys);
      e := Down(t);
    }
    var next := Step(p, e);
    if e.Get? && p.queue[0] == p.checked[u].slot {
      HandedSince(p.handed, p.checked[u].since, p.queue[0]);
      assert u in next.checked;
      es, q := [], next;
    } else {
      es, q := HandOut(next, u);
    }
    Prefixed(p, e, es, q);
    es := [e] + es;
  }

  lemma HandedSince(handed: seq<int>, since: int, slot: int)
    requires 0 <= since <= |handed|
    ensures slot in (handed + [slot])[since..]
  {
    assert (handed + [slot])[since..][|handed| - since] == slot;
  }

  /** Such states are reachable: a client gets a slot, and two of its tasks release it. Then the
      NULL-node branch can be taken, and the slot can be taken from the next client. */
  lemma Doubled() returns (es: seq<Event>, p: Pool)
    ensures Reaches(Start(), es, p) && Safe(p) && !Single(p)
  {
    hide Safe;
    StartIsSafe();
    FirstSlot();
    var p0 := Start();
    var p1 := Step(p0, Down(1));
    var p2 := Step(p1, Get(1));
    var x := p0.queue[0];
    var p3 := Step(p2, Check(2, x));
    p := Step(p3, Check(3, x));
    StepKeepsSafe(p0, Down(1));
    StepKeepsSafe(p1, Get(1));
    StepKeepsSafe(p2, Check(2, x));
    StepKeepsSafe(p3, Check(3, x));
    es := [Check(3, x)];
    Prefixed(p3, Check(3, x), [], p);
    Prefixed(p2, Check(2, x), es, p);
    es := [Check(2, x)] + es;
    Prefixed(p1, Get(1), es, p);
    es := [Get(1)] + es;
    Prefixed(p0, Down(1), es, p);
    es := [Down(1)] + es;
    assert p.checked[2].slot == p.checked[3].slot;
  }

  lemma FirstSlot()
    ensures Slots(SLOTS) != []
  {
  }
}
