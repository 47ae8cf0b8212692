/** Pollers and completions of one process, interleaved: each locked section is one step, and
    so is each step that wait_event_interruptible takes around its condition. */
module JobWaits {
  import opened Common
  import opened DoneJobs

  // ---------------------------------------------------------------- states and steps

  /** Where a poller is: about to look for the first time; about to enter the wait queue; on the
      queue and about to look; on the queue, refused, and about to sleep; asleep; or served.
      `woken` is set when a wake-up came after it entered the queue. */
  datatype Phase = Fresh | Preparing | Queued(woken: bool) | Refused(woken: bool) | Asleep | Got(id: int)

  datatype Poller = Poller(job: Job, phase: Phase)

  /** `done` is the locked state; `flagged` are the completions that have set cmdbuf_run_done but
      not yet entered the locked section; `wakes` the wake-ups that have been decided but not
      yet carried out. `log` lists all completions in order; `queued` and `delivered` are the
      numbers in that log of the jobs on the list, and of those handed to a poller. */
  datatype System = System(done: Done, pollers: map<int, Poller>, flagged: map<int, int>, wakes: int,
                           log: seq<int>, queued: seq<int>, delivered: seq<int>)

  datatype Event =
    | Poll(task: int, job: Job)
    | Look(task: int)
    | Prepare(task: int)
    | Schedule(task: int)
    | Leave(task: int)
    | Flag(completer: int, id: int)
    | Enter(completer: int)
    | WakeAll
    | Reset(id: int)

  function Start(): System {
    System(Done([], false, {}), map[], map[], 0, [], [], [])
  }

  /** A slot is only reset for its next use once its job has been collected. */
  predicate Enabled(s: System, e: Event) {
    match e
    case Poll(t, job) => t !in s.pollers
    case Look(t) => t in s.pollers && (s.pollers[t].phase.Fresh? || s.pollers[t].phase.Queued?)
    case Prepare(t) => t in s.pollers && s.pollers[t].phase.Preparing?
    case Schedule(t) => t in s.pollers && s.pollers[t].phase.Refused?
    case Leave(t) => t in s.pollers && !s.pollers[t].phase.Fresh?
    case Flag(c, id) => c !in s.flagged && 0 <= id < SLOTS
    case Enter(c) => c in s.flagged
    case WakeAll => 0 < s.wakes
    case Reset(id) => id !in s.done.list && id !in s.flagged.Values
  }

  function WakeUp(p: Poller): Poller {
    match p.phase
    case Queued(_) => p.(phase := Queued(true))
    case Refused(_) => p.(phase := Refused(true))
    case Asleep => p.(phase := Preparing)
    case _ => p
  }

  function Move(s: System, t: int, phase: Phase): map<int, Poller>
    requires t in s.pollers
  {
    s.pollers[t := s.pollers[t].(phase := phase)]
  }

  /** Leave stands for returning with the job, and for an interrupt after the first look. */
  function Step(s: System, e: Event): System
    requires Enabled(s, e)
  {
    match e
    case Poll(t, job) => s.(pollers := s.pollers[t := Poller(job, Fresh)])
    case Look(t) => LookStep(s, t)
    case Prepare(t) => s.(pollers := Move(s, t, Queued(false)))
    case Schedule(t) => s.(pollers := Move(s, t, if s.pollers[t].phase.woken then Preparing else Asleep))
    case Leave(t) => s.(pollers := s.pollers - {t})
    case Flag(c, id) => s.(done := s.done.(runDone := s.done.runDone + {id}), flagged := s.flagged[c := id])
    case Enter(c) => EnterStep(s, c)
    case WakeAll => s.(pollers := map t | t in s.pollers :: WakeUp(s.pollers[t]), wakes := s.wakes - 1)
    case Reset(id) => s.(done := s.done.(runDone := s.done.runDone - {id}))
  }

  function LookStep(s: System, t: int): System
    requires Enabled(s, Look(t))
  {
    var p := s.pollers[t];
    var next := Take(s.done, p.job);
    match next.1
    case None => s.(done := next.0, pollers := Move(s, t, if p.phase.Fresh? then Preparing else Refused(p.phase.woken)))
    case Some(id) =>
      var k := IndexOf(s.done.list, id);
      if k < |s.queued| then
        s.(done := next.0, pollers := Move(s, t, Got(id)),
           queued := s.queued[..k] + s.queued[k + 1..], delivered := s.delivered + [s.queued[k]])
      else s.(done := next.0, pollers := Move(s, t, Got(id)))
  }

  function EnterStep(s: System, c: int): System
    requires c in s.flagged
  {
    var id := s.flagged[c];
    var next := Insert(s.done, id);
    var t := s.(done := next.0, flagged := s.flagged - {c}, wakes := s.wakes + if next.1 then 1 else 0);
    if id in s.done.list then t else t.(log := s.log + [id], queued := s.queued + [|s.log|])
  }

  // ---------------------------------------------------------------- what every step keeps

  /** This poller sleeps, or will without looking again. */
  predicate Committed(p: Poller) {
    p.phase == Asleep || p.phase == Refused(false)
  }

  /** No lost wake-up: when a poller is committed to sleep, a wake-up is on its way, or its job is
      not there and in_wait is set. */
  ghost predicate NoneForgotten(s: System) {
    && 0 <= s.wakes
    && forall t | t in s.pollers && Committed(s.pollers[t]) ::
         0 < s.wakes || (s.done.inWait && Available(s.done, s.pollers[t].job) == None)
  }

  /** A job on the list is flagged done, and is there once. */
  ghost predicate ListOk(s: System) {
    && Distinct(s.done.list)
    && (forall id | id in s.done.list :: id in s.done.runDone)
    && (forall c | c in s.flagged :: s.flagged[c] in s.done.runDone)
  }

  /** Every completion that was listed is either still on the list, in the order of completion,
      or was delivered, once. */
  ghost predicate OnceEach(log: seq<int>, list: seq<int>, queued: seq<int>, delivered: seq<int>) {
    && |queued| == |list|
    && (forall i | 0 <= i < |queued| :: 0 <= queued[i] < |log| && log[queued[i]] == list[i])
    && (forall i, j | 0 <= i < j < |queued| :: queued[i] < queued[j])
    && Distinct(delivered)
    && (forall n | n in delivered :: 0 <= n < |log|)
    && (forall n | 0 <= n < |log| :: n in queued <==> n !in delivered)
  }

  ghost predicate Safe(s: System) {
    NoneForgotten(s) && ListOk(s) && OnceEach(s.log, s.done.list, s.queued, s.delivered)
  }

  lemma Listed(log: seq<int>, list: seq<int>, queued: seq<int>, delivered: seq<int>, id: int)
    requires OnceEach(log, list, queued, delivered)
    ensures OnceEach(log + [id], list + [id], queued + [|log|], delivered)
  {
  }

  lemma Delivered(log: seq<int>, list: seq<int>, queued: seq<int>, delivered: seq<int>, k: int)
    requires OnceEach(log, list, queued, delivered) && 0 <= k < |list|
    ensures OnceEach(log, list[..k] + list[k + 1..], queued[..k] + queued[k + 1..], delivered + [queued[k]])
  {
    var less, more := queued[..k] + queued[k + 1..], delivered + [queued[k]];
    assert queued[k] in queued && queued[k] !in delivered;
    forall n | 0 <= n < |log|
      ensures n in less <==> n !in more
    {
      if n in queued {
        var i :| 0 <= i < |queued| && queued[i] == n;
        assert i != k ==> less[if i < k then i else i - 1] == n;
      }
      assert n in less ==> n in queued;
      if n == queued[k] {
        assert more[|delivered|] == n;
      }
    }
  }

  lemma SameLength(s: System)
    requires OnceEach(s.log, s.done.list, s.queued, s.delivered)
    ensures |s.queued| == |s.done.list|
  {
  }

  lemma LookForgetsNone(s: System, t: int)
    requires NoneForgotten(s) && Distinct(s.done.list) && Enabled(s, Look(t))
    ensures NoneForgotten(LookStep(s, t))
  {
    hide OnceEach, Less, Distinct;
    match Available(s.done, s.pollers[t].job)
    case None =>
    case Some(id) => FewerAvailable(s.done, id);
  }

  lemma LookKeepsSafe(s: System, t: int)
    requires Safe(s) && Enabled(s, Look(t))
    ensures Safe(LookStep(s, t))
  {
    hide OnceEach, Less, NoneForgotten, Distinct;
    LookForgetsNone(s, t);
    match Available(s.done, s.pollers[t].job)
    case None =>
    case Some(id) =>
      var k := IndexOf(s.done.list, id);
      LessIsCut(s.done.list, id, k);
      LessMembers(s.done.list, id);
      SameLength(s);
      Delivered(s.log, s.done.list, s.queued, s.delivered, k);
  }

  /** Taking a job away makes no other job available. */
  lemma FewerAvailable(d: Done, id: int)
    requires Distinct(d.list)
    ensures var less := d.(list := Less(d.list, id));
            forall job :: Available(d, job) == None ==> Available(less, job) == None
  {
    LessMembers(d.list, id);
  }

  lemma EnterKeepsSafe(s: System, c: int)
    requires Safe(s) && c in s.flagged
    ensures Safe(Step(s, Enter(c)))
  {
    hide OnceEach;
    Listed(s.log, s.done.list, s.queued, s.delivered, s.flagged[c]);
    var id := s.flagged[c];
    assert forall x :: x in s.done.list + [id] <==> x in s.done.list || x == id;
  }

  lemma StepKeepsSafe(s: System, e: Event)
    requires Safe(s) && Enabled(s, e)
    ensures Safe(Step(s, e))
  {
    hide OnceEach, Distinct, Less, LookStep, EnterStep;
    match e
    case Look(t) => LookKeepsSafe(s, t);
    case Enter(c) => EnterKeepsSafe(s, c);
    case _ =>
  }

  ghost predicate Reaches(s: System, es: seq<Event>, u: System)
    decreases |es|
  {
    if es == [] then s == u else Enabled(s, es[0]) && Reaches(Step(s, es[0]), es[1..], u)
  }

  lemma {:induction false} AlwaysSafe(s: System, es: seq<Event>, u: System)
    requires Safe(s) && Reaches(s, es, u)
    ensures Safe(u)
    decreases |es|
  {
    if es != [] {
      StepKeepsSafe(s, es[0]);
      AlwaysSafe(Step(s, es[0]), es[1..], u);
    }
  }

  lemma StartIsSafe()
    ensures Safe(Start())
  {
  }

  // ---------------------------------------------------------------- the results

  /** In every interleaving: a poller asleep with no wake-up on its way has nothing to collect,
      and in_wait is set. */
  lemma NoLostWakeup(es: seq<Event>, s: System, t: int)
    requires Reaches(Start(), es, s) && t in s.pollers && s.pollers[t].phase == Asleep && s.wakes == 0
    ensures s.done.inWait
    ensures match s.pollers[t].job
            case Any => s.done.list == []
            case Only(id) => !(id in s.done.list && id in s.done.runDone)
  {
    AlwaysSafe(Start(), es, s);
  }

  /** And that poller then gets a job, if the new one is what it asked for. */
  lemma SleeperIsServed(es: seq<Event>, s: System, t: int, c: int) returns (u: System)
    requires Reaches(Start(), es, s) && t in s.pollers && s.pollers[t].phase == Asleep
    requires c in s.flagged && s.flagged[c] !in s.done.list
    requires s.pollers[t].job == Any || s.pollers[t].job == Only(s.flagged[c])
    ensures Reaches(s, [Enter(c), WakeAll, Prepare(t), Look(t)], u) && t in u.pollers && u.pollers[t].phase.Got?
  {
    hide OnceEach, Distinct, Less;
    StartIsSafe();
    AlwaysSafe(Start(), es, s);
    var s1 := Step(s, Enter(c));
    var s2 := Step(s1, WakeAll);
    var s3 := Step(s2, Prepare(t));
    u := Step(s3, Look(t));
    assert s.flagged[c] in s1.done.list && s.flagged[c] in s1.done.runDone;
    Prefixed(s3, Look(t), [], u);
    Prefixed(s2, Prepare(t), [Look(t)], u);
    Prefixed(s1, WakeAll, [Prepare(t)] + [Look(t)], u);
    Prefixed(s, Enter(c), [WakeAll] + ([Prepare(t)] + [Look(t)]), u);
    assert [Enter(c)] + ([WakeAll] + ([Prepare(t)] + [Look(t)])) == [Enter(c), WakeAll, Prepare(t), Look(t)];
  }

  lemma Prefixed(s: System, e: Event, es: seq<Event>, u: System)
    requires Enabled(s, e) && Reaches(Step(s, e), es, u)
    ensures Reaches(s, [e] + es, u)
  {
    hide LookStep, EnterStep;
    assert ([e] + es)[1..] == es;
  }

  /** The completions of a run that decide to wake the pollers, and the wake-ups carried out. */
  function Decided(s: System, es: seq<Event>): int
    decreases |es|
  {
    if es == [] || !Enabled(s, es[0]) then 0
    else
      var lists := es[0].Enter? && s.flagged[es[0].completer] !in s.done.list;
      Decided(Step(s, es[0]), es[1..]) + if lists && (s.done.list == [] || s.done.inWait) then 1 else 0
  }

  function CarriedOut(es: seq<Event>): int {
    if es == [] then 0 else CarriedOut(es[1..]) + if es[0] == WakeAll then 1 else 0
  }

  /** No wake-up comes from nowhere, and none is forgotten: a completion asks for one exactly when it
      lists a job on an empty list or while in_wait is set. */
  lemma {:induction false} WakesCounted(s: System, es: seq<Event>, u: System)
    requires Reaches(s, es, u)
    ensures u.wakes + CarriedOut(es) == s.wakes + Decided(s, es)
    decreases |es|
  {
    hide LookStep, Take;
    if es != [] {
      WakesCounted(Step(s, es[0]), es[1..], u);
      if es[0].Look? {
        LookWakesNobody(s, es[0].task);
      }
    }
  }

  lemma LookWakesNobody(s: System, t: int)
    requires Enabled(s, Look(t))
    ensures LookStep(s, t).wakes == s.wakes
  {
  }

  lemma NoneAtFirst(es: seq<Event>, u: System)
    requires Reaches(Start(), es, u)
    ensures u.wakes == Decided(Start(), es) - CarriedOut(es)
  {
    WakesCounted(Start(), es, u);
  }

  /** A poller for one job gets that job, when it is listed and its completion flag is set, and is
      refused otherwise; the other jobs stay on the list, in their order. */
  lemma OnlyGetsOwn(es: seq<Event>, s: System, t: int, id: int)
    requires Reaches(Start(), es, s) && t in s.pollers && s.pollers[t].job == Only(id)
    requires s.pollers[t].phase.Fresh? || s.pollers[t].phase.Queued?
    ensures Enabled(s, Look(t))
    ensures var u := Step(s, Look(t));
            if id in s.done.list && id in s.done.runDone then
              && u.pollers[t].phase == Got(id) && LeavesInOrder(s.done.list, u.done.list, id)
              && |u.delivered| == |s.delivered| + 1 && u.delivered[..|s.delivered|] == s.delivered
              && 0 <= u.delivered[|s.delivered|] < |s.log| && s.log[u.delivered[|s.delivered|]] == id
            else
              !u.pollers[t].phase.Got? && u.done.list == s.done.list && u.delivered == s.delivered && u.done.inWait
  {
    AlwaysSafe(Start(), es, s);
    if id in s.done.list {
      LessIsCut(s.done.list, id, IndexOf(s.done.list, id));
    }
  }

  ghost predicate ServedRight(s: System) {
    forall t | t in s.pollers && s.pollers[t].job.Only? && s.pollers[t].phase.Got? ::
      s.pollers[t].phase.id == s.pollers[t].job.id
  }

  /** In every run a poller that asked for one job has got no other. */
  lemma ServedOwn(es: seq<Event>, s: System, t: int, id: int, j: int)
    requires Reaches(Start(), es, s) && t in s.pollers && s.pollers[t] == Poller(Only(id), Got(j))
    ensures j == id
  {
    AlwaysServedRight(Start(), es, s);
  }

  lemma {:induction false} AlwaysServedRight(s: System, es: seq<Event>, u: System)
    requires ServedRight(s) && Reaches(s, es, u)
    ensures ServedRight(u)
    decreases |es|
  {
    if es != [] {
      AlwaysServedRight(Step(s, es[0]), es[1..], u);
    }
  }

  /** And so the next job that is listed, whichever it is, wakes it. */
  lemma NextInsertionWakes(es: seq<Event>, s: System, t: int, c: int)
    requires Reaches(Start(), es, s) && t in s.pollers && s.pollers[t].phase == Asleep
    requires c in s.flagged && s.flagged[c] !in s.done.list
    ensures var u := Step(s, Enter(c));
            0 < u.wakes && Step(u, WakeAll).pollers[t] == Poller(s.pollers[t].job, Preparing)
  {
    AlwaysSafe(Start(), es, s);
  }

  /** Jobs are delivered exactly once: every completion that was listed is on the list or was
      delivered, never both and never twice, and completing a job again while it is listed
      changes nothing. */
  lemma ExactlyOnce(es: seq<Event>, s: System)
    requires Reaches(Start(), es, s)
    ensures Distinct(s.done.list) && Distinct(s.delivered)
    ensures forall n | 0 <= n < |s.log| :: n in s.queued <==> n !in s.delivered
    ensures |s.queued| == |s.done.list| && forall i | 0 <= i < |s.queued| ::
              0 <= s.queued[i] < |s.log| && s.log[s.queued[i]] == s.done.list[i]
    ensures forall c | c in s.flagged && s.flagged[c] in s.done.list ::
              Step(s, Enter(c)) == s.(flagged := s.flagged - {c})
  {
    AlwaysSafe(Start(), es, s);
  }

  /** A poller that takes any job gets the one that completed first among all that are not yet
      delivered. */
  lemma AnyGetsOldest(es: seq<Event>, s: System, t: int)
    requires Reaches(Start(), es, s) && t in s.pollers && s.pollers[t].job == Any && s.done.list != []
    requires s.pollers[t].phase.Fresh? || s.pollers[t].phase.Queued?
    ensures Enabled(s, Look(t))
    ensures var u := Step(s, Look(t));
            && |s.queued| > 0 && 0 <= s.queued[0] < |s.log| && u.delivered == s.delivered + [s.queued[0]]
            && u.pollers[t].phase == Got(s.log[s.queued[0]])
            && forall n | 0 <= n < |s.log| && n !in s.delivered :: s.queued[0] <= n
  {
    AlwaysSafe(Start(), es, s);
    assert IndexOf(s.done.list, s.done.list[0]) == 0;
    forall n | 0 <= n < |s.log| && n !in s.delivered
      ensures s.queued[0] <= n
    {
      assert n in s.queued;
    }
  }
}
