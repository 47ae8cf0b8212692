/** The list of finished jobs of a process: completions append to it, pollers take from it, and
    two flags decide whether a completion has to wake the pollers that sleep. */
module DoneJobs {
  import opened Common
  import opened BiList

  const SLOTS := 256

  /** What a poller asks for: ANY_CMDBUF_ID, or one command buffer. */
  datatype Job = Any | Only(id: int)

  /** Under job_lock: the ids on job_done_list, in_wait, and the ids with a completion flag set.
      po_jobs[id].data is non-null exactly for the ids on the list. */
  datatype Done = Done(list: seq<int>, inWait: bool, runDone: set<int>)

  // ---------------------------------------------------------------- the two locked sections

  /** vce_proc_add_done_job: the new state, and whether it goes on to wake the pollers. */
  function Insert(d: Done, id: int): (Done, bool) {
    if id in d.list then (d, false)
    else (d.(list := d.list + [id], inWait := false), d.list == [] || d.inWait)
  }

  /** What a poller that asks for `job` could take now. */
  function Available(d: Done, job: Job): Option<int> {
    if d.list == [] then None
    else if job == Any then Some(d.list[0])
    else if job.id in d.runDone && job.id in d.list then Some(job.id)
    else None
  }

  /** proc_get_done_job. */
  function Take(d: Done, job: Job): (Done, Option<int>) {
    match Available(d, job)
    case None => (d.(inWait := true), None)
    case Some(id) => (d.(list := Less(d.list, id)), Some(id))
  }

  /** The list without id. */
  function Less(list: seq<int>, id: int): seq<int> {
    if list == [] then [] else if list[0] == id then list[1..] else [list[0]] + Less(list[1..], id)
  }

  lemma {:induction false} LessIsCut(list: seq<int>, id: int, k: int)
    requires 0 <= k < |list| && list[k] == id && forall i | 0 <= i < k :: list[i] != id
    ensures Less(list, id) == list[..k] + list[k + 1..]
  {
    if 0 < k {
      LessIsCut(list[1..], id, k - 1);
      assert list[..k] + list[k + 1..] == [list[0]] + (list[1..][..k - 1] + list[1..][k..]);
    }
  }

  /** The id leaves the list, and the others keep their order. */
  ghost predicate LeavesInOrder(before: seq<int>, after: seq<int>, id: int) {
    exists k | 0 <= k < |before| :: before[k] == id && after == before[..k] + before[k + 1..]
  }

  lemma {:induction false} LessMembers(list: seq<int>, id: int)
    requires Distinct(list)
    ensures Distinct(Less(list, id)) && forall x :: x in Less(list, id) <==> x in list && x != id
    ensures |Less(list, id)| == |list| - if id in list then 1 else 0
  {
    if list != [] {
      var rest := list[1..];
      assert forall x :: x in list <==> x == list[0] || x in rest;
      LessMembers(rest, id);
      assert list[0] !in rest;
    }
  }

  // ---------------------------------------------------------------- on the linked list itself

  /** The members of the list are the job nodes of these ids, in this order. */
  ghost predicate Names(nodes: seq<Node>, poJobs: seq<Node>, ids: seq<int>) {
    && |poJobs| == SLOTS && Distinct(poJobs) && Distinct(ids) && |ids| == |nodes|
    && forall i | 0 <= i < |ids| :: 0 <= ids[i] < SLOTS && nodes[i] == poJobs[ids[i]]
  }

  lemma NamesCut(nodes: seq<Node>, poJobs: seq<Node>, ids: seq<int>, id: int, k: int)
    requires Names(nodes, poJobs, ids) && 0 <= k < |ids| && ids[k] == id
    ensures 0 <= id < SLOTS && |ids| == |nodes| && nodes[k] == poJobs[id]
    ensures Names(nodes[..k] + nodes[k + 1..], poJobs, Less(ids, id))
    ensures forall x :: x in Less(ids, id) <==> x in ids && x != id
    ensures forall n | n in nodes :: n in poJobs
  {
    LessIsCut(ids, id, k);
    LessMembers(ids, id);
  }

  lemma NamesMore(nodes: seq<Node>, poJobs: seq<Node>, ids: seq<int>, id: int)
    requires Names(nodes, poJobs, ids) && 0 <= id < SLOTS && id !in ids
    ensures poJobs[id] !in nodes && Names(nodes + [poJobs[id]], poJobs, ids + [id])
  {
  }

  lemma NotNamed(nodes: seq<Node>, poJobs: seq<Node>, ids: seq<int>, id: int)
    requires Names(nodes, poJobs, ids) && 0 <= id < SLOTS && id !in ids
    ensures poJobs[id] !in nodes && forall x | 0 <= x < SLOTS && x != id :: poJobs[x] != poJobs[id]
  {
  }

  /** The same two sections on real nodes: the list of BiList, and po_jobs[id].data, which is 0
      for NULL and id + 1 for &objs[id]. */
  class JobList {
    const list: List
    const poJobs: seq<Node>
    const runDone: array<bool>
    const sliceRunDone: array<bool>
    const lineBufferRunDone: array<bool>
    var inWait: bool
    ghost var ids: seq<int>

    ghost predicate Valid()
      reads this, list, list.nodes, poJobs
    {
      && list.Valid() && |poJobs| == SLOTS
      && runDone.Length == SLOTS && sliceRunDone.Length == SLOTS && lineBufferRunDone.Length == SLOTS
      && Names(list.nodes, poJobs, ids)
      && forall id | 0 <= id < SLOTS :: poJobs[id].data == if id in ids then id + 1 else 0
    }

    /** Zeroed po_jobs and an empty list. */
    constructor ()
      ensures Valid() && State() == Done([], false, {})
      ensures fresh(list) && fresh(runDone) && fresh(sliceRunDone) && fresh(lineBufferRunDone)
      ensures forall n | n in poJobs :: fresh(n)
    {
      var nodes: seq<Node> := [];
      for i := 0 to SLOTS
        invariant |nodes| == i && forall k | 0 <= k < i :: fresh(nodes[k]) && nodes[k].data == 0
        invariant forall k, j | 0 <= k < j < i :: nodes[k] != nodes[j]
      {
        var n := new Node();
        nodes := nodes + [n];
      }
      list := new List();
      runDone := new bool[SLOTS](_ => false);
      sliceRunDone := new bool[SLOTS](_ => false);
      lineBufferRunDone := new bool[SLOTS](_ => false);
      poJobs := nodes;
      inWait, ids := false, [];
    }

    /** cmdbuf_run_done, or _is_abnormal_run_done. */
    predicate IsDone(id: int)
      requires 0 <= id < runDone.Length == sliceRunDone.Length == lineBufferRunDone.Length
      reads runDone, sliceRunDone, lineBufferRunDone
    {
      runDone[id] || sliceRunDone[id] || lineBufferRunDone[id]
    }

    /** One of the three completion flags of id is set. */
    ghost predicate FlagSet(id: int)
      reads runDone, sliceRunDone, lineBufferRunDone
    {
      || (0 <= id < runDone.Length && runDone[id])
      || (0 <= id < sliceRunDone.Length && sliceRunDone[id])
      || (0 <= id < lineBufferRunDone.Length && lineBufferRunDone[id])
    }

    ghost function RunDone(): set<int>
      requires runDone.Length == sliceRunDone.Length == lineBufferRunDone.Length
      reads runDone, sliceRunDone, lineBufferRunDone
    {
      set id | 0 <= id < runDone.Length && IsDone(id)
    }

    /** The state that the pure functions speak about. */
    ghost function State(): Done
      requires runDone.Length == sliceRunDone.Length == lineBufferRunDone.Length
      reads this, runDone, sliceRunDone, lineBufferRunDone
    {
      Done(ids, inWait, RunDone())
    }

    /** The locked section of vce_proc_add_done_job. */
    method AddDone(id: int) returns (wake: bool)
      requires Valid() && 0 <= id < SLOTS
      modifies this, list, poJobs
      ensures Valid() && State() == old(Insert(State(), id)).0 && wake == old(Insert(State(), id)).1
      ensures ids == old(ids) + (if id in old(ids) then [] else [id])
      ensures inWait == (id in old(ids) && old(inWait))
      ensures wake <==> id !in old(ids) && (old(ids) == [] || old(inWait))
    {
      if poJobs[id].data != 0 {
        return false;
      }
      hide Names, List.Valid;
      NamesMore(list.nodes, poJobs, ids, id);
      NotNamed(list.nodes, poJobs, ids, id);
      poJobs[id].data := id + 1;
      var isEmpty := list.head == null;
      var isWait := inWait;
      inWait := false;
      list.InsertTail(poJobs[id]);
      ids := ids + [id];
      wake := isEmpty || isWait;
    }

    /** The search of proc_get_done_job for a given command buffer; k is where it ends. */
    method Find(id: int) returns (found: bool, ghost k: int)
      requires Valid() && 0 <= id < SLOTS
      ensures found <==> id in ids
      ensures found ==> 0 <= k < |ids| && ids[k] == id
    {
      var node := list.head;
      k := 0;
      while node != null && node.data != id + 1
        invariant 0 <= k <= |ids| && node == (if k < |ids| then list.nodes[k] else null)
        invariant forall i | 0 <= i < k :: ids[i] != id
        decreases |ids| - k
      {
        assert list.Linked(k);
        node := node.next;
        k := k + 1;
      }
      found := node != null;
    }

    /** The job at the head of the list. */
    method Head() returns (id: int)
      requires Valid() && ids != []
      ensures id == ids[0]
    {
      id := list.head.data - 1;
    }

    /** bi_list_remove_node for a job on the list, and its data pointer cleared. */
    method Unlink(id: int, ghost k: int)
      requires Valid() && 0 <= k < |ids| && ids[k] == id
      modifies this, list, poJobs
      ensures Valid() && ids == Less(old(ids), id) && inWait == old(inWait)
    {
      hide Names, List.Valid, Less, Distinct;
      NamesCut(list.nodes, poJobs, ids, id, k);
      assert forall n: Node | n in list.nodes :: n in poJobs;
      assert forall i | 0 <= i < |list.nodes| :: list.nodes[i] in poJobs;
      list.Remove(poJobs[id], k);
      ids := Less(ids, id);
      NotNamed(list.nodes, poJobs, ids, id);
      poJobs[id].data := 0;
    }

    /** proc_get_done_job */
    method GetDone(job: Job) returns (r: Option<int>)
      requires Valid() && (job.Only? ==> 0 <= job.id < SLOTS)
      modifies this, list, poJobs
      ensures Valid() && State() == old(Take(State(), job)).0 && r == old(Take(State(), job)).1
      ensures job == Any ==> r == if old(ids) == [] then None else Some(old(ids)[0])
      ensures job.Only? ==> r == if job.id in old(ids) && FlagSet(job.id) then Some(job.id) else None
      ensures r == None ==> ids == old(ids) && inWait
      ensures r.Some? ==> inWait == old(inWait) && LeavesInOrder(old(ids), ids, r.value)
    {
      hide Names, List.Valid, Less, LeavesInOrder;
      EmptyList();
      ShorterByOne();
      if list.head == null {
        inWait := true;
        return None;
      }
      match job
      case Any =>
        var id := Head();
        Unlink(id, 0);
        r := Some(id);
      case Only(id) =>
        var found := false;
        ghost var k := 0;
        if IsDone(id) {
          found, k := Find(id);
        }
        if found {
          Unlink(id, k);
          r := Some(id);
        } else {
          inWait := true;
          r := None;
        }
    }

    lemma ShorterByOne()
      requires Valid()
      ensures forall id | id in ids :: LeavesInOrder(ids, Less(ids, id), id)
    {
      forall id | id in ids
        ensures LeavesInOrder(ids, Less(ids, id), id)
      {
        LessIsCut(ids, id, IndexOf(ids, id));
      }
    }

    lemma EmptyList()
      requires Valid()
      ensures runDone.Length == sliceRunDone.Length == lineBufferRunDone.Length == SLOTS
      ensures list.head == null <==> ids == []
    {
    }
  }
}
