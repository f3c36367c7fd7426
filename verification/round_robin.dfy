/** The ready queue as a ring of process ids with a cursor (kernel/cpu/tasking/task.c). */
module RoundRobin {

  datatype Ring = Ring(pids: seq<nat>, cur: nat) {
    function Running(): nat
      requires cur < |pids|
    {
      pids[cur]
    }
  }

  /** Not empty, the cursor inside, ids distinct, and idle (pid 1) at the head. */
  ghost predicate Wf(r: Ring) {
    && r.cur < |r.pids| && r.pids[0] == 1
    && forall i, j :: 0 <= i < j < |r.pids| ==> r.pids[i] != r.pids[j]
  }

  /** schedule: the next process, or the head of the queue behind the last one. */
  function Scheduled(r: Ring): Ring {
    r.(cur := if r.cur + 1 < |r.pids| then r.cur + 1 else 0)
  }

  /** _kill: the running process leaves the queue and the one behind it runs. */
  function Killed(r: Ring): Ring
    requires r.cur < |r.pids|
  {
    Ring(r.pids[..r.cur] + r.pids[r.cur + 1..], if r.cur + 1 < |r.pids| then r.cur else 0)
  }

  function Added(r: Ring, pid: nat): Ring {
    r.(pids := r.pids + [pid])
  }

  lemma ScheduledWf(r: Ring)
    requires Wf(r)
    ensures Wf(Scheduled(r))
  {
  }

  /** Killing keeps idle at the head and takes away only the running process. */
  lemma KilledWf(r: Ring)
    requires Wf(r) && r.Running() != 1
    ensures Wf(Killed(r)) && r.Running() !in Killed(r).pids
    ensures forall p :: p in r.pids && p != r.Running() ==> p in Killed(r).pids
  {
    var k := Killed(r);
    forall p | p in r.pids && p != r.Running() ensures p in k.pids {
      var i :| 0 <= i < |r.pids| && r.pids[i] == p;
      if i < r.cur { assert k.pids[i] == p; } else { assert k.pids[i - 1] == p; }
    }
  }

  /** The others stay in their order. */
  lemma KilledOrder(r: Ring, i: nat, j: nat)
    requires Wf(r) && r.Running() != 1 && i < j < |r.pids| && i != r.cur && j != r.cur
    ensures r.pids[i] in Killed(r).pids && r.pids[j] in Killed(r).pids
    ensures Position(Killed(r).pids, r.pids[i]) < Position(Killed(r).pids, r.pids[j])
  {
    KilledWf(r);
    var k := Killed(r);
    var a, b := if i < r.cur then i else i - 1, if j < r.cur then j else j - 1;
    assert k.pids[a] == r.pids[i] && k.pids[b] == r.pids[j];
    PositionIs(k, a);
    PositionIs(k, b);
  }

  lemma AddedWf(r: Ring, pid: nat)
    requires Wf(r) && pid !in r.pids
    ensures Wf(Added(r, pid)) && Added(r, pid).Running() == r.Running()
  {
  }

  // ---- Fairness -----------------------------------------------------------------------------------------------

  function Position(pids: seq<nat>, pid: nat): (i: nat)
    requires pid in pids
    ensures i < |pids| && pids[i] == pid
  {
    if pids[0] == pid then 0 else 1 + Position(pids[1..], pid)
  }

  lemma PositionIs(r: Ring, i: nat)
    requires Wf(r) && i < |r.pids|
    ensures Position(r.pids, r.pids[i]) == i
  {
    var j := Position(r.pids, r.pids[i]);
    assert r.pids[j] == r.pids[i];
  }

  /** How many times the cursor still has to move until pid runs; 0 when it is running. */
  function Distance(r: Ring, pid: nat): nat
    requires pid in r.pids && r.cur < |r.pids|
  {
    var p := Position(r.pids, pid);
    if r.cur <= p then p - r.cur else |r.pids| - r.cur + p
  }

  lemma RunsAtZero(r: Ring, pid: nat)
    requires Wf(r) && pid in r.pids
    ensures Distance(r, pid) == 0 <==> r.Running() == pid
    ensures Distance(r, pid) < |r.pids|
  {
    PositionIs(r, r.cur);
  }

  /** schedule brings every waiting process one step closer, and sends the running one to the back. */
  lemma ScheduledCloser(r: Ring, pid: nat)
    requires Wf(r) && pid in r.pids
    ensures Distance(Scheduled(r), pid) == if r.Running() == pid then |r.pids| - 1 else Distance(r, pid) - 1
  {
    RunsAtZero(r, pid);
  }

  /** So does _kill. */
  lemma KilledCloser(r: Ring, pid: nat)
    requires Wf(r) && r.Running() != 1 && pid in r.pids && pid != r.Running()
    ensures pid in Killed(r).pids && Distance(Killed(r), pid) == Distance(r, pid) - 1
  {
    KilledWf(r);
    var k := Killed(r);
    var p := Position(r.pids, pid);
    var q := if p < r.cur then p else p - 1;
    assert k.pids[q] == pid;
    PositionIs(k, q);
    PositionIs(r, r.cur);
  }

  /** A new process goes behind the ones already waiting in this round. */
  lemma AddedDistance(r: Ring, new_: nat, pid: nat)
    requires Wf(r) && new_ !in r.pids && pid in r.pids
    ensures Distance(r, pid) <= Distance(Added(r, new_), pid) <= Distance(r, pid) + 1
    ensures r.Running() == pid ==> Distance(Added(r, new_), pid) == 0
  {
    var p := Position(r.pids, pid);
    AddedWf(r, new_);
    assert Added(r, new_).pids[p] == pid;
    PositionIs(Added(r, new_), p);
    PositionIs(r, r.cur);
  }

  function After(r: Ring, k: nat): Ring {
    if k == 0 then r else Scheduled(After(r, k - 1))
  }

  lemma {:induction false} AfterDistance(r: Ring, k: nat, pid: nat)
    requires Wf(r) && pid in r.pids && k < |r.pids|
    ensures Wf(After(r, k)) && After(r, k).pids == r.pids
    ensures Distance(After(r, k), pid) ==
      if k <= Distance(r, pid) then Distance(r, pid) - k else |r.pids| + Distance(r, pid) - k
  {
    RunsAtZero(r, pid);
    if k != 0 {
      AfterDistance(r, k - 1, pid);
      ScheduledWf(After(r, k - 1));
      ScheduledCloser(After(r, k - 1), pid);
      RunsAtZero(After(r, k - 1), pid);
    }
  }

  /** Among any |pids| consecutive turns, each process has exactly one. */
  lemma EachRunsOnce(r: Ring, pid: nat)
    requires Wf(r) && pid in r.pids
    ensures Distance(r, pid) < |r.pids|
    ensures forall k :: 0 <= k < |r.pids| ==> After(r, k).cur < |r.pids| == |After(r, k).pids|
    ensures forall k :: 0 <= k < |r.pids| ==> (After(r, k).Running() == pid <==> k == Distance(r, pid))
  {
    RunsAtZero(r, pid);
    forall k | 0 <= k < |r.pids|
      ensures After(r, k).cur < |r.pids| == |After(r, k).pids|
      ensures After(r, k).Running() == pid <==> k == Distance(r, pid)
    {
      AfterDistance(r, k, pid);
      RunsAtZero(After(r, k), pid);
    }
  }

  // ---- Runs that mix turns, kills and additions ---------------------------------------------------------------

  datatype Event = Turn | Kill | Add(pid: nat)

  ghost predicate Allowed(r: Ring, e: Event) {
    match e
    case Turn => true
    case Kill => r.cur < |r.pids| && r.Running() != 1
    case Add(pid) => pid !in r.pids
  }

  function Next(r: Ring, e: Event): Ring
    requires e.Kill? ==> r.cur < |r.pids|
  {
    match e
    case Turn => Scheduled(r)
    case Kill => Killed(r)
    case Add(pid) => Added(r, pid)
  }

  ghost predicate Run(rings: seq<Ring>, events: seq<Event>) {
    |rings| == |events| + 1
    && forall k :: 0 <= k < |events| ==>
         Allowed(rings[k], events[k]) && (events[k].Kill? ==> rings[k].cur < |rings[k].pids|)
         && rings[k + 1] == Next(rings[k], events[k])
  }

  function Moves(events: seq<Event>): nat {
    if events == [] then 0 else (if events[0].Add? then 0 else 1) + Moves(events[1..])
  }

  /** Over any run in which a process keeps waiting, every turn and every kill brings it one step closer, and every
      addition puts it back by one step at most: no process waits forever unless new ones keep arriving. */
  lemma {:induction false} WaitingIsBounded(rings: seq<Ring>, events: seq<Event>, pid: nat)
    requires Run(rings, events) && Wf(rings[0]) && pid in rings[0].pids
    requires forall k :: 0 <= k < |events| ==> rings[k].cur < |rings[k].pids| && rings[k].Running() != pid
    ensures Wf(rings[|events|]) && pid in rings[|events|].pids
    ensures Distance(rings[|events|], pid) + Moves(events) <= Distance(rings[0], pid) + (|events| - Moves(events))
    decreases |events|
  {
    if events != [] {
      var r, e := rings[0], events[0];
      assert rings[1] == Next(r, e) && r.Running() != pid;
      RunsAtZero(r, pid);
      match e {
        case Turn =>
          ScheduledWf(r);
          ScheduledCloser(r, pid);
        case Kill =>
          KilledWf(r);
          KilledCloser(r, pid);
        case Add(new_) =>
          AddedWf(r, new_);
          AddedDistance(r, new_, pid);
      }
      WaitingIsBounded(rings[1..], events[1..], pid);
    }
  }
}
