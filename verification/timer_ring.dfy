/** The machine of the timer gate and the ready queue are the same ring of processes
    (kernel/cpu/timer.c, kernel/cpu/tasking/task.c). */
module TimerRing {
  import opened TimerGate
  import RR = RoundRobin

  /** The ring that the queue of the machine is, with its cursor on cp. */
  function RingOf(m: Machine): RR.Ring
    requires m.cp in m.list
  {
    RR.Ring(m.list, RR.Position(m.list, m.cp))
  }

  lemma {:induction false} PositionAt(q: seq<nat>, i: nat)
    requires Distinct(q) && i < |q|
    ensures RR.Position(q, q[i]) == i
  {
    if 0 < i {
      assert q[0] != q[i];
      PositionAt(q[1..], i - 1);
    }
  }

  lemma {:induction false} WithoutAt(q: seq<nat>, i: nat)
    requires Distinct(q) && i < |q|
    ensures Without(q, q[i]) == q[..i] + q[i + 1..]
  {
    if i == 0 {
      WithoutGone(q[1..], q[0]);
    } else {
      assert q[0] != q[i];
      WithoutAt(q[1..], i - 1);
    }
  }

  /** The machine's invariant makes its queue a well-formed ring with cp running. */
  lemma RingWf(m: Machine)
    requires Inv(m)
    ensures RR.Wf(RingOf(m)) && RingOf(m).Running() == m.cp
  {
    var i :| 0 <= i < |m.list| && m.list[i] == m.cp;
    PositionAt(m.list, i);
  }

  /** schedule of the machine. */
  lemma ScheduleIsScheduled(m: Machine)
    requires IsList(m.next, m.readyQueue, m.list) && Distinct(m.list) && m.cp in m.list
    ensures Schedule(m).cp in m.list && RingOf(Schedule(m)) == RR.Scheduled(RingOf(m))
  {
    var i :| 0 <= i < |m.list| && m.list[i] == m.cp;
    PositionAt(m.list, i);
    ListNext(m.next, m.readyQueue, m.list, i);
    if i + 1 < |m.list| { ListNext(m.next, m.readyQueue, m.list, i + 1); }
    PositionAt(m.list, if i + 1 < |m.list| then i + 1 else 0);
  }

  /** _kill of the machine. */
  lemma KillIsKilled(m: Machine)
    requires Inv(m) && Enabled(m, Kill)
    ensures Inv(Next(m, Kill)) && RingOf(Next(m, Kill)) == RR.Killed(RingOf(m))
  {
    var i :| 0 <= i < |m.list| && m.list[i] == m.cp;
    var q, m' := m.list, Next(m, Kill);
    PositionAt(q, i);
    WithoutAt(q, i);
    WithoutDistinct(q, m.cp);
    ListNext(m.next, m.readyQueue, q, i);
    assert m.readyQueue == IDLE && 0 < i;
    KillInv(m);
    if i + 1 < |q| {
      ListNext(m.next, m.readyQueue, q, i + 1);
      assert m'.cp == q[i + 1] && m'.list[i] == q[i + 1];
      PositionAt(m'.list, i);
    } else {
      assert m'.cp == q[0] && m'.list[0] == q[0];
      PositionAt(m'.list, 0);
    }
  }

  /** Linking in __addProcess. */
  lemma LinkIsAdded(m: Machine)
    requires Inv(m) && Enabled(m, Link)
    ensures Inv(Next(m, Link)) && RingOf(Next(m, Link)) == RR.Added(RingOf(m), m.PcOf(m.cp).p)
  {
    var i :| 0 <= i < |m.list| && m.list[i] == m.cp;
    var m' := Next(m, Link);
    PositionAt(m.list, i);
    LinkInv(m);
    assert m'.list[i] == m.cp;
    PositionAt(m'.list, i);
  }

  /** What each step of the machine does to the ring: the same as schedule, _kill and __addProcess on the linked queue,
      and nothing otherwise. */
  lemma StepOnRing(m: Machine, e: Step)
    requires Inv(m) && Enabled(m, e)
    ensures RR.Wf(RingOf(m)) && Inv(Next(m, e))
    ensures RingOf(Next(m, e)) ==
      match e
      case Tick => if m.task then RR.Scheduled(RingOf(m)) else RingOf(m)
      case Link => RR.Added(RingOf(m), m.PcOf(m.cp).p)
      case Kill => RR.Killed(RingOf(m))
      case _ => RingOf(m)
  {
    RingWf(m);
    StepInv(m, e);
    match e {
      case Tick => if m.task { ScheduleIsScheduled(m); }
      case Link => LinkIsAdded(m);
      case Kill => KillIsKilled(m);
      case _ =>
    }
  }

  /** A tick hands the processor to the next process of the ring if and only if switching was ever enabled and nobody is
      inside addProcess; otherwise it changes nothing. */
  lemma TickOnRing(ms: seq<Machine>, steps: seq<Step>, k: nat)
    requires Run(ms, steps) && ms[0] == Initial() && k < |steps| && steps[k] == Tick
    ensures Inv(ms[k]) && Inv(ms[k + 1])
    ensures RingOf(ms[k + 1]) ==
      if EverEnabled(steps, k) && NobodyInside(ms[k]) then RR.Scheduled(RingOf(ms[k])) else RingOf(ms[k])
    ensures !(EverEnabled(steps, k) && NobodyInside(ms[k])) ==> ms[k + 1] == ms[k]
  {
    InitialInv();
    RunInv(ms, steps, k);
    SwitchesExactly(ms, steps, k);
    StepOnRing(ms[k], Tick);
  }

  // ---- addProcess returns -------------------------------------------------------------------------------------

  /** The steps that the running process still has to take inside addProcess: up to the last node of the queue, then
      two more. */
  ghost function StepsLeft(m: Machine): nat
    requires Inv(m)
  {
    match m.PcOf(m.cp)
    case Outside => 0
    case Entered(_) => |m.list| + 2
    case Walking(_, tmp) => |m.list| + 1 - RR.Position(m.list, tmp)
    case Linked(_) => 1
  }

  /** The step a process inside addProcess takes next. */
  ghost function OwnStep(m: Machine): Step
    requires Inv(m) && m.PcOf(m.cp) != Outside
  {
    match m.PcOf(m.cp)
    case Entered(_) => Start
    case Walking(_, tmp) =>
      ListNodes(m.next, m.readyQueue, m.list, tmp);
      if m.next[tmp] != 0 then Walk else Link
    case Linked(_) => Leave
  }

  lemma WalkMoves(m: Machine)
    requires Inv(m) && Enabled(m, Walk)
    ensures var tmp := m.PcOf(m.cp).tmp;
      m.next[tmp] in m.list && RR.Position(m.list, m.next[tmp]) == RR.Position(m.list, tmp) + 1
  {
    var tmp := m.PcOf(m.cp).tmp;
    ListNext(m.next, m.readyQueue, m.list, RR.Position(m.list, tmp));
    PositionAt(m.list, RR.Position(m.list, tmp) + 1);
  }

  /** At the last node the walk is over. */
  lemma LinkIsLast(m: Machine)
    requires Inv(m) && Enabled(m, Link)
    ensures RR.Position(m.list, m.PcOf(m.cp).tmp) == |m.list| - 1
  {
    var i := RR.Position(m.list, m.PcOf(m.cp).tmp);
    ListNext(m.next, m.readyQueue, m.list, i);
    if i + 1 < |m.list| { ListNext(m.next, m.readyQueue, m.list, i + 1); }
  }

  lemma OwnStepMoves(m: Machine)
    requires Inv(m) && m.PcOf(m.cp) != Outside
    ensures forall e: Step :: !e.Tick? ==> (Enabled(m, e) <==> e == OwnStep(m))
    ensures var pc := m.PcOf(m.cp);
      && (OwnStep(m) == Start ==> m.readyQueue in m.list && RR.Position(m.list, m.readyQueue) == 0)
      && (OwnStep(m) == Walk ==>
            pc.tmp in m.next && m.next[pc.tmp] in m.list
            && RR.Position(m.list, m.next[pc.tmp]) == RR.Position(m.list, pc.tmp) + 1)
      && (OwnStep(m) == Link ==> RR.Position(m.list, pc.tmp) == |m.list| - 1)
  {
    var pc := m.PcOf(m.cp);
    if pc.Walking? {
      ListNodes(m.next, m.readyQueue, m.list, pc.tmp);
      if m.next[pc.tmp] != 0 { WalkMoves(m); } else { LinkIsLast(m); }
    } else if pc.Entered? {
      assert m.readyQueue == m.list[0];
      PositionAt(m.list, 0);
    }
  }

  /** Inside addProcess there is exactly one step to take besides ticks; ticks change nothing, and that step brings the
      return closer by one. */
  lemma AddReturns(m: Machine)
    requires Inv(m) && m.PcOf(m.cp) != Outside
    ensures Next(m, Tick) == m && 0 < StepsLeft(m)
    ensures forall e :: Enabled(m, e) <==> e == Tick || e == OwnStep(m)
    ensures Inv(Next(m, OwnStep(m))) && StepsLeft(Next(m, OwnStep(m))) == StepsLeft(m) - 1
  {
    hide IsList, Distinct;
    OwnStepMoves(m);
    RunningDecides(m);
    StepInv(m, OwnStep(m));
  }
}
