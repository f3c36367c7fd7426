/** Timer ticks interleaved with the steps of addProcess (kernel/cpu/timer.c, kernel/cpu/tasking/task.c). */
module TimerGate {

  const IDLE: nat := 1

  /** Where a process is inside addProcess: it has called set_task(0) and is about to read ready_queue; it walks the
      list; it has linked the new process and is about to call set_task(1). */
  datatype Pc = Outside | Entered(p: nat) | Walking(p: nat, tmp: nat) | Linked(p: nat)

  /** next maps each process node to the node behind it, 0 for none. The list field is what following next from
      readyQueue gives; no step looks at it. */
  datatype Machine = Machine(next: map<nat, nat>, readyQueue: nat, cp: nat, task: bool, taskWasOn: bool,
                             pcs: map<nat, Pc>, list: seq<nat>) {
    function PcOf(p: nat): Pc {
      if p in pcs then pcs[p] else Outside
    }
  }

  ghost predicate IsList(next: map<nat, nat>, head: nat, q: seq<nat>)
    decreases |q|
  {
    if q == [] then head == 0
    else head != 0 && head == q[0] && head in next && IsList(next, next[head], q[1..])
  }

  ghost predicate Distinct(q: seq<nat>) {
    forall i, j :: 0 <= i < j < |q| ==> q[i] != q[j]
  }

  // ---- Steps --------------------------------------------------------------------------------------------------

  /** set_task. */
  function SetTask(m: Machine, i: bool): Machine {
    if m.taskWasOn then m.(task := i) else m
  }

  /** schedule. */
  function Schedule(m: Machine): Machine {
    if m.cp in m.next && m.next[m.cp] != 0 then m.(cp := m.next[m.cp]) else m.(cp := m.readyQueue)
  }

  function WithPc(m: Machine, pc: Pc): Machine {
    m.(pcs := m.pcs[m.cp := pc])
  }

  datatype Step =
    | Tick
    | Enable
    | Enter(p: nat)
    | Start
    | Walk
    | Link
    | Leave
    | Kill

  /** Which steps can be taken. Apart from ticks, only the running process takes steps. idle_thread enables switching
      before it does anything else, so outside addProcess. A new process has a node of its own, not yet linked. */
  ghost predicate Enabled(m: Machine, e: Step) {
    var pc := m.PcOf(m.cp);
    match e
    case Tick => true
    case Enable => pc == Outside && m.cp == IDLE
    case Enter(p) => pc == Outside && p != 0 && p !in m.next
    case Start => pc.Entered?
    case Walk => pc.Walking? && pc.tmp in m.next && m.next[pc.tmp] != 0
    case Link => pc.Walking? && pc.tmp in m.next && m.next[pc.tmp] == 0
    case Leave => pc.Linked?
    case Kill => pc == Outside && m.cp != IDLE && m.cp in m.next
  }

  function Unlinked(next: map<nat, nat>, dead: nat): map<nat, nat>
    requires dead in next
  {
    map p | p in next :: if p != dead && next[p] == dead then next[dead] else next[p]
  }

  function Without(q: seq<nat>, p: nat): seq<nat> {
    if q == [] then [] else (if q[0] == p then [] else [q[0]]) + Without(q[1..], p)
  }

  ghost function Next(m: Machine, e: Step): Machine
    requires Enabled(m, e)
  {
    var pc := m.PcOf(m.cp);
    match e
    case Tick => if m.task then Schedule(m) else m
    case Enable => m.(task := true, taskWasOn := true)
    case Enter(p) => SetTask(WithPc(m.(next := m.next[p := 0]), Entered(p)), false)
    case Start => WithPc(m, Walking(pc.p, m.readyQueue))
    case Walk => WithPc(m, Walking(pc.p, m.next[pc.tmp]))
    case Link => WithPc(m.(next := m.next[pc.tmp := pc.p], list := m.list + [pc.p]), Linked(pc.p))
    case Leave => SetTask(WithPc(m, Outside), true)
    case Kill =>
      var n := SetTask(SetTask(m, false).(next := Unlinked(m.next, m.cp)), true);
      Schedule(n).(list := Without(m.list, m.cp))
  }

  // ---- The invariant ------------------------------------------------------------------------------------------

  /** Whoever is inside addProcess is running. */
  ghost predicate GateHeld(m: Machine) {
    forall p: nat :: p in m.pcs && m.pcs[p] != Outside ==> p == m.cp
  }

  ghost predicate NobodyInside(m: Machine) {
    forall p: nat :: m.PcOf(p) == Outside
  }

  /** Ticks switch exactly when switching was ever enabled and nobody is inside addProcess. */
  ghost predicate FlagRight(m: Machine) {
    m.task <==> m.taskWasOn && NobodyInside(m)
  }

  /** The node being added is not linked yet; a walking process stands on a node of the list. */
  ghost predicate PcRight(m: Machine) {
    var pc := m.PcOf(m.cp);
    && (pc.Entered? || pc.Walking? ==> pc.p != 0 && pc.p !in m.list && pc.p in m.next && m.next[pc.p] == 0)
    && (pc.Walking? ==> pc.tmp in m.list)
  }

  ghost predicate Inv(m: Machine) {
    && GateHeld(m) && PcRight(m) && FlagRight(m)
    && IsList(m.next, m.readyQueue, m.list) && Distinct(m.list) && m.cp in m.list
    && m.list != [] && m.list[0] == IDLE
  }

  /** The machine after initialise_tasking has made idle. */
  function Initial(): Machine {
    Machine(map[IDLE := 0], IDLE, IDLE, false, false, map[], [IDLE])
  }

  lemma InitialInv()
    ensures Inv(Initial())
  {
  }

  lemma {:induction false} ListUnchanged(next: map<nat, nat>, next': map<nat, nat>, head: nat, q: seq<nat>)
    requires IsList(next, head, q)
    requires forall p :: p in q ==> p in next' && (p in next ==> next'[p] == next[p])
    ensures IsList(next', head, q)
    decreases |q|
  {
    if q != [] {
      ListUnchanged(next, next', next[head], q[1..]);
    }
  }

  /** Following the list: each node leads to the one behind it. */
  lemma {:induction false} ListNext(next: map<nat, nat>, head: nat, q: seq<nat>, i: nat)
    requires IsList(next, head, q) && i < |q|
    ensures q[i] != 0 && q[i] in next && next[q[i]] == if i + 1 < |q| then q[i + 1] else 0
    decreases i
  {
    if 0 < i {
      ListNext(next, next[head], q[1..], i - 1);
    }
  }

  /** Linking a new node behind the last one. */
  lemma {:induction false} ListAppend(next: map<nat, nat>, head: nat, q: seq<nat>, p: nat, tmp: nat)
    requires IsList(next, head, q) && Distinct(q) && tmp in q && tmp in next && next[tmp] == 0
    requires p != 0 && p !in q && p in next && next[p] == 0
    ensures IsList(next[tmp := p], head, q + [p])
    decreases |q|
  {
    assert (q + [p])[1..] == q[1..] + [p];
    if q[0] == tmp {
      assert q == [q[0]];
      assert [p][1..] == [];
    } else {
      ListAppend(next, next[head], q[1..], p, tmp);
    }
  }

  lemma {:induction false} WithoutGone(q: seq<nat>, p: nat)
    ensures p !in Without(q, p)
    ensures p !in q ==> Without(q, p) == q
    ensures forall x :: x in Without(q, p) ==> x in q
    ensures forall x :: x in q && x != p ==> x in Without(q, p)
  {
    if q != [] {
      WithoutGone(q[1..], p);
    }
  }

  lemma {:induction false} WithoutDistinct(q: seq<nat>, p: nat)
    requires Distinct(q)
    ensures Distinct(Without(q, p))
  {
    if q != [] {
      WithoutDistinct(q[1..], p);
      WithoutGone(q[1..], p);
      var tail := Without(q[1..], p);
      assert q[0] !in q[1..];
      forall j | 0 <= j < |tail| ensures tail[j] != q[0] {
        assert tail[j] in tail;
      }
    }
  }

  /** Unlinking a node that is not the head of the list. */
  lemma {:induction false} ListRemove(next: map<nat, nat>, head: nat, q: seq<nat>, dead: nat)
    requires IsList(next, head, q) && Distinct(q) && dead in next && dead != 0
    ensures head != dead ==> IsList(Unlinked(next, dead), head, Without(q, dead))
    ensures head == dead ==> IsList(Unlinked(next, dead), next[dead], Without(q, dead))
    decreases |q|
  {
    if q != [] {
      ListRemove(next, next[head], q[1..], dead);
      WithoutGone(q[1..], dead);
      if head == dead {
        assert Without(q, dead) == q[1..];
        if q[1..] != [] { assert q[1] == next[head]; }
      }
    }
  }

  lemma ListNodes(next: map<nat, nat>, head: nat, q: seq<nat>, p: nat)
    requires IsList(next, head, q) && p in q
    ensures p != 0 && p in next && (next[p] == 0 || next[p] in q)
  {
    var i :| 0 <= i < |q| && q[i] == p;
    ListNext(next, head, q, i);
  }

  lemma ScheduleInList(m: Machine)
    requires IsList(m.next, m.readyQueue, m.list) && m.cp in m.list && m.list != []
    ensures Schedule(m).cp in m.list
  {
    ListNodes(m.next, m.readyQueue, m.list, m.cp);
  }

  /** Only the running process can be inside, so where it is settles the flag. */
  lemma RunningDecides(m: Machine)
    requires GateHeld(m)
    ensures NobodyInside(m) <==> m.PcOf(m.cp) == Outside
  {
  }

  lemma TickInv(m: Machine)
    requires Inv(m)
    ensures Inv(Next(m, Tick))
  {
    if m.task {
      ScheduleInList(m);
      assert m.PcOf(Schedule(m).cp) == Outside;
    }
  }

  /** A step of the running process inside addProcess, into it or out of it, leaves the flag right. */
  lemma FlagStep(m: Machine, e: Step)
    requires GateHeld(m) && FlagRight(m) && Enabled(m, e) && !e.Tick? && !e.Kill?
    ensures GateHeld(Next(m, e)) && FlagRight(Next(m, e))
  {
    RunningDecides(m);
    RunningDecides(Next(m, e));
  }

  lemma EnterInv(m: Machine, p: nat)
    requires Inv(m) && Enabled(m, Enter(p))
    ensures Inv(Next(m, Enter(p)))
  {
    forall x | x in m.list ensures x in m.next && x != p {
      ListNodes(m.next, m.readyQueue, m.list, x);
    }
    ListUnchanged(m.next, m.next[p := 0], m.readyQueue, m.list);
  }

  lemma WalkInv(m: Machine)
    requires Inv(m) && Enabled(m, Walk)
    ensures Inv(Next(m, Walk))
  {
    ListNodes(m.next, m.readyQueue, m.list, m.PcOf(m.cp).tmp);
  }

  lemma LinkInv(m: Machine)
    requires Inv(m) && Enabled(m, Link)
    ensures Inv(Next(m, Link))
  {
    var pc := m.PcOf(m.cp);
    ListAppend(m.next, m.readyQueue, m.list, pc.p, pc.tmp);
  }

  lemma KillInv(m: Machine)
    requires Inv(m) && Enabled(m, Kill)
    ensures Inv(Next(m, Kill))
  {
    ListNodes(m.next, m.readyQueue, m.list, m.cp);
    ListRemove(m.next, m.readyQueue, m.list, m.cp);
    WithoutGone(m.list, m.cp);
    WithoutDistinct(m.list, m.cp);
    var m' := Next(m, Kill);
    var i :| 0 <= i < |m.list| && m.list[i] == m.cp;
    ListNext(m.next, m.readyQueue, m.list, i);
    assert m.readyQueue == IDLE;
    assert m'.list[0] == IDLE;
    assert m'.cp in m'.list by {
      if i + 1 < |m.list| { assert m.list[i + 1] != m.cp; }
    }
  }

  /** Every step keeps the invariant. */
  lemma StepInv(m: Machine, e: Step)
    requires Inv(m) && Enabled(m, e)
    ensures Inv(Next(m, e))
  {
    if !e.Tick? && !e.Kill? { FlagStep(m, e); }
    match e {
      case Tick => TickInv(m);
      case Enable =>
      case Enter(p) => EnterInv(m, p);
      case Start =>
      case Walk => WalkInv(m);
      case Link => LinkInv(m);
      case Leave =>
      case Kill => KillInv(m);
    }
  }

  // ---- Runs ---------------------------------------------------------------------------------------------------

  ghost predicate Run(ms: seq<Machine>, steps: seq<Step>) {
    |ms| == |steps| + 1
    && forall k :: 0 <= k < |steps| ==> Enabled(ms[k], steps[k]) && ms[k + 1] == Next(ms[k], steps[k])
  }

  lemma {:induction false} RunInv(ms: seq<Machine>, steps: seq<Step>, k: nat)
    requires Run(ms, steps) && Inv(ms[0]) && k < |ms|
    ensures Inv(ms[k])
  {
    if 0 < k {
      RunInv(ms, steps, k - 1);
      StepInv(ms[k - 1], steps[k - 1]);
    }
  }

  /** idle has enabled switching among the first k steps. */
  ghost predicate EverEnabled(steps: seq<Step>, k: nat) {
    exists j :: 0 <= j < k && j < |steps| && steps[j] == Enable
  }

  lemma {:induction false} WasOnExactly(ms: seq<Machine>, steps: seq<Step>, k: nat)
    requires Run(ms, steps) && ms[0] == Initial() && k < |ms|
    ensures ms[k].taskWasOn <==> EverEnabled(steps, k)
    decreases k
  {
    if 0 < k {
      WasOnExactly(ms, steps, k - 1);
      assert ms[k] == Next(ms[k - 1], steps[k - 1]);
      if steps[k - 1] == Enable { assert EverEnabled(steps, k); }
    }
  }

  /** In every state of every run ticks switch if and only if switching was ever enabled and nobody is inside
      addProcess. */
  lemma SwitchesExactly(ms: seq<Machine>, steps: seq<Step>, k: nat)
    requires Run(ms, steps) && ms[0] == Initial() && k < |ms|
    ensures ms[k].task <==> EverEnabled(steps, k) && NobodyInside(ms[k])
  {
    InitialInv();
    RunInv(ms, steps, k);
    WasOnExactly(ms, steps, k);
  }

  /** At every tick that switches, nobody is inside addProcess and the ready queue is a complete list. */
  lemma SwitchingTicksAreSafe(ms: seq<Machine>, steps: seq<Step>, k: nat)
    requires Run(ms, steps) && ms[0] == Initial() && k < |steps| && steps[k] == Tick && ms[k].task
    ensures forall p: nat :: ms[k].PcOf(p) == Outside
    ensures IsList(ms[k].next, ms[k].readyQueue, ms[k].list) && Distinct(ms[k].list) && ms[k].cp in ms[k].list
  {
    InitialInv();
    RunInv(ms, steps, k);
  }

  /** While a process is inside addProcess, no step of any kind moves the cursor away from it, whether or not
      switching has ever been enabled. */
  lemma CursorStays(ms: seq<Machine>, steps: seq<Step>, k: nat, p: nat)
    requires Run(ms, steps) && ms[0] == Initial() && k < |steps| && ms[k].PcOf(p) != Outside
    ensures ms[k].cp == p && ms[k + 1].cp == p
  {
    InitialInv();
    RunInv(ms, steps, k);
  }

  /** What the queue is while process c is inside, given what it was on entry. */
  ghost predicate AddedSoFar(m: Machine, c: nat, q: seq<nat>, p: nat) {
    match m.PcOf(c)
    case Outside => m.list == q + [p]
    case Entered(r) => r == p && m.list == q
    case Walking(r, _) => r == p && m.list == q
    case Linked(r) => r == p && m.list == q + [p]
  }

  lemma AddStep(m: Machine, e: Step, q: seq<nat>, p: nat)
    requires Inv(m) && Enabled(m, e) && m.PcOf(m.cp) != Outside && AddedSoFar(m, m.cp, q, p)
    ensures AddedSoFar(Next(m, e), m.cp, q, p)
  {
  }

  lemma EnterStep(m: Machine, p: nat)
    requires Inv(m) && Enabled(m, Enter(p))
    ensures AddedSoFar(Next(m, Enter(p)), m.cp, m.list, p)
  {
  }

  /** addProcess is atomic: from its entry to its return, whatever ticks come in between, the only change to the queue
      is the new process at its end. */
  lemma {:induction false} AddIsAtomic(ms: seq<Machine>, steps: seq<Step>, i: nat, j: nat)
    requires Run(ms, steps) && ms[0] == Initial() && i < j < |ms| && steps[i].Enter?
    requires forall k :: i < k < j ==> ms[k].PcOf(ms[i].cp) != Outside
    ensures AddedSoFar(ms[j], ms[i].cp, ms[i].list, steps[i].p)
    decreases j
  {
    hide Inv, Next, Enabled, AddedSoFar, Initial;
    var c, p := ms[i].cp, steps[i].p;
    InitialInv();
    RunInv(ms, steps, j - 1);
    assert Enabled(ms[j - 1], steps[j - 1]) && ms[j] == Next(ms[j - 1], steps[j - 1]);
    if i + 1 == j {
      EnterStep(ms[i], p);
    } else {
      AddIsAtomic(ms, steps, i, j - 1);
      CursorStays(ms, steps, j - 1, c);
      AddStep(ms[j - 1], steps[j - 1], ms[i].list, p);
    }
  }
}
