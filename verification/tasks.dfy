/** Processes in a linked ready queue, and the timer flags that gate switching
    (kernel/cpu/tasking/task.c, kernel/cpu/timer.c). */
module Tasks {
  import opened RoundRobin

  const IDLE_PID: nat := 1

  datatype ProcessState = Alive | Zombie | Dead

  class Process {
    const id: nat
    const eip: nat
    var state: ProcessState
    var next: Process?

    constructor (id: nat, eip: nat)
      ensures this.id == id && this.eip == eip && state == Alive && next == null
    {
      this.id := id;
      this.eip := eip;
      this.state := Alive;
      this.next := null;
    }
  }

  /** The flags of timer.c. */
  class Timer {
    var tick: nat
    var task: bool
    var taskWasOn: bool

    constructor ()
      ensures tick == 0 && !task && !taskWasOn
    {
      tick, task, taskWasOn := 0, false, false;
    }

    method SetTask(i: bool)
      modifies this`task
      ensures task == if taskWasOn then i else old(task)
    {
      if !taskWasOn {
        return;
      }
      task := i;
    }

    method EnableTask()
      modifies this`task, this`taskWasOn
      ensures task && taskWasOn
    {
      taskWasOn := true;
      task := true;
    }
  }

  ghost function Ids(q: seq<Process>): (ids: seq<nat>)
    ensures |ids| == |q| && forall i :: 0 <= i < |q| ==> ids[i] == q[i].id
  {
    seq(|q|, (i: nat) requires i < |q| => q[i].id)
  }

  /** Each process links to the one behind it, the last one to null. */
  ghost predicate Chain(q: seq<Process>)
    reads q
  {
    && (forall i, j {:trigger q[i], q[j]} :: 0 <= i && j == i + 1 && j < |q| ==> q[i].next == q[j])
    && (q != [] ==> q[|q| - 1].next == null)
  }

  lemma RestFacts(q: seq<Process>, c: nat, bound: nat)
    requires 0 < c < |q| && (forall i, j :: 0 <= i < j < |q| ==> q[i] != q[j])
    requires forall i :: 0 <= i < |q| ==> q[i].id <= bound
    ensures var rest := q[..c] + q[c + 1..];
      && (forall i, j :: 0 <= i < j < |rest| ==> rest[i] != rest[j]) && q[c] !in rest
      && (forall i :: 0 <= i < |rest| ==> rest[i].id <= bound)
      && rest[0] == q[0] && Ids(rest) == Ids(q)[..c] + Ids(q)[c + 1..]
      && (forall p :: p in rest ==> p in q)
  {
    var rest := q[..c] + q[c + 1..];
    assert forall i :: 0 <= i < c ==> rest[i] == q[i];
    assert forall i :: c <= i < |rest| ==> rest[i] == q[i + 1];
  }

  lemma TakenOut(q: seq<Process>, c: nat)
    requires c < |q| && forall i, j :: 0 <= i < j < |q| ==> q[i] != q[j]
    ensures q[c] !in q[..c] + q[c + 1..]
  {
  }

  /** Distinct processes with pids up to bound that form a ring with its cursor at c. */
  ghost predicate Listed(q: seq<Process>, c: nat, bound: nat) {
    && (forall i, j :: 0 <= i < j < |q| ==> q[i] != q[j])
    && (forall i :: 0 <= i < |q| ==> q[i].id <= bound)
    && Wf(Ring(Ids(q), c))
  }

  /** The queue without process c, as the ring without its running process. */
  lemma RestIsKilled(q: seq<Process>, c: nat, bound: nat)
    requires Listed(q, c, bound) && 0 < c
    ensures var rest := q[..c] + q[c + 1..]; var d := if c < |rest| then c else 0;
      Ring(Ids(rest), d) == Killed(Ring(Ids(q), c)) && Listed(rest, d, bound) && rest[0] == q[0]
  {
    RestFacts(q, c, bound);
    KilledWf(Ring(Ids(q), c));
  }

  class Tasking {
    const timer: Timer
    var readyQueue: Process
    var cp: Process
    var lpid: nat
    ghost var queue: seq<Process>
    ghost var cur: nat

    /** Following next from readyQueue visits the queue, which ends in null; cp is one of its processes. */
    ghost predicate Valid()
      reads this, queue
    {
      && cur < |queue| && readyQueue == queue[0] && cp == queue[cur] && Chain(queue)
      && Listed(queue, cur, lpid)
    }

    ghost function Abs(): Ring
      reads this
    {
      Ring(Ids(queue), cur)
    }

    /** initialise_tasking, up to the idle process. */
    constructor (timer: Timer, idle: nat)
      ensures Valid() && Abs() == Ring([IDLE_PID], 0) && this.timer == timer && lpid == 1 && fresh(queue)
    {
      var p := new Process(1, idle);
      this.timer := timer;
      readyQueue := p;
      cp := p;
      lpid := 1;
      queue := [p];
      cur := 0;
    }

    method CreateProcess(eip: nat) returns (p: Process)
      requires Valid()
      modifies this`lpid
      ensures Valid() && Abs() == old(Abs()) && queue == old(queue) && lpid == old(lpid) + 1
      ensures fresh(p) && p.id == lpid && p.next == null && p.id !in Abs().pids && p.eip == eip && p.state == Alive
    {
      lpid := lpid + 1;
      p := new Process(lpid, eip);
    }

    /** __addProcess: walk to the end of the queue and link the process there. */
    method AddProcessUnlocked(p: Process)
      requires Valid() && p !in queue && p.next == null && p.id !in Abs().pids && p.id <= lpid
      modifies this`queue, queue
      ensures Valid() && Abs() == Added(old(Abs()), p.id) && queue == old(queue) + [p]
    {
      var tmp := readyQueue;
      ghost var k := 0;
      while tmp.next != null
        invariant k < |queue| && tmp == queue[k]
        invariant k + 1 < |queue| ==> tmp.next == queue[k + 1]
        decreases |queue| - k
      {
        tmp := tmp.next;
        k := k + 1;
      }
      ghost var n := |queue|;
      tmp.next := p;
      queue := queue + [p];
      forall i, j | 0 <= i && j == i + 1 && j < |queue| ensures queue[i].next == queue[j] {
        assert i < n - 1 ==> old(queue[i].next) == old(queue)[j];
      }
      AddedWf(old(Abs()), p.id);
      assert Abs().pids == old(Abs().pids) + [p.id];
    }

    /** addProcess: no switching between the two calls of set_task. */
    method AddProcess(p: Process) returns (pid: nat)
      requires Valid() && p !in queue && p.next == null && p.id !in Abs().pids && p.id <= lpid
      modifies this`queue, queue, timer`task
      ensures Valid() && Abs() == Added(old(Abs()), p.id) && pid == p.id
      ensures timer.task == if timer.taskWasOn then true else old(timer.task)
    {
      timer.SetTask(false);
      AddProcessUnlocked(p);
      timer.SetTask(true);
      pid := p.id;
    }

    /** The queue without the running process. */
    ghost function Rest(): seq<Process>
      reads this
      requires cur < |queue|
    {
      queue[..cur] + queue[cur + 1..]
    }

    /** After unlinking, the rest of the queue is linked from end to end. */
    lemma RestLinked()
      requires 0 < cur < |queue| && cp == queue[cur]
      requires forall i, j :: 0 <= i && j == i + 1 && j < |queue| && i != cur - 1 ==> queue[i].next == queue[j]
      requires queue[cur - 1].next == cp.next && (cur < |queue| - 1 ==> queue[|queue| - 1].next == null)
      requires cur == |queue| - 1 ==> cp.next == null
      ensures var rest := Rest();
        && Chain(rest)
        && cp.next == if cur < |rest| then rest[cur] else null
    {
      var rest := Rest();
      assert forall i :: 0 <= i < cur ==> rest[i] == queue[i];
      assert forall i :: cur <= i < |rest| ==> rest[i] == queue[i + 1];
      if cur < |rest| {
        assert rest[cur] == queue[cur + 1];
        assert queue[cur].next == queue[cur + 1];
      }
      forall i, j | 0 <= i && j == i + 1 && j < |rest| ensures rest[i].next == rest[j] {
        if j < cur {
          assert queue[i].next == queue[j];
        } else if cur <= i {
          assert queue[i + 1].next == queue[j + 1];
        }
      }
    }

    /** The unlinking loop of _kill. */
    method Unlink()
      requires Valid() && 0 < cur
      modifies queue
      ensures forall i :: 0 <= i < |queue| && i != cur - 1 ==> queue[i].next == old(queue[i].next)
      ensures queue[cur - 1].next == old(cp.next)
    {
      var tmp: Process? := readyQueue;
      ghost var k := 0;
      while tmp != null
        invariant k <= |queue| && tmp == (if k < |queue| then queue[k] else null) && k != cur
        invariant forall i :: 0 <= i < |queue| && i != cur - 1 ==> queue[i].next == old(queue[i].next)
        invariant queue[cur - 1].next == old(if k < cur then cp else cp.next)
        decreases |queue| - k
      {
        ghost var after := if k + 1 < |queue| then queue[k + 1] else null;
        assert old(queue[k].next) == after;
        if tmp.next == cp {
          assert k + 1 == cur && cp == queue[cur];
          tmp.next := cp.next;
          k := k + 1;
          assert old(cp.next) == if k + 1 < |queue| then queue[k + 1] else null;
        }
        tmp := tmp.next;
        k := k + 1;
      }
    }

    /** The queue may become q, with the process at c next. */
    ghost predicate Prepared(q: seq<Process>, c: nat)
      reads this, q, cp
    {
      && Chain(q) && Listed(q, c, lpid)
      && readyQueue == q[0] && cp.next == if c == 0 then null else q[c]
    }

    /** _kill: what unlinking leaves behind. */
    method Detach(ghost rest: seq<Process>, ghost c: nat)
      requires Valid() && 0 < cur && rest == Rest() && c == if cur < |rest| then cur else 0
      requires Listed(rest, c, lpid) && rest[0] == readyQueue
      modifies queue, timer`task
      ensures Prepared(rest, c)
      ensures timer.task == if timer.taskWasOn then true else old(timer.task)
    {
      hide Listed;
      forall i, j | 0 <= i && j == i + 1 && j < |queue| ensures queue[i].next == queue[j] {
      }
      Unlink();
      forall i, j | 0 <= i && j == i + 1 && j < |queue| && i != cur - 1 ensures queue[i].next == queue[j] {
        assert queue[i].next == old(queue[i].next);
      }
      RestLinked();
      timer.SetTask(true);
    }

    /** schedule, once the queue is q and its next position c. */
    method Advance(ghost q: seq<Process>, ghost c: nat)
      requires Prepared(q, c)
      modifies this`queue, this`cur, this`cp
      ensures Valid() && queue == q && cur == c && Abs() == Ring(Ids(q), c)
    {
      var n := cp.next;
      if n == null {
        n := readyQueue;
      }
      cp := n;
      cur := c;
      queue := q;
      assert Chain(q);
    }

    /** _kill for a process other than idle, from the unlinking on. The killed node is still read by schedule after it
        has been freed. */
    method Remove()
      requires Valid() && 0 < cur
      modifies this`queue, this`cur, this`cp, queue, timer`task
      ensures Valid() && Abs() == Killed(old(Abs())) && queue == old(Rest())
      ensures timer.task == if timer.taskWasOn then true else old(timer.task)
    {
      ghost var rest := Rest();
      ghost var c := if cur < |rest| then cur else 0;
      RestIsKilled(queue, cur, lpid);
      Detach(rest, c);
      Advance(rest, c);
    }

    /** _kill. Killing idle stops the machine for good, with switching turned off; otherwise switching is on again, if
        it ever was. */
    method Kill() returns (halted: bool)
      requires Valid()
      modifies this`queue, this`cur, this`cp, queue, timer`task
      ensures halted <==> old(cp.id) == IDLE_PID
      ensures halted ==> Valid() && Abs() == old(Abs())
      ensures !halted ==> Valid() && Abs() == Killed(old(Abs())) && old(cp) !in queue
      ensures timer.task == if timer.taskWasOn then !halted else old(timer.task)
    {
      hide Ids, Killed;
      if cp.id == IDLE_PID {
        timer.SetTask(false);
        return true;
      }
      assert cur != 0;
      TakenOut(queue, cur);
      timer.SetTask(false);
      Remove();
      halted := false;
    }

    /** schedule. */
    method Schedule()
      requires Valid()
      modifies this`queue, this`cur, this`cp
      ensures Valid() && Abs() == Scheduled(old(Abs())) && queue == old(queue)
    {
      ScheduledWf(Abs());
      Advance(queue, Scheduled(Abs()).cur);
    }

    /** timer_callback. */
    method TimerCallback()
      requires Valid()
      modifies this`queue, this`cur, this`cp, timer`tick
      ensures Valid() && timer.tick == old(timer.tick) + 1
      ensures Abs() == if timer.task then Scheduled(old(Abs())) else old(Abs())
    {
      timer.tick := timer.tick + 1;
      if timer.task {
        Schedule();
      }
    }
  }
}
