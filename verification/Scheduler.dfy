/** The process table, the round-robin scan and the semaphores of kernel/sched.c, sem.c,
    pcb.c and syscall.c. Interrupts are off in the kernel, so every kernel entry is one step
    that ends with some process running in user mode. */
module Scheduler {
  const UPCB_NUM: nat := 64
  const SCHED_TIME_FREQ: nat := 0x60
  const NOT_WAITING_SEM := -1

  type Pid = i: nat | i < 64
  type Sem = s: nat | s < 3
  /** The semaphore a process waits for, or NOT_WAITING_SEM. */
  type Wait = w: int | -1 <= w < 3

  datatype Status = FREE | SLEEPING | RUNNABLE | RUNNING | NOT_RUNNABLE

  datatype Pcb = Pcb(pid: nat, status: Status, runnedTime: nat, wakeup: nat, waitSem: Wait)
  type Table = p: seq<Pcb> | |p| == 64 witness seq(64, _ => Pcb(0, FREE, 0, 0, -1))
  type Counts = c: seq<nat> | |c| == 3 witness [0, 0, 0]

  /** user_pcbs, curr_pid, sys_runned_time, sys_last_time and sem_pool. */
  datatype K = K(pcbs: Table, cur: Pid, clock: nat, last: nat, sems: Counts)

  // ---------------------------------------------------------------- whom the scan may pick

  /** The scan would dispatch process i at time t. */
  predicate Ready(k: K, i: Pid, t: nat) {
    var p := k.pcbs[i];
    || p.status == RUNNABLE
    || (p.status == SLEEPING && p.wakeup <= t && (p.waitSem == -1 || k.sems[p.waitSem] > 0))
  }

  /** The scan would find process i waiting on an empty semaphore at time t. */
  predicate Starved(k: K, i: Pid, t: nat) {
    var p := k.pcbs[i];
    p.status == SLEEPING && p.wakeup <= t && p.waitSem != -1 && k.sems[p.waitSem] == 0
  }

  /** The scan reacts to process i at time t: it is picked, or (when the caller is not itself
      asleep) the caller stumbles over it. */
  predicate Stops(k: K, i: Pid, t: nat) {
    Ready(k, i, t) || (k.pcbs[k.cur].status != SLEEPING && Starved(k, i, t))
  }

  /** Steps from c to i in scan order; the caller comes last. */
  function Dist(c: Pid, i: Pid): (d: nat)
    ensures 1 <= d <= 64 && (d == 64 <==> c == i)
  {
    if i > c then i - c else i - c + 64
  }

  /** i is the first in scan order, the caller excepted, that the scan reacts to at time t. */
  ghost predicate FirstStop(k: K, i: Pid, t: nat) {
    && i != k.cur && Stops(k, i, t)
    && forall j: Pid :: Dist(k.cur, j) < Dist(k.cur, i) ==> !Stops(k, j, t)
  }

  /** At no time from the entry of the scan up to (not including) t does it react to anyone. */
  ghost predicate QuietUntil(k: K, t: nat) {
    forall u: nat, j: Pid :: k.clock < u < t && j != k.cur ==> !Stops(k, j, u)
  }

  // ---------------------------------------------------------------- dispatch

  /** pcb_exec after the scan's bookkeeping: a waiter has taken its permit. */
  function Dispatch(k: K, i: Pid, t: nat): K
    requires Ready(k, i, t)
  {
    var p := k.pcbs[i];
    if p.status == SLEEPING && p.waitSem != -1 then
      k.(pcbs := k.pcbs[i := p.(status := RUNNING, waitSem := -1)], cur := i, clock := t,
         sems := k.sems[p.waitSem := k.sems[p.waitSem] - 1])
    else
      k.(pcbs := k.pcbs[i := p.(status := RUNNING)], cur := i, clock := t)
  }

  /** The scan ends by dispatching the first ready process at the first time there is one. */
  ghost predicate Picks(k: K, k': K) {
    && k'.clock > k.clock
    && QuietUntil(k, k'.clock)
    && FirstStop(k, k'.cur, k'.clock)
    && Ready(k, k'.cur, k'.clock)
    && k' == Dispatch(k, k'.cur, k'.clock)
  }

  /** kernel/sem.c:35-36 run on behalf of a caller that is not asleep: it becomes a sleeper
      waiting for i's semaphore. */
  function Fallen(k: K, i: Pid, t: nat): K {
    k.(pcbs := k.pcbs[k.cur := k.pcbs[k.cur].(status := SLEEPING, waitSem := k.pcbs[i].waitSem)], clock := t)
  }

  /** The caller meets a starved waiter before anyone ready. */
  ghost predicate Stumbles(k: K, i: Pid, t: nat) {
    && t > k.clock && QuietUntil(k, t) && FirstStop(k, i, t) && !Ready(k, i, t)
  }

  /** What sched_process does. */
  ghost predicate Sched(k: K, k': K) {
    Picks(k, k') || exists i: Pid, t: nat :: Stumbles(k, i, t) && Picks(Fallen(k, i, t), k')
  }

  /** Someone other than the caller will be ready, if only time passes. */
  predicate Dispatchable(k: K, i: Pid) {
    var p := k.pcbs[i];
    i != k.cur && (p.status == RUNNABLE || (p.status == SLEEPING && (p.waitSem == -1 || k.sems[p.waitSem] > 0)))
  }

  // ---------------------------------------------------------------- kernel entries

  datatype Entry = Sleep(time: nat) | Exit | Fork | Tick
                 | SemOpen(s: Sem, value: nat) | SemDestroy(s: Sem) | SemWait(s: Sem) | SemPost(s: Sem)

  function SetStatus(k: K, st: Status): K {
    k.(pcbs := k.pcbs[k.cur := k.pcbs[k.cur].(status := st)])
  }

  function Slept(k: K, time: nat): K {
    k.(pcbs := k.pcbs[k.cur := k.pcbs[k.cur].(status := SLEEPING, wakeup := k.clock + time)])
  }

  function Blocked(k: K, s: Sem): K {
    k.(pcbs := k.pcbs[k.cur := k.pcbs[k.cur].(status := SLEEPING, waitSem := s)])
  }

  function Ticked(k: K): K {
    k.(clock := k.clock + 1, pcbs := k.pcbs[k.cur := k.pcbs[k.cur].(runnedTime := k.pcbs[k.cur].runnedTime + 1)])
  }

  predicate Preempts(k: K) { Ticked(k).clock > k.last + SCHED_TIME_FREQ }

  /** n is the lowest free slot other than the caller's. */
  ghost predicate FirstFreePid(k: K, n: Pid) {
    n != k.cur && k.pcbs[n].status == FREE && forall j: Pid :: j < n && j != k.cur ==> k.pcbs[j].status != FREE
  }

  function Forked(k: K, n: Pid): K { k.(pcbs := k.pcbs[n := k.pcbs[k.cur].(pid := n, status := RUNNABLE)]) }

  /** The state the scan starts from, for the entries that give up the processor. */
  function Yielding(k: K, e: Entry): K {
    match e
    case Sleep(time) => Slept(k, time)
    case Exit => SetStatus(k, FREE)
    case SemWait(s) => Blocked(k, s)
    case Tick => Slept(Ticked(k).(last := k.clock + 1), 1)
    case _ => k
  }

  predicate Yields(k: K, e: Entry) {
    match e
    case Sleep(_) => true
    case Exit => true
    case SemWait(s) => k.sems[s] == 0
    case Tick => Preempts(k)
    case _ => false
  }

  /** One kernel entry. */
  ghost predicate Step(k: K, e: Entry, k': K) {
    if Yields(k, e) then Sched(Yielding(k, e), k')
    else
      match e
      case Fork => exists n: Pid :: FirstFreePid(k, n) && k' == Forked(k, n)
      case Tick => k' == Ticked(k)
      case SemOpen(s, v) => v > 0 && k' == k.(sems := k.sems[s := v])
      case SemDestroy(s) => k' == k.(sems := k.sems[s := 0])
      case SemWait(s) => k.sems[s] > 0 && k' == k.(sems := k.sems[s := k.sems[s] - 1])
      case SemPost(s) => k' == k.(sems := k.sems[s := k.sems[s] + 1])
      case _ => false
  }

  // ---------------------------------------------------------------- the code

  datatype WaitResult = Success | Invalid | Switched

  /** Process 0 runs, every other slot is free, no semaphore is open. */
  function Booted(): K {
    K(seq(64, i requires 0 <= i < 64 => Pcb(i, if i == 0 then RUNNING else FREE, 0, 0, -1)), 0, 0, 0, [0, 0, 0])
  }

  class Kernel {
    var pcbs: Table
    var cur: Pid
    var clock: nat
    var last: nat
    var sems: Counts

    ghost function V(): K
      reads this
    {
      K(pcbs, cur, clock, last, sems)
    }

    /** pcb_init_p0, and pcb_exec of process 0. */
    constructor ()
      ensures V() == Booted() && KInv(V())
      ensures cur == 0 && clock == 0 && last == 0 && sems == [0, 0, 0]
      ensures forall i: Pid :: pcbs[i] == Pcb(i, if i == 0 then RUNNING else FREE, 0, 0, -1)
    {
      pcbs := seq(64, i requires 0 <= i < 64 => Pcb(i, if i == 0 then RUNNING else FREE, 0, 0, -1));
      cur, clock, last := 0, 0, 0;
      sems := [0, 0, 0];
    }

    /** pcb_exec: i runs in user mode from here on. */
    method PcbExec(i: Pid)
      requires pcbs[i].pid == i
      modifies this`cur, this`pcbs
      ensures cur == i && pcbs == old(pcbs)[i := old(pcbs[i]).(status := RUNNING)]
    {
      cur := pcbs[i].pid;
      pcbs := pcbs[i := pcbs[i].(status := RUNNING)];
    }

    /** Terminates when someone else will become ready, and dispatches as Sched says. */
    method SchedProcess()
      requires forall i: Pid :: pcbs[i].pid == i
      requires pcbs[cur].status != RUNNING
      requires exists i: Pid :: Dispatchable(V(), i)
      modifies this
      ensures Sched(old(V()), V())
      decreases if pcbs[cur].status == SLEEPING then 0 else 1, 1
    {
      var originalPid := cur;
      ghost var k0 := V();
      ghost var w: Pid :| Dispatchable(k0, w);
      while true
        invariant V() == k0.(clock := clock) && clock >= k0.clock
        invariant QuietUntil(k0, clock + 1)
        decreases k0.pcbs[w].wakeup - clock
      {
        clock := clock + 1;
        ghost var now := clock;
        var roundRobin := 0;
        while roundRobin < UPCB_NUM
          invariant 0 <= roundRobin <= 64
          invariant V() == k0.(clock := now) && now > k0.clock
          invariant QuietUntil(k0, now)
          invariant forall j: Pid :: j != k0.cur && Dist(k0.cur, j) <= roundRobin ==> !Stops(k0, j, now)
        {
          var i: Pid := (roundRobin + originalPid + 1) % UPCB_NUM;
          if i != originalPid {
            assert Dist(k0.cur, i) == roundRobin + 1;
            if pcbs[i].status == RUNNABLE {
              PcbExec(i);
              assert Picks(k0, V());
              return;
            } else if pcbs[i].status == SLEEPING && pcbs[i].wakeup <= clock {
              if pcbs[i].waitSem == NOT_WAITING_SEM {
                PcbExec(i);
                assert Picks(k0, V());
                return;
              } else {
                assert Dispatchable(Blocked(V(), pcbs[i].waitSem), w);
                var r := SysSemWait(pcbs[i].waitSem);
                if r == Switched {
                  assert Stumbles(k0, i, now);
                  return;
                }
                if r == Success {
                  pcbs := pcbs[i := pcbs[i].(waitSem := NOT_WAITING_SEM)];
                  PcbExec(i);
                  assert Picks(k0, V());
                  return;
                }
              }
            }
          }
          roundRobin := roundRobin + 1;
        }
        assert !Stops(k0, w, now);
      }
    }

    /** Takes a permit, or refuses a caller that is already asleep, or puts the caller to
        sleep and switches away. */
    method SysSemWait(sem: Sem) returns (r: WaitResult)
      requires forall i: Pid :: pcbs[i].pid == i
      requires sems[sem] == 0 && pcbs[cur].status != SLEEPING ==>
                 exists i: Pid :: Dispatchable(Blocked(V(), sem), i)
      modifies this
      ensures old(sems)[sem] > 0 ==> r == Success && V() == old(V()).(sems := old(sems)[sem := old(sems)[sem] - 1])
      ensures old(sems)[sem] == 0 && old(pcbs[cur]).status == SLEEPING ==> r == Invalid && V() == old(V())
      ensures old(sems)[sem] == 0 && old(pcbs[cur]).status != SLEEPING ==>
                r == Switched && Sched(Blocked(old(V()), sem), V())
      decreases if pcbs[cur].status == SLEEPING then 0 else 1, 0
    {
      if sems[sem] == 0 {
        if pcbs[cur].status == SLEEPING { return Invalid; }
        pcbs := pcbs[cur := pcbs[cur].(waitSem := sem)];
        pcbs := pcbs[cur := pcbs[cur].(status := SLEEPING)];
        assert V() == Blocked(old(V()), sem);
        SchedProcess();
        return Switched;
      }
      sems := sems[sem := sems[sem] - 1];
      return Success;
    }

    method SysSleep(time: nat)
      requires KInv(V()) && exists i: Pid :: Dispatchable(Yielding(V(), Sleep(time)), i)
      modifies this
      ensures Step(old(V()), Sleep(time), V())
    {
      pcbs := pcbs[cur := pcbs[cur].(status := SLEEPING)];
      pcbs := pcbs[cur := pcbs[cur].(wakeup := clock + time)];
      assert V() == Slept(old(V()), time);
      SchedProcess();
    }

    method SysExit()
      requires KInv(V()) && exists i: Pid :: Dispatchable(Yielding(V(), Exit), i)
      modifies this
      ensures Step(old(V()), Exit, V())
    {
      pcbs := pcbs[cur := pcbs[cur].(status := FREE)];
      assert V() == Yielding(old(V()), Exit);
      SchedProcess();
    }

    /** The PCB part of sys_fork; running out of PCBs is a panic. */
    method SysFork() returns (newPid: Pid)
      requires KInv(V()) && exists n: Pid :: n != cur && pcbs[n].status == FREE
      modifies this`pcbs
      ensures pcbs == old(pcbs)[newPid := old(pcbs)[cur].(pid := newPid, status := RUNNABLE)]
      ensures Step(old(V()), Fork, V()) && FirstFreePid(old(V()), newPid)
    {
      ghost var free: Pid :| free != cur && pcbs[free].status == FREE;
      var n := 0;
      while n < UPCB_NUM && !(n != cur && pcbs[n].status == FREE)
        invariant 0 <= n <= free
        invariant forall j: Pid :: j < n && j != cur ==> pcbs[j].status != FREE
      {
        n := n + 1;
      }
      newPid := n;
      pcbs := pcbs[n := pcbs[cur]];
      pcbs := pcbs[n := pcbs[n].(pid := n)];
      pcbs := pcbs[n := pcbs[n].(status := RUNNABLE)];
      assert V() == Forked(old(V()), n);
    }

    method SysSemOpen(sem: Sem, value: nat) returns (r: Sem)
      requires value > 0
      modifies this`sems
      ensures r == sem && sems == old(sems)[sem := value]
      ensures Step(old(V()), SemOpen(sem, value), V())
    {
      sems := sems[sem := value];
      r := sem;
    }

    method SysSemDestroy(sem: Sem)
      modifies this`sems
      ensures sems == old(sems)[sem := 0]
      ensures Step(old(V()), SemDestroy(sem), V())
    {
      sems := sems[sem := 0];
    }

    method SysSemPost(sem: Sem)
      modifies this`sems
      ensures sems == old(sems)[sem := old(sems)[sem] + 1]
      ensures Step(old(V()), SemPost(sem), V())
    {
      sems := sems[sem := sems[sem] + 1];
    }

    /** sem_wait as a process calls it. */
    method UserSemWait(sem: Sem)
      requires KInv(V())
      requires sems[sem] == 0 ==> exists i: Pid :: Dispatchable(Yielding(V(), SemWait(sem)), i)
      modifies this
      ensures Step(old(V()), SemWait(sem), V())
    {
      var _ := SysSemWait(sem);
    }

    /** The timer branch of trap (kernel/trap.c:110-117). */
    method TimerTick()
      requires KInv(V())
      requires Preempts(V()) ==> exists i: Pid :: Dispatchable(Yielding(V(), Tick), i)
      modifies this
      ensures Step(old(V()), Tick, V())
      ensures cur == old(cur) ==> clock == old(clock) + 1
      ensures cur == old(cur) ==>
                pcbs == old(pcbs)[cur := old(pcbs)[cur].(runnedTime := old(pcbs)[cur].runnedTime + 1)]
    {
      clock := clock + 1;
      pcbs := pcbs[cur := pcbs[cur].(runnedTime := pcbs[cur].runnedTime + 1)];
      if clock > last + SCHED_TIME_FREQ {
        last := clock;
        pcbs := pcbs[cur := pcbs[cur].(status := SLEEPING)];
        pcbs := pcbs[cur := pcbs[cur].(wakeup := clock + 1)];
        assert V() == Yielding(old(V()), Tick);
        SchedProcess();
      }
    }
  }

  /** Kept by every kernel entry: slot i holds process i; exactly one process runs, and it is
      the current one; whoever is not asleep waits for nothing and is past its wake-up time,
      and so is whoever waits for a semaphore. */
  ghost predicate KInv(k: K) {
    && (forall i: Pid :: k.pcbs[i].pid == i)
    && (forall i: Pid :: k.pcbs[i].status == RUNNING <==> i == k.cur)
    && (forall i: Pid :: PcbOk(k.pcbs[i], k.clock))
  }

  ghost predicate PcbOk(p: Pcb, clock: nat) {
    && (p.status == RUNNING || p.status == RUNNABLE ==> p.waitSem == -1 && p.wakeup <= clock)
    && (p.status == SLEEPING && p.waitSem != -1 ==> p.wakeup <= clock)
  }

  // ---------------------------------------------------------------- what every entry keeps

  /** The invariant with the caller no longer running, at the entry of the scan. */
  ghost predicate SchedInv(k: K) {
    && (forall i: Pid :: k.pcbs[i].pid == i)
    && (forall i: Pid :: k.pcbs[i].status != RUNNING)
    && (forall i: Pid :: PcbOk(k.pcbs[i], k.clock))
  }

  lemma PicksKeeps(k: K, k': K)
    requires SchedInv(k) && Picks(k, k')
    ensures KInv(k')
  {
    forall i: Pid ensures PcbOk(k'.pcbs[i], k'.clock) { assert PcbOk(k.pcbs[i], k.clock); }
  }

  lemma SchedKeeps(k: K, k': K)
    requires SchedInv(k) && Sched(k, k')
    requires k.pcbs[k.cur].status != SLEEPING ==> k.pcbs[k.cur].wakeup <= k.clock
    ensures KInv(k')
  {
    if Picks(k, k') {
      PicksKeeps(k, k');
    } else {
      var i: Pid, t: nat :| Stumbles(k, i, t) && Picks(Fallen(k, i, t), k');
      forall j: Pid ensures PcbOk(Fallen(k, i, t).pcbs[j], t) { assert PcbOk(k.pcbs[j], k.clock); }
      PicksKeeps(Fallen(k, i, t), k');
    }
  }

  /** Every kernel entry keeps the process table in order. */
  lemma StepKeeps(k: K, e: Entry, k': K)
    requires KInv(k) && Step(k, e, k')
    ensures KInv(k')
  {
    assert PcbOk(k.pcbs[k.cur], k.clock);
    if Yields(k, e) {
      var y := Yielding(k, e);
      forall i: Pid ensures PcbOk(y.pcbs[i], y.clock) { assert PcbOk(k.pcbs[i], k.clock); }
      SchedKeeps(y, k');
    } else {
      forall i: Pid ensures PcbOk(k'.pcbs[i], k'.clock) { assert PcbOk(k.pcbs[i], k.clock); }
    }
  }
}
