/** What holds over whole runs of the scheduler: it is deterministic, it always makes
    progress, nobody who is ready is passed over for long, and nobody wakes early. */
module SchedulerRuns {
  import opened Words
  import opened Scheduler

  /** ks are the states and es the kernel entries between them. */
  ghost predicate Run(ks: seq<K>, es: seq<Entry>) {
    && |ks| == |es| + 1 && KInv(ks[0])
    && forall n :: 0 <= n < |es| ==> Step(ks[n], es[n], ks[n + 1])
  }

  /** The invariant holds all along a run. */
  lemma {:induction false} RunKeeps(ks: seq<K>, es: seq<Entry>, n: nat)
    requires Run(ks, es) && n < |ks|
    ensures KInv(ks[n])
  {
    if n == 0 {
    } else {
      RunKeeps(ks, es, n - 1);
      StepKeeps(ks[n - 1], es[n - 1], ks[n]);
    }
  }

  // ---------------------------------------------------------------- determinism

  /** Scan order is a total order on the others. */
  lemma DistInjective(c: Pid, i: Pid, j: Pid)
    requires Dist(c, i) == Dist(c, j)
    ensures i == j
  {
  }

  lemma FirstStopUnique(k: K, t: nat, u: nat, i: Pid, j: Pid)
    requires t > k.clock && QuietUntil(k, t) && FirstStop(k, i, t)
    requires u > k.clock && QuietUntil(k, u) && FirstStop(k, j, u)
    ensures t == u && i == j
  {
    assert t < u ==> !Stops(k, i, t);
    assert u < t ==> !Stops(k, j, u);
    if Dist(k.cur, i) == Dist(k.cur, j) { DistInjective(k.cur, i, j); }
  }

  lemma PicksUnique(k: K, a: K, b: K)
    requires Picks(k, a) && Picks(k, b)
    ensures a == b
  {
    FirstStopUnique(k, a.clock, b.clock, a.cur, b.cur);
  }

  /** The outcome of a scan is determined by the state it starts from. */
  lemma SchedUnique(k: K, a: K, b: K)
    requires Sched(k, a) && Sched(k, b)
    ensures a == b
  {
    if Picks(k, a) && Picks(k, b) {
      PicksUnique(k, a, b);
    } else if Picks(k, a) {
      var j: Pid, u: nat :| Stumbles(k, j, u) && Picks(Fallen(k, j, u), b);
      FirstStopUnique(k, a.clock, u, a.cur, j);
    } else if Picks(k, b) {
      var i: Pid, t: nat :| Stumbles(k, i, t) && Picks(Fallen(k, i, t), a);
      FirstStopUnique(k, b.clock, t, b.cur, i);
    } else {
      var i: Pid, t: nat :| Stumbles(k, i, t) && Picks(Fallen(k, i, t), a);
      var j: Pid, u: nat :| Stumbles(k, j, u) && Picks(Fallen(k, j, u), b);
      FirstStopUnique(k, t, u, i, j);
      PicksUnique(Fallen(k, i, t), a, b);
    }
  }

  /** A kernel entry has one outcome. */
  lemma StepUnique(k: K, e: Entry, a: K, b: K)
    requires Step(k, e, a) && Step(k, e, b)
    ensures a == b
  {
    hide Sched;
    if Yields(k, e) {
      SchedUnique(Yielding(k, e), a, b);
    } else if e.Fork? {
      var n: Pid :| FirstFreePid(k, n) && a == Forked(k, n);
      var m: Pid :| FirstFreePid(k, m) && b == Forked(k, m);
      assert n == m;
    }
  }

  // ---------------------------------------------------------------- progress

  lemma QuietBound(k: K, t: nat, i: Pid)
    requires Dispatchable(k, i) && QuietUntil(k, t) && t > k.clock
    ensures t <= Max(k.clock + 1, k.pcbs[i].wakeup)
  {
    var u := Max(k.clock + 1, k.pcbs[i].wakeup);
    assert Stops(k, i, u);
  }

  /** If anyone else can become ready, the scan ends within max(1, wake-up - now) passes; an
      exiting process that stumbles over a starved waiter costs one pass more. */
  lemma Progress(k: K, e: Entry, k': K, i: Pid)
    requires KInv(k) && Yields(k, e) && Step(k, e, k') && Dispatchable(Yielding(k, e), i)
    ensures k'.clock <= Max(Yielding(k, e).clock + (if e.Exit? then 2 else 1), k.pcbs[i].wakeup)
  {
    var y := Yielding(k, e);
    if Picks(y, k') {
      QuietBound(y, k'.clock, i);
    } else {
      var j: Pid, t: nat :| Stumbles(y, j, t) && Picks(Fallen(y, j, t), k');
      assert PcbOk(k.pcbs[j], k.clock);
      assert Stops(y, j, y.clock + 1);
      assert t == y.clock + 1;
      QuietBound(Fallen(y, j, t), k'.clock, i);
    }
  }

  /** And only then: a scan that ends had someone to dispatch from the start. */
  lemma EndsOnlyIf(k: K, k': K)
    requires Sched(k, k')
    ensures exists i: Pid :: Dispatchable(k, i)
  {
    assert Dispatchable(k, k'.cur);
  }

  // ---------------------------------------------------------------- exit

  /** i waits on an empty semaphore and nobody ready comes before it in scan order. */
  ghost predicate FirstWaiter(k: K, i: Pid) {
    && i != k.cur && Starved(k, i, k.clock + 1)
    && forall j: Pid :: j != k.cur && Dist(k.cur, j) < Dist(k.cur, i) ==> !Ready(k, j, k.clock + 1)
  }

  ghost predicate WaiterFirst(k: K) { exists i: Pid :: FirstWaiter(k, i) }

  lemma {:induction false} FirstStopExists(k: K, t: nat, i: Pid, d: nat) returns (j: Pid)
    requires i != k.cur && Stops(k, i, t) && Dist(k.cur, i) <= d <= 63
    ensures FirstStop(k, j, t) && Dist(k.cur, j) <= Dist(k.cur, i)
    decreases d
  {
    if m: Pid :| m != k.cur && Stops(k, m, t) && Dist(k.cur, m) < Dist(k.cur, i) {
      j := FirstStopExists(k, t, m, Dist(k.cur, m));
    } else {
      j := i;
    }
  }

  lemma ExitStumbles(k: K, k': K)
    requires KInv(k) && Step(k, Exit, k') && WaiterFirst(k)
    ensures k'.pcbs[k.cur].status == SLEEPING
  {
    var y := Yielding(k, Exit);
    var i: Pid :| FirstWaiter(k, i);
    var j := FirstStopExists(y, y.clock + 1, i, Dist(y.cur, i));
    assert Starved(y, i, y.clock + 1) && !Ready(y, i, y.clock + 1);
    assert !Ready(y, j, y.clock + 1) by {
      if j != i {
        if Dist(k.cur, j) == Dist(k.cur, i) { DistInjective(k.cur, i, j); }
        assert !Ready(k, j, k.clock + 1);
      }
    }
    assert Stumbles(y, j, y.clock + 1);
    if Picks(y, k') { FirstStopUnique(y, k'.clock, y.clock + 1, k'.cur, j); }
  }

  lemma ExitLeaves(k: K, k': K)
    requires KInv(k) && Step(k, Exit, k') && k'.pcbs[k.cur].status != FREE
    ensures WaiterFirst(k)
  {
    var y := Yielding(k, Exit);
    var i: Pid, t: nat :| Stumbles(y, i, t) && Picks(Fallen(y, i, t), k');
    assert PcbOk(k.pcbs[i], k.clock);
    assert Stops(y, i, y.clock + 1);
    assert t == k.clock + 1;
    assert Starved(k, i, k.clock + 1);
    forall j: Pid | j != k.cur && Dist(k.cur, j) < Dist(k.cur, i) ensures !Ready(k, j, k.clock + 1) {
      assert !Stops(y, j, t);
    }
    assert FirstWaiter(k, i);
  }

  /** An exiting process is gone for good unless the scan meets a waiter on an empty semaphore
      before anyone ready; then, and only then, it is put back to sleep on that semaphore. */
  lemma ExitIffNoWaiterFirst(k: K, k': K)
    requires KInv(k) && Step(k, Exit, k')
    ensures k'.pcbs[k.cur].status == (if WaiterFirst(k) then SLEEPING else FREE)
  {
    hide Step, WaiterFirst;
    if WaiterFirst(k) { ExitStumbles(k, k'); }
    else if k'.pcbs[k.cur].status != FREE { ExitLeaves(k, k'); }
  }

  /** One tick later process i is the first the scan reacts to. */
  lemma PicksNext(k: K, i: Pid)
    requires i != k.cur && Ready(k, i, k.clock + 1)
    requires forall j: Pid :: Dist(k.cur, j) < Dist(k.cur, i) ==> !Stops(k, j, k.clock + 1)
    ensures Picks(k, Dispatch(k, i, k.clock + 1))
  {
  }

  /** A sleeper or yielding caller hands over to process i, which is ready. */
  function Handed(k: K, e: Entry, i: Pid): K
    requires Ready(Yielding(k, e), i, Yielding(k, e).clock + 1)
  {
    Dispatch(Yielding(k, e), i, Yielding(k, e).clock + 1)
  }

  lemma HandedStep(k: K, e: Entry, i: Pid)
    requires var y := Yielding(k, e);
             && Yields(k, e) && i != y.cur && Ready(y, i, y.clock + 1)
             && forall j: Pid :: Dist(y.cur, j) < Dist(y.cur, i) ==> !Stops(y, j, y.clock + 1)
    ensures Step(k, e, Handed(k, e, i))
  {
    PicksNext(Yielding(k, e), i);
  }

  function Forked2(): K { Forked(Forked(Booted(), 1), 2) }
  function OneRuns(): K { Handed(Forked2(), Sleep(0), 1) }
  function TwoRuns(): K { Handed(OneRuns(), Sleep(0), 2) }
  function TwoWaits(): K { Handed(TwoRuns(), SemWait(0), 0) }

  /** Process 1 runs, 0 is ready, and 2 waits for semaphore 0, which is empty. */
  function ThreeProcesses(): K { Handed(TwoWaits(), Sleep(0), 1) }

  lemma ThreeProcessesRun()
    ensures Run([Booted(), Forked(Booted(), 1), Forked2(), OneRuns(), TwoRuns(), TwoWaits(), ThreeProcesses()],
                [Fork, Fork, Sleep(0), Sleep(0), SemWait(0), Sleep(0)])
  {
    var k0, k1 := Booted(), Forked(Booted(), 1);
    assert FirstFreePid(k0, 1) && Step(k0, Fork, k1);
    assert FirstFreePid(k1, 2) && Step(k1, Fork, Forked2());
    HandedStep(Forked2(), Sleep(0), 1);
    HandedStep(OneRuns(), Sleep(0), 2);
    HandedStep(TwoRuns(), SemWait(0), 0);
    HandedStep(TwoWaits(), Sleep(0), 1);
  }

  lemma ThreeProcessesAre()
    ensures var k := ThreeProcesses();
            && k.cur == 1 && k.sems == [0, 0, 0]
            && k.pcbs[0].status == SLEEPING && k.pcbs[0].waitSem == -1 && k.pcbs[0].wakeup <= k.clock
            && k.pcbs[2].status == SLEEPING && k.pcbs[2].waitSem == 0 && k.pcbs[2].wakeup <= k.clock
            && forall i: Pid :: i >= 3 ==> k.pcbs[i].status == FREE
  {
  }

  /** The case is real: a run from the initial state (ThreeProcessesRun) leads to one where
      the exiting process 1 is asleep again afterwards. */
  lemma ExitRevives() returns (k': K)
    ensures var k := ThreeProcesses();
            && k.cur == 1 && FirstWaiter(k, 2) && Step(k, Exit, k')
            && k'.pcbs[1].status == SLEEPING && k'.pcbs[1].waitSem == 0
  {
    hide ThreeProcesses;
    ThreeProcessesAre();
    var k := ThreeProcesses();
    var y := Yielding(k, Exit);
    var f := Fallen(y, 2, y.clock + 1);
    PicksNext(f, 0);
    k' := Dispatch(f, 0, f.clock + 1);
    assert Stumbles(y, 2, y.clock + 1);
  }

  // ---------------------------------------------------------------- bounded bypass

  /** Ready whenever the scan next looks, and waiting for no semaphore. */
  predicate Waiting(k: K, i: Pid) {
    var p := k.pcbs[i];
    p.status == RUNNABLE || (p.status == SLEEPING && p.waitSem == -1 && p.wakeup <= k.clock)
  }

  /** A dispatch either reaches i or moves strictly closer to it in scan order. */
  lemma PicksCloser(k: K, k': K, i: Pid)
    requires Picks(k, k') && i != k.cur && Waiting(k, i) && k.pcbs[k.cur].status != RUNNABLE
    ensures k'.cur == i || (k'.cur != i && Waiting(k', i) && Dist(k'.cur, i) < Dist(k.cur, i))
  {
    assert Stops(k, i, k'.clock);
    if k'.cur != i && Dist(k.cur, k'.cur) == Dist(k.cur, i) { DistInjective(k.cur, k'.cur, i); }
  }

  lemma StepCloser(k: K, e: Entry, k': K, i: Pid)
    requires KInv(k) && Step(k, e, k') && i != k.cur && Waiting(k, i)
    ensures Yields(k, e) ==> k'.cur == i || (Waiting(k', i) && Dist(k'.cur, i) < Dist(k.cur, i))
    ensures !Yields(k, e) ==> k'.cur == k.cur && Waiting(k', i)
  {
    if Yields(k, e) {
      var y := Yielding(k, e);
      if Picks(y, k') {
        PicksCloser(y, k', i);
      } else {
        var j: Pid, t: nat :| Stumbles(y, j, t) && Picks(Fallen(y, j, t), k');
        PicksCloser(Fallen(y, j, t), k', i);
      }
    }
  }

  /** How many of the first n entries give up the processor. */
  function Switches(ks: seq<K>, es: seq<Entry>, n: nat): nat
    requires n <= |es| <= |ks|
  {
    if n == 0 then 0 else Switches(ks, es, n - 1) + if Yields(ks[n - 1], es[n - 1]) then 1 else 0
  }

  lemma {:induction false} BypassUpTo(ks: seq<K>, es: seq<Entry>, i: Pid, n: nat)
    requires Run(ks, es) && i != ks[0].cur && Waiting(ks[0], i) && n <= |es|
    requires forall m :: 0 <= m <= n ==> ks[m].cur != i
    ensures Waiting(ks[n], i) && Switches(ks, es, n) + Dist(ks[n].cur, i) <= Dist(ks[0].cur, i)
  {
    hide Waiting, Dist, Yields, KInv, Step;
    if n == 0 {
    } else {
      BypassUpTo(ks, es, i, n - 1);
      RunKeeps(ks, es, n - 1);
      StepCloser(ks[n - 1], es[n - 1], ks[n], i);
    }
  }

  /** A process that is ready and waits for no semaphore runs within Dist(current, i)
      dispatches, at most 63, whatever the processes in between do. */
  lemma BoundedBypass(ks: seq<K>, es: seq<Entry>, i: Pid)
    requires Run(ks, es) && i != ks[0].cur && Waiting(ks[0], i)
    requires Switches(ks, es, |es|) >= Dist(ks[0].cur, i)
    ensures Dist(ks[0].cur, i) <= 63
    ensures exists n :: 0 <= n < |ks| && ks[n].cur == i
  {
    if forall m :: 0 <= m <= |es| ==> ks[m].cur != i {
      BypassUpTo(ks, es, i, |es|);
      assert false;
    }
  }

  /** A preempted process is such a process right after the switch, so it runs again within
      64 dispatches of its preemption. */
  lemma PreemptedIsWaiting(k: K, k': K)
    requires KInv(k) && Preempts(k) && Step(k, Tick, k')
    ensures k'.cur != k.cur && Waiting(k', k.cur)
  {
    var y := Yielding(k, Tick);
    assert Picks(y, k');
  }

  lemma {:induction false} SwitchesShift(ks: seq<K>, es: seq<Entry>, n: nat)
    requires 0 < n <= |es| < |ks|
    ensures Switches(ks, es, n) == Switches(ks[1..], es[1..], n - 1) + (if Yields(ks[0], es[0]) then 1 else 0)
  {
    if n == 1 {
    } else {
      SwitchesShift(ks, es, n - 1);
    }
  }

  /** A caller that is ready right after it gave up the processor runs again within 64
      dispatches, its own included. */
  lemma CallerRunsAgain(ks: seq<K>, es: seq<Entry>)
    requires Run(ks, es) && es != [] && ks[1].cur != ks[0].cur && Waiting(ks[1], ks[0].cur)
    requires Switches(ks, es, |es|) >= 64
    ensures exists n :: 1 <= n < |ks| && ks[n].cur == ks[0].cur
  {
    hide Step, KInv, Waiting, Yields;
    StepKeeps(ks[0], es[0], ks[1]);
    SwitchesShift(ks, es, |es|);
    BoundedBypass(ks[1..], es[1..], ks[0].cur);
    var n :| 0 <= n < |ks[1..]| && ks[1..][n].cur == ks[0].cur;
    assert ks[n + 1].cur == ks[0].cur;
  }

  /** In particular every preempted process does. */
  lemma PreemptedRunsAgain(ks: seq<K>, es: seq<Entry>)
    requires Run(ks, es) && es != [] && es[0] == Tick && Preempts(ks[0]) && Switches(ks, es, |es|) >= 64
    ensures exists n :: 1 <= n < |ks| && ks[n].cur == ks[0].cur
  {
    PreemptedIsWaiting(ks[0], ks[1]);
    CallerRunsAgain(ks, es);
  }

  // ---------------------------------------------------------------- the time slice

  /** The n-th entry of a run is a tick that takes the processor away. */
  ghost predicate Preempting(ks: seq<K>, es: seq<Entry>, n: nat)
    requires n < |es| < |ks|
  {
    es[n] == Tick && ks[n + 1].cur != ks[n].cur
  }

  lemma StepLast(k: K, e: Entry, k': K)
    requires KInv(k) && Step(k, e, k')
    ensures e == Tick && k'.cur != k.cur ==> k'.last == k.clock + 1
    ensures !(e == Tick && k'.cur != k.cur) ==> k'.last == k.last
    ensures e == Tick ==> (k'.cur != k.cur <==> k.clock + 1 > k.last + 0x60)
  {
    if e == Tick && Preempts(k) {
      PreemptedIsWaiting(k, k');
    }
  }

  lemma {:induction false} LastKept(ks: seq<K>, es: seq<Entry>, a: nat, b: nat)
    requires Run(ks, es) && a <= b <= |es|
    requires forall m :: a <= m < b ==> !Preempting(ks, es, m)
    ensures ks[b].last == ks[a].last
  {
    if b == a {
    } else {
      LastKept(ks, es, a, b - 1);
      RunKeeps(ks, es, b - 1);
      StepLast(ks[b - 1], es[b - 1], ks[b]);
      assert !Preempting(ks, es, b - 1);
    }
  }

  /** The time slice: after a preempting tick has brought the clock to c, the next tick to preempt
      is the first that brings it past c + 0x60. */
  lemma TimeSlice(ks: seq<K>, es: seq<Entry>, a: nat, b: nat)
    requires Run(ks, es) && a < b < |es| && es[b] == Tick
    requires es[a] == Tick && ks[a + 1].cur != ks[a].cur
    requires forall m :: a < m < b && es[m] == Tick ==> ks[m + 1].cur == ks[m].cur
    ensures ks[b + 1].cur != ks[b].cur <==> ks[b].clock + 1 > (ks[a].clock + 1) + 0x60
  {
    RunKeeps(ks, es, a);
    RunKeeps(ks, es, b);
    StepLast(ks[a], es[a], ks[a + 1]);
    LastKept(ks, es, a + 1, b);
    StepLast(ks[b], es[b], ks[b + 1]);
  }

  /** From the start, the first tick to preempt is the one that brings the clock to 97 or beyond. */
  lemma FirstSlice(ks: seq<K>, es: seq<Entry>, b: nat)
    requires Run(ks, es) && ks[0] == Booted() && b < |es| && es[b] == Tick
    requires forall m :: 0 <= m < b && es[m] == Tick ==> ks[m + 1].cur == ks[m].cur
    ensures ks[b + 1].cur != ks[b].cur <==> ks[b].clock + 1 >= 97
  {
    RunKeeps(ks, es, b);
    LastKept(ks, es, 0, b);
    StepLast(ks[b], es[b], ks[b + 1]);
  }

  /** A process is charged for exactly the ticks that find it running. */
  lemma StepCharges(k: K, e: Entry, k': K, i: Pid)
    requires KInv(k) && Step(k, e, k') && !(e == Fork && k.pcbs[i].status == FREE)
    ensures k'.pcbs[i].runnedTime == k.pcbs[i].runnedTime + (if e == Tick && i == k.cur then 1 else 0)
  {
    if Yields(k, e) {
      var y := Yielding(k, e);
      if !Picks(y, k') {
        var j: Pid, t: nat :| Stumbles(y, j, t) && Picks(Fallen(y, j, t), k');
        assert k'.pcbs[i].runnedTime == y.pcbs[i].runnedTime;
      }
    }
  }

  // ---------------------------------------------------------------- sleep

  /** i is asleep until w, or w has come. */
  predicate AsleepUntil(k: K, i: Pid, w: nat) {
    k.clock >= w || (k.cur != i && k.pcbs[i].status == SLEEPING && k.pcbs[i].waitSem == -1 && k.pcbs[i].wakeup == w)
  }

  lemma PicksAsleep(k: K, k': K, i: Pid, w: nat)
    requires Picks(k, k')
    requires k.clock >= w || (k.pcbs[i].status == SLEEPING && k.pcbs[i].waitSem == -1 && k.pcbs[i].wakeup == w)
    ensures AsleepUntil(k', i, w)
  {
  }

  lemma StepAsleep(k: K, e: Entry, k': K, i: Pid, w: nat)
    requires KInv(k) && Step(k, e, k') && AsleepUntil(k, i, w)
    ensures AsleepUntil(k', i, w)
  {
    if Yields(k, e) {
      var y := Yielding(k, e);
      if Picks(y, k') {
        PicksAsleep(y, k', i, w);
      } else {
        var j: Pid, t: nat :| Stumbles(y, j, t) && Picks(Fallen(y, j, t), k');
        PicksAsleep(Fallen(y, j, t), k', i, w);
      }
    }
  }

  /** A process that calls sleep(time) does not run again before time ticks have passed. */
  lemma {:induction false} NeverEarly(ks: seq<K>, es: seq<Entry>, time: nat, n: nat)
    requires Run(ks, es) && |es| > 0 && es[0] == Sleep(time) && 1 <= n < |ks|
    ensures AsleepUntil(ks[n], ks[0].cur, ks[0].clock + time)
    ensures ks[n].cur == ks[0].cur ==> ks[n].clock >= ks[0].clock + time
  {
    if n == 1 {
      assert Picks(Slept(ks[0], time), ks[1]);
      PicksAsleep(Slept(ks[0], time), ks[1], ks[0].cur, ks[0].clock + time);
    } else {
      NeverEarly(ks, es, time, n - 1);
      RunKeeps(ks, es, n - 1);
      StepAsleep(ks[n - 1], es[n - 1], ks[n], ks[0].cur, ks[0].clock + time);
    }
  }
}
