/** Semaphores over whole runs: permits are conserved, counting those the scheduler takes on
    behalf of sleepers, so a semaphore opened with v admits at most v holders. */
module Semaphores {
  import opened Scheduler
  import opened SchedulerRuns

  /** The process that takes a permit of s in this step, or -1: the caller at once, or the
      sleeper the scan dispatches. */
  function Taker(k: K, e: Entry, k': K, s: Sem): int {
    if Yields(k, e) then
      var p := Yielding(k, e).pcbs[k'.cur];
      if p.status == SLEEPING && p.waitSem == s then k'.cur else -1
    else if e == SemWait(s) then k.cur else -1
  }

  function Poster(k: K, e: Entry, s: Sem): int { if e == SemPost(s) then k.cur else -1 }

  predicate Resets(e: Entry, s: Sem) { (e.SemOpen? || e.SemDestroy?) && e.s == s }

  lemma PicksTakes(k: K, k': K, s: Sem)
    requires Picks(k, k')
    ensures var p := k.pcbs[k'.cur];
            && (p.status == SLEEPING && p.waitSem == s ==> k.sems[s] > 0 && k'.sems[s] == k.sems[s] - 1)
            && (!(p.status == SLEEPING && p.waitSem == s) ==> k'.sems[s] == k.sems[s])
  {
  }

  /** One step changes the count by exactly what is posted and taken in it. */
  lemma StepConserves(k: K, e: Entry, k': K, s: Sem)
    requires KInv(k) && Step(k, e, k') && !Resets(e, s)
    ensures k'.sems[s] + (if Taker(k, e, k', s) >= 0 then 1 else 0)
         == k.sems[s] + (if Poster(k, e, s) >= 0 then 1 else 0)
  {
    if Yields(k, e) {
      var y := Yielding(k, e);
      if Picks(y, k') {
        PicksTakes(y, k', s);
      } else {
        var j: Pid, t: nat :| Stumbles(y, j, t) && Picks(Fallen(y, j, t), k');
        PicksTakes(Fallen(y, j, t), k', s);
      }
    }
  }

  /** A process blocked on s runs again only in a step that takes a permit of s for it. */
  lemma WaiterPays(k: K, e: Entry, k': K, s: Sem, i: Pid)
    requires KInv(k) && Step(k, e, k') && k.pcbs[i].status == SLEEPING && k.pcbs[i].waitSem == s && k'.cur == i
    ensures k.sems[s] > 0 && Taker(k, e, k', s) == i && k'.sems[s] == k.sems[s] - 1
  {
    var y := Yielding(k, e);
    assert i != k.cur;
    if Picks(y, k') {
      PicksTakes(y, k', s);
    } else {
      var j: Pid, t: nat :| Stumbles(y, j, t) && Picks(Fallen(y, j, t), k');
      PicksTakes(Fallen(y, j, t), k', s);
    }
  }

  // ---------------------------------------------------------------- over runs

  /** Permits of s process i has taken and not posted in the first n steps. */
  function HeldBy(ks: seq<K>, es: seq<Entry>, s: Sem, i: int, n: nat): int
    requires n <= |es| < |ks|
  {
    if n == 0 then 0
    else
      HeldBy(ks, es, s, i, n - 1)
      + (if Taker(ks[n - 1], es[n - 1], ks[n], s) == i then 1 else 0)
      - (if Poster(ks[n - 1], es[n - 1], s) == i then 1 else 0)
  }

  /** Permits held by processes 0 to m - 1 together. */
  function HeldBelow(ks: seq<K>, es: seq<Entry>, s: Sem, n: nat, m: nat): int
    requires n <= |es| < |ks|
  {
    if m == 0 then 0 else HeldBelow(ks, es, s, n, m - 1) + HeldBy(ks, es, s, m - 1, n)
  }

  lemma {:induction false} HeldBelowStep(ks: seq<K>, es: seq<Entry>, s: Sem, n: nat, m: nat)
    requires 0 < n <= |es| < |ks|
    ensures var t, p := Taker(ks[n - 1], es[n - 1], ks[n], s), Poster(ks[n - 1], es[n - 1], s);
            HeldBelow(ks, es, s, n, m)
            == HeldBelow(ks, es, s, n - 1, m) + (if 0 <= t < m then 1 else 0) - (if 0 <= p < m then 1 else 0)
  {
    if m == 0 {
    } else {
      HeldBelowStep(ks, es, s, n, m - 1);
    }
  }

  lemma {:induction false} NothingHeld(ks: seq<K>, es: seq<Entry>, s: Sem, m: nat)
    requires |es| < |ks|
    ensures HeldBelow(ks, es, s, 0, m) == 0
  {
    if m == 0 {
    } else {
      NothingHeld(ks, es, s, m - 1);
    }
  }

  /** While a semaphore is neither reopened nor destroyed, its count plus the permits held is
      what it started with. */
  lemma {:induction false} Conservation(ks: seq<K>, es: seq<Entry>, s: Sem, n: nat)
    requires Run(ks, es) && n <= |es| && forall m :: 0 <= m < n ==> !Resets(es[m], s)
    ensures ks[n].sems[s] + HeldBelow(ks, es, s, n, 64) == ks[0].sems[s]
  {
    if n == 0 {
      NothingHeld(ks, es, s, 64);
    } else {
      Conservation(ks, es, s, n - 1);
      RunKeeps(ks, es, n - 1);
      StepConserves(ks[n - 1], es[n - 1], ks[n], s);
      HeldBelowStep(ks, es, s, n, 64);
    }
  }

  /** Every process posts only permits it holds. */
  ghost predicate Disciplined(ks: seq<K>, es: seq<Entry>, s: Sem)
    requires |es| < |ks|
  {
    forall n :: 0 <= n < |es| && es[n] == SemPost(s) ==> HeldBy(ks, es, s, ks[n].cur, n) > 0
  }

  lemma {:induction false} NeverNegative(ks: seq<K>, es: seq<Entry>, s: Sem, i: Pid, n: nat)
    requires |es| < |ks| && n <= |es| && Disciplined(ks, es, s)
    ensures HeldBy(ks, es, s, i, n) >= 0
  {
    if n == 0 {
    } else {
      NeverNegative(ks, es, s, i, n - 1);
    }
  }

  /** The processes below m that hold a permit after n steps. */
  ghost function HoldersBelow(ks: seq<K>, es: seq<Entry>, s: Sem, n: nat, m: nat): set<nat>
    requires n <= |es| < |ks| && m <= 64
  {
    set i: nat | 0 <= i < m && HeldBy(ks, es, s, i, n) > 0
  }

  lemma {:induction false} HoldersCount(ks: seq<K>, es: seq<Entry>, s: Sem, n: nat, m: nat)
    requires |es| < |ks| && n <= |es| && Disciplined(ks, es, s) && m <= 64
    ensures |HoldersBelow(ks, es, s, n, m)| <= HeldBelow(ks, es, s, n, m)
  {
    if m > 0 {
      HoldersCount(ks, es, s, n, m - 1);
      NeverNegative(ks, es, s, m - 1, n);
      var h := HoldersBelow(ks, es, s, n, m - 1);
      if HeldBy(ks, es, s, m - 1, n) > 0 {
        assert HoldersBelow(ks, es, s, n, m) == h + {m - 1};
      } else {
        assert HoldersBelow(ks, es, s, n, m) == h;
      }
    } else {
      assert HoldersBelow(ks, es, s, n, 0) == {};
    }
  }

  /** A semaphore opened with value v, used in wait/post pairs, never has more than v holders,
      and never more than v minus its count. */
  lemma MutualExclusion(ks: seq<K>, es: seq<Entry>, s: Sem, n: nat)
    requires Run(ks, es) && n <= |es| && Disciplined(ks, es, s)
    requires forall m :: 0 <= m < n ==> !Resets(es[m], s)
    ensures |HoldersBelow(ks, es, s, n, 64)| + ks[n].sems[s] <= ks[0].sems[s]
  {
    Conservation(ks, es, s, n);
    HoldersCount(ks, es, s, n, 64);
  }

  // ---------------------------------------------------------------- from open to destroy

  /** After sem_open(s, v) the permits held and the count make v, and at most v processes hold one. */
  lemma OpenedWith(ks: seq<K>, es: seq<Entry>, s: Sem, v: nat, n: nat)
    requires Run(ks, es) && es != [] && es[0] == SemOpen(s, v) && n < |es|
    requires forall m :: 1 <= m < |es| ==> !Resets(es[m], s)
    requires Disciplined(ks[1..], es[1..], s)
    ensures ks[n + 1].sems[s] + HeldBelow(ks[1..], es[1..], s, n, 64) == v
    ensures |HoldersBelow(ks[1..], es[1..], s, n, 64)| + ks[n + 1].sems[s] <= v
  {
    hide Step, HeldBelow, Disciplined;
    OpenSets(ks[0], s, v, ks[1]);
    StepKeeps(ks[0], es[0], ks[1]);
    Conservation(ks[1..], es[1..], s, n);
    MutualExclusion(ks[1..], es[1..], s, n);
  }

  lemma OpenSets(k: K, s: Sem, v: nat, k': K)
    requires Step(k, SemOpen(s, v), k')
    ensures k'.sems[s] == v && k'.cur == k.cur
  {
  }

  /** A wait that comes straight after sem_destroy(s) blocks its caller on s. */
  lemma DestroyedBlocks(k: K, s: Sem, k1: K, k2: K)
    requires KInv(k) && Step(k, SemDestroy(s), k1) && Step(k1, SemWait(s), k2)
    ensures k2.cur != k.cur && k2.pcbs[k.cur].status == SLEEPING && k2.pcbs[k.cur].waitSem == s
  {
    WaitBlocks(k1, s, k2);
  }

  /** A wait on an empty semaphore blocks its caller on that semaphore, and only such a wait. */
  lemma WaitBlocks(k: K, s: Sem, k': K)
    requires KInv(k) && Step(k, SemWait(s), k')
    ensures k.sems[s] == 0 ==>
              k'.cur != k.cur && k'.pcbs[k.cur].status == SLEEPING && k'.pcbs[k.cur].waitSem == s
    ensures k.sems[s] > 0 ==> k' == k.(sems := k.sems[s := k.sems[s] - 1])
  {
    if k.sems[s] == 0 {
      var y := Yielding(k, SemWait(s));
      assert Picks(y, k');
    }
  }

  /** i is asleep on s. */
  predicate BlockedOn(k: K, i: Pid, s: Sem) {
    i != k.cur && k.pcbs[i].status == SLEEPING && k.pcbs[i].waitSem == s
  }

  lemma StepBlocked(k: K, e: Entry, k': K, i: Pid, s: Sem)
    requires KInv(k) && Step(k, e, k') && BlockedOn(k, i, s)
    ensures if k'.cur == i then k.sems[s] > 0 && k'.sems[s] == k.sems[s] - 1 else BlockedOn(k', i, s)
  {
    if k'.cur == i {
      WaiterPays(k, e, k', s, i);
    } else if Yields(k, e) {
      var y := Yielding(k, e);
      if !Picks(y, k') {
        var j: Pid, t: nat :| Stumbles(y, j, t) && Picks(Fallen(y, j, t), k');
        assert k'.pcbs[i] == y.pcbs[i];
      }
    }
  }

  /** Over any run: whoever blocks in sem_wait(s) stays blocked on s until the step that dispatches
      it, and that step takes a permit of s. */
  lemma {:induction false} BlockedUntilPaid(ks: seq<K>, es: seq<Entry>, s: Sem, n: nat)
    requires Run(ks, es) && es != [] && es[0] == SemWait(s) && ks[0].sems[s] == 0 && 1 <= n <= |es|
    requires forall m :: 1 <= m < n ==> ks[m].cur != ks[0].cur
    ensures if n > 1 && ks[n].cur == ks[0].cur then ks[n - 1].sems[s] > 0 && ks[n].sems[s] == ks[n - 1].sems[s] - 1
            else BlockedOn(ks[n], ks[0].cur, s)
  {
    if n == 1 {
      WaitBlocks(ks[0], s, ks[1]);
    } else {
      BlockedUntilPaid(ks, es, s, n - 1);
      RunKeeps(ks, es, n - 1);
      StepBlocked(ks[n - 1], es[n - 1], ks[n], ks[0].cur, s);
    }
  }
}
