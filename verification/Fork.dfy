/** sys_fork whole (kernel/syscall.c:52-69): the process table of Scheduler and the page tables of
    Paging, which has fewer tables than there are processes. */
module Fork {
  import S = Scheduler
  import P = Paging

  /** The process picked has a page table exactly when some slot that has one, other than the
      caller's, is free. */
  lemma PickedHasTable(k: S.K, n: S.Pid)
    requires S.FirstFreePid(k, n)
    ensures n < 28 <==> exists i: S.Pid :: i < 28 && i != k.cur && k.pcbs[i].status == S.FREE
  {
    if n < 28 {
      assert n != k.cur && k.pcbs[n].status == S.FREE;
    }
  }

  /** The child is the lowest free process and, at every address of the window, reads what the
      parent read; the parent reads what it did. */
  method SysFork(kernel: S.Kernel, memory: P.Memory) returns (newPid: S.Pid)
    requires S.KInv(kernel.V()) && memory.Shape() && memory.TablesOk()
    requires kernel.cur < 28 && memory.Mapped(kernel.cur)
    requires exists i: S.Pid :: i < 28 && i != kernel.cur && kernel.pcbs[i].status == S.FREE
    modifies kernel`pcbs, memory.pgdir, memory.pgtable, memory.mem
    ensures S.Step(old(kernel.V()), S.Fork, kernel.V()) && S.FirstFreePid(old(kernel.V()), newPid) && newPid < 28
    ensures memory.TablesOk() && memory.Mapped(newPid) && memory.Mapped(kernel.cur)
    ensures forall k: nat :: k < 0x40_0000 ==>
              memory.UserRead(newPid, k) == memory.UserRead(kernel.cur, k) == old(memory.UserRead(kernel.cur, k))
  {
    hide P.Memory.UserRead, P.Memory.Mapped, P.Memory.EntryOk;
    newPid := kernel.SysFork();
    PickedHasTable(old(kernel.V()), newPid);
    memory.PmapInitAndCopy(newPid, kernel.cur);
  }
}
