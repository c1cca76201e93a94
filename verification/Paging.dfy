/** kernel/pmap.c: page directories and tables, the two-level translation the processor makes
    of them (32-bit paging, section 4.3 of volume 3A of the Intel SDM), and the 4 MB copy that
    fork makes through a borrowed directory entry. */
module Paging {
  import opened Words

  const NPTENTRIES: nat := 1024
  const PGSIZE: nat := 0x1000
  const PTSIZE: nat := 0x40_0000
  const KERN_MEM: nat := 0x100_0000
  const USER_VA: nat := 0x800_0000
  const USER_START: nat := 0x804_8000
  const NEW_ADDR: nat := 0x1000_0000
  const KERN_PDX: nat := 0x3C0
  const PTE_PWU: nat := 7

  /** A process with a page table of its own. */
  type Pid = p: nat | p < 28
  datatype Option<+T> = None | Some(value: T)

  function PDX(va: nat): nat { va / 0x40_0000 % 1024 }
  function PTX(va: nat): nat { va / 0x1000 % 1024 }
  function PteAddr(e: nat): nat { e / 0x1000 * 0x1000 }
  predicate Present(e: nat) { e % 2 == 1 }

  /** The three parts of a linear address are its upper ten bits, the next ten, and the lower
      twelve. */
  lemma AddressParts(va: nat)
    requires va < 0x1_0000_0000
    ensures PDX(va) < 1024 && PTX(va) < 1024
    ensures va == 0x40_0000 * PDX(va) + 0x1000 * PTX(va) + va % 0x1000
  {
    assert va / 0x1000 == 1024 * (va / 0x40_0000) + va / 0x1000 % 1024;
  }

  /** Physical address of frame k of process q's 4 MB. */
  function Frame(q: nat, k: nat): nat { KERN_MEM + q * 0x40_0000 + k * 0x1000 }

  /** The expression at kernel/pmap.c:36, with its shifts and ors. */
  function PackEntry(pid: nat, i: nat, flags: nat): nat {
    Or(Or(KERN_MEM + pid * Pow2(22), i * Pow2(12)), flags)
  }

  lemma Powers()
    ensures Pow2(12) == 0x1000 && Pow2(22) == 0x40_0000
  {
    assert Pow2(4) == 16;
    assert Pow2(8) == 256;
    assert Pow2(16) == 0x1_0000;
  }

  lemma OrBelow(m: nat, y: nat, k: nat, size: nat)
    requires size == Pow2(k) && y < size
    ensures Or(m * size, y) == m * size + y
  {
    OrAdd(m, y, k);
  }

  /** The packed bits are the sum of their parts ... */
  lemma Packed(pid: nat, i: nat, flags: nat)
    requires i < 1024 && flags < 0x1000
    ensures PackEntry(pid, i, flags) == Frame(pid, i) + flags
  {
    Powers();
    OrBelow(4 + pid, i * 0x1000, 22, 0x40_0000);
    OrBelow(1024 * (4 + pid) + i, flags, 12, 0x1000);
  }

  lemma Parts(m: nat, flags: nat)
    requires flags < 0x1000
    ensures PteAddr(0x1000 * m + flags) == 0x1000 * m && (Present(0x1000 * m + flags) <==> Present(flags))
  {
  }

  /** ... and unpack to the frame and the flags. */
  lemma Unpacked(pid: nat, i: nat, flags: nat)
    requires flags < 0x1000
    ensures PteAddr(Frame(pid, i) + flags) == Frame(pid, i) && (Present(Frame(pid, i) + flags) <==> Present(flags))
  {
    hide PteAddr, Present;
    assert Frame(pid, i) == 0x1000 * (1024 * (4 + pid) + i);
    Parts(1024 * (4 + pid) + i, flags);
  }

  /** The same for a directory entry. */
  lemma PackedDir(base: nat, flags: nat)
    requires base % 0x1000 == 0 && flags < 0x1000
    ensures Or(base, flags) == base + flags && PteAddr(base + flags) == base
    ensures Present(base + flags) <==> Present(flags)
  {
    hide Or, Pow2, PteAddr, Present;
    Powers();
    OrBelow(base / 0x1000, flags, 12, 0x1000);
    Parts(base / 0x1000, flags);
  }

  /** The process whose region an entry points into. */
  function Region(e: nat): int { e / 0x40_0000 - 4 }

  lemma RegionOf(q: nat, k: nat, flags: nat)
    requires k < 1024 && flags < 0x1000
    ensures Region(Frame(q, k) + flags) == q
  {
  }

  class Memory {
    /** Physical address of user_pgtable, page-aligned, below the user memory. */
    const tableBase: nat
    const pgdir: array2<nat>
    const pgtable: array2<nat>
    const mem: array<byte>
    /** entry_pgdir[0] and entry_pgdir[KERNBASE >> PDXSHIFT] */
    const entryLow: nat
    const entryKern: nat

    ghost predicate Shape() {
      && pgdir != pgtable
      && pgdir.Length0 == 64 && pgdir.Length1 == 1024
      && pgtable.Length0 == 28 && pgtable.Length1 == 1024
      && mem.Length == KERN_MEM + 28 * 0x40_0000
      && tableBase % 0x1000 == 0
    }

    function TablePA(p: nat): nat { tableBase + p * 0x1000 }

    /** An entry with index k maps nothing, or frame k of some process's region. */
    ghost predicate EntryOk(e: nat, k: nat) {
      e == 0 || (0 <= Region(e) < 28 && PteAddr(e) == Frame(Region(e), k))
    }

    /** Every table entry points to the frame with its own index. */
    ghost predicate TablesOk()
      requires Shape()
      reads pgtable
    {
      forall p: Pid, k :: 0 <= k < 1024 ==> EntryOk(pgtable[p, k], k)
    }

    /** Process p has its window mapped through its own table, whole. */
    ghost predicate Mapped(p: Pid)
      requires Shape()
      reads pgdir, pgtable
    {
      && TableAt(pgdir[p, 32]) == Some(p)
      && forall k :: 0 <= k < 1024 ==> Present(pgtable[p, k])
    }

    // ---------------------------------------------------------------- the processor's walk

    /** The table a directory entry points at. */
    function TableAt(pde: nat): Option<Pid> {
      var a := PteAddr(pde);
      if Present(pde) && a >= tableBase && (a - tableBase) / 0x1000 < 28 then Some((a - tableBase) / 0x1000) else None
    }

    /** Physical address of va in process p's address space; None is a page fault, or an
        address in the kernel's own tables. */
    function Walk(p: nat, va: nat): Option<nat>
      requires Shape() && p < 64
      reads pgdir, pgtable
    {
      match TableAt(pgdir[p, PDX(va)])
      case None => None
      case Some(q) =>
        var pte := pgtable[q, PTX(va)];
        if Present(pte) then Some(PteAddr(pte) + va % 0x1000) else None
    }

    /** What process p reads at va. */
    function ReadVa(p: nat, va: nat): Option<byte>
      requires Shape() && p < 64
      reads pgdir, pgtable, mem
    {
      match Walk(p, va)
      case None => None
      case Some(a) => if a < mem.Length then Some(mem[a]) else None
    }

    lemma TableAtOf(q: Pid, flags: nat)
      requires Shape() && flags < 0x1000 && Present(flags)
      ensures TableAt(Or(TablePA(q), flags)) == Some(q)
    {
      hide PteAddr, Present, Or;
      PackedDir(TablePA(q), flags);
      var offset := TablePA(q) - tableBase;
      assert offset / 0x1000 == q;
    }

    /** A byte of the 4 MB window reached through table q: the region the entry names, at the
        same offset. */
    lemma WindowWalk(p: nat, q: Pid, base: nat, k: nat)
      requires Shape() && TablesOk() && p < 64 && k < 0x40_0000 && base % 0x40_0000 == 0
      requires TableAt(pgdir[p, PDX(base)]) == Some(q) && Present(pgtable[q, k / 0x1000])
      ensures 0 <= Region(pgtable[q, k / 0x1000]) < 28
      ensures Walk(p, base + k) == Some(SourceAt(q, k))
    {
      hide TableAt;
      WindowIndex(base, k);
      assert EntryOk(pgtable[q, k / 0x1000], k / 0x1000);
    }

    static lemma WindowIndex(base: nat, k: nat)
      requires k < 0x40_0000 && base % 0x40_0000 == 0
      ensures PDX(base + k) == PDX(base) && PTX(base + k) == k / 0x1000 && (base + k) % 0x1000 == k % 0x1000
    {
      assert (base + k) / 0x40_0000 == base / 0x40_0000;
      assert (base + k) / 0x1000 == 1024 * (base / 0x40_0000) + k / 0x1000;
    }

    // ---------------------------------------------------------------- the code

    /** The zeroed tables and directories the kernel starts with. */
    constructor (tableBase: nat, entryLow: nat, entryKern: nat)
      requires tableBase % PGSIZE == 0
      ensures Shape() && TablesOk()
      ensures this.tableBase == tableBase && this.entryLow == entryLow && this.entryKern == entryKern
      ensures fresh(pgdir) && fresh(pgtable) && fresh(mem)
      ensures forall p, d :: 0 <= p < 64 && 0 <= d < 1024 ==> pgdir[p, d] == 0
      ensures forall p, k :: 0 <= p < 28 && 0 <= k < 1024 ==> pgtable[p, k] == 0
    {
      this.tableBase, this.entryLow, this.entryKern := tableBase, entryLow, entryKern;
      pgdir := new nat[64, 1024]((_, _) => 0);
      pgtable := new nat[28, 1024]((_, _) => 0);
      mem := new byte[KERN_MEM + 28 * 0x40_0000];
    }

    /** pcb_page_init: the two kernel mappings. */
    method PcbPageInit(pid: Pid)
      requires Shape()
      modifies pgdir
      ensures pgdir[pid, 0] == entryLow && pgdir[pid, 960] == entryKern
      ensures forall p, d :: 0 <= p < 64 && 0 <= d < 1024 && !(p == pid && (d == 0 || d == KERN_PDX)) ==>
                pgdir[p, d] == old(pgdir[p, d])
    {
      pgdir[pid, 0] := entryLow;
      pgdir[pid, KERN_PDX] := entryKern;
    }

    /** alloc_page: maps the 4 MB around va, through the process's own table, onto its own
        region. */
    method AllocPage(va: nat, flags: nat, pid: Pid) returns (pa: nat)
      requires Shape() && flags < 0x1000 && TablesOk()
      modifies pgdir, pgtable
      ensures TablesOk()
      ensures pa == 0x100_0000 + pid * 0x40_0000
      ensures pgdir[pid, PDX(va)] == tableBase + pid * 0x1000 + flags
      ensures Present(flags) ==> TableAt(pgdir[pid, PDX(va)]) == Some(pid)
      ensures forall k :: 0 <= k < 1024 ==>
                Region(pgtable[pid, k]) == pid && (Present(flags) ==> Present(pgtable[pid, k]))
      ensures forall p, d :: 0 <= p < 64 && 0 <= d < 1024 && !(p == pid && d == PDX(va)) ==>
                pgdir[p, d] == old(pgdir[p, d])
      ensures forall k :: 0 <= k < 1024 ==> pgtable[pid, k] == 0x100_0000 + pid * 0x40_0000 + k * 0x1000 + flags
      ensures forall p, k :: 0 <= p < 28 && 0 <= k < 1024 && p != pid ==> pgtable[p, k] == old(pgtable[p, k])
    {
      hide Or, PackEntry, PteAddr, Region, TableAt, Present, EntryOk;
      PackedDir(TablePA(pid), flags);
      if Present(flags) { TableAtOf(pid, flags); }
      pgdir[pid, PDX(va)] := Or(TablePA(pid), flags);
      var i := 0;
      while i < NPTENTRIES
        invariant 0 <= i <= 1024
        invariant forall k :: 0 <= k < i ==> pgtable[pid, k] == Frame(pid, k) + flags
        invariant forall k :: 0 <= k < i ==> EntryOk(pgtable[pid, k], k) && Region(pgtable[pid, k]) == pid
        invariant forall k :: 0 <= k < i ==> Present(flags) ==> Present(pgtable[pid, k])
        invariant forall p, k :: 0 <= p < 28 && 0 <= k < 1024 && p != pid ==> pgtable[p, k] == old(pgtable[p, k])
        modifies pgtable
      {
        Packed(pid, i, flags);
        EntryOf(pid, i, flags);
        pgtable[pid, i] := PackEntry(pid, i, flags);
        i := i + 1;
      }
      assert TablesOk() by {
        forall p: Pid, k | 0 <= k < 1024 ensures EntryOk(pgtable[p, k], k) {
          assert p != pid ==> EntryOk(old(pgtable[p, k]), k);
        }
      }
      pa := KERN_MEM + pid * 0x40_0000;
    }

    lemma EntryOf(q: Pid, k: nat, flags: nat)
      requires k < 1024 && flags < 0x1000
      ensures EntryOk(Frame(q, k) + flags, k) && Region(Frame(q, k) + flags) == q
      ensures Present(flags) ==> Present(Frame(q, k) + flags)
    {
      hide PteAddr, Present, Region;
      RegionOf(q, k, flags);
      Unpacked(q, k, flags);
    }

    /** Where byte k of table r's window lies. */
    function SourceAt(r: Pid, k: nat): (a: nat)
      requires Shape() && TablesOk() && k < 0x40_0000 && Present(pgtable[r, k / 0x1000])
      reads pgtable
      ensures a < mem.Length
    {
      assert EntryOk(pgtable[r, k / 0x1000], k / 0x1000);
      Frame(Region(pgtable[r, k / 0x1000]), 0) + k
    }

    /** The two addresses of one step of the copy; the byte read is not among those already
        written. */
    lemma CopyStep(p: nat, to: nat, from: nat, q: Pid, r: Pid, k: nat)
      requires Shape() && TablesOk() && p < 64 && k < 0x40_0000
      requires to % 0x40_0000 == 0 && from % 0x40_0000 == 0
      requires TableAt(pgdir[p, PDX(to)]) == Some(q) && TableAt(pgdir[p, PDX(from)]) == Some(r)
      requires Present(pgtable[q, k / 0x1000]) && Region(pgtable[q, k / 0x1000]) == q && Present(pgtable[r, k / 0x1000])
      ensures Walk(p, from + k) == Some(SourceAt(r, k)) && Walk(p, to + k) == Some(Frame(q, 0) + k)
      ensures !(Frame(q, 0) <= SourceAt(r, k) < Frame(q, 0) + k)
    {
      hide Walk, Region, PDX, PTX, TableAt, Present;
      WindowWalk(p, r, from, k);
      WindowWalk(p, q, to, k);
      NotYetWritten(Region(pgtable[r, k / 0x1000]), q, k);
    }

    /** memcpy between two windows of process p: table q under base `to`, table r under base
        `from`. Table q maps q's own region straight through, so a byte can only be overwritten
        after it has been read, or by itself. */
    method CopyWindow(p: nat, to: nat, from: nat, ghost q: Pid, ghost r: Pid)
      requires Shape() && TablesOk() && p < 64
      requires to % 0x40_0000 == 0 && from % 0x40_0000 == 0
      requires TableAt(pgdir[p, PDX(to)]) == Some(q) && TableAt(pgdir[p, PDX(from)]) == Some(r)
      requires forall k :: 0 <= k < 1024 ==> Present(pgtable[q, k]) && Region(pgtable[q, k]) == q
      requires forall k :: 0 <= k < 1024 ==> Present(pgtable[r, k])
      modifies mem
      ensures forall a :: Frame(q, 0) <= a < Frame(q, 0) + 0x40_0000 ==>
                mem[a] == old(mem[SourceAt(r, a - Frame(q, 0))])
      ensures forall a :: 0 <= a < mem.Length && !(Frame(q, 0) <= a < Frame(q, 0) + 0x40_0000) ==> mem[a] == old(mem[a])
    {
      hide Walk, Region, TableAt, Present;
      var k := 0;
      while k < PTSIZE
        invariant 0 <= k <= 0x40_0000
        invariant forall a :: Frame(q, 0) <= a < Frame(q, 0) + k ==> mem[a] == old(mem[SourceAt(r, a - Frame(q, 0))])
        invariant forall a :: 0 <= a < mem.Length && !(Frame(q, 0) <= a < Frame(q, 0) + k) ==> mem[a] == old(mem[a])
      {
        CopyStep(p, to, from, q, r, k);
        var src, dst := Walk(p, from + k), Walk(p, to + k);
        mem[dst.value] := mem[src.value];
        k := k + 1;
      }
    }

    /** Where byte k of process p's window lies, and what p reads there. */
    function UserWalk(p: Pid, k: nat): Option<nat>
      requires Shape()
      reads pgdir, pgtable
    {
      Walk(p, USER_VA + k)
    }

    function UserRead(p: Pid, k: nat): Option<byte>
      requires Shape()
      reads pgdir, pgtable, mem
    {
      ReadVa(p, USER_VA + k)
    }

    lemma WindowRead(p: Pid, k: nat)
      requires Shape() && TablesOk() && Mapped(p) && k < 0x40_0000
      ensures UserWalk(p, k) == Some(SourceAt(p, k))
      ensures UserRead(p, k) == Some(mem[SourceAt(p, k)])
    {
      WindowWalk(p, p, USER_VA, k);
    }

    /** Every mapped process reaches its window through its own table. */
    ghost predicate ReadsThrough()
      requires Shape() && TablesOk()
      reads pgdir, pgtable, mem
    {
      forall p: Pid, k: nat :: Mapped(p) && k < 0x40_0000 ==>
        UserRead(p, k) == Some(mem[SourceAt(p, k)]) && UserWalk(p, k) == Some(SourceAt(p, k))
    }

    /** Every byte that a mapped process reaches in its window lies in the user memory: above the
        kernel's 16 MB and below the end of the 128 MB there are. */
    lemma InUserMemory(p: Pid, va: nat)
      requires Shape() && TablesOk() && Mapped(p) && 0x800_0000 <= va < 0x840_0000
      ensures Walk(p, va).Some? && 0x100_0000 <= Walk(p, va).value < 0x800_0000
    {
      hide Walk, TableAt, Present;
      WindowWalk(p, p, USER_VA, va - 0x800_0000);
    }

    /** A window whose every entry names its own process lies in that process's 4 MB, in order. */
    lemma OwnWindow(p: Pid, va: nat)
      requires Shape() && TablesOk() && Mapped(p) && 0x800_0000 <= va < 0x840_0000
      requires forall k :: 0 <= k < 1024 ==> Region(pgtable[p, k]) == p
      ensures Walk(p, va) == Some(0x100_0000 + p * 0x40_0000 + (va - 0x800_0000))
    {
      hide Walk, TableAt, Present, Region;
      WindowWalk(p, p, USER_VA, va - 0x800_0000);
    }

    lemma AllReads()
      requires Shape() && TablesOk()
      ensures ReadsThrough()
    {
      forall p: Pid, k: nat | Mapped(p) && k < 0x40_0000
        ensures UserRead(p, k) == Some(mem[SourceAt(p, k)]) && UserWalk(p, k) == Some(SourceAt(p, k))
      {
        WindowRead(p, k);
      }
    }

    /** The directory entries that fork writes: four of the child's and parent's. */
    predicate EntryTouched(dest: Pid, src: Pid, p: nat, d: nat) {
      || (p == dest && (d == 0 || d == 960 || d == 32))
      || (p == src && d == 64)
    }

    /** A page in another process's region is not among those the copy writes. */
    lemma OtherRegion(e: nat, q: Pid, k: nat)
      requires k < 0x40_0000 && Present(e) && EntryOk(e, k / 0x1000)
      ensures 0 <= Region(e) < 28
      ensures Region(e) != q ==> !(Frame(q, 0) <= Frame(Region(e), 0) + k < Frame(q, 0) + 0x40_0000)
    {
    }

    /** What the child and the others read once the child's table maps its own region and the
        parent's bytes have been copied there. */
    twostate lemma CopyOutcome(new dest: Pid, new src: Pid)
      requires Shape() && dest != src
      requires old(TablesOk())
      requires old(Mapped(src))
      requires TablesOk()
      requires old(ReadsThrough())
      requires TableAt(pgdir[dest, 32]) == Some(dest)
      requires forall p: Pid :: p != dest ==> pgdir[p, 32] == old(pgdir[p, 32])
      requires forall k :: 0 <= k < 1024 ==> Present(pgtable[dest, k]) && Region(pgtable[dest, k]) == dest
      requires forall p, k :: 0 <= p < 28 && 0 <= k < 1024 && p != dest ==> pgtable[p, k] == old(pgtable[p, k])
      requires forall a :: Frame(dest, 0) <= a < Frame(dest, 0) + 0x40_0000 ==>
                 mem[a] == old(mem[SourceAt(src, a - Frame(dest, 0))])
      requires forall a :: 0 <= a < mem.Length && !(Frame(dest, 0) <= a < Frame(dest, 0) + 0x40_0000) ==>
                mem[a] == old(mem[a])
      ensures Mapped(dest) && forall p: Pid :: p != dest && old(Mapped(p)) ==> Mapped(p)
      ensures forall k: nat :: k < 0x40_0000 ==> UserWalk(dest, k) == Some(0x100_0000 + dest * 0x40_0000 + k)
      ensures forall k: nat :: k < 0x40_0000 ==> UserRead(dest, k) == old(UserRead(src, k))
      ensures forall p: Pid, k: nat :: p != dest && old(Mapped(p)) && k < 0x40_0000 ==>
                UserRead(p, k) ==
                if Region(old(pgtable[p, k / 0x1000])) == dest then old(UserRead(src, k)) else old(UserRead(p, k))
    {
      hide UserRead, UserWalk, Walk, ReadVa, Region, TableAt, Present, EntryOk;
      assert Mapped(dest) && forall p: Pid :: p != dest && old(Mapped(p)) ==> Mapped(p);
      forall k: nat | k < 0x40_0000
        ensures UserRead(dest, k) == old(UserRead(src, k))
        ensures UserWalk(dest, k) == Some(0x100_0000 + dest * 0x40_0000 + k)
      {
        WindowRead(dest, k);
        assert Region(pgtable[dest, k / 0x1000]) == dest;
      }
      forall p: Pid, k: nat | p != dest && old(Mapped(p)) && k < 0x40_0000
        ensures UserRead(p, k) ==
                if Region(old(pgtable[p, k / 0x1000])) == dest then old(UserRead(src, k)) else old(UserRead(p, k))
      {
        WindowRead(p, k);
        OtherRegion(pgtable[p, k / 0x1000], dest, k);
      }
    }

    /** kernel/pmap.c:49-54: the child's directory and table, also borrowed into the parent's
        directory. */
    method PrepareChild(dest: Pid, src: Pid)
      requires Shape() && TablesOk() && dest != src
      modifies pgdir, pgtable
      ensures TablesOk() && Mapped(dest)
      ensures TableAt(pgdir[dest, 32]) == Some(dest) && TableAt(pgdir[src, 64]) == Some(dest)
      ensures pgdir[dest, 0] == entryLow && pgdir[dest, 960] == entryKern
      ensures pgdir[dest, 32] == tableBase + dest * 0x1000 + 7
      ensures forall k :: 0 <= k < 1024 ==> pgtable[dest, k] == 0x100_0000 + dest * 0x40_0000 + k * 0x1000 + 7
      ensures forall k :: 0 <= k < 1024 ==> Present(pgtable[dest, k]) && Region(pgtable[dest, k]) == dest
      ensures forall p, d :: 0 <= p < 64 && 0 <= d < 1024 && !EntryTouched(dest, src, p, d) ==>
                pgdir[p, d] == old(pgdir[p, d])
      ensures forall p, k :: 0 <= p < 28 && 0 <= k < 1024 && p != dest ==> pgtable[p, k] == old(pgtable[p, k])
    {
      assert Present(PTE_PWU) && PDX(USER_VA) == 32 && PDX(NEW_ADDR) == 64;
      hide Region, Or, TableAt, TablePA, Present, EntryOk, PDX;
      PcbPageInit(dest);
      var _ := AllocPage(USER_VA, PTE_PWU, dest);
      TableAtOf(dest, PTE_PWU);
      pgdir[src, PDX(NEW_ADDR)] := Or(TablePA(dest), PTE_PWU);
    }

    /** pmap_init_and_copy, run by the parent: gives the child an exact copy of the parent's
        4 MB. Every other mapped process, the parent included, reads what it read before,
        except that a page it shares with the child's region now reads as the parent's page. */
    method PmapInitAndCopy(dest: Pid, src: Pid)
      requires Shape() && TablesOk() && Mapped(src) && dest != src
      modifies pgdir, pgtable, mem
      ensures TablesOk() && Mapped(dest) && pgdir[src, 64] == 0
      ensures pgdir[dest, 0] == entryLow && pgdir[dest, 960] == entryKern
      ensures pgdir[dest, 32] == tableBase + dest * 0x1000 + 7
      ensures forall k :: 0 <= k < 1024 ==> pgtable[dest, k] == 0x100_0000 + dest * 0x40_0000 + k * 0x1000 + 7
      ensures forall k: nat :: k < 0x40_0000 ==> UserWalk(dest, k) == Some(0x100_0000 + dest * 0x40_0000 + k)
      ensures forall p, d :: 0 <= p < 64 && 0 <= d < 1024 && !EntryTouched(dest, src, p, d) ==>
                pgdir[p, d] == old(pgdir[p, d])
      ensures forall p, k :: 0 <= p < 28 && 0 <= k < 1024 && p != dest ==> pgtable[p, k] == old(pgtable[p, k])
      ensures forall a :: 0 <= a < mem.Length && !(Frame(dest, 0) <= a < Frame(dest, 0) + 0x40_0000) ==>
                mem[a] == old(mem[a])
      ensures forall k: nat :: k < 0x40_0000 ==> UserRead(dest, k) == old(UserRead(src, k))
      ensures forall p: Pid :: p != dest && old(Mapped(p)) ==> Mapped(p)
      ensures forall p: Pid, k: nat :: p != dest && old(Mapped(p)) && k < 0x40_0000 ==>
                UserRead(p, k) ==
                if Region(old(pgtable[p, k / 0x1000])) == dest then old(UserRead(src, k)) else old(UserRead(p, k))
    {
      hide UserRead, UserWalk, Walk, ReadVa, Region, ReadsThrough, TableAt, Present, EntryOk;
      AllReads();
      PrepareChild(dest, src);
      CopyWindow(src, NEW_ADDR, USER_VA, dest, src);
      pgdir[src, PDX(NEW_ADDR)] := 0;
      CopyOutcome(dest, src);
    }

    /** pmap_copy_one_page: from here on dest reaches src's page at va, and nothing else of any
        process moves. */
    method PmapCopyOnePage(dest: Pid, src: Pid, va: nat)
      requires Shape() && TablesOk() && va % PGSIZE == 0
      modifies pgtable
      ensures TablesOk()
      ensures pgtable[dest, PTX(va)] == old(pgtable[src, PTX(va)])
      ensures forall p, k :: 0 <= p < 28 && 0 <= k < 1024 && !(p == dest && k == PTX(va)) ==>
                pgtable[p, k] == old(pgtable[p, k])
      ensures forall p: Pid :: old(Mapped(p)) && (p == dest ==> old(Mapped(src))) ==> Mapped(p)
      ensures old(Mapped(dest)) && old(Mapped(src)) ==> forall k: nat :: k < 0x40_0000 && k / 0x1000 == PTX(va) ==>
                UserWalk(dest, k) == UserWalk(src, k) == old(UserWalk(src, k))
      ensures forall p: Pid, k: nat :: old(Mapped(p)) && (p == dest ==> old(Mapped(src))) && k < 0x40_0000
                                       && !(p == dest && k / 0x1000 == PTX(va)) ==>
                UserWalk(p, k) == old(UserWalk(p, k))
    {
      hide UserRead, UserWalk, Walk, ReadVa, Region, TableAt, Present, EntryOk;
      AllReads();
      pgtable[dest, PTX(va)] := pgtable[src, PTX(va)];
      assert TablesOk();
      AllReads();
    }

    /** The boot processor's part of this: process 0 gets its window (kernel/init.c:24-26). */
    method MapFirst()
      requires Shape() && TablesOk()
      modifies pgdir, pgtable
      ensures TablesOk() && Mapped(0)
      ensures forall k :: 0 <= k < 1024 ==> pgtable[0, k] == 0x100_0000 + k * 0x1000 + 7
      ensures forall va: nat :: 0x800_0000 <= va < 0x840_0000 ==> Walk(0, va) == Some(0x100_0000 + (va - 0x800_0000))
    {
      assert Present(PTE_PWU);
      hide TableAt, Present, EntryOk, Walk, Region;
      PcbPageInit(0);
      var _ := AllocPage(USER_START, PTE_PWU, 0);
      forall va: nat | 0x800_0000 <= va < 0x840_0000 ensures Walk(0, va) == Some(0x100_0000 + (va - 0x800_0000)) {
        OwnWindow(0, va);
      }
    }

    /** From boot on, over any sequence of forks and page sharings: the tables stay in order,
        and whoever has its window keeps it, unless it takes over a page from a process that
        has none. */
    method Serve(calls: seq<PageCall>, ghost start: set<Pid>)
      requires Shape() && TablesOk() && (forall p :: p in start ==> Mapped(p)) && CallsOk(start, calls)
      modifies pgdir, pgtable, mem
      ensures TablesOk() && forall p :: p in MappedAfter(start, calls) ==> Mapped(p)
    {
      hide Mapped, EntryOk, UserRead, UserWalk;
      var n := 0;
      while n < |calls|
        invariant 0 <= n <= |calls| && TablesOk() && CallsOk(start, calls[..n])
        invariant forall p :: p in MappedAfter(start, calls[..n]) ==> Mapped(p)
        decreases |calls| - n
      {
        CallsPrefix(start, calls, n + 1);
        assert calls[..n + 1][..n] == calls[..n];
        match calls[n] {
          case Fork(dest, src) => PmapInitAndCopy(dest, src);
          case Share(dest, src, va) => PmapCopyOnePage(dest, src, va);
        }
        n := n + 1;
      }
      assert calls[..n] == calls;
    }
  }

  /** The kernel's tables from power-on through any such sequence. */
  method FromBoot(tableBase: nat, entryLow: nat, entryKern: nat, calls: seq<PageCall>) returns (m: Memory)
    requires tableBase % PGSIZE == 0 && CallsOk({0}, calls)
    ensures m.Shape() && m.TablesOk() && forall p :: p in MappedAfter({0}, calls) ==> m.Mapped(p)
    ensures forall p, va: nat :: p in MappedAfter({0}, calls) && 0x800_0000 <= va < 0x840_0000 ==>
              m.Walk(p, va).Some? && 0x100_0000 <= m.Walk(p, va).value < 0x800_0000
  {
    hide Memory.Mapped, Memory.Walk;
    m := new Memory(tableBase, entryLow, entryKern);
    m.MapFirst();
    m.Serve(calls, {0});
    forall p, va: nat | p in MappedAfter({0}, calls) && 0x800_0000 <= va < 0x840_0000
      ensures m.Walk(p, va).Some? && 0x100_0000 <= m.Walk(p, va).value < 0x800_0000
    {
      m.InUserMemory(p, va);
    }
  }

  /** The system calls that reach the tables (kernel/syscall.c:64, 76). */
  datatype PageCall = Fork(dest: Pid, src: Pid) | Share(dest: Pid, src: Pid, va: nat)

  /** Who has a whole window after one more call. */
  ghost function MappedBy(m: set<Pid>, c: PageCall): set<Pid> {
    match c
    case Fork(dest, _) => m + {dest}
    case Share(dest, src, _) => if src in m then m else m - {dest}
  }

  ghost function MappedAfter(m: set<Pid>, calls: seq<PageCall>): set<Pid> {
    if calls == [] then m else MappedBy(MappedAfter(m, calls[..|calls| - 1]), calls[|calls| - 1])
  }

  /** A process that forks has its window, and its child another slot; shared addresses are
      page-aligned. */
  ghost predicate CallOk(m: set<Pid>, c: PageCall) {
    match c
    case Fork(dest, src) => dest != src && src in m
    case Share(_, _, va) => va % PGSIZE == 0
  }

  ghost predicate CallsOk(m: set<Pid>, calls: seq<PageCall>) {
    calls == [] ||
    (CallsOk(m, calls[..|calls| - 1]) && CallOk(MappedAfter(m, calls[..|calls| - 1]), calls[|calls| - 1]))
  }

  lemma {:induction false} CallsPrefix(m: set<Pid>, calls: seq<PageCall>, n: nat)
    requires n <= |calls| && CallsOk(m, calls)
    ensures CallsOk(m, calls[..n])
    decreases |calls|
  {
    if n == |calls| {
      assert calls[..n] == calls;
    } else {
      CallsPrefix(m, calls[..|calls| - 1], n);
      assert calls[..|calls| - 1][..n] == calls[..n];
    }
  }

  /** When every sharing process has its own window, nobody ever loses one. */
  lemma {:induction false} NobodyLoses(m: set<Pid>, calls: seq<PageCall>)
    requires forall n :: 0 <= n < |calls| && calls[n].Share? ==> calls[n].src in m
    ensures m <= MappedAfter(m, calls)
  {
    if calls == [] {
    } else {
      NobodyLoses(m, calls[..|calls| - 1]);
    }
  }

  /** Byte k of any region is not among the first k bytes of region q. */
  lemma NotYetWritten(r: nat, q: nat, k: nat)
    requires k < 0x40_0000
    ensures !(Frame(q, 0) <= Frame(r, 0) + k < Frame(q, 0) + k)
  {
  }
}
