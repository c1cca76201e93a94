/** Whole runs of file system calls: what every call keeps, what no run can change, and how
    splitting transfers into pieces makes no difference. */
module FsRuns {
  import opened Words
  import opened CString
  import opened FsLayout
  import opened FsSpec
  import opened FsInv
  import opened FsAbs

  datatype Call =
    | CallOpen(path: Path, flags: int)
    | CallRead(fd: int, len: int)
    | CallWrite(fd: int, data: seq<byte>)
    | CallSeek(fd: int, offset: int, whence: int)
    | CallClose(fd: int)

  ghost predicate Allowed(s: Fs, c: Call) {
    match c
    case CallOpen(path, flags) => MayOpen(s, path, flags)
    case CallRead(fd, _) => IsOpen(s, fd)
    case CallWrite(fd, data) => MayWrite(s, fd, data)
    case CallSeek(fd, offset, whence) =>
      && IsOpen(s, fd) && 0 <= whence <= 2
      && (whence != SEEK_SET ==> SeekSafe(s, fd, SeekTarget(s, fd, offset, whence)))
    case CallClose(fd) => IsOpen(s, fd)
  }

  ghost function Step(s: Fs, c: Call): Fs
    requires Allowed(s, c)
  {
    match c
    case CallOpen(path, flags) => OpenOp(s, path, flags).0
    case CallRead(fd, len) => ReadOp(s, fd, len).0
    case CallWrite(fd, data) => WriteOp(s, fd, data)
    case CallSeek(fd, offset, whence) =>
      if whence == SEEK_SET then RewindOp(s, fd) else SeekOp(s, fd, SeekTarget(s, fd, offset, whence))
    case CallClose(fd) => CloseOp(s, fd)
  }

  /** Every call of the run respects what its callers must. */
  ghost predicate RunOk(s: Fs, run: seq<Call>)
    decreases |run|
  {
    run == [] || (Allowed(s, run[0]) && RunOk(Step(s, run[0]), run[1..]))
  }

  ghost function After(s: Fs, run: seq<Call>): Fs
    requires RunOk(s, run)
    decreases |run|
  {
    if run == [] then s else After(Step(s, run[0]), run[1..])
  }

  // ---------------------------------------------------------------- what every call keeps

  /** Names are stored forms of nonempty paths. */
  ghost predicate NamesOk(files: FileTable) {
    && (forall i: Slot :: files[i].File? ==> files[i].name[0] != 0 && Padded(files[i].name))
    && (forall i: Slot, k: Slot :: i != k && files[i].File? && files[k].File? ==> files[i].name != files[k].name)
  }

  /** Every cursor lies in its file, and a descriptor with unwritten changes is alone. */
  ghost predicate DescsOk(s: Fs) {
    && (forall j :: IsOpen(s, j) ==> Writable(s, j))
    && (forall j :: IsOpen(s, j) && s.descs[j].written ==> Sole(s, j))
  }

  ghost predicate Wf(s: Fs) { NamesOk(s.files) && DescsOk(s) }

  /** Every state the concrete file system can be in is well formed. */
  lemma ConcreteWf(S: Sys, G: Ghosts)
    requires Inv(S, G)
    ensures Wf(Abs(S, G))
  {
    hide Core, SizesOk, PositionsOk;
    var s := Abs(S, G);
    NamesView(S, G);
    forall j | IsOpen(s, j) ensures Writable(s, j) && (s.descs[j].written ==> Sole(s, j)) {
      OpenView(S, G, j);
      if s.descs[j].written {
        OthersElsewhere(S, G, j);
        forall k | IsOpen(s, k) && s.descs[k].slot == s.descs[j].slot ensures k == j {
          assert s.descs[k] == AbsDesc(S.pool[k], G.holder[S.pool[k].index] == k);
        }
      }
    }
  }

  lemma NamesView(S: Sys, G: Ghosts)
    requires Inv(S, G)
    ensures NamesOk(Abs(S, G).files)
  {
    hide OwnerOk, BitmapOk, DiskOk, FdOk, HolderOk, SizesOk, PositionsOk, FlagsOk;
    forall i: Slot | Abs(S, G).files[i].File?
      ensures Abs(S, G).files[i].name[0] != 0 && Padded(Abs(S, G).files[i].name)
    {
      assert EntryOk(S.dir[i], G.files[i]);
    }
  }

  /** Opening descriptor j on an occupied slot, perhaps just named, keeps every cursor and
      every lone writer in order. */
  lemma OpenedDescs(s: Fs, s': Fs, j: nat, i: Slot)
    requires DescsOk(s) && j < 1024 && s.descs[j].Closed?
    requires s'.descs == s.descs[j := s'.descs[j]]
    requires s'.descs[j].Open? ==> s'.descs[j].slot == i && s'.descs[j].offset == 0 && !s'.descs[j].written
                                   && s'.files[i].File? && (s'.files == s.files ==> Quiet(s, i))
    requires s'.files == s.files || (s.files[i].NoFile? && s'.files == s.files[i := s'.files[i]])
    ensures DescsOk(s')
  {
    forall k | IsOpen(s', k) ensures Writable(s', k) && (s'.descs[k].written ==> Sole(s', k)) {
      if k != j {
        assert IsOpen(s, k) && Writable(s, k);
        if s.descs[k].written {
          assert Sole(s, k);
          forall m | IsOpen(s', m) && s'.descs[m].slot == s'.descs[k].slot ensures m == k {
            if m != j { assert IsOpen(s, m); }
          }
        }
      }
    }
  }

  lemma OpenKeeps(s: Fs, path: Path, flags: int)
    requires Wf(s) && MayOpen(s, path, flags)
    ensures Wf(OpenOp(s, path, flags).0)
  {
    hide ClosedIn, SlotIn, FreeIn, NameForm, NamesOk, DescsOk;
    if !EmptyPath(path) {
      var name := NameForm(path.bytes, 24);
      var s', i, j := OpenOp(s, path, flags).0, SlotOf(s, name), FirstClosed(s);
      if i >= 0 && j >= 0 {
        OpenedDescs(s, s', j, i);
      } else if Creat(flags) && FirstFree(s) >= 0 && j >= 0 {
        OpenedDescs(s, s', j, FirstFree(s));
        NewName(s.files, path.bytes);
      }
    }
  }

  lemma NewName(files: FileTable, p: seq<byte>)
    requires NamesOk(files) && p != [] && p[0] != 0 && FreeIn(files) >= 0 && SlotIn(files, NameForm(p, 24)) < 0
    ensures NamesOk(files[FreeIn(files) := File(NameForm(p, 24), [])])
  {
    var name := NameForm(p, 24);
    NameHead(p);
    hide NameForm;
    assert forall k: Slot :: files[k].File? ==> !Named(files[k], name);
  }

  lemma MoveKeeps(s: Fs, s': Fs, fd: int)
    requires Wf(s) && IsOpen(s, fd) && s'.descs == s.descs[fd := s'.descs[fd]]
    requires forall i: Slot :: i != s.descs[fd].slot ==> s'.files[i] == s.files[i]
    requires var i := s.descs[fd].slot; s.files[i].File? && s'.files[i].File? && s'.files[i].name == s.files[i].name
    requires s'.descs[fd].Open? ==> s'.descs[fd].slot == s.descs[fd].slot && Writable(s', fd)
    requires s'.descs[fd].Open? && s'.descs[fd].written ==> Sole(s, fd)
    requires s'.files == s.files || Sole(s, fd)
    ensures Wf(s')
  {
    assert NamesOk(s'.files) by {
      forall i: Slot
        ensures s'.files[i].File? == s.files[i].File?
        ensures s.files[i].File? ==> s'.files[i].name == s.files[i].name
      {
      }
    }
    forall j | IsOpen(s', j) ensures Writable(s', j) && (s'.descs[j].written ==> Sole(s', j)) {
      if j != fd {
        assert IsOpen(s, j) && Writable(s, j);
      }
      if s'.descs[j].written {
        assert Sole(s, j);
        forall k | IsOpen(s', k) && s'.descs[k].slot == s'.descs[j].slot ensures k == j { assert IsOpen(s, k); }
      }
    }
  }

  /** Every allowed call keeps the state well formed. */
  lemma StepKeeps(s: Fs, c: Call)
    requires Wf(s) && Allowed(s, c)
    ensures Wf(Step(s, c))
  {
    hide NamesOk, MayOpen, OpenOp, BlocksTaken;
    match c
    case CallOpen(path, flags) => OpenKeeps(s, path, flags);
    case CallRead(fd, len) =>
      assert Writable(s, fd);
      if Step(s, c) != s { MoveKeeps(s, Step(s, c), fd); }
    case CallWrite(fd, data) => MoveKeeps(s, Step(s, c), fd);
    case CallSeek(fd, _, _) =>
      assert Writable(s, fd);
      MoveKeeps(s, Step(s, c), fd);
    case CallClose(fd) =>
      assert Writable(s, fd);
      MoveKeeps(s, Step(s, c), fd);
  }

  // ---------------------------------------------------------------- names

  /** A name, once given, stays, and a free slot is the only thing a call can fill. */
  lemma StepNames(s: Fs, c: Call, i: Slot)
    requires Wf(s) && Allowed(s, c) && s.files[i].File?
    ensures Step(s, c).files[i].File? && Step(s, c).files[i].name == s.files[i].name
  {
    hide NamesOk, NameForm, BlocksTaken, SlotIn, ClosedIn;
    if c.CallWrite? { assert Writable(s, c.fd); }
  }

  /** Over any run a file keeps its slot and its name, and looking the name up finds it. */
  lemma {:induction false} FoundAgain(s: Fs, run: seq<Call>, i: Slot)
    requires Wf(s) && RunOk(s, run) && s.files[i].File?
    ensures var t := After(s, run);
            && Wf(t) && t.files[i].File? && t.files[i].name == s.files[i].name
            && SlotOf(t, s.files[i].name) == i
    decreases |run|
  {
    if run == [] {
      assert Named(s.files[i], s.files[i].name);
      UniqueName(s, i);
    } else {
      StepKeeps(s, run[0]);
      StepNames(s, run[0], i);
      FoundAgain(Step(s, run[0]), run[1..], i);
    }
  }

  lemma UniqueName(s: Fs, i: Slot)
    requires NamesOk(s.files) && s.files[i].File?
    ensures SlotOf(s, s.files[i].name) == i
  {
    var r := SlotOf(s, s.files[i].name);
    assert Named(s.files[i], s.files[i].name);
    assert r >= 0;
    var k: Slot := r;
    assert Named(s.files[k], s.files[i].name);
  }

  // ---------------------------------------------------------------- isolation

  /** The call writes through a descriptor that is open on slot i. */
  predicate WritesTo(s: Fs, c: Call, i: Slot) {
    c.CallWrite? && IsOpen(s, c.fd) && s.descs[c.fd].slot == i
  }

  ghost predicate NeverWrites(s: Fs, run: seq<Call>, i: Slot)
    requires RunOk(s, run)
    decreases |run|
  {
    run == [] || (!WritesTo(s, run[0], i) && NeverWrites(Step(s, run[0]), run[1..], i))
  }

  lemma StepIsolated(s: Fs, c: Call, i: Slot)
    requires Allowed(s, c) && s.files[i].File? && !WritesTo(s, c, i)
    ensures Step(s, c).files[i] == s.files[i]
  {
    hide NameForm, BlocksTaken, SlotIn, ClosedIn;
  }

  /** A run that never writes through a descriptor of file i leaves the file alone, whatever
      else it opens, creates, writes and closes. */
  lemma {:induction false} Isolation(s: Fs, run: seq<Call>, i: Slot)
    requires RunOk(s, run) && s.files[i].File? && NeverWrites(s, run, i)
    ensures After(s, run).files[i] == s.files[i]
    decreases |run|
  {
    if run == [] {
    } else {
      StepIsolated(s, run[0], i);
      Isolation(Step(s, run[0]), run[1..], i);
    }
  }

  // ---------------------------------------------------------------- the kernel file

  /** No open descriptor may write slot 0. */
  ghost predicate Sealed(s: Fs) {
    s.files[0].File? && forall j :: IsOpen(s, j) && s.descs[j].slot == 0 ==> !s.descs[j].writable
  }

  lemma StepSealed(s: Fs, c: Call)
    requires Sealed(s) && Allowed(s, c)
    ensures Sealed(Step(s, c)) && Step(s, c).files[0] == s.files[0]
  {
    hide NameForm, BlocksTaken, SlotIn, ClosedIn;
    forall j | IsOpen(Step(s, c), j) && Step(s, c).descs[j].slot == 0 ensures !Step(s, c).descs[j].writable {
      if IsOpen(s, j) && s.descs[j].slot == 0 { assert !s.descs[j].writable; }
    }
  }

  /** Once the descriptor that created the kernel file is closed, no run of calls can change
      the file: write access is refused or dropped on every reopening. */
  lemma {:induction false} KernelImmutable(s: Fs, run: seq<Call>)
    requires Sealed(s) && RunOk(s, run)
    ensures Sealed(After(s, run)) && After(s, run).files[0] == s.files[0]
    decreases |run|
  {
    if run == [] {
    } else {
      StepSealed(s, run[0]);
      KernelImmutable(Step(s, run[0]), run[1..]);
    }
  }

  /** While the kernel file is being written, only descriptor j may write it. */
  ghost predicate OnlyWriter(s: Fs, j: int) {
    s.files[0].File? && forall k :: IsOpen(s, k) && s.descs[k].slot == 0 && s.descs[k].writable ==> k == j
  }

  lemma CreatorWrites(s: Fs, path: Path, flags: int)
    requires Wf(s) && MayOpen(s, path, flags) && s.files[0].NoFile? && OpenOp(s, path, flags).0.files[0].File?
    ensures OnlyWriter(OpenOp(s, path, flags).0, OpenOp(s, path, flags).1)
  {
    hide NameForm, NamesOk, SlotIn;
    forall k | IsOpen(s, k) ensures s.descs[k].slot != 0 { assert Writable(s, k); }
  }

  lemma {:induction false} RunOnlyWriter(s: Fs, run: seq<Call>, j: int)
    requires OnlyWriter(s, j) && RunOk(s, run)
    ensures OnlyWriter(After(s, run), j)
    decreases |run|
  {
    if run == [] {
    } else {
      StepOnlyWriter(s, run[0], j);
      RunOnlyWriter(Step(s, run[0]), run[1..], j);
    }
  }

  lemma StepOnlyWriter(s: Fs, c: Call, j: int)
    requires OnlyWriter(s, j) && Allowed(s, c)
    ensures OnlyWriter(Step(s, c), j)
  {
    hide NameForm, BlocksTaken, SlotIn, ClosedIn;
    var t := Step(s, c);
    forall k | IsOpen(t, k) && t.descs[k].slot == 0 && t.descs[k].writable ensures k == j {
      assert IsOpen(s, k) && s.descs[k].slot == 0 && s.descs[k].writable;
    }
  }

  /** From the creation of the kernel file on: whatever happens until the descriptor that
      created it is closed, nothing that happens after that changes the file. */
  lemma KernelFinal(s: Fs, path: Path, flags: int, during: seq<Call>, later: seq<Call>)
    requires Wf(s) && MayOpen(s, path, flags) && s.files[0].NoFile?
    requires var (t, j) := OpenOp(s, path, flags);
             && t.files[0].File? && RunOk(t, during) && IsOpen(After(t, during), j)
             && RunOk(CloseOp(After(t, during), j), later)
    ensures var (t, j) := OpenOp(s, path, flags);
            After(CloseOp(After(t, during), j), later).files[0] == After(t, during).files[0]
  {
    hide OpenOp, RunOk, After, NamesOk;
    var (t, j) := OpenOp(s, path, flags);
    CreatorWrites(s, path, flags);
    RunOnlyWriter(t, during, j);
    KernelImmutable(CloseOp(After(t, during), j), later);
  }

  // ---------------------------------------------------------------- the writable flag

  /** The call leaves descriptor j writable, whatever it was: it creates a file on it with
      O_RDWR, or it is an O_RDWR open of the kernel file, refused at this descriptor. */
  predicate Grants(s: Fs, c: Call, j: int) {
    && c.CallOpen? && !EmptyPath(c.path) && FirstClosed(s) == j && RdWr(c.flags)
    && var i := SlotOf(s, NameForm(c.path.bytes, 24));
       i == 0 || (i < 0 && Creat(c.flags) && FirstFree(s) >= 0)
  }

  /** The call leaves descriptor j not writable: it opens the kernel file on it read-only. */
  predicate Revokes(s: Fs, c: Call, j: int) {
    && c.CallOpen? && !EmptyPath(c.path) && FirstClosed(s) == j && !RdWr(c.flags)
    && SlotOf(s, NameForm(c.path.bytes, 24)) == 0
  }

  ghost predicate NeverRevoked(s: Fs, run: seq<Call>, j: int)
    requires RunOk(s, run)
    decreases |run|
  {
    run == [] || (!Revokes(s, run[0], j) && NeverRevoked(Step(s, run[0]), run[1..], j))
  }

  /** Some call of the run grants j, and no later one revokes it. */
  ghost predicate Granted(s: Fs, run: seq<Call>, j: int)
    requires RunOk(s, run)
    decreases |run|
  {
    && run != []
    && ((Grants(s, run[0], j) && NeverRevoked(Step(s, run[0]), run[1..], j)) || Granted(Step(s, run[0]), run[1..], j))
  }

  lemma StepFlag(s: Fs, c: Call, j: nat)
    requires Allowed(s, c) && j < 1024
    ensures Step(s, c).descs[j].writable <==> Grants(s, c, j) || (s.descs[j].writable && !Revokes(s, c, j))
  {
    hide NameForm, BlocksTaken, SlotIn, ClosedIn, FreeIn;
  }

  /** The flag of a descriptor, open or closed, is its history. */
  lemma {:induction false} FlagHistory(s: Fs, run: seq<Call>, j: nat)
    requires RunOk(s, run) && j < 1024
    ensures After(s, run).descs[j].writable <==> Granted(s, run, j) || (s.descs[j].writable && NeverRevoked(s, run, j))
    decreases |run|
  {
    if run == [] {
    } else {
      StepFlag(s, run[0], j);
      FlagHistory(Step(s, run[0]), run[1..], j);
    }
  }

  /** No descriptor is open or has ever been writable, as after mounting. */
  ghost predicate Unused(s: Fs) { forall j :: 0 <= j < 1024 ==> s.descs[j] == Closed(false) }

  /** Reopening an existing file other than the kernel gives write access exactly when it was
      asked for, if and only if the history of the descriptor that is free agrees. */
  lemma ReopenHonoursFlags(s: Fs, run: seq<Call>, path: Path, flags: int)
    requires Unused(s) && RunOk(s, run)
    requires var t := After(s, run);
             !EmptyPath(path) && SlotOf(t, NameForm(path.bytes, 24)) > 0 && FirstClosed(t) >= 0
    ensures var t := After(s, run);
            var j := FirstClosed(t);
            var (u, r) := OpenOp(t, path, flags);
            && r == j && u.descs[j].Open?
            && ((u.descs[j].writable <==> RdWr(flags)) <==> (Granted(s, run, j) <==> RdWr(flags)))
  {
    hide After, Granted, NeverRevoked;
    FlagHistory(s, run, FirstClosed(After(s, run)));
  }

  /** After a is created with O_RDWR and closed, b opened read-only is writable. */
  ghost predicate TooWritable(s: Fs, a: Path, b: Path) {
    var t := OpenOp(s, a, O_RDWR_CREAT).0;
    && b.Str? && SlotOf(s, NameForm(b.bytes, 24)) > 0 && IsOpen(t, 0)
    && var u := CloseOp(t, 0);
       && MayOpen(u, b, O_RDONLY) && OpenOp(u, b, O_RDONLY).1 == 0
       && OpenOp(u, b, O_RDONLY).0.descs[0] == Open(SlotOf(s, NameForm(b.bytes, 24)), 0, true, false)
  }

  /** b opened with O_RDWR is not writable. */
  ghost predicate NotWritable(s: Fs, b: Path) {
    && b.Str? && SlotOf(s, NameForm(b.bytes, 24)) > 0 && MayOpen(s, b, O_RDWR) && OpenOp(s, b, O_RDWR).1 == 0
    && OpenOp(s, b, O_RDWR).0.descs[0] == Open(SlotOf(s, NameForm(b.bytes, 24)), 0, false, false)
  }

  /** And it does not always agree. Once a file was created with O_RDWR and closed, opening any
      other file, b, read-only gives a writable descriptor; and with descriptors never used,
      opening b with O_RDWR gives one that is not. */
  lemma StaleWritable(s: Fs, a: Path, b: Path)
    requires Unused(s) && !EmptyPath(a) && !EmptyPath(b) && Readable(b.bytes, 24)
    requires MayOpen(s, a, O_RDWR_CREAT) && SlotOf(s, NameForm(a.bytes, 24)) < 0 && FirstFree(s) >= 0
    requires SlotOf(s, NameForm(b.bytes, 24)) > 0 && NameForm(a.bytes, 24) != NameForm(b.bytes, 24)
    ensures OpenOp(s, a, O_RDWR_CREAT).1 == 0 && TooWritable(s, a, b)
    ensures NotWritable(s, b)
  {
    hide NameForm, SlotIn, FreeIn, ClosedIn;
    FirstClosedZero(s);
    var u := CloseOp(OpenOp(s, a, O_RDWR_CREAT).0, 0);
    FirstClosedZero(u);
    SameSlot(s, u, NameForm(b.bytes, 24));
  }

  /** Two lookups that can only differ in a slot that has another name. */
  lemma SameSlot(s: Fs, t: Fs, name: Name)
    requires forall k :: 0 <= k < 16 ==> (Named(s.files[k], name) <==> Named(t.files[k], name))
    ensures SlotOf(t, name) == SlotOf(s, name)
  {
    var i, k := SlotOf(s, name), SlotOf(t, name);
    assert i >= 0 ==> Named(t.files[i], name);
    assert k >= 0 ==> Named(s.files[k], name);
  }

  lemma FirstClosedZero(s: Fs)
    requires s.descs[0].Closed?
    ensures FirstClosed(s) == 0
  {
  }

  /** A kernel file and another one, nothing open. */
  function TwoFiles(kernel: Name, other: Name): Fs {
    Fs(seq(16, i requires 0 <= i < 16 =>
             if i == 0 then File(kernel, []) else if i == 1 then File(other, []) else NoFile),
       seq(1024, _ => Closed(false)))
  }

  lemma TwoFilesSlots(kernel: Name, other: Name)
    requires kernel != other
    ensures var s := TwoFiles(kernel, other);
            Unused(s) && SlotOf(s, other) == 1 && FirstFree(s) == 2
            && forall name: Name :: name != kernel && name != other ==> SlotOf(s, name) == -1
  {
    var s := TwoFiles(kernel, other);
    assert Named(s.files[1], other);
    assert s.files[2].NoFile? && s.files[0].File? && s.files[1].File?;
  }

  /** A case in point: "kernel.bin" and "b" exist, and "a" is created. */
  lemma StaleExample(a: Path, b: Path) returns (s: Fs)
    requires a == Str([97, 0]) && b == Str([98, 0])
    ensures s == TwoFiles(NameForm(KERNEL_NAME, 24), NameForm(b.bytes, 24))
    ensures Unused(s) && TooWritable(s, a, b) && NotWritable(s, b)
  {
    DifferentForm(a.bytes, KERNEL_NAME, 24, 0);
    DifferentForm(b.bytes, KERNEL_NAME, 24, 0);
    DifferentForm(a.bytes, b.bytes, 24, 0);
    s := StaleState(NameForm(KERNEL_NAME, 24), a, b);
  }

  lemma StaleState(kernel: Name, a: Path, b: Path) returns (s: Fs)
    requires !EmptyPath(a) && !EmptyPath(b) && Readable(a.bytes, 24) && Readable(b.bytes, 24)
    requires kernel == NameForm(KERNEL_NAME, 24) && NameForm(a.bytes, 24) != NameForm(b.bytes, 24)
    requires NameForm(a.bytes, 24) != kernel && NameForm(b.bytes, 24) != kernel
    ensures s == TwoFiles(kernel, NameForm(b.bytes, 24))
    ensures Unused(s) && TooWritable(s, a, b) && NotWritable(s, b)
  {
    hide NameForm, SlotIn, FreeIn, ClosedIn, TooWritable, NotWritable;
    s := TwoFiles(kernel, NameForm(b.bytes, 24));
    TwoFilesSlots(kernel, NameForm(b.bytes, 24));
    StaleWritable(s, a, b);
  }

  // ---------------------------------------------------------------- transfers in pieces

  function Concat(chunks: seq<seq<byte>>): seq<byte> {
    if chunks == [] then [] else chunks[0] + Concat(chunks[1..])
  }

  function WriteAll(s: Fs, fd: int, chunks: seq<seq<byte>>): Fs
    requires Writable(s, fd)
    decreases |chunks|
  {
    if chunks == [] then s
    else
      WriteTwice(s, fd, chunks[0], []);
      WriteAll(WriteOp(s, fd, chunks[0]), fd, chunks[1..])
  }

  /** Writing in any number of pieces is writing the whole. */
  lemma {:induction false} WriteChunks(s: Fs, fd: int, chunks: seq<seq<byte>>)
    requires Writable(s, fd) && chunks != []
    ensures WriteAll(s, fd, chunks) == WriteOp(s, fd, Concat(chunks))
    decreases |chunks|
  {
    var d, rest := chunks[0], Concat(chunks[1..]);
    WriteTwice(s, fd, d, rest);
    if chunks[1..] == [] {
      assert Concat(chunks) == d;
    } else {
      WriteChunks(WriteOp(s, fd, d), fd, chunks[1..]);
    }
  }

  function ReadAll(s: Fs, fd: int, lens: seq<int>): (Fs, seq<byte>)
    requires IsOpen(s, fd)
    decreases |lens|
  {
    if lens == [] then (s, [])
    else
      var (t, d) := ReadOp(s, fd, lens[0]);
      var (u, e) := ReadAll(t, fd, lens[1..]);
      (u, d + e)
  }

  function Sum(lens: seq<int>): int {
    if lens == [] then 0 else (if lens[0] < 0 then 0 else lens[0]) + Sum(lens[1..])
  }

  /** Reading in any number of pieces is reading the whole. */
  lemma {:induction false} ReadChunks(s: Fs, fd: int, lens: seq<int>)
    requires Writable(s, fd)
    ensures Sum(lens) >= 0
    ensures ReadAll(s, fd, lens) == ReadOp(s, fd, Sum(lens))
    decreases |lens|
  {
    if lens == [] {
    } else {
      ReadTwice(s, fd, lens[0], 0);
      ReadChunks(ReadOp(s, fd, lens[0]).0, fd, lens[1..]);
      ReadTwice(s, fd, lens[0], Sum(lens[1..]));
    }
  }

  lemma ReadIs(s: Fs, fd: int, len: int)
    requires Writable(s, fd)
    ensures var o, n := s.descs[fd].offset, ReadCount(s, fd, len);
            && o + n <= |ContentOf(s, fd)|
            && ReadOp(s, fd, len).1 == ContentOf(s, fd)[o..o + n]
            && ReadOp(s, fd, len).0.files == s.files
            && ReadOp(s, fd, len).0.descs == s.descs[fd := s.descs[fd].(offset := o + n)]
  {
  }

  lemma ReadTwice(s: Fs, fd: int, a: int, b: int)
    requires Writable(s, fd) && b >= 0
    ensures Writable(ReadOp(s, fd, a).0, fd)
    ensures var (t, d) := ReadOp(s, fd, a);
            var (u, e) := ReadOp(t, fd, b);
            (u, d + e) == ReadOp(s, fd, (if a < 0 then 0 else a) + b)
  {
    hide ReadOp;
    var t := ReadOp(s, fd, a).0;
    ReadIs(s, fd, a);
    ReadIs(t, fd, b);
    ReadIs(s, fd, (if a < 0 then 0 else a) + b);
    var o, m, n := s.descs[fd].offset, ReadCount(s, fd, a), ReadCount(t, fd, b);
    SliceJoin(ContentOf(s, fd), o, o + m, o + m + n);
    assert ReadOp(t, fd, b).0.descs == s.descs[fd := s.descs[fd].(offset := o + m + n)];
  }

  /** What is written is what is read back: rewinding after a write and reading far enough
      delivers the spliced content. */
  lemma WriteThenRead(s: Fs, fd: int, data: seq<byte>, len: int)
    requires Writable(s, fd)
    ensures var t := RewindOp(WriteOp(s, fd, data), fd);
            var c := Splice(ContentOf(s, fd), s.descs[fd].offset, data);
            len >= |c| ==> ReadOp(t, fd, len).1 == c
  {
    var t := RewindOp(WriteOp(s, fd, data), fd);
    assert ContentOf(t, fd) == Splice(ContentOf(s, fd), s.descs[fd].offset, data);
    assert ContentOf(t, fd)[0..|ContentOf(t, fd)|] == ContentOf(t, fd);
  }
}
