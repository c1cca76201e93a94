/** The file system of kernel/fs.c against its description over whole runs: any sequence of calls
    that respects what callers must leaves the described state and gives the described answers. */
module FsReplay {
  import opened Words
  import opened CString
  import opened FsLayout
  import opened FsSpec
  import opened FsInv
  import opened FsAbs
  import opened FsImage
  import opened FsRuns
  import opened FileSystem
  import opened MyfsTools

  /** What a call gives its caller. */
  datatype Answer = Code(code: int) | Bytes(bytes: seq<byte>)

  ghost function AnswerOf(s: Fs, c: Call): Answer
    requires Allowed(s, c)
  {
    match c
    case CallOpen(path, flags) => Code(OpenOp(s, path, flags).1)
    case CallRead(fd, len) => Bytes(ReadOp(s, fd, len).1)
    case CallWrite(_, data) => Code(|data|)
    case CallSeek(_, _, _) => Code(0)
    case CallClose(_) => Code(0)
  }

  ghost function Answers(s: Fs, run: seq<Call>): seq<Answer>
    requires RunOk(s, run)
    decreases |run|
  {
    if run == [] then [] else [AnswerOf(s, run[0])] + Answers(Step(s, run[0]), run[1..])
  }

  // ---------------------------------------------------------------- open, case by case

  /** fs_open in full, in its own terms: s and t are the states before and after, r the answer. */
  ghost predicate OpensAs(s: Fs, path: seq<byte>, flags: int, t: Fs, r: int) {
    var name := NameForm(path, 24);
    var named := exists i: Slot :: s.files[i].File? && s.files[i].name == name;
    var full := forall i: Slot :: s.files[i].File?;
    var busy := forall j :: 0 <= j < 1024 ==> s.descs[j].Open?;
    if path == [] || path[0] == 0 then r == -10 && t == s
    else if (flags == 0 || flags == 2) && (!named || busy) then r == -7 && t == s
    else if full && (!named || busy) then r == -6 && t == s
    else if busy then r == -7 && t == s
    else
      exists j: nat :: j < 1024 && s.descs[j].Closed? && (forall k :: 0 <= k < j ==> s.descs[k].Open?) &&
        if named then
          exists i: Slot :: s.files[i].File? && s.files[i].name == name && t.files == s.files &&
            if i == 0 && (flags == 2 || flags == 66) then r == -5 && t.descs == s.descs[j := Closed(true)]
            else r == j && t.descs == s.descs[j := Open(i, 0, i != 0 && s.descs[j].writable, false)]
        else
          exists i: Slot :: s.files[i].NoFile? && (forall k: Slot :: k < i ==> s.files[k].File?) &&
            t.files == s.files[i := File(name, [])] &&
            r == j && t.descs == s.descs[j := Open(i, 0, flags == 66 || s.descs[j].writable, false)]
  }

  lemma OpenIs(s: Fs, path: seq<byte>, flags: int)
    requires flags == 0 || flags == 2 || flags == 64 || flags == 66
    ensures OpensAs(s, path, flags, OpenOp(s, Str(path), flags).0, OpenOp(s, Str(path), flags).1)
  {
    hide NameForm, SlotIn, FreeIn, ClosedIn;
    var name := NameForm(path, 24);
    var i, n, j := SlotOf(s, name), FirstFree(s), FirstClosed(s);
    assert i < 0 ==> forall k: Slot :: !Named(s.files[k], name);
  }

  /** The four combinations of O_RDWR and O_CREAT: a missing file is refused without O_CREAT, and
      with it created in the lowest free slot; every error has its code. */
  method OpenAnswers(fs: FileSystem, path: Path, flags: int) returns (r: int)
    requires fs.Valid() && MayOpen(fs.State(), path, flags)
    requires flags == 0 || flags == 2 || flags == 64 || flags == 66
    modifies fs
    ensures fs.Valid()
    ensures match path
            case Null => r == -10 && fs.State() == old(fs.State())
            case Str(bytes) => OpensAs(old(fs.State()), bytes, flags, fs.State(), r)
  {
    hide FileSystem.Valid, FileSystem.State, MayOpen, OpensAs, SlotIn, FreeIn, ClosedIn;
    if path.Str? { OpenIs(fs.State(), path.bytes, flags); }
    r := fs.FsOpen(path, flags);
  }

  // ---------------------------------------------------------------- calls

  /** What Perform and Replay rely on and keep. */
  ghost predicate Ready(fs: FileSystem)
    reads fs
  {
    fs.Valid() && fs.AllTight() && fs.Clean()
  }

  /** One call. */
  method Perform(fs: FileSystem, c: Call) returns (a: Answer)
    requires Ready(fs) && Allowed(fs.State(), c)
    modifies fs
    ensures Ready(fs) && fs.State() == Step(old(fs.State()), c) && a == AnswerOf(old(fs.State()), c)
  {
    hide FileSystem.Valid, FileSystem.AllTight, FileSystem.State, OpenOp, ReadOp, WriteOp, CloseOp, RewindOp, SeekOp,
         BlocksTaken, MayOpen, NoneOpen;
    LeavesOpen(fs.State(), c);
    match c {
      case CallOpen(path, flags) =>
        var r := fs.FsOpen(path, flags);
        a := Code(r);
      case CallRead(fd, len) =>
        var buf := new byte[if len < 0 then 0 else len];
        var n := fs.FsRead(fd, buf, len);
        a := Bytes(buf[..n]);
      case CallWrite(fd, data) =>
        var buf := new byte[|data|];
        Memcpy(buf, 0, data);
        assert buf[..] == data && Prefix(buf[..], |data|) == data;
        var r := fs.FsWrite(fd, buf, |data|);
        a := Code(r);
      case CallSeek(fd, offset, whence) =>
        var r := fs.FsLseek(fd, offset, whence);
        a := Code(r);
      case CallClose(fd) =>
        var r := fs.FsClose(fd);
        a := Code(r);
    }
  }

  /** Only a close can be the last thing a descriptor is used for; an open that fails opens
      nothing and closes nothing. */
  lemma LeavesOpen(s: Fs, c: Call)
    requires Allowed(s, c)
    ensures !c.CallClose? && !c.CallOpen? ==> !NoneOpen(Step(s, c))
    ensures c.CallOpen? && NoneOpen(Step(s, c)) ==> NoneOpen(s) && AnswerOf(s, c).code < 0
  {
    hide NameForm, BlocksTaken, SlotIn, ClosedIn, FreeIn;
    if !c.CallClose? && !c.CallOpen? {
      assert IsOpen(Step(s, c), c.fd);
    }
    assert c.CallOpen? ==> IsOpen(Step(s, c), AnswerOf(s, c).code) || AnswerOf(s, c).code < 0;
    if c.CallOpen? && NoneOpen(Step(s, c)) {
      var t := Step(s, c);
      forall j | 0 <= j < 1024 ensures s.descs[j].Closed? { assert t.descs[j].Closed?; }
    }
  }

  /** Any sequence of calls. When it leaves nothing open, the disk alone holds the files. */
  method Replay(fs: FileSystem, run: seq<Call>) returns (answers: seq<Answer>)
    requires Ready(fs) && RunOk(fs.State(), run)
    modifies fs
    ensures Ready(fs) && fs.State() == After(old(fs.State()), run)
    ensures answers == Answers(old(fs.State()), run)
    ensures NoneOpen(fs.State()) ==> ImageOk(fs.disk) && DiskFiles(fs.disk) == After(old(fs.State()), run).files
    decreases |run|
  {
    hide Ready, FileSystem.State, Step, AnswerOf, Allowed, NoneOpen, ImageOk, DiskFiles;
    if run == [] {
      if NoneOpen(fs.State()) { AllOnDisk(fs); }
      return [];
    }
    var a := Perform(fs, run[0]);
    var rest := Replay(fs, run[1..]);
    answers := [a] + rest;
  }

  lemma AllOnDisk(fs: FileSystem)
    requires Ready(fs) && NoneOpen(fs.State())
    ensures ImageOk(fs.disk) && DiskFiles(fs.disk) == fs.State().files
  {
    hide Inv;
    NoneOpenPool(fs.S(), fs.G);
    Durable(fs.S(), fs.G);
  }

  /** From one mounting to the next: calls on a freshly mounted image that close all they open
      leave an image with the files they were to leave. */
  method Session(image: Image, run: seq<Call>) returns (out: Image, answers: seq<Answer>)
    requires ImageOk(image) && RunOk(Fresh(DiskFiles(image)), run)
    requires NoneOpen(After(Fresh(DiskFiles(image)), run))
    ensures ImageOk(out) && DiskFiles(out) == After(Fresh(DiskFiles(image)), run).files
    ensures answers == Answers(Fresh(DiskFiles(image)), run)
  {
    hide ImageOk, DiskFiles, NoneOpen, FileSystem.State, FileSystem.Valid, Mounted, AllClosed;
    var fs := new FileSystem(image);
    fs.FsInit();
    FreshState(fs);
    answers := Replay(fs, run);
    out := fs.disk;
  }
}
