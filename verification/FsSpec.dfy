/** What the file system of kernel/fs.c is, with no disk, blocks or caches in sight:
    sixteen directory slots that may hold a named byte sequence, and 1024 descriptors. */
module FsSpec {
  import opened Words
  import opened CString
  import opened FsLayout

  datatype File = NoFile | File(name: Name, content: seq<byte>)
  type FileTable = f: seq<File> | |f| == 16 witness seq(16, _ => NoFile)

  /** A closed descriptor still remembers its writable flag. `written` says the descriptor
      was written through since it was opened or rewound, so it may be caching changes. */
  datatype Desc = Closed(writable: bool) | Open(slot: Slot, offset: nat, writable: bool, written: bool)
  type DescTable = d: seq<Desc> | |d| == 1024 witness seq(1024, _ => Closed(false))

  datatype Fs = Fs(files: FileTable, descs: DescTable)

  const E_ACCESS := -5
  const E_DQUOT := -6
  const E_NOENT := -7
  const E_EMPTYPATH := -10

  datatype Path = Null | Str(bytes: seq<byte>)

  const O_RDONLY := 0
  const O_RDWR := 2
  const O_RDWR_CREAT := 66

  /** flags & O_RDWR and flags & O_CREAT */
  predicate RdWr(flags: int) { flags / 2 % 2 == 1 }
  predicate Creat(flags: int) { flags / 64 % 2 == 1 }

  // ---------------------------------------------------------------- lookups

  predicate Named(f: File, name: Name) { f.File? && f.name == name }

  /** The lowest slot with this name, or -1. */
  function SlotIn(files: seq<File>, name: Name): (r: int)
    ensures -1 <= r < |files|
    ensures r >= 0 ==> Named(files[r], name)
    ensures forall k :: 0 <= k < (if r >= 0 then r else |files|) ==> !Named(files[k], name)
  {
    if files == [] then -1
    else
      var n := |files| - 1;
      var r := SlotIn(files[..n], name);
      if r < 0 && Named(files[n], name) then n else r
  }

  /** The lowest free slot, or -1. */
  function FreeIn(files: seq<File>): (r: int)
    ensures -1 <= r < |files|
    ensures r >= 0 ==> files[r].NoFile?
    ensures forall k :: 0 <= k < (if r >= 0 then r else |files|) ==> files[k].File?
  {
    if files == [] then -1
    else
      var n := |files| - 1;
      var r := FreeIn(files[..n]);
      if r < 0 && files[n].NoFile? then n else r
  }

  /** The lowest closed descriptor, or -1. */
  function ClosedIn(descs: seq<Desc>): (r: int)
    ensures -1 <= r < |descs|
    ensures r >= 0 ==> descs[r].Closed?
    ensures forall k :: 0 <= k < (if r >= 0 then r else |descs|) ==> descs[k].Open?
  {
    if descs == [] then -1
    else
      var n := |descs| - 1;
      var r := ClosedIn(descs[..n]);
      if r < 0 && descs[n].Closed? then n else r
  }

  function SlotOf(s: Fs, name: Name): int { SlotIn(s.files, name) }
  function FirstFree(s: Fs): int { FreeIn(s.files) }
  function FirstClosed(s: Fs): int { ClosedIn(s.descs) }

  // ---------------------------------------------------------------- operations

  predicate IsOpen(s: Fs, fd: int) { 0 <= fd < 1024 && s.descs[fd].Open? }

  function ContentOf(s: Fs, fd: int): seq<byte>
    requires IsOpen(s, fd)
  {
    match s.files[s.descs[fd].slot]
    case NoFile => []
    case File(_, content) => content
  }

  /** c with d laid over it from position o on. */
  function Splice(c: seq<byte>, o: nat, d: seq<byte>): seq<byte>
    requires o <= |c|
  {
    c[..o] + d + (if o + |d| < |c| then c[o + |d|..] else [])
  }

  predicate EmptyPath(path: Path) {
    match path
    case Null => true
    case Str(p) => p == [] || p[0] == 0
  }

  function OpenOp(s: Fs, path: Path, flags: int): (Fs, int) {
    if EmptyPath(path) then (s, E_EMPTYPATH) else
    var name := NameForm(path.bytes, 24);
    var i, j := SlotOf(s, name), FirstClosed(s);
    if i >= 0 && j >= 0 then
      if i == 0 && RdWr(flags) then (s.(descs := s.descs[j := Closed(true)]), E_ACCESS)
      else (s.(descs := s.descs[j := Open(i, 0, i != 0 && s.descs[j].writable, false)]), j)
    else if !Creat(flags) then (s, E_NOENT)
    else if FirstFree(s) < 0 then (s, E_DQUOT)
    else if j < 0 then (s, E_NOENT)
    else (Fs(s.files[FirstFree(s) := File(name, [])],
             s.descs[j := Open(FirstFree(s), 0, RdWr(flags) || s.descs[j].writable, false)]), j)
  }

  /** How many bytes a read of len can deliver. */
  function ReadCount(s: Fs, fd: int, len: int): nat
    requires IsOpen(s, fd)
  {
    var rest := |ContentOf(s, fd)| - s.descs[fd].offset;
    if len < 0 || rest < 0 then 0 else Min(len, rest)
  }

  function ReadOp(s: Fs, fd: int, len: int): (Fs, seq<byte>)
    requires IsOpen(s, fd)
  {
    var d, n := s.descs[fd], ReadCount(s, fd, len);
    if n == 0 then (s, [])
    else (s.(descs := s.descs[fd := d.(offset := d.offset + n)]), ContentOf(s, fd)[d.offset..d.offset + n])
  }

  /** The cursor of fd is within its file. */
  predicate Writable(s: Fs, fd: int) {
    IsOpen(s, fd) && s.files[s.descs[fd].slot].File? && s.descs[fd].offset <= |ContentOf(s, fd)|
  }

  function WriteOp(s: Fs, fd: int, data: seq<byte>): Fs
    requires Writable(s, fd)
  {
    var d := s.descs[fd];
    var f := s.files[d.slot];
    Fs(s.files[d.slot := f.(content := Splice(f.content, d.offset, data))],
       s.descs[fd := d.(offset := d.offset + |data|, written := true)])
  }

  function RewindOp(s: Fs, fd: int): Fs
    requires IsOpen(s, fd)
  {
    s.(descs := s.descs[fd := s.descs[fd].(offset := 0, written := false)])
  }

  const SEEK_SET := 0
  const SEEK_CUR := 1
  const SEEK_END := 2

  /** Where SEEK_CUR and SEEK_END put the cursor; SEEK_END adds the size to the cursor too. */
  function SeekTarget(s: Fs, fd: int, offset: int, whence: int): nat
    requires IsOpen(s, fd)
  {
    (s.descs[fd].offset + (if whence == SEEK_END then |ContentOf(s, fd)| else 0) + offset) % 0x1_0000_0000
  }

  /** fs_lseek in its own terms: whence 0 rewinds, 1 adds the offset to the cursor, 2 adds the size
      of the file as well, on 32 bits. */
  predicate Lands(s: Fs, fd: int, offset: int, whence: int, n: nat)
    requires IsOpen(s, fd)
  {
    && (whence == 0 ==> n == 0)
    && (whence == 1 ==> n == (s.descs[fd].offset + offset) % 0x1_0000_0000)
    && (whence == 2 ==> n == (s.descs[fd].offset + |ContentOf(s, fd)| + offset) % 0x1_0000_0000)
  }

  function SeekOp(s: Fs, fd: int, n: nat): Fs
    requires IsOpen(s, fd)
  {
    s.(descs := s.descs[fd := s.descs[fd].(offset := n)])
  }

  /** A descriptor with its cursor at o has at hand what the next access at n needs: the sector
      of o, when o is inside one, is that of n; or o and n are both sector boundaries, and n is
      the start of the file or belongs with the inode of the byte before o. */
  predicate Served(o: nat, n: nat) {
    if o % 512 != 0 then n / 512 == o / 512
    else n % 512 == 0 && (n == 0 || (o > 0 && (n - 1) / 65024 == (o - 1) / 65024))
  }

  predicate SeekServed(s: Fs, fd: int, n: nat)
    requires IsOpen(s, fd)
  {
    n <= |ContentOf(s, fd)| && Served(s.descs[fd].offset, n)
  }

  /** Such a move that goes neither from inside a sector to its start nor from elsewhere to the
      start of the file. After these two the caches are ahead of the cursor. */
  predicate SeekSafe(s: Fs, fd: int, n: nat)
    requires IsOpen(s, fd)
  {
    var o := s.descs[fd].offset;
    SeekServed(s, fd, n) && (o % 512 == 0 <==> n % 512 == 0) && (o == 0 <==> n == 0)
  }

  function CloseOp(s: Fs, fd: int): Fs
    requires IsOpen(s, fd)
  {
    s.(descs := s.descs[fd := Closed(s.descs[fd].writable)])
  }

  /** No descriptor is open. */
  ghost predicate NoneOpen(s: Fs) { forall j :: 0 <= j < 1024 ==> s.descs[j].Closed? }

  // ---------------------------------------------------------------- what callers must respect

  function FileBlocks(f: File): nat { if f.File? then BlocksOf(|f.content|) else 0 }

  function BlocksTaken(files: seq<File>): nat {
    if files == [] then 0 else BlocksTaken(files[..|files| - 1]) + FileBlocks(files[|files| - 1])
  }

  /** No other descriptor is open on the file of fd. */
  ghost predicate Sole(s: Fs, fd: int)
    requires IsOpen(s, fd)
  {
    forall k :: IsOpen(s, k) && s.descs[k].slot == s.descs[fd].slot ==> k == fd
  }

  /** No descriptor has written the file in slot i since it was opened or rewound. */
  ghost predicate Quiet(s: Fs, i: int) {
    forall k :: IsOpen(s, k) && s.descs[k].slot == i ==> !s.descs[k].written
  }

  /** The asserts of fs_open and the rule that a file with unwritten changes is not reopened. */
  ghost predicate MayOpen(s: Fs, path: Path, flags: int) {
    EmptyPath(path) ||
    (&& Readable(path.bytes, 24)
     && var name := NameForm(path.bytes, 24);
        var i, j := SlotOf(s, name), FirstClosed(s);
        if i >= 0 && j >= 0 then (i == 0 && RdWr(flags)) || Quiet(s, i)
        else Creat(flags) && FirstFree(s) >= 0 ==> (FirstFree(s) == 0 <==> name == NameForm(KERNEL_NAME, 24)))
  }

  /** "kernel.bin" */
  const KERNEL_NAME: seq<byte> := [107, 101, 114, 110, 101, 108, 46, 98, 105, 110, 0]

  lemma KernelNameSpelled()
    ensures |KERNEL_NAME| == 11 && KERNEL_NAME[10] == 0
    ensures forall k :: 0 <= k < 10 ==> KERNEL_NAME[k] == "kernel.bin"[k] as int
  {
  }

  ghost predicate MayWrite(s: Fs, fd: int, data: seq<byte>) {
    && Writable(s, fd) && s.descs[fd].writable && Sole(s, fd)
    && BlocksTaken(WriteOp(s, fd, data).files) <= 4096
  }

  // ---------------------------------------------------------------- writing in pieces

  lemma SpliceTwice(c: seq<byte>, o: nat, d: seq<byte>, e: seq<byte>)
    requires o <= |c|
    ensures Splice(Splice(c, o, d), o + |d|, e) == Splice(c, o, d + e)
  {
    var x, y := Splice(Splice(c, o, d), o + |d|, e), Splice(c, o, d + e);
    assert |x| == |y|;
    forall k | 0 <= k < |x| ensures x[k] == y[k] {}
  }

  lemma SpliceNothing(c: seq<byte>, o: nat)
    requires o <= |c|
    ensures Splice(c, o, []) == c
  {
    assert c[..o] + [] + c[o..] == c;
  }

  /** Writing d and then e is writing d + e. */
  lemma WriteTwice(s: Fs, fd: int, d: seq<byte>, e: seq<byte>)
    requires Writable(s, fd)
    ensures Writable(WriteOp(s, fd, d), fd)
    ensures WriteOp(WriteOp(s, fd, d), fd, e) == WriteOp(s, fd, d + e)
  {
    var x := s.descs[fd];
    SpliceTwice(ContentOf(s, fd), x.offset, d, e);
    assert WriteOp(WriteOp(s, fd, d), fd, e).files == WriteOp(s, fd, d + e).files;
    assert WriteOp(WriteOp(s, fd, d), fd, e).descs == WriteOp(s, fd, d + e).descs;
  }

  lemma {:induction false} BlocksTakenUpdate(files: seq<File>, i: nat, f: File)
    requires i < |files|
    ensures BlocksTaken(files[i := f]) == BlocksTaken(files) + FileBlocks(f) - FileBlocks(files[i])
  {
    var n := |files| - 1;
    if i < n {
      BlocksTakenUpdate(files[..n], i, f);
      assert files[i := f][..n] == files[..n][i := f];
    } else {
      assert files[i := f][..n] == files[..n];
    }
  }
}
