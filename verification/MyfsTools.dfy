/** util/write_myfs.c and util/read_myfs.c, each a process of its own over a disk image, and
    the fs-test target of the Makefile that runs them against each other. */
module MyfsTools {
  import opened Words
  import opened CString
  import opened Bitmap
  import opened FsLayout
  import opened FsSpec
  import opened FsInv
  import opened FsAbs
  import opened FsImage
  import opened FileSystem

  /** Standard input. A read delivers any positive number of the bytes that remain. */
  class Stdin {
    const data: seq<byte>
    var pos: nat

    constructor (data: seq<byte>)
      ensures this.data == data && pos == 0
    {
      this.data := data;
      pos := 0;
    }

    method Read(buf: array<byte>, n: nat) returns (r: int)
      requires pos <= |data| && 0 < n <= buf.Length
      modifies this`pos, buf
      ensures 0 <= r <= n && old(pos) + r == pos <= |data|
      ensures r == 0 <==> old(pos) == |data|
      ensures buf[..r] == data[old(pos)..pos]
    {
      if pos == |data| { return 0; }
      var count: nat :| 1 <= count <= n && pos + count <= |data|;
      Memcpy(buf, 0, data[pos..pos + count]);
      pos := pos + count;
      return count;
    }
  }

  /** The abstract state of a process that has just mounted these files. */
  function Fresh(files: FileTable): Fs { Fs(files, seq(1024, _ => Closed(false))) }

  /** The name is new and the file system's own rules for creating it are met. */
  ghost predicate MayCreate(files: FileTable, path: Path) {
    && !EmptyPath(path) && Readable(path.bytes, 24)
    && SlotIn(files, NameForm(path.bytes, 24)) < 0
    && FreeIn(files) >= 0
    && (FreeIn(files) == 0 <==> NameForm(path.bytes, 24) == NameForm(KERNEL_NAME, 24))
  }

  /** The files after adding one with this content. */
  function Added(files: FileTable, path: Path, content: seq<byte>): FileTable
    requires !EmptyPath(path) && FreeIn(files) >= 0
  {
    files[FreeIn(files) := File(NameForm(path.bytes, 24), content)]
  }

  lemma FreshState(fs: FileSystem)
    requires fs.S() == Mounted(fs.disk)
    ensures fs.State() == Fresh(fs.State().files)
  {
    assert fs.State().descs == seq(1024, _ => Closed(false));
  }

  lemma FirstDescriptor(descs: DescTable)
    requires descs[0].Closed?
    ensures ClosedIn(descs) == 0
  {
  }

  /** What creating a file does to a freshly mounted state. */
  lemma Creates(files: FileTable, path: Path)
    requires MayCreate(files, path)
    ensures MayOpen(Fresh(files), path, O_RDWR_CREAT)
    ensures OpenOp(Fresh(files), path, O_RDWR_CREAT).1 == 0
    ensures Writing(OpenOp(Fresh(files), path, O_RDWR_CREAT).0, files, path, [])
  {
    hide ClosedIn, SlotIn, FreeIn, NameForm;
    FirstDescriptor(Fresh(files).descs);
  }

  /** Descriptor 0 alone is open, at the end of what it has written so far. */
  ghost predicate Writing(s: Fs, files: FileTable, path: Path, done: seq<byte>)
    requires !EmptyPath(path) && FreeIn(files) >= 0
  {
    && s.files == Added(files, path, done)
    && s.descs[0].Open? && s.descs[0].slot == FreeIn(files) && s.descs[0].offset == |done| && s.descs[0].writable
    && forall k :: 1 <= k < 1024 ==> s.descs[k].Closed?
  }

  lemma WritingMore(s: Fs, files: FileTable, path: Path, done: seq<byte>, data: seq<byte>, all: seq<byte>)
    requires !EmptyPath(path) && FreeIn(files) >= 0
    requires Writing(s, files, path, done) && done + data <= all
    requires BlocksTaken(Added(files, path, all)) <= 4096
    ensures MayWrite(s, 0, data)
    ensures Writing(WriteOp(s, 0, data), files, path, done + data)
  {
    hide FreeIn, NameForm, BlocksTaken;
    assert done + data == Splice(done, |done|, data);
    assert WriteOp(s, 0, data).files == Added(files, path, done + data);
    AddedRoom(files, path, done + data, all);
  }

  lemma AddedRoom(files: FileTable, path: Path, a: seq<byte>, b: seq<byte>)
    requires !EmptyPath(path) && FreeIn(files) >= 0 && |a| <= |b|
    ensures BlocksTaken(Added(files, path, a)) <= BlocksTaken(Added(files, path, b))
  {
    hide FreeIn, NameForm;
    var i := FreeIn(files);
    BlocksTakenUpdate(files, i, Added(files, path, a)[i]);
    BlocksTakenUpdate(files, i, Added(files, path, b)[i]);
    BlocksOfMono(|a|, |b|);
  }

  lemma WritingClosed(s: Fs, files: FileTable, path: Path, all: seq<byte>)
    requires !EmptyPath(path) && FreeIn(files) >= 0 && Writing(s, files, path, all)
    ensures IsOpen(s, 0) && NoneOpen(CloseOp(s, 0)) && CloseOp(s, 0).files == Added(files, path, all)
  {
    hide FreeIn, NameForm;
  }

  /** The loop at util/write_myfs.c:19-25. */
  method CopyIn(fs: FileSystem, fd: nat, input: Stdin, ghost files: FileTable, ghost path: Path)
    requires fs.Valid() && fd == 0 && input.pos == 0
    requires !EmptyPath(path) && FreeIn(files) >= 0 && Writing(fs.State(), files, path, [])
    requires BlocksTaken(Added(files, path, input.data)) <= 4096
    modifies fs, input
    ensures fs.Valid() && Writing(fs.State(), files, path, input.data)
    ensures old(Linear(fs.G, FreeIn(files))) ==> Linear(fs.G, FreeIn(files))
    ensures FreeIn(files) != 0 ==> fs.G.files[0] == old(fs.G).files[0]
  {
    hide Inv, FreeIn, BlocksTaken, WriteOp, MayWrite, FileSystem.State, FileSystem.Valid, Linear, Writing, Added,
         Prefix;
    var buffer := new byte[512];
    var result := input.Read(buffer, SECTSIZE);
    ghost var done: seq<byte> := [];
    while result > 0
      invariant fresh(buffer) && buffer.Length == 512 && fs.Valid()
      invariant 0 <= result <= 512 && |done| + result == input.pos <= |input.data|
      invariant done == input.data[..|done|]
      invariant buffer[..result] == input.data[|done|..|done| + result]
      invariant result == 0 ==> |done| == |input.data|
      invariant Writing(fs.State(), files, path, done)
      invariant old(Linear(fs.G, FreeIn(files))) ==> Linear(fs.G, FreeIn(files))
      invariant FreeIn(files) != 0 ==> fs.G.files[0] == old(fs.G).files[0]
      decreases |input.data| - |done|
    {
      ghost var chunk := buffer[..result];
      PrefixIs(buffer[..], result, chunk);
      Joined(input.data, |done|, |done| + result);
      WritingMore(fs.State(), files, path, done, chunk, input.data);
      WriterIndex(fs, files, path, done);
      var r := fs.FsWrite(fd, buffer, result);
      assert r >= 0 && r == result;
      done := done + chunk;
      result := input.Read(buffer, SECTSIZE);
    }
    assert done == input.data;
  }

  lemma PrefixIs(s: seq<byte>, n: nat, chunk: seq<byte>)
    requires n <= |s| && chunk == s[..n]
    ensures Prefix(s, n) == chunk
  {
  }

  lemma Joined(s: seq<byte>, a: nat, b: nat)
    requires a <= b <= |s|
    ensures s[..a] + s[a..b] == s[..b] && s[..b] <= s
  {
  }

  /** Copies standard input into a new file of the image, however the input is split into
      reads. */
  method WriteMyfs(image: Image, path: Path, input: Stdin) returns (out: Image)
    requires ImageOk(image) && MayCreate(DiskFiles(image), path)
    requires input.pos == 0 && BlocksTaken(Added(DiskFiles(image), path, input.data)) <= 4096
    modifies input
    ensures ImageOk(out)
    ensures DiskFiles(out) == Added(DiskFiles(image), path, input.data)
    ensures (forall i: Slot :: DiskFiles(image)[i].NoFile?) ==> LoneFile(out, FreeIn(DiskFiles(image)))
    ensures FreeIn(DiskFiles(image)) != 0 && KernelInPlace(image) ==> KernelInPlace(out)
  {
    hide KernelInPlace, Inv, Core, DiskFiles, FreeIn, SlotIn, BlocksTaken, OpenOp, MayOpen, CloseOp,
         FileSystem.State, Linear, AllClosed, Writing, NoneOpen, Fresh, Added, Mounted;
    var fs := new FileSystem(image);
    fs.FsInit();
    FreshState(fs);
    ghost var files := DiskFiles(image);
    ghost var i: Slot := FreeIn(files);
    ghost var lone := forall k: Slot :: files[k].NoFile?;
    Creates(files, path);
    if lone { EmptyIsLinear(image, fs.G, i); }
    ghost var meaning := fs.G;
    var fd := fs.FsOpen(path, O_RDWR_CREAT);
    assert fd >= 0;
    CopyIn(fs, fd, input, files, path);
    WritingClosed(fs.State(), files, path, input.data);
    var _ := fs.FsClose(fd);
    out := fs.disk;
    if lone { LinearClosed(fs, i); }
    if i != 0 && KernelInPlace(image) { StaysInPlace(image, meaning, fs); }
  }

  lemma WriterIndex(fs: FileSystem, files: FileTable, path: Path, done: seq<byte>)
    requires !EmptyPath(path) && FreeIn(files) >= 0 && Writing(fs.State(), files, path, done)
    ensures fs.fdPool[0].index == FreeIn(files)
  {
  }

  // ---------------------------------------------------------------- layout of the first file

  lemma EmptyIsLinear(image: Image, G: Ghosts, i: Slot)
    requires Inv(Mounted(image), G) && forall k: Slot :: DiskFiles(image)[k].NoFile?
    ensures Linear(G, i)
  {
    hide Inv, OwnerOk;
    forall k: Slot ensures G.files[k] == EMPTY_FILE {
      assert DiskFiles(image)[k].NoFile?;
      EntryAtMount(image, G, k);
    }
    MountedOwner(image, G);
    EmptyOwners(G);
  }

  lemma EntryAtMount(image: Image, G: Ghosts, k: Slot)
    requires Inv(Mounted(image), G)
    ensures EntryOk(DirOf(image)[k], G.files[k])
  {
  }

  lemma EmptyOwners(G: Ghosts)
    requires OwnerOk(G) && forall k: Slot :: G.files[k] == EMPTY_FILE
    ensures forall b: Block :: G.owner[b] == Free
  {
    forall b: Block ensures G.owner[b] == Free { assert OwnedBack(G.owner, G.files, b); }
  }

  lemma LinearClosed(fs: FileSystem, i: Slot)
    requires fs.Valid() && fs.stateDir == USEFUL && fs.stateBitmap == USEFUL && NoneOpen(fs.State()) && Linear(fs.G, i)
    ensures LoneFile(fs.disk, i)
  {
    hide Inv, Linear;
    NoneOpenPool(fs.S(), fs.G);
    Durable(fs.S(), fs.G);
  }

  /** What the boot loader takes for granted (boot/main.c:18-19): slot 0's first inode is
      block 0 and its first data block is block 1. */
  predicate KernelInPlace(image: Image) {
    DirOf(image)[0].inodeOffset == 0 && DecodeINode(BlockAt(image, 0)).dataBlocks[0] == 1
    && Occupied(DirOf(image)[0])
  }

  lemma InPlaceMeaning(image: Image, G: Ghosts)
    requires Inv(Mounted(image), G)
    ensures var g := G.files[0];
            KernelInPlace(image) <==>
              |g.blocks| > 0 && |g.chain| > 0 && g.chain[0] == 0 && g.blocks[0] == 1
  {
    hide Core, DecodeDir, DecodeINode, INodeOf;
    EntryAtMount(image, G, 0);
    MountedOwner(image, G);
    assert FileOwned(G.owner, G.files[0], 0);
    if G.files[0].chain != [] {
      MountedChain(image, G, 0, 0);
      DataPointer(G, 0, 0);
    }
  }

  lemma LoneInPlace(image: Image)
    requires LoneFile(image, 0) && DiskFiles(image)[0].File? && DiskFiles(image)[0].content != []
    ensures KernelInPlace(image)
  {
    hide Core, DecodeDir;
    var G :| Inv(Mounted(image), G) && Linear(G, 0);
    InPlaceMeaning(image, G);
    MountedFiles(image, G);
    MountedOwner(image, G);
    assert FileOwned(G.owner, G.files[0], 0);
    assert DiskFiles(image)[0] == AbsFile(DirOf(image)[0], G.files[0]);
    assert Sized(G.files[0], DirOf(image)[0].fileSize);
  }

  lemma StaysInPlace(image: Image, G: Ghosts, fs: FileSystem)
    requires Inv(Mounted(image), G) && KernelInPlace(image)
    requires fs.Valid() && fs.stateDir == USEFUL && fs.stateBitmap == USEFUL && NoneOpen(fs.State())
    requires fs.G.files[0] == G.files[0]
    ensures KernelInPlace(fs.disk)
  {
    hide Inv;
    NoneOpenPool(fs.S(), fs.G);
    Durable(fs.S(), fs.G);
    InPlaceMeaning(image, G);
    InPlaceMeaning(fs.disk, fs.G);
  }

  // ---------------------------------------------------------------- reading back

  /** Outputs the whole file of that name. */
  method ReadMyfs(image: Image, path: Path) returns (output: seq<byte>)
    requires ImageOk(image) && !EmptyPath(path) && Readable(path.bytes, 24)
    requires SlotIn(DiskFiles(image), NameForm(path.bytes, 24)) >= 0
    ensures output == DiskFiles(image)[SlotIn(DiskFiles(image), NameForm(path.bytes, 24))].content
  {
    hide Inv, DiskFiles, FreeIn, SlotIn, BlocksTaken, OpenOp, MayOpen, MayWrite, FileSystem.State, AllClosed, ReadOp,
         Opened, FileSystem.AllTight, FileSystem.Clean, NameForm, Mounted,
         ReadCount;
    var fs := new FileSystem(image);
    fs.FsInit();
    FreshState(fs);
    ghost var files := DiskFiles(image);
    ghost var content := files[SlotIn(files, NameForm(path.bytes, 24))].content;
    OpensForReading(files, path);
    var fd := fs.FsOpen(path, O_RDONLY);
    assert fd >= 0;
    var buffer := new byte[512];
    output := [];
    ReadsNext(fs.State(), content, 0);
    var result := fs.FsRead(fd, buffer, SECTSIZE);
    while result > 0
      invariant fresh(fs) && fresh(buffer) && buffer.Length == 512 && fs.Valid()
      invariant 0 <= result <= 512 && |output| + result <= |content|
      invariant output == content[..|output|]
      invariant buffer[..result] == content[|output|..|output| + result]
      invariant Reading(fs.State(), content, |output| + result)
      invariant result == 0 ==> |output| == |content|
      decreases |content| - |output|
    {
      Joined(content, |output|, |output| + result);
      output := output + buffer[..result];
      ReadsNext(fs.State(), content, |output|);
      result := fs.FsRead(fd, buffer, SECTSIZE);
    }
    var _ := fs.FsClose(fd);
  }

  /** Descriptor 0 is open at offset o of a file with this content. */
  ghost predicate Reading(s: Fs, content: seq<byte>, o: nat) {
    IsOpen(s, 0) && ContentOf(s, 0) == content && s.descs[0].offset == o
  }

  lemma ReadsNext(s: Fs, content: seq<byte>, o: nat)
    requires Reading(s, content, o) && o <= |content|
    ensures var n := ReadCount(s, 0, 512);
            && n <= 512 && o + n <= |content| && (n == 0 <==> o == |content|)
            && ReadOp(s, 0, 512).1 == content[o..o + n]
            && Reading(ReadOp(s, 0, 512).0, content, o + n)
  {
  }

  lemma OpensForReading(files: FileTable, path: Path)
    requires !EmptyPath(path) && Readable(path.bytes, 24)
    requires SlotIn(files, NameForm(path.bytes, 24)) >= 0
    ensures var i := SlotIn(files, NameForm(path.bytes, 24));
            && files[i].File?
            && MayOpen(Fresh(files), path, O_RDONLY)
            && OpenOp(Fresh(files), path, O_RDONLY).1 == 0
            && Reading(OpenOp(Fresh(files), path, O_RDONLY).0, files[i].content, 0)
  {
    hide ClosedIn, NameForm;
    FirstDescriptor(Fresh(files).descs);
  }

  /** Looking a name up after one file was added: the new file is found by its own name, and
      every other name finds what it found before. */
  lemma AddedLookup(files: FileTable, path: Path, content: seq<byte>, name: Name)
    requires MayCreate(files, path)
    ensures var added, i := Added(files, path, content), SlotIn(files, name);
            if name == NameForm(path.bytes, 24)
            then SlotIn(added, name) == FreeIn(files) && added[FreeIn(files)].content == content
            else SlotIn(added, name) == i && (i >= 0 ==> added[i] == files[i])
  {
    hide NameForm, SlotIn, FreeIn;
    var added := Added(files, path, content);
    var i, k := SlotIn(files, name), SlotIn(added, name);
    assert Named(added[FreeIn(files)], NameForm(path.bytes, 24));
    assert i >= 0 && i != FreeIn(files) ==> Named(added[i], name);
    assert k >= 0 && k != FreeIn(files) ==> Named(files[k], name);
  }

  /** For any new path on any consistent image, however the input is split: what write_myfs
      reads, read_myfs outputs. */
  method RoundTrip(image: Image, path: Path, input: Stdin) returns (out: Image, output: seq<byte>)
    requires ImageOk(image) && MayCreate(DiskFiles(image), path) && input.pos == 0
    requires BlocksTaken(Added(DiskFiles(image), path, input.data)) <= 4096
    modifies input
    ensures ImageOk(out) && DiskFiles(out) == Added(DiskFiles(image), path, input.data)
    ensures output == input.data
  {
    hide ImageOk, DiskFiles, SlotIn, FreeIn, NameForm, Added, BlocksTaken;
    AddedLookup(DiskFiles(image), path, input.data, NameForm(path.bytes, 24));
    out := WriteMyfs(image, path, input);
    output := ReadMyfs(out, path);
  }

  /** Any file that was there reads after the writing as it did before. */
  method OthersRead(image: Image, path: Path, input: Stdin, other: Path) returns (before: seq<byte>, after: seq<byte>)
    requires ImageOk(image) && MayCreate(DiskFiles(image), path) && input.pos == 0
    requires BlocksTaken(Added(DiskFiles(image), path, input.data)) <= 4096
    requires !EmptyPath(other) && Readable(other.bytes, 24) && SlotIn(DiskFiles(image), NameForm(other.bytes, 24)) >= 0
    modifies input
    ensures after == before == DiskFiles(image)[SlotIn(DiskFiles(image), NameForm(other.bytes, 24))].content
  {
    hide ImageOk, DiskFiles, SlotIn, FreeIn, NameForm, Added, BlocksTaken;
    AddedLookup(DiskFiles(image), path, input.data, NameForm(other.bytes, 24));
    before := ReadMyfs(image, other);
    var out := WriteMyfs(image, path, input);
    after := ReadMyfs(out, other);
  }

  // ---------------------------------------------------------------- fs-test

  function FormattedSector(boot: Sector, k: nat): Sector { if k == 0 then boot else ZeroSector() }

  /** util/formatter: a zeroed image with the boot loader in its first sector. */
  function Formatted(boot: Sector): Image { seq(4099, k requires 0 <= k < 4099 => FormattedSector(boot, k)) }

  function NoHolders(): Holders { seq<Holder>(16, _ => -1) }

  function EmptyMeaning(): Ghosts { Ghosts(seq(16, _ => EMPTY_FILE), seq(4096, _ => Free), NoHolders()) }

  /** A formatted image is consistent and holds no file. */
  lemma FormattedOk(boot: Sector)
    ensures ImageOk(Formatted(boot))
    ensures forall i: Slot :: DiskFiles(Formatted(boot))[i].NoFile?
  {
    hide Core;
    var S, G := Mounted(Formatted(boot)), EmptyMeaning();
    FormattedTables(boot);
    FormattedCore(S, G);
    assert SizesOk(G.files, S.dir) by { assert forall i: Slot :: Sized(G.files[i], S.dir[i].fileSize); }
    assert Inv(S, G);
  }

  lemma FormattedCore(S: Sys, G: Ghosts)
    requires S == Mounted(S.disk) && G == EmptyMeaning()
    requires S.dir == seq(16, _ => EmptyEntry()) && UsedSet(S.bitmap) == {} && S.disk[2] == ZeroSector()
    ensures Core(S, G, -1, -1)
  {
    hide UsedSet, DecodeBitmap, EncodeBitmap, DecodeDir, EncodeDir;
    TablesRoundTrip(S.disk);
    ZeroTotal(G.files);
    assert OwnerOk(G) by { assert forall i: Slot :: FileOwned(G.owner, G.files[i], i); }
    assert DirOk(S.dir, G.files) by { assert forall i: Slot :: EntryOk(S.dir[i], G.files[i]); }
    assert BitmapOk(S.bitmap, G.owner);
    assert FlagsOk(S);
  }

  lemma TablesRoundTrip(disk: Image)
    requires DirOf(disk) == seq(16, _ => EmptyEntry()) && disk[2] == ZeroSector()
    ensures EncodeDir(DirOf(disk)) == disk[2] && EncodeBitmap(DecodeBitmap(disk[1])) == disk[1]
  {
    BytesRoundTrip(disk[1]);
    assert EncodeDir(DirOf(disk)) == ZeroSector();
  }

  lemma FormattedTables(boot: Sector)
    ensures DirOf(Formatted(boot)) == seq(16, _ => EmptyEntry())
    ensures UsedSet(DecodeBitmap(Formatted(boot)[1])) == {}
  {
    var disk := Formatted(boot);
    assert disk[1] == ZeroSector() && disk[2] == ZeroSector();
    forall i | 0 <= i < 16 ensures EntryAt(disk[2], i) == EmptyEntry() {
      assert disk[2][32 * i..32 * i + 24] == EmptyEntry().fileName;
    }
    var bitmap := DecodeBitmap(disk[1]);
    assert forall k :: 0 <= k < 128 ==> bitmap[k] == 0;
    forall b: nat ensures b !in UsedSet(bitmap) {
      UsedSetMember(bitmap, b);
      if b < NBLOCKS { BitZero(b % 32); }
    }
  }

  lemma {:induction false} ZeroTotal(files: seq<FileG>)
    requires forall i :: 0 <= i < |files| ==> files[i] == EMPTY_FILE
    ensures Total(files) == 0
  {
    if files == [] {
    } else {
      ZeroTotal(files[..|files| - 1]);
    }
  }

  /** "kernel.bin" and "user.bin" */
  const KERNEL_PATH: Path := Str(KERNEL_NAME)
  const USER_NAME: seq<byte> := [117, 115, 101, 114, 46, 98, 105, 110, 0]
  const USER_PATH: Path := Str(USER_NAME)

  /** Makefile:80-84 and 149-151: both files, written into a formatted image by one run of
      write_myfs each, read back whole; and the kernel lies where the boot loader expects. */
  method FsTest(boot: Sector, kernel: Stdin, user: Stdin) returns (image: Image, k: seq<byte>, u: seq<byte>)
    requires kernel != user && kernel.pos == 0 && user.pos == 0
    requires BlocksOf(|kernel.data|) + BlocksOf(|user.data|) <= 4096
    modifies kernel, user
    ensures k == kernel.data && u == user.data
    ensures DiskFiles(image)[0] == File(NameForm(KERNEL_NAME, 24), kernel.data)
    ensures kernel.data != [] ==> RawKernel(image, kernel.data)
    ensures ImageOk(image) && (kernel.data != [] ==> KernelInPlace(image))
  {
    hide DiskFiles, Formatted, SlotIn, FreeIn, NameForm, ImageOk, LoneFile, KernelInPlace;
    FormattedOk(boot);
    ghost var f0 := DiskFiles(Formatted(boot));
    FirstFile(f0, kernel.data);
    var one := WriteMyfs(Formatted(boot), KERNEL_PATH, kernel);
    if kernel.data != [] { LoneInPlace(one); }
    SecondFile(f0, kernel.data, user.data);
    image := WriteMyfs(one, USER_PATH, user);
    k := ReadMyfs(image, KERNEL_PATH);
    u := ReadMyfs(image, USER_PATH);
    if kernel.data != [] { KernelRaw(image, kernel.data); }
  }

  /** Sector by sector and byte by byte, what stands at the start of an image whose first file is
      the kernel: in sector 2 its name, its size and its first inode's number, 0; in sector 3 that
      inode, whose first pointer is 1; in sector 4 its first bytes. */
  ghost predicate RawKernel(image: Image, data: seq<byte>) {
    && (forall k :: 0 <= k < 10 ==> image[2][k] == "kernel.bin"[k] as int) && image[2][10] == 0
    && image[2][24] == |data| % 0x100 && image[2][25] == |data| / 0x100 % 0x100
    && image[2][26] == |data| / 0x1_0000 % 0x100 && image[2][27] == |data| / 0x100_0000
    && image[2][28] == 0 && image[2][29] == 0 && image[2][30] == 0 && image[2][31] == 0
    && image[3][0] == 1 && image[3][1] == 0 && image[3][2] == 0 && image[3][3] == 0
    && forall k :: 0 <= k < |data| && k < 512 ==> image[4][k] == data[k]
  }

  lemma KernelRaw(image: Image, data: seq<byte>)
    requires ImageOk(image) && KernelInPlace(image)
    requires DiskFiles(image)[0] == File(NameForm(KERNEL_NAME, 24), data)
    ensures RawKernel(image, data)
  {
    hide ImageOk, DecodeDir, DecodeINode, EncodeDir, EncodeINode, NameForm;
    var e, n := DirOf(image)[0], DecodeINode(image[3]);
    assert FileAt(image, 0) == File(NameForm(KERNEL_NAME, 24), data);
    DirBytesRoundTrip(image[2]);
    EntryBytes(DirOf(image), 0);
    INodeBytesRoundTrip(image[3]);
    INodeBytes(n, 0);
    forall k | 0 <= k < 11 ensures image[2][k] == NameForm(KERNEL_NAME, 24)[k] {
      assert image[2][0..24][k] == e.fileName[k];
    }
    KernelName();
    forall k | 0 <= k < |data| && k < 512 ensures image[4][k] == data[k] {
      assert data[k] == BytesAt(image, 0, |data|)[k];
      assert SectorAt(image, 0, 0) == image[4];
    }
  }

  lemma KernelName()
    ensures forall k :: 0 <= k < 10 ==> NameForm(KERNEL_NAME, 24)[k] == "kernel.bin"[k] as int
    ensures NameForm(KERNEL_NAME, 24)[10] == 0
  {
    KernelNameSpelled();
    hide NameForm;
    forall k | 0 <= k < 11 ensures NameForm(KERNEL_NAME, 24)[k] == KERNEL_NAME[k] { KernelNameAt(k); }
  }

  lemma KernelNameAt(k: nat)
    requires k < 11
    ensures NameForm(KERNEL_NAME, 24)[k] == KERNEL_NAME[k]
  {
    hide NameForm;
    var s := KERNEL_NAME;
    NameFormBytes(s, 24, k);
  }

  lemma NamesDiffer()
    ensures NameForm(KERNEL_NAME, 24) != NameForm(USER_NAME, 24)
  {
    DifferentForm(KERNEL_NAME, USER_NAME, 24, 0);
  }

  lemma {:induction false} NothingTaken(files: seq<File>)
    requires forall i :: 0 <= i < |files| ==> files[i].NoFile?
    ensures BlocksTaken(files) == 0
  {
    if files == [] {
    } else {
      NothingTaken(files[..|files| - 1]);
    }
  }

  lemma FirstFile(files: FileTable, data: seq<byte>)
    requires forall i: Slot :: files[i].NoFile?
    ensures MayCreate(files, KERNEL_PATH) && FreeIn(files) == 0
    ensures BlocksTaken(Added(files, KERNEL_PATH, data)) == BlocksOf(|data|)
  {
    hide NameForm;
    assert files[0].NoFile?;
    NothingTaken(files);
    BlocksTakenUpdate(files, 0, File(NameForm(KERNEL_NAME, 24), data));
  }

  lemma SecondFile(files: FileTable, first: seq<byte>, data: seq<byte>)
    requires FreeIn(files) == 0 && forall i: Slot :: files[i].NoFile?
    ensures var one := Added(files, KERNEL_PATH, first);
            && MayCreate(one, USER_PATH)
            && BlocksTaken(Added(one, USER_PATH, data)) == BlocksOf(|first|) + BlocksOf(|data|)
            && var two := Added(one, USER_PATH, data);
               && SlotIn(two, NameForm(KERNEL_NAME, 24)) == 0 && two[0].content == first
               && SlotIn(two, NameForm(USER_NAME, 24)) == 1 && two[1].content == data
  {
    hide NameForm;
    NamesDiffer();
    var one := Added(files, KERNEL_PATH, first);
    assert files[1].NoFile? && one[1].NoFile?;
    assert FreeIn(one) == 1;
    FirstFile(files, first);
    BlocksTakenUpdate(one, 1, File(NameForm(USER_NAME, 24), data));
    var two := Added(one, USER_PATH, data);
    assert two[0] == File(NameForm(KERNEL_NAME, 24), first);
    assert two[1] == File(NameForm(USER_NAME, 24), data);
  }
}
