/** SEEK_CUR and SEEK_END of kernel/fs.c:221-226, which move the cursor and leave the caches: what
    the next read then does, for every move, and when that is right. */
module FsSeek {
  import opened Words
  import opened CString
  import opened Bitmap
  import opened FsLayout
  import opened FsSpec
  import opened FsInv
  import opened FsAbs
  import opened FsImage
  import opened FileSystem
  import opened MyfsTools

  // ---------------------------------------------------------------- the code, in any state

  /** What fd_buffer_fetch comes to in a state that no invariant is known of: it fails its
      assertion, allocates a block, reads beyond the disk, or brings a sector. */
  datatype Fetch = Asserts | Allocates | Outside | Serves(sector: Sector)

  /** Through data pointer p. */
  function Behind(disk: Image, p: u32): Fetch {
    if p == 0 then Allocates else if p >= 4096 then Outside else Serves(disk[3 + p])
  }

  /** The disk after line 120 has written back the inode of d. */
  function FlushedDisk(disk: Image, d: Fd): Image {
    if d.inodeState == NEED_WASHING && d.inodeIdx < 4096 then disk[3 + d.inodeIdx := EncodeINode(d.inode)] else disk
  }

  /** Line 90 or 99: a new inode is made. */
  predicate NeedsINode(dir: Dir, d: Fd) {
    if d.offset == 0 then dir[d.index].inodeOffset == NO_INODE else d.inode.next == 0
  }

  /** The block number line 95 or 104 reads the inode from. */
  function NextNumber(dir: Dir, d: Fd): u32 { if d.offset == 0 then dir[d.index].inodeOffset else d.inode.next }

  /** Lines 116-131, as a function of the state. */
  function NextFetch(S: Sys, fd: nat): Fetch
    requires fd < 1024
  {
    var d := S.pool[fd];
    if d.bufferState != GARBAGE then Serves(d.buffer)
    else if d.offset % 512 != 0 then Asserts
    else if d.offset % 65024 != 0 then Behind(S.disk, d.inode.dataBlocks[d.offset / 512 % 127])
    else if d.inodeState == NEED_WASHING && d.inodeIdx >= 4096 then Outside
    else
      var disk, b := FlushedDisk(S.disk, d), NextNumber(S.dir, d);
      if NeedsINode(S.dir, d) then Allocates
      else if b >= 4096 then Outside
      else Behind(disk, DecodeINode(disk[3 + b]).dataBlocks[d.offset / 512 % 127])
  }

  /** What one turn of the read loop delivers. */
  datatype Turn = Failed(why: Fetch) | Delivered(chunk: seq<byte>)

  function NextTurn(S: Sys, fd: nat, rest: nat): Turn
    requires fd < 1024
  {
    var o := S.pool[fd].offset % 512;
    match NextFetch(S, fd)
    case Serves(sector) => Delivered(sector[o..o + Min(rest, 512 - o)])
    case why => Failed(why)
  }

  /** kernel/fs.c:119-123 in any state: moves the inode cache on at an inode boundary. */
  method StrayINode(fs: FileSystem, fd: nat) returns (ok: bool, why: Fetch)
    requires fd < 1024 && fs.fdPool[fd].offset % 512 == 0 && fs.fdPool[fd].bufferState == GARBAGE
    modifies fs`disk, fs`fdPool
    ensures ok ==>
              var d, d' := old(fs.fdPool[fd]), fs.fdPool[fd];
              && d' == d.(inodeState := d'.inodeState, inodeIdx := d'.inodeIdx, inode := d'.inode)
              && NextFetch(old(fs.S()), fd) == Behind(fs.disk, d'.inode.dataBlocks[d'.offset / 512 % 127])
    ensures !ok ==> !why.Serves? && why == NextFetch(old(fs.S()), fd)
  {
    hide EncodeINode, DecodeINode;
    if fs.fdPool[fd].offset % INODE_CAPACITY == 0 {
      if fs.fdPool[fd].inodeState == NEED_WASHING {
        if fs.fdPool[fd].inodeIdx >= 4096 { return false, Outside; }
        fs.disk := fs.disk[FSOFFSET_DATA + fs.fdPool[fd].inodeIdx := EncodeINode(fs.fdPool[fd].inode)];
      }
      fs.fdPool := fs.fdPool[fd := fs.fdPool[fd].(inodeState := GARBAGE)];
      var b := fs.dir[fs.fdPool[fd].index].inodeOffset;
      if fs.fdPool[fd].offset == 0 {
        if b == NO_INODE { return false, Allocates; }
      } else {
        b := fs.fdPool[fd].inode.next;
        if b == 0 { return false, Allocates; }
      }
      if b >= 4096 { return false, Outside; }
      var inode := DecodeINode(fs.disk[FSOFFSET_DATA + b]);
      fs.fdPool := fs.fdPool[fd := fs.fdPool[fd].(inodeState := USEFUL, inodeIdx := b, inode := inode)];
    }
    return true, Outside;
  }

  /** kernel/fs.c:177-180 in any state, up to the point where it fails or would allocate. */
  method StrayRead(fs: FileSystem, fd: nat, rest: nat) returns (r: Turn)
    requires fd < 1024
    modifies fs`disk, fs`fdPool
    ensures r == NextTurn(old(fs.S()), fd, rest)
  {
    if fs.fdPool[fd].bufferState == GARBAGE {
      hide NextFetch, FlushedDisk, NextNumber;
      if fs.fdPool[fd].offset % SECTSIZE != 0 {
        MustFail(fs.S(), fd);
        return Failed(Asserts);
      }
      var ok, why := StrayINode(fs, fd);
      if !ok { return Failed(why); }
      var index := fs.fdPool[fd].offset / SECTSIZE % N_INODE_DATABLOCK;
      var p := fs.fdPool[fd].inode.dataBlocks[index];
      if p == 0 { return Failed(Allocates); }
      if p >= 4096 { return Failed(Outside); }
      fs.fdPool := fs.fdPool[fd := fs.fdPool[fd].(bufferIdx := p, buffer := fs.disk[FSOFFSET_DATA + p],
                                                  bufferState := USEFUL)];
    }
    var offset := fs.fdPool[fd].offset % SECTSIZE;
    var count := Min(rest, SECTSIZE - offset);
    fs.fdPool := fs.fdPool[fd := fs.fdPool[fd].(offset := fs.fdPool[fd].offset + count)];
    return Delivered(fs.fdPool[fd].buffer[offset..offset + count]);
  }

  lemma MustFail(S: Sys, fd: nat)
    requires fd < 1024 && S.pool[fd].bufferState == GARBAGE && S.pool[fd].offset % 512 != 0
    ensures NextFetch(S, fd) == Asserts
  {
  }

  // ---------------------------------------------------------------- what it comes to

  /** Which sector of its file the next read is served, by number, if any. */
  datatype Outcome = Assertion | Allocation | Sector(number: nat)

  /** The inode that a descriptor at offset 0 still has in its field from before: none, or
      number c of its file. */
  datatype Left = Nothing | INodeNumber(c: nat)

  /** At a sector boundary n > 0, coming with inode number c of a file of so many sectors. */
  function Through(c: nat, n: nat, sectors: nat): Outcome {
    var t := if n % 65024 == 0 then 127 * (c + 1) else 127 * c + n / 512 % 127;
    if t < sectors then Sector(t) else Allocation
  }

  /** The next read after the cursor went from o to n. */
  function NextSector(o: nat, n: nat, sectors: nat, left: Left): Outcome {
    if o % 512 != 0 then Sector(o / 512)
    else if n % 512 != 0 then Assertion
    else if n == 0 then Sector(0)
    else if o > 0 then Through((o - 1) / 65024, n, sectors)
    else if left == Nothing then Allocation
    else Through(left.c, n, sectors)
  }

  /** Served, where what was left in the inode field may help. */
  predicate ServedWith(o: nat, n: nat, left: Left) {
    Served(o, n) || (o == 0 && n % 512 == 0 && n > 0 && left == INodeNumber((n - 1) / 65024))
  }

  /** The next read is served the sector of its cursor for exactly these moves. */
  lemma RightSector(o: nat, n: nat, sectors: nat, left: Left)
    requires n < 512 * sectors
    ensures NextSector(o, n, sectors, left) == Sector(n / 512) <==> ServedWith(o, n, left)
  {
    Position(n);
    if n > 0 && n % 512 == 0 {
      if o > 0 { ThroughRight((o - 1) / 65024, n, sectors); }
      if left != Nothing { ThroughRight(left.c, n, sectors); }
    }
  }

  lemma ThroughRight(c: nat, n: nat, sectors: nat)
    requires 0 < n < 512 * sectors && n % 512 == 0
    ensures Through(c, n, sectors) == Sector(n / 512) <==> c == (n - 1) / 65024
  {
    Position(n);
    var q, k := n / 65024, n / 512 % 127;
    assert n == 65024 * q + 512 * k;
    if k == 0 { assert (n - 1) / 65024 == q - 1; } else { assert (n - 1) / 65024 == q; }
  }

  // ---------------------------------------------------------------- the code does just that

  ghost predicate LeftIs(g: FileG, d: Fd, left: Left) {
    match left
    case Nothing => d.inode == ZeroINode()
    case INodeNumber(c) => c < |g.chain| && d.inode == INodeOf(g, c)
  }

  /** A data pointer of inode number c leads to its sector, or there is none. */
  lemma BehindPointer(S: Sys, G: Ghosts, fd: nat, c: nat, k: nat)
    requires Core(S, G, -1, -1) && fd < 1024 && S.pool[fd].isOpen && S.pool[fd].bufferState != NEED_WASHING && k < 127
    ensures var g := G.files[S.pool[fd].index];
            Behind(S.disk, INodeOf(g, c).dataBlocks[k]) ==
            if 127 * c + k < |g.blocks| then Serves(SectorOf(g, 127 * c + k)) else Allocates
  {
    hide DiskOk, BitmapOk, DirOk, HolderOk;
    var i := S.pool[fd].index;
    var g := G.files[i];
    assert FileOwned(G.owner, g, i);
    if 127 * c + k < |g.blocks| {
      BlockSeparation(G, i, i);
      OnDisk(S, G, -1, fd, g.blocks[127 * c + k]);
    }
  }

  /** Inode number c read from disk, the descriptor's own being clean. */
  lemma INodeOnDisk(S: Sys, G: Ghosts, fd: nat, c: nat)
    requires Core(S, G, -1, -1) && fd < 1024 && S.pool[fd].isOpen && S.pool[fd].inodeState != NEED_WASHING
    requires c < |G.files[S.pool[fd].index].chain|
    ensures var g := G.files[S.pool[fd].index]; DecodeINode(S.disk[3 + g.chain[c]]) == INodeOf(g, c)
  {
    hide DiskOk, BitmapOk, DirOk, HolderOk, INodeOf;
    var i := S.pool[fd].index;
    var g := G.files[i];
    assert FileOwned(G.owner, g, i);
    OnDisk(S, G, -1, fd, g.chain[c]);
    INodeRoundTrip(INodeOf(g, c));
  }

  /** The state with the cursor of fd at n. */
  function MovedTo(S: Sys, fd: nat, n: nat): Sys
    requires fd < 1024
  {
    S.(pool := S.pool[fd := S.pool[fd].(offset := n)])
  }

  /** The state with the inode of fd written back. */
  function Washed(S: Sys, fd: nat): Sys
    requires fd < 1024
  {
    if S.pool[fd].inodeState == NEED_WASHING then
      S.(disk := FlushedDisk(S.disk, S.pool[fd]), pool := S.pool[fd := S.pool[fd].(inodeState := USEFUL)])
    else S
  }

  lemma WashedCore(S: Sys, G: Ghosts, fd: nat)
    requires Core(S, G, -1, -1) && fd < 1024 && S.pool[fd].isOpen
    ensures Core(Washed(S, fd), G, -1, -1) && Washed(S, fd).disk == FlushedDisk(S.disk, S.pool[fd])
    ensures S.pool[fd].inodeState == NEED_WASHING ==> S.pool[fd].inodeIdx < 4096
  {
    hide Core, INodeOf;
    CoreFacts(S, G, -1, -1, fd);
    if S.pool[fd].inodeState == NEED_WASHING { FlushINode(S, G, -1, -1, fd, Washed(S, fd)); }
  }

  /** The outcome, in terms of the file. */
  ghost predicate Brings(f: Fetch, g: FileG, out: Outcome) {
    match out
    case Assertion => f == Asserts
    case Allocation => f == Allocates
    case Sector(t) => t < |g.blocks| && f == Serves(SectorOf(g, t))
  }

  /** At a boundary inside an inode's part of the file, the code uses the inode at hand. */
  lemma FetchSame(S: Sys, G: Ghosts, fd: nat, n: nat, c: nat)
    requires Core(S, G, -1, -1) && fd < 1024 && S.pool[fd].isOpen && S.pool[fd].bufferState == GARBAGE
    requires n % 512 == 0 && n % 65024 != 0 && S.pool[fd].inode == INodeOf(G.files[S.pool[fd].index], c)
    ensures var g := G.files[S.pool[fd].index]; Brings(NextFetch(MovedTo(S, fd, n), fd), g, Through(c, n, |g.blocks|))
  {
    hide Core, INodeOf;
    BehindPointer(S, G, fd, c, n / 512 % 127);
  }

  /** At the start of a later inode's part, it goes to the next inode after the one at hand. */
  lemma FetchNext(S: Sys, G: Ghosts, fd: nat, n: nat, c: nat)
    requires Core(S, G, -1, -1) && fd < 1024 && S.pool[fd].isOpen && S.pool[fd].bufferState == GARBAGE
    requires n > 0 && n % 65024 == 0
    requires var g := G.files[S.pool[fd].index]; c < |g.chain| && S.pool[fd].inode == INodeOf(g, c)
    ensures var g := G.files[S.pool[fd].index]; Brings(NextFetch(MovedTo(S, fd, n), fd), g, Through(c, n, |g.blocks|))
  {
    hide Core, INodeOf, DecodeINode, EncodeINode;
    var i := S.pool[fd].index;
    var g, S1 := G.files[i], Washed(S, fd);
    CoreFacts(S, G, -1, -1, fd);
    WashedCore(S, G, fd);
    Position(n);
    NextIs(G, i, c);
    if c + 1 < |g.chain| {
      BlockSeparation(G, i, i);
      assert g.chain[c + 1] == g.chain[1..][c];
      INodeOnDisk(S1, G, fd, c + 1);
      BehindPointer(S1, G, fd, c + 1, 0);
    }
  }

  lemma NextIs(G: Ghosts, i: Slot, c: nat)
    ensures INodeOf(G.files[i], c).next == NextOf(G.files[i], c)
  {
  }

  /** At the start of the file, it goes to the first inode. */
  lemma FetchFirst(S: Sys, G: Ghosts, fd: nat)
    requires Core(S, G, -1, -1) && fd < 1024 && S.pool[fd].isOpen && S.pool[fd].bufferState == GARBAGE
    requires |G.files[S.pool[fd].index].blocks| > 0
    ensures Brings(NextFetch(MovedTo(S, fd, 0), fd), G.files[S.pool[fd].index], Sector(0))
  {
    hide Core, INodeOf, DecodeINode, EncodeINode;
    var i := S.pool[fd].index;
    var g, S1 := G.files[i], Washed(S, fd);
    CoreFacts(S, G, -1, -1, fd);
    WashedCore(S, G, fd);
    FirstNumber(S, G, i);
    INodeOnDisk(S1, G, fd, 0);
    BehindPointer(S1, G, fd, 0, 0);
  }

  lemma FirstNumber(S: Sys, G: Ghosts, i: Slot)
    requires Core(S, G, -1, -1) && Occupied(S.dir[i]) && |G.files[i].blocks| > 0
    ensures |G.files[i].chain| > 0 && S.dir[i].inodeOffset == G.files[i].chain[0]
  {
    assert EntryOk(S.dir[i], G.files[i]) && FileOwned(G.owner, G.files[i], i);
  }

  /** Inside a sector, the code goes on with the buffer it has. */
  lemma FetchHeld(S: Sys, G: Ghosts, fd: nat, n: nat)
    requires Inv(S, G) && fd < 1024 && S.pool[fd].isOpen && S.pool[fd].bufferState != GARBAGE
    ensures Brings(NextFetch(MovedTo(S, fd, n), fd), G.files[S.pool[fd].index], Sector(S.pool[fd].offset / 512))
  {
    hide Core;
    OpenView(S, G, fd);
    BufferSlice(S, G, -1, -1, fd, S.pool[fd].offset / 512);
    CoreFacts(S, G, -1, -1, fd);
    AtHandExists(G, S.pool[fd]);
  }

  /** From any state between operations, whatever the move: the next fetch is NextSector. */
  lemma NextFetchIs(S: Sys, G: Ghosts, fd: nat, n: nat, left: Left)
    requires Inv(S, G) && fd < 1024 && S.pool[fd].isOpen && Tight(S.pool[fd])
    requires n < S.dir[S.pool[fd].index].fileSize
    requires S.pool[fd].offset == 0 && n > 0 ==> LeftIs(G.files[S.pool[fd].index], S.pool[fd], left)
    ensures var g := G.files[S.pool[fd].index];
            |g.blocks| == DataBlocksOf(S.dir[S.pool[fd].index].fileSize)
            && Brings(NextFetch(MovedTo(S, fd, n), fd), g, NextSector(S.pool[fd].offset, n, |g.blocks|, left))
  {
    hide Core, INodeOf, NextFetch, Brings;
    var i, o := S.pool[fd].index, S.pool[fd].offset;
    var g := G.files[i];
    OpenView(S, G, fd);
    CoreFacts(S, G, -1, -1, fd);
    assert Sized(g, S.dir[i].fileSize);
    SizedBlocks(g, S.dir[i].fileSize);
    if o % 512 != 0 {
      FetchHeld(S, G, fd, n);
    } else if n % 512 != 0 {
      FetchFails(S, G, fd, n);
    } else if n == 0 {
      FetchFirst(S, G, fd);
    } else if o > 0 {
      INodeHeld(S, G, fd);
      if n % 65024 == 0 { FetchNext(S, G, fd, n, (o - 1) / 65024); } else { FetchSame(S, G, fd, n, (o - 1) / 65024); }
    } else if left == Nothing {
      FetchUnused(S, G, fd, n);
    } else {
      if n % 65024 == 0 { FetchNext(S, G, fd, n, left.c); } else { FetchSame(S, G, fd, n, left.c); }
    }
  }

  lemma FetchFails(S: Sys, G: Ghosts, fd: nat, n: nat)
    requires fd < 1024 && S.pool[fd].bufferState == GARBAGE && n % 512 != 0
    ensures Brings(NextFetch(MovedTo(S, fd, n), fd), G.files[S.pool[fd].index], Assertion)
  {
  }

  lemma FetchUnused(S: Sys, G: Ghosts, fd: nat, n: nat)
    requires fd < 1024 && S.pool[fd].bufferState == GARBAGE && S.pool[fd].inodeState == GARBAGE && n > 0 && n % 512 == 0
    requires S.pool[fd].inode == ZeroINode()
    ensures Brings(NextFetch(MovedTo(S, fd, n), fd), G.files[S.pool[fd].index], Allocation)
  {
  }

  lemma INodeHeld(S: Sys, G: Ghosts, fd: nat)
    requires Inv(S, G) && fd < 1024 && S.pool[fd].isOpen && S.pool[fd].bufferState == GARBAGE && S.pool[fd].offset > 0
    ensures var g, c := G.files[S.pool[fd].index], (S.pool[fd].offset - 1) / 65024;
            c < |g.chain| && S.pool[fd].inode == INodeOf(g, c)
  {
    hide DiskOk, BitmapOk, DirOk, HolderOk, INodeOf, SizesOk;
    OpenView(S, G, fd);
    assert FdOk(G, S.pool[fd], fd) && OwnedBack(G.owner, G.files, S.pool[fd].inodeIdx);
  }

  // ---------------------------------------------------------------- the next read

  /** The turn, in terms of the content: the bytes of that sector from where the cursor is in its
      own, as far as the content goes. */
  ghost predicate Gives(r: Turn, content: seq<byte>, out: Outcome, n: nat, rest: nat) {
    match out
    case Assertion => r == Failed(Asserts)
    case Allocation => r == Failed(Allocates)
    case Sector(t) =>
      && r.Delivered? && |r.chunk| == Min(rest, 512 - n % 512)
      && forall m :: 0 <= m < |r.chunk| && 512 * t + n % 512 + m < |content| ==>
           r.chunk[m] == content[512 * t + n % 512 + m]
  }

  /** What the next read delivers after a seek from o to n, in every state between operations and
      for every move. */
  lemma NextReadIs(S: Sys, G: Ghosts, fd: nat, n: nat, left: Left, rest: nat)
    requires Inv(S, G) && fd < 1024 && S.pool[fd].isOpen && Tight(S.pool[fd])
    requires S.pool[fd].offset == 0 && n > 0 ==> LeftIs(G.files[S.pool[fd].index], S.pool[fd], left)
    ensures IsOpen(Abs(S, G), fd)
    ensures var content := ContentOf(Abs(S, G), fd);
            n < |content| ==>
              Gives(NextTurn(MovedTo(S, fd, n), fd, rest), content,
                    NextSector(S.pool[fd].offset, n, DataBlocksOf(|content|), left), n, rest)
  {
    hide Inv, NextFetch, NextSector, INodeOf, DataBlocksOf;
    OpenView(S, G, fd);
    var i := S.pool[fd].index;
    if n < S.dir[i].fileSize {
      NextFetchIs(S, G, fd, n, left);
      var out := NextSector(S.pool[fd].offset, n, |G.files[i].blocks|, left);
      if out.Sector? { SectorBytes(G.files[i], S.dir[i].fileSize, out.number); }
    }
  }

  lemma SectorBytes(g: FileG, n: nat, t: nat)
    ensures forall m :: 0 <= m < 512 && 512 * t + m < n ==> SectorOf(g, t)[m] == Content(g, n)[512 * t + m]
  {
    forall m | 0 <= m < 512 && 512 * t + m < n ensures SectorOf(g, t)[m] == Content(g, n)[512 * t + m] {
      assert (512 * t + m) / 512 == t && (512 * t + m) % 512 == m;
    }
  }

  /** So it delivers the bytes at the cursor after exactly the moves that are served; after any
      other it fails, allocates, or delivers bytes from the same place in another sector. */
  lemma NextReadRight(r: Turn, content: seq<byte>, o: nat, n: nat, left: Left, rest: nat)
    requires n < |content| && rest <= |content| - n
    requires Gives(r, content, NextSector(o, n, DataBlocksOf(|content|), left), n, rest)
    ensures ServedWith(o, n, left) ==> r == Delivered(content[n..n + Min(rest, 512 - n % 512)])
    ensures !ServedWith(o, n, left) ==>
              r.Failed? || exists t :: t != n / 512 && Gives(r, content, Sector(t), n, rest)
  {
    var sectors := DataBlocksOf(|content|);
    RightSector(o, n, sectors, left);
    if ServedWith(o, n, left) {
      var chunk := content[n..n + Min(rest, 512 - n % 512)];
      assert n == 512 * (n / 512) + n % 512;
      assert r.chunk == chunk;
    }
  }

  // ---------------------------------------------------------------- on the real thing

  /** Mount, open read-only, read o bytes, SEEK_CUR to n, read: for every image, file, o and n. */
  method SeekThenRead(image: Image, path: Path, o: nat, n: nat, rest: nat) returns (r: Turn)
    requires ImageOk(image) && !EmptyPath(path) && Readable(path.bytes, 24)
    requires SlotIn(DiskFiles(image), NameForm(path.bytes, 24)) >= 0
    requires var content := DiskFiles(image)[SlotIn(DiskFiles(image), NameForm(path.bytes, 24))].content;
             o <= |content| && n < |content| && rest <= |content| - n
    ensures var content := DiskFiles(image)[SlotIn(DiskFiles(image), NameForm(path.bytes, 24))].content;
            && Gives(r, content, NextSector(o, n, DataBlocksOf(|content|), Nothing), n, rest)
            && (Served(o, n) ==> r == Delivered(content[n..n + Min(rest, 512 - n % 512)]))
  {
    hide Inv, DiskFiles, SlotIn, OpenOp, MayOpen, Abs, AllClosed, ReadOp, ReadCount, NextTurn, Gives,
         NextSector, Served, DataBlocksOf, NameForm, SeekServed, SeekSafe, SeekOp, Mounted, Opened, Reading;
    var fs := new FileSystem(image);
    fs.FsInit();
    FreshState(fs);
    ghost var files := DiskFiles(image);
    ghost var content := files[SlotIn(files, NameForm(path.bytes, 24))].content;
    OpensForReading(files, path);
    var fd := fs.FsOpen(path, O_RDONLY);
    UnusedINode(fs.fdPool);
    var buffer := new byte[o];
    ReadsFirst(fs.State(), content, o);
    var got := fs.FsRead(fd, buffer, o);
    ghost var S0, G0 := fs.S(), fs.G;
    AtOffset(S0, G0, content, o);
    var _ := fs.FsLseek(fd, n - o, SEEK_CUR);
    assert fs.S() == MovedTo(S0, 0, n);
    r := StrayRead(fs, fd, rest);
    NextReadIs(S0, G0, 0, n, Nothing, rest);
    NextReadRight(r, content, o, n, Nothing, rest);
  }

  /** A descriptor opened right after mounting has no inode left from before. */
  lemma UnusedINode(pool: Pool)
    requires Opened(AllClosed(), pool)
    ensures pool[0].inode == ZeroINode()
  {
    assert pool[0].inode == AllClosed()[0].inode;
  }

  lemma ReadsFirst(s: Fs, content: seq<byte>, o: nat)
    requires Reading(s, content, 0) && o <= |content|
    ensures IsOpen(s, 0) && ReadCount(s, 0, o) == o && Reading(ReadOp(s, 0, o).0, content, o)
  {
  }

  lemma AtOffset(S: Sys, G: Ghosts, content: seq<byte>, o: nat)
    requires Inv(S, G) && Reading(Abs(S, G), content, o)
    ensures S.pool[0].isOpen && S.pool[0].offset == o && |content| < 0x1_0000_0000
    ensures ContentOf(Abs(S, G), 0) == content
    ensures SeekTarget(Abs(S, G), 0, 0, SEEK_CUR) == o % 0x1_0000_0000
  {
    hide Inv;
    OpenIsOpen(S, G, 0);
    OpenView(S, G, 0);
  }

  /** Byte k of a file of 129 sectors, each filled with its number. */
  function StripeByte(k: nat): byte { k / 512 % 256 }

  function Stripes(): seq<byte> { seq(66048, k requires 0 <= k < 66048 => StripeByte(k)) }

  /** One case of each kind, on that file written to a formatted image: from inside a sector to
      inside another and to the start of another, from a boundary to inside a sector, to a
      boundary under another inode, and from the start of the file to a later boundary. */
  method SeekExamples(boot: Sector)
    returns (image: Image, inside: Turn, start: Turn, fails: Turn, inode: Turn, first: Turn)
    ensures ImageOk(image) && DiskFiles(image)[0].File? && DiskFiles(image)[0].content == Stripes()
    ensures inside == Delivered([0]) && Stripes()[513] == 1
    ensures start == Delivered([0]) && Stripes()[512] == 1
    ensures fails == Failed(Asserts)
    ensures inode == Delivered([1]) && Stripes()[65536] == 128
    ensures first == Failed(Allocates)
  {
    hide DiskFiles, Formatted, SlotIn, FreeIn, NameForm, ImageOk, LoneFile, KernelInPlace, Stripes;
    FormattedOk(boot);
    ghost var files := DiskFiles(Formatted(boot));
    ghost var content := Stripes();
    StripesAre();
    FirstFile(files, Stripes());
    AddedLookup(files, KERNEL_PATH, Stripes(), NameForm(KERNEL_NAME, 24));
    var input := new Stdin(Stripes());
    image := WriteMyfs(Formatted(boot), KERNEL_PATH, input);
    inside := SeekThenRead(image, KERNEL_PATH, 1, 513, 1);
    start := SeekThenRead(image, KERNEL_PATH, 1, 512, 1);
    fails := SeekThenRead(image, KERNEL_PATH, 512, 513, 1);
    inode := SeekThenRead(image, KERNEL_PATH, 512, 65536, 1);
    first := SeekThenRead(image, KERNEL_PATH, 0, 512, 1);
  }

  lemma StripesAre()
    ensures |Stripes()| == 66048 && forall k :: 0 <= k < 66048 ==> Stripes()[k] == StripeByte(k)
  {
  }
}
