/** The invariant that ties the disk, the dirty caches and the tables of kernel/fs.c to
    the files they stand for, and how each micro-step of the code preserves it.

    Ghosts says what the blocks mean: each file's inode chain, data blocks and sector
    contents, the role of every block, and which descriptor (if any) may hold
    unwritten changes of a file. */
module FsInv {
  import opened Words
  import opened CString
  import opened Bitmap
  import opened FsLayout

  datatype CacheState = GARBAGE | USEFUL | NEED_WASHING

  datatype Fd = Fd(index: Slot, offset: nat, buffer: Sector, inode: INode,
                   bufferIdx: u32, inodeIdx: u32, bufferState: CacheState, inodeState: CacheState,
                   isOpen: bool, writable: bool)

  function ClosedFd(): Fd { Fd(0, 0, ZeroSector(), ZeroINode(), 0, 0, GARBAGE, GARBAGE, false, false) }

  type Pool = p: seq<Fd> | |p| == 1024 witness seq(1024, _ => ClosedFd())

  /** The whole concrete state: the disk and the variables of kernel/fs.c. */
  datatype Sys = Sys(disk: Image, dir: Dir, bitmap: WordSector,
                     stateDir: CacheState, stateBitmap: CacheState, pool: Pool)

  datatype Owner = Free | InodeOf(slot: Slot, idx: nat) | DataOf(slot: Slot, idx: nat)
  type Owners = o: seq<Owner> | |o| == 4096 witness seq(4096, _ => Free)

  datatype FileG = FileG(chain: seq<Block>, blocks: seq<Block>, sects: seq<Sector>)
  const EMPTY_FILE := FileG([], [], [])
  type Files = f: seq<FileG> | |f| == 16 witness seq(16, _ => EMPTY_FILE)

  /** The only descriptor that may hold unwritten changes of a file, or -1. */
  type Holder = h: int | -1 <= h < 1024
  type Holders = h: seq<Holder> | |h| == 16 witness seq<Holder>(16, _ => -1)

  datatype Ghosts = Ghosts(files: Files, owner: Owners, holder: Holders)

  // ---------------------------------------------------------------- what blocks mean

  /** Data pointer k of inode number c of file g. */
  function PointerOf(g: FileG, c: nat, k: nat): u32 {
    if 127 * c + k < |g.blocks| then g.blocks[127 * c + k] else 0
  }

  function NextOf(g: FileG, c: nat): u32 {
    if c + 1 < |g.chain| then g.chain[c + 1] else 0
  }

  /** Inode number c of file g. */
  function INodeOf(g: FileG, c: nat): INode {
    INode(seq(127, k requires 0 <= k < 127 => PointerOf(g, c, k)), NextOf(g, c))
  }

  function SectorOf(g: FileG, s: nat): Sector {
    if s < |g.sects| then g.sects[s] else ZeroSector()
  }

  /** What block b holds once every cache is written back. */
  function Logical(G: Ghosts, b: Block): Sector {
    match G.owner[b]
    case Free => ZeroSector()
    case InodeOf(i, c) => EncodeINode(INodeOf(G.files[i], c))
    case DataOf(i, s) => SectorOf(G.files[i], s)
  }

  // ---------------------------------------------------------------- the invariant

  ghost predicate FileOwned(owner: Owners, g: FileG, i: Slot) {
    && |g.sects| == |g.blocks| <= 127 * |g.chain|
    && (forall c :: 0 <= c < |g.chain| ==> owner[g.chain[c]] == InodeOf(i, c))
    && (forall s :: 0 <= s < |g.blocks| ==> owner[g.blocks[s]] == DataOf(i, s))
  }

  ghost predicate OwnedBack(owner: Owners, files: Files, b: Block) {
    match owner[b]
    case Free => true
    case InodeOf(i, c) => c < |files[i].chain| && files[i].chain[c] == b
    case DataOf(i, s) => s < |files[i].blocks| && files[i].blocks[s] == b
  }

  /** Each used block has exactly one role in exactly one file, and block 0 is free only
      on an empty disk, never a data block, and never a later inode of a chain. */
  ghost predicate OwnerOk(G: Ghosts) {
    && (forall i: Slot :: FileOwned(G.owner, G.files[i], i))
    && (forall b: Block :: OwnedBack(G.owner, G.files, b))
    && (G.owner[0] == Free ==> forall b: Block :: G.owner[b] == Free)
    && !G.owner[0].DataOf?
    && (G.owner[0].InodeOf? ==> G.owner[0].idx == 0)
  }

  /** The bitmap marks exactly the blocks that have an owner. */
  ghost predicate BitmapOk(bitmap: WordSector, owner: Owners) {
    forall b: nat :: b in UsedSet(bitmap) <==> b < 4096 && owner[b] != Free
  }

  /** A clean copy of the directory or the bitmap equals its sector. */
  ghost predicate FlagsOk(S: Sys) {
    && S.stateDir != GARBAGE && S.stateBitmap != GARBAGE
    && (S.stateDir == USEFUL ==> S.disk[2] == EncodeDir(S.dir))
    && (S.stateBitmap == USEFUL ==> S.disk[1] == EncodeBitmap(S.bitmap))
  }

  predicate Washing(fd: Fd) { fd.inodeState == NEED_WASHING || fd.bufferState == NEED_WASHING }

  predicate DirtyBy(fd: Fd, b: Block) {
    || (fd.inodeState == NEED_WASHING && fd.inodeIdx == b)
    || (fd.bufferState == NEED_WASHING && fd.bufferIdx == b)
  }

  predicate Dirty(pool: Pool, G: Ghosts, b: Block)
    requires G.owner[b] != Free
  {
    var h := G.holder[G.owner[b].slot];
    h >= 0 && DirtyBy(pool[h], b)
  }

  /** Overlaying the dirty caches on the disk gives Logical; block x is exempt. */
  ghost predicate DiskOk(S: Sys, G: Ghosts, x: int) {
    forall b: Block :: G.owner[b] != Free && b != x && !Dirty(S.pool, G, b) ==> S.disk[3 + b] == Logical(G, b)
  }

  /** Descriptor j is open, or is the one (a) an operation is working on. */
  predicate Live(pool: Pool, a: int, j: int)
    requires 0 <= j < 1024
  {
    pool[j].isOpen || j == a
  }

  /** The holder of a file is the file's only live descriptor. */
  ghost predicate HolderOk(pool: Pool, holder: Holders, a: int, i: Slot) {
    holder[i] >= 0 ==>
      && Live(pool, a, holder[i]) && pool[holder[i]].index == i
      && forall k :: 0 <= k < 1024 && Live(pool, a, k) && pool[k].index == i ==> k == holder[i]
  }

  ghost predicate INodeCacheOk(G: Ghosts, fd: Fd) {
    fd.inodeState != GARBAGE ==>
      && fd.inodeIdx < 4096
      && G.owner[fd.inodeIdx].InodeOf? && G.owner[fd.inodeIdx].slot == fd.index
      && fd.inode == INodeOf(G.files[fd.index], G.owner[fd.inodeIdx].idx)
  }

  ghost predicate BufferOk(G: Ghosts, fd: Fd) {
    fd.bufferState != GARBAGE ==>
      && fd.bufferIdx < 4096
      && G.owner[fd.bufferIdx].DataOf? && G.owner[fd.bufferIdx].slot == fd.index
      && fd.buffer == SectorOf(G.files[fd.index], G.owner[fd.bufferIdx].idx)
  }

  /** What a live descriptor has cached is what the blocks mean. */
  ghost predicate FdOk(G: Ghosts, fd: Fd, j: int) {
    && INodeCacheOk(G, fd)
    && BufferOk(G, fd)
    && (Washing(fd) ==> G.holder[fd.index] == j)
  }

  predicate Occupied(e: DirEntry) { e.fileName[0] != 0 }

  ghost predicate EntryOk(e: DirEntry, g: FileG) {
    && Padded(e.fileName)
    && (!Occupied(e) ==> e.fileSize == 0 && g == EMPTY_FILE)
    && (Occupied(e) ==> e.inodeOffset == if g.chain == [] then NO_INODE else g.chain[0])
  }

  ghost predicate DirOk(dir: Dir, files: Files) {
    && (forall i: Slot :: EntryOk(dir[i], files[i]))
    && (forall i: Slot, k: Slot :: i != k && Occupied(dir[i]) ==> dir[i].fileName != dir[k].fileName)
  }

  ghost predicate LiveOccupied(pool: Pool, dir: Dir, a: int) {
    forall j :: 0 <= j < 1024 && Live(pool, a, j) ==> Occupied(dir[pool[j].index])
  }

  function Size(g: FileG): nat { |g.chain| + |g.blocks| }

  function Total(files: seq<FileG>): nat {
    if files == [] then 0 else Total(files[..|files| - 1]) + Size(files[|files| - 1])
  }

  /** Everything that holds inside an operation of descriptor a (or outside, a == -1);
      x is the one block, if any, whose sector is not yet backed by a dirty cache. */
  ghost predicate Core(S: Sys, G: Ghosts, x: int, a: int) {
    && OwnerOk(G)
    && BitmapOk(S.bitmap, G.owner)
    && |UsedSet(S.bitmap)| == Total(G.files)
    && FlagsOk(S)
    && DiskOk(S, G, x)
    && (forall i: Slot :: HolderOk(S.pool, G.holder, a, i))
    && (forall j :: 0 <= j < 1024 && Live(S.pool, a, j) ==> FdOk(G, S.pool[j], j))
    && DirOk(S.dir, G.files)
    && LiveOccupied(S.pool, S.dir, a)
  }

  /** File g has exactly the blocks n bytes need: no fewer, and none to spare. */
  ghost predicate Sized(g: FileG, n: nat) {
    && n <= 512 * |g.blocks| < n + 512
    && n <= 65024 * |g.chain| < n + 65024
  }

  lemma SizedBlocks(g: FileG, n: nat)
    ensures Sized(g, n) <==> |g.blocks| == DataBlocksOf(n) && |g.chain| == INodesOf(n)
  {
  }

  /** The caches of fd hold the sector and the inode of offset o. */
  ghost predicate AtHand(owner: Owners, fd: Fd, o: nat) {
    && fd.bufferState != GARBAGE && fd.bufferIdx < 4096 && owner[fd.bufferIdx] == DataOf(fd.index, o / 512)
    && fd.inodeState != GARBAGE && fd.inodeIdx < 4096 && owner[fd.inodeIdx] == InodeOf(fd.index, o / 65024)
  }

  /** Between operations: the buffer, if in use, holds the sector of the cursor; if not, the
      cursor is at a sector boundary, and the inode at hand is that of the byte before it. */
  ghost predicate PosOk(owner: Owners, fd: Fd, size: nat) {
    && fd.offset <= size
    && (fd.bufferState == GARBAGE ==> fd.offset % 512 == 0)
    && (fd.bufferState != GARBAGE ==> AtHand(owner, fd, fd.offset))
    && (fd.bufferState == GARBAGE && fd.offset > 0 ==>
          && fd.inodeState != GARBAGE && fd.inodeIdx < 4096
          && owner[fd.inodeIdx] == InodeOf(fd.index, (fd.offset - 1) / 65024))
  }

  /** The buffer is GARBAGE exactly at sector boundaries, and the inode exactly at 0. So every
      operation leaves it; only SEEK_CUR and SEEK_END may not. */
  predicate Tight(fd: Fd) {
    && (fd.bufferState == GARBAGE <==> fd.offset % 512 == 0)
    && (fd.inodeState == GARBAGE <==> fd.offset == 0)
  }

  ghost predicate SizesOk(files: Files, dir: Dir) {
    forall i: Slot :: Sized(files[i], dir[i].fileSize)
  }

  /** Every open descriptor other than a is between operations. */
  ghost predicate PositionsOk(owner: Owners, pool: Pool, dir: Dir, a: int) {
    forall j :: 0 <= j < 1024 && pool[j].isOpen && j != a ==> PosOk(owner, pool[j], dir[pool[j].index].fileSize)
  }

  /** The invariant between operations. */
  ghost predicate Inv(S: Sys, G: Ghosts) {
    && Core(S, G, -1, -1)
    && SizesOk(G.files, S.dir)
    && PositionsOk(G.owner, S.pool, S.dir, -1)
  }

  // ---------------------------------------------------------------- micro-steps

  /** The consequences of Core that the code of one descriptor relies on. */
  lemma CoreFacts(S: Sys, G: Ghosts, x: int, a: int, j: nat)
    requires Core(S, G, x, a) && j < 1024 && Live(S.pool, a, j)
    ensures S.stateDir != GARBAGE && S.stateBitmap != GARBAGE
    ensures |UsedSet(S.bitmap)| == Total(G.files)
    ensures FdOk(G, S.pool[j], j) && Occupied(S.dir[S.pool[j].index])
    ensures FileOwned(G.owner, G.files[S.pool[j].index], S.pool[j].index)
    ensures HolderOk(S.pool, G.holder, a, S.pool[j].index)
    ensures OwnerOk(G) && BitmapOk(S.bitmap, G.owner)
  {
  }

  /** Writing back a dirty inode (kernel/fs.c:60-66) changes no block's meaning. */
  lemma FlushINode(S: Sys, G: Ghosts, x: int, a: int, j: nat, S': Sys)
    requires Core(S, G, x, a) && j < 1024 && Live(S.pool, a, j)
    requires S.pool[j].inodeState == NEED_WASHING && S.pool[j].inodeIdx < 4096
    requires S' == S.(disk := S.disk[3 + S.pool[j].inodeIdx := EncodeINode(S.pool[j].inode)],
                      pool := S.pool[j := S.pool[j].(inodeState := USEFUL)])
    ensures Core(S', G, x, a)
  {
    hide OwnerOk, BitmapOk, DirOk, INodeOf, Total, UsedSet;
    var fd := S.pool[j];
    assert FdOk(G, fd, j);
    assert DiskOk(S', G, x) by {
      forall b: Block | G.owner[b] != Free && b != x && !Dirty(S'.pool, G, b)
        ensures S'.disk[3 + b] == Logical(G, b)
      {
        if b != fd.inodeIdx { assert !Dirty(S.pool, G, b); }
      }
    }
    forall i: Slot ensures HolderOk(S'.pool, G.holder, a, i) { assert HolderOk(S.pool, G.holder, a, i); }
    forall k | 0 <= k < 1024 && Live(S'.pool, a, k) ensures FdOk(G, S'.pool[k], k) { assert FdOk(G, S.pool[k], k); }
  }

  /** Writing back a dirty sector and forgetting it (kernel/fs.c:108-114). */
  lemma FlushBuffer(S: Sys, G: Ghosts, a: int, j: nat, S': Sys)
    requires Core(S, G, -1, a) && j < 1024 && Live(S.pool, a, j)
    requires S.pool[j].bufferState == NEED_WASHING && S.pool[j].bufferIdx < 4096
    requires S' == S.(disk := S.disk[3 + S.pool[j].bufferIdx := S.pool[j].buffer],
                      pool := S.pool[j := S.pool[j].(bufferState := GARBAGE)])
    ensures Core(S', G, -1, a)
  {
    hide OwnerOk, BitmapOk, DirOk, INodeOf, Total, UsedSet;
    var fd := S.pool[j];
    assert FdOk(G, fd, j);
    assert DiskOk(S', G, -1) by {
      forall b: Block | G.owner[b] != Free && !Dirty(S'.pool, G, b)
        ensures S'.disk[3 + b] == Logical(G, b)
      {
        if b != fd.bufferIdx { assert !Dirty(S.pool, G, b); }
      }
    }
    forall i: Slot ensures HolderOk(S'.pool, G.holder, a, i) { assert HolderOk(S.pool, G.holder, a, i); }
    forall k | 0 <= k < 1024 && Live(S'.pool, a, k) ensures FdOk(G, S'.pool[k], k) { assert FdOk(G, S.pool[k], k); }
  }

  /** A descriptor whose caches hold nothing unwritten may load, keep or drop clean ones. */
  lemma Recache(S: Sys, G: Ghosts, a: int, j: nat, fd': Fd, S': Sys)
    requires Core(S, G, -1, a) && j < 1024 && Live(S.pool, a, j)
    requires S' == S.(pool := S.pool[j := fd'])
    requires fd'.index == S.pool[j].index && fd'.isOpen == S.pool[j].isOpen
    requires S.pool[j].inodeState == NEED_WASHING ==>
               fd'.inodeState == NEED_WASHING && fd'.inodeIdx == S.pool[j].inodeIdx && fd'.inode == S.pool[j].inode
    requires S.pool[j].bufferState == NEED_WASHING ==>
               fd'.bufferState == NEED_WASHING && fd'.bufferIdx == S.pool[j].bufferIdx && fd'.buffer == S.pool[j].buffer
    requires Washing(fd') ==> Washing(S.pool[j])
    requires FdOk(G, fd', j)
    ensures Core(S', G, -1, a)
  {
    hide OwnerOk, BitmapOk, DirOk, INodeOf, Total, UsedSet;
    assert FdOk(G, S.pool[j], j);
    assert DiskOk(S', G, -1) by {
      forall b: Block | G.owner[b] != Free && !Dirty(S'.pool, G, b)
        ensures S'.disk[3 + b] == Logical(G, b)
      {
        assert !Dirty(S.pool, G, b);
      }
    }
    forall i: Slot ensures HolderOk(S'.pool, G.holder, a, i) { assert HolderOk(S.pool, G.holder, a, i); }
    forall k | 0 <= k < 1024 && Live(S'.pool, a, k) ensures FdOk(G, S'.pool[k], k) { assert FdOk(G, S.pool[k], k); }
  }

  /** A block of j's file that j itself has not dirtied is up to date on disk. */
  lemma OnDisk(S: Sys, G: Ghosts, a: int, j: nat, b: Block)
    requires Core(S, G, -1, a) && j < 1024 && Live(S.pool, a, j)
    requires G.owner[b] != Free && G.owner[b].slot == S.pool[j].index
    requires G.owner[b].InodeOf? ==> S.pool[j].inodeState != NEED_WASHING
    requires G.owner[b].DataOf? ==> S.pool[j].bufferState != NEED_WASHING
    ensures S.disk[3 + b] == Logical(G, b)
  {
    assert FdOk(G, S.pool[j], j);
    assert HolderOk(S.pool, G.holder, a, S.pool[j].index);
    assert !Dirty(S.pool, G, b);
  }

  // ---------------------------------------------------------------- allocation

  /** Block b becomes the next inode of file i. */
  function GrowChain(G: Ghosts, i: Slot, b: Block): Ghosts {
    var g := G.files[i];
    G.(files := G.files[i := g.(chain := g.chain + [b])], owner := G.owner[b := InodeOf(i, |g.chain|)])
  }

  /** Block b becomes the next data block of file i, holding sect. */
  function GrowBlocks(G: Ghosts, i: Slot, b: Block, sect: Sector): Ghosts {
    var g := G.files[i];
    G.(files := G.files[i := g.(blocks := g.blocks + [b], sects := g.sects + [sect])],
       owner := G.owner[b := DataOf(i, |g.blocks|)])
  }

  lemma {:induction false} TotalUpdate(files: seq<FileG>, i: nat, g: FileG)
    requires i < |files|
    ensures Total(files[i := g]) == Total(files) - Size(files[i]) + Size(g)
  {
    var n := |files| - 1;
    if i < n {
      TotalUpdate(files[..n], i, g);
      assert files[i := g][..n] == files[..n][i := g];
    } else {
      assert files[i := g][..n] == files[..n];
    }
  }

  lemma INodeOfSame(g: FileG, g': FileG, c: nat)
    requires forall k :: 0 <= k < 127 ==> PointerOf(g, c, k) == PointerOf(g', c, k)
    requires NextOf(g, c) == NextOf(g', c)
    ensures INodeOf(g, c) == INodeOf(g', c)
  {
    assert INodeOf(g, c).dataBlocks == INodeOf(g', c).dataBlocks;
  }

  /** The first free block can only be block 0 when nothing is allocated yet. */
  lemma FirstFitBlock(bitmap: WordSector, bitmap': WordSector, G: Ghosts, b: Block)
    requires OwnerOk(G) && BitmapOk(bitmap, G.owner) && FirstFit(bitmap, bitmap', b)
    ensures G.owner[b] == Free
    ensures b == 0 <==> G.owner[0] == Free
  {
    UsedSetMember(bitmap, b);
    UsedSetMember(bitmap, 0);
  }

  lemma BitmapGrow(bitmap: WordSector, bitmap': WordSector, owner: Owners, b: Block, o: Owner)
    requires BitmapOk(bitmap, owner) && FirstFit(bitmap, bitmap', b) && o != Free
    ensures BitmapOk(bitmap', owner[b := o])
    ensures |UsedSet(bitmap')| == |UsedSet(bitmap)| + 1
  {
    hide UsedSet;
    FirstFitSize(bitmap, bitmap', b);
  }

  lemma GrowChainOk(bitmap: WordSector, bitmap': WordSector, G: Ghosts, i: Slot, b: Block)
    requires OwnerOk(G) && BitmapOk(bitmap, G.owner) && FirstFit(bitmap, bitmap', b)
    requires |UsedSet(bitmap)| == Total(G.files)
    ensures var G' := GrowChain(G, i, b);
            OwnerOk(G') && BitmapOk(bitmap', G'.owner) && |UsedSet(bitmap')| == Total(G'.files)
  {
    var G' := GrowChain(G, i, b);
    hide BitmapOk, UsedSet, FirstFit;
    FirstFitBlock(bitmap, bitmap', G, b);
    BitmapGrow(bitmap, bitmap', G.owner, b, G'.owner[b]);
    TotalUpdate(G.files, i, G'.files[i]);
    forall k: Slot ensures FileOwned(G'.owner, G'.files[k], k) { assert FileOwned(G.owner, G.files[k], k); }
    forall c: Block ensures OwnedBack(G'.owner, G'.files, c) { assert OwnedBack(G.owner, G.files, c); }
    assert |G.files[i].chain| > 0 ==> b != 0 by {
      assert FileOwned(G.owner, G.files[i], i);
      assert |G.files[i].chain| > 0 ==> G.owner[G.files[i].chain[0]] != Free;
    }
  }

  lemma GrowBlocksOk(bitmap: WordSector, bitmap': WordSector, G: Ghosts, i: Slot, b: Block, sect: Sector)
    requires OwnerOk(G) && BitmapOk(bitmap, G.owner) && FirstFit(bitmap, bitmap', b)
    requires |UsedSet(bitmap)| == Total(G.files) && |G.files[i].blocks| < 127 * |G.files[i].chain|
    ensures b != 0
    ensures var G' := GrowBlocks(G, i, b, sect);
            OwnerOk(G') && BitmapOk(bitmap', G'.owner) && |UsedSet(bitmap')| == Total(G'.files)
  {
    var G' := GrowBlocks(G, i, b, sect);
    hide BitmapOk, UsedSet, FirstFit;
    FirstFitBlock(bitmap, bitmap', G, b);
    BitmapGrow(bitmap, bitmap', G.owner, b, G'.owner[b]);
    TotalUpdate(G.files, i, G'.files[i]);
    assert FileOwned(G.owner, G.files[i], i);
    assert G.owner[G.files[i].chain[0]] != Free;
    forall k: Slot ensures FileOwned(G'.owner, G'.files[k], k) { assert FileOwned(G.owner, G.files[k], k); }
    forall c: Block ensures OwnedBack(G'.owner, G'.files, c) { assert OwnedBack(G.owner, G.files, c); }
  }

  /** Growing a chain changes the meaning of its previous last inode only. */
  lemma GrowChainLogical(G: Ghosts, i: Slot, b: Block, c: Block)
    requires OwnerOk(G) && G.owner[b] == Free && G.owner[c] != Free
    requires !(G.owner[c].InodeOf? && G.owner[c].slot == i && G.owner[c].idx + 1 == |G.files[i].chain|)
    ensures Logical(GrowChain(G, i, b), c) == Logical(G, c)
    ensures forall m :: G.owner[c] == InodeOf(i, m) ==>
              INodeOf(GrowChain(G, i, b).files[i], m) == INodeOf(G.files[i], m)
  {
    assert OwnedBack(G.owner, G.files, c);
    match G.owner[c]
    case InodeOf(k, m) =>
      if k == i {
        INodeOfSame(G.files[i], GrowChain(G, i, b).files[i], m);
      }
    case DataOf(k, s) =>
  }

  /** Adding a data block changes the meaning of the inode that points at it only. */
  lemma GrowBlocksLogical(G: Ghosts, i: Slot, b: Block, sect: Sector, c: Block)
    requires OwnerOk(G) && G.owner[b] == Free && G.owner[c] != Free
    requires G.owner[c] != InodeOf(i, |G.files[i].blocks| / 127)
    ensures Logical(GrowBlocks(G, i, b, sect), c) == Logical(G, c)
    ensures forall m :: G.owner[c] == InodeOf(i, m) ==>
              INodeOf(GrowBlocks(G, i, b, sect).files[i], m) == INodeOf(G.files[i], m)
    ensures forall s :: G.owner[c] == DataOf(i, s) ==>
              SectorOf(GrowBlocks(G, i, b, sect).files[i], s) == SectorOf(G.files[i], s)
  {
    assert OwnedBack(G.owner, G.files, c);
    assert FileOwned(G.owner, G.files[i], i);
    match G.owner[c]
    case InodeOf(k, m) =>
      if k == i {
        INodeOfSame(G.files[i], GrowBlocks(G, i, b, sect).files[i], m);
      }
    case DataOf(k, s) =>
  }

  lemma ZeroINodeOf(g: FileG, c: nat)
    requires c + 1 >= |g.chain| && |g.blocks| <= 127 * c
    ensures INodeOf(g, c) == ZeroINode()
  {
    assert INodeOf(g, c).dataBlocks == ZeroINode().dataBlocks;
  }

  /** The pointer slot for the next sector of a file is empty in its inode, and filling
      it in gives the inode of the grown file. */
  lemma PointAt(G: Ghosts, i: Slot, b: Block, sect: Sector)
    requires b != 0
    ensures var n := |G.files[i].blocks|;
            var node := INodeOf(G.files[i], n / 127);
            && node.dataBlocks[n % 127] == 0
            && INodeOf(GrowBlocks(G, i, b, sect).files[i], n / 127)
               == node.(dataBlocks := node.dataBlocks[n % 127 := b])
  {
    var n := |G.files[i].blocks|;
    var node := INodeOf(G.files[i], n / 127);
    assert INodeOf(GrowBlocks(G, i, b, sect).files[i], n / 127).dataBlocks == node.dataBlocks[n % 127 := b];
  }

  // ---------------------------------------------------------------- allocating micro-steps

  /** fd_set_inode (kernel/fs.c:68-73): an empty file gets its first inode. */
  lemma SetINode(S: Sys, G: Ghosts, a: int, j: nat, b: Block, bitmap': WordSector, S': Sys)
    requires Core(S, G, -1, a) && j < 1024 && Live(S.pool, a, j)
    requires var i := S.pool[j].index;
             G.holder[i] == j && G.files[i].chain == []
    requires S.pool[j].inodeState == GARBAGE && FirstFit(S.bitmap, bitmap', b)
    requires var i := S.pool[j].index;
             S' == S.(bitmap := bitmap', stateBitmap := NEED_WASHING, stateDir := NEED_WASHING,
                      dir := S.dir[i := S.dir[i].(inodeOffset := b)],
                      pool := S.pool[j := S.pool[j].(inodeIdx := b, inode := ZeroINode(), inodeState := NEED_WASHING)])
    ensures Core(S', GrowChain(G, S.pool[j].index, b), -1, a)
  {
    hide BitmapOk, UsedSet, FirstFit, OwnerOk, DiskOk, HolderOk, DirOk, Logical, INodeOf;
    CoreFacts(S, G, -1, a, j);
    var i := S.pool[j].index;
    var G' := GrowChain(G, i, b);
    GrowChainOk(S.bitmap, bitmap', G, i, b);
    FirstFitBlock(S.bitmap, bitmap', G, b);
    ZeroINodeOf(G'.files[i], 0);
    SetINodeDisk(S, G, j, b, S', G');
    OtherFds(S, G, -1, a, j, S'.pool, G');
    DirAfterGrowChain(S, G, i, b, S'.dir);
  }

  lemma SetINodeDisk(S: Sys, G: Ghosts, j: nat, b: Block, S': Sys, G': Ghosts)
    requires OwnerOk(G) && DiskOk(S, G, -1) && j < 1024 && FdOk(G, S.pool[j], j) && G.owner[b] == Free
    requires var i := S.pool[j].index; G.holder[i] == j && G.files[i].chain == []
    requires G' == GrowChain(G, S.pool[j].index, b)
    requires S'.disk == S.disk && S'.pool == S.pool[j := S'.pool[j]]
    requires S.pool[j].inodeState == GARBAGE
    requires S'.pool[j] == S.pool[j].(inodeIdx := b, inode := S'.pool[j].inode, inodeState := NEED_WASHING)
    ensures DiskOk(S', G', -1)
  {
    forall c: Block | G'.owner[c] != Free && !Dirty(S'.pool, G', c) ensures S'.disk[3 + c] == Logical(G', c) {
      assert c != b;
      assert OwnedBack(G.owner, G.files, c);
      GrowChainLogical(G, S.pool[j].index, b, c);
      assert !Dirty(S.pool, G, c);
    }
  }

  /** G' differs from G at file i only. */
  ghost predicate OnlyFile(G: Ghosts, G': Ghosts, i: Slot) {
    && G'.holder == G.holder
    && (forall k: Slot :: k != i ==> G'.files[k] == G.files[k])
    && (forall c: Block :: G.owner[c] != Free && G.owner[c].slot != i ==> G'.owner[c] == G.owner[c])
  }

  /** Changing the file that j holds, and j's own caches, disturbs no other descriptor. */
  lemma OtherFds(S: Sys, G: Ghosts, x: int, a: int, j: nat, pool': Pool, G': Ghosts)
    requires Core(S, G, x, a) && j < 1024 && Live(S.pool, a, j)
    requires G.holder[S.pool[j].index] == j && OnlyFile(G, G', S.pool[j].index)
    requires pool' == S.pool[j := pool'[j]]
    requires pool'[j].isOpen == S.pool[j].isOpen && pool'[j].index == S.pool[j].index
    requires FdOk(G', pool'[j], j)
    ensures forall k :: 0 <= k < 1024 && Live(pool', a, k) ==> FdOk(G', pool'[k], k)
    ensures forall k: Slot :: HolderOk(pool', G'.holder, a, k)
  {
    assert HolderOk(S.pool, G.holder, a, S.pool[j].index);
    forall k | 0 <= k < 1024 && Live(pool', a, k) ensures FdOk(G', pool'[k], k) {
      if k != j {
        assert Live(S.pool, a, k) && FdOk(G, S.pool[k], k);
        assert S.pool[k].index != S.pool[j].index;
      }
    }
    forall k: Slot ensures HolderOk(pool', G'.holder, a, k) { assert HolderOk(S.pool, G.holder, a, k); }
  }

  lemma DirAfterGrowChain(S: Sys, G: Ghosts, i: Slot, b: Block, dir': Dir)
    requires DirOk(S.dir, G.files) && Occupied(S.dir[i])
    requires dir' == if G.files[i].chain == [] then S.dir[i := S.dir[i].(inodeOffset := b)] else S.dir
    ensures DirOk(dir', GrowChain(G, i, b).files)
  {
    forall k: Slot ensures EntryOk(dir'[k], GrowChain(G, i, b).files[k]) { assert EntryOk(S.dir[k], G.files[k]); }
  }

  lemma LinkNextDisk(S: Sys, G: Ghosts, j: nat, b: Block, S': Sys, G': Ghosts)
    requires OwnerOk(G) && DiskOk(S, G, -1) && j < 1024 && FdOk(G, S.pool[j], j) && G.owner[b] == Free
    requires var i, fd := S.pool[j].index, S.pool[j];
             && G.holder[i] == j && G.files[i].chain != [] && fd.inodeIdx < 4096
             && G.owner[fd.inodeIdx] == InodeOf(i, |G.files[i].chain| - 1)
    requires G' == GrowChain(G, S.pool[j].index, b)
    requires S'.disk == S.disk && S'.pool == S.pool[j := S'.pool[j]]
    requires S'.pool[j] == S.pool[j].(inode := S'.pool[j].inode, inodeState := NEED_WASHING)
    ensures DiskOk(S', G', b)
  {
    var i, fd := S.pool[j].index, S.pool[j];
    forall c: Block | G'.owner[c] != Free && c != b && !Dirty(S'.pool, G', c) ensures S'.disk[3 + c] == Logical(G', c) {
      assert OwnedBack(G.owner, G.files, c) && OwnedBack(G.owner, G.files, fd.inodeIdx);
      assert c != fd.inodeIdx;
      GrowChainLogical(G, i, b, c);
      assert !Dirty(S.pool, G, c);
    }
  }

  lemma LinkNextFd(G: Ghosts, i: Slot, b: Block, fd: Fd, j: int)
    requires OwnerOk(G) && FdOk(G, fd, j) && fd.index == i && G.holder[i] == j && G.owner[b] == Free
    requires G.files[i].chain != [] && fd.inodeIdx < 4096
    requires G.owner[fd.inodeIdx] == InodeOf(i, |G.files[i].chain| - 1)
    requires fd.inode == INodeOf(G.files[i], |G.files[i].chain| - 1)
    ensures FdOk(GrowChain(G, i, b), fd.(inode := fd.inode.(next := b), inodeState := NEED_WASHING), j)
  {
    var G' := GrowChain(G, i, b);
    assert INodeOf(G'.files[i], |G.files[i].chain| - 1).dataBlocks == fd.inode.dataBlocks;
  }

  /** First half of fd_alloc_next_inode (kernel/fs.c:76-77): the last inode links to a new
      block, whose sector nothing backs yet. */
  lemma LinkNext(S: Sys, G: Ghosts, a: int, j: nat, b: Block, bitmap': WordSector, S': Sys)
    requires Core(S, G, -1, a) && j < 1024 && Live(S.pool, a, j)
    requires var i, fd := S.pool[j].index, S.pool[j];
             && G.holder[i] == j && Occupied(S.dir[i])
             && G.files[i].chain != [] && fd.inodeIdx < 4096
             && G.owner[fd.inodeIdx] == InodeOf(i, |G.files[i].chain| - 1)
             && fd.inode == INodeOf(G.files[i], |G.files[i].chain| - 1)
    requires FirstFit(S.bitmap, bitmap', b)
    requires S' == S.(bitmap := bitmap', stateBitmap := NEED_WASHING,
                      pool := S.pool[j := S.pool[j].(inode := S.pool[j].inode.(next := b), inodeState := NEED_WASHING)])
    ensures Core(S', GrowChain(G, S.pool[j].index, b), b, a)
  {
    hide BitmapOk, UsedSet, FirstFit, OwnerOk, DiskOk, HolderOk, FdOk, DirOk, Logical, INodeOf;
    CoreFacts(S, G, -1, a, j);
    var i, fd := S.pool[j].index, S.pool[j];
    var G' := GrowChain(G, i, b);
    assert HolderOk(S.pool, G.holder, a, i);
    GrowChainOk(S.bitmap, bitmap', G, i, b);
    FirstFitBlock(S.bitmap, bitmap', G, b);
    LinkNextDisk(S, G, j, b, S', G');
    assert FdOk(G', S'.pool[j], j) by { LinkNextFd(G, i, b, fd, j); }
    OtherFds(S, G, -1, a, j, S'.pool, G');
    DirAfterGrowChain(S, G, i, b, S'.dir);
  }

  /** Second half (kernel/fs.c:79-81): the cache turns to the new, empty inode. */
  lemma FreshINode(S: Sys, G: Ghosts, a: int, j: nat, b: Block, S': Sys)
    requires Core(S, G, b, a) && j < 1024 && Live(S.pool, a, j)
    requires S.pool[j].inodeState != NEED_WASHING && G.holder[S.pool[j].index] == j
    requires G.owner[b].InodeOf? && G.owner[b].slot == S.pool[j].index
    requires INodeOf(G.files[S.pool[j].index], G.owner[b].idx) == ZeroINode()
    requires S' == S.(pool := S.pool[j := S.pool[j].(inodeIdx := b, inode := ZeroINode(), inodeState := NEED_WASHING)])
    ensures Core(S', G, -1, a)
  {
    assert FdOk(G, S.pool[j], j);
    assert DiskOk(S', G, -1) by {
      forall c: Block | G.owner[c] != Free && !Dirty(S'.pool, G, c) ensures S'.disk[3 + c] == Logical(G, c) {
        assert c != b && !Dirty(S.pool, G, c);
      }
    }
    forall k: Slot ensures HolderOk(S'.pool, G.holder, a, k) { assert HolderOk(S.pool, G.holder, a, k); }
    forall k | 0 <= k < 1024 && Live(S'.pool, a, k) ensures FdOk(G, S'.pool[k], k) { assert FdOk(G, S.pool[k], k); }
  }

  /** A new data block for the next sector of the file (kernel/fs.c:125-127, 129): the
      stale bytes in the buffer become, for now, the sector's meaning. */
  lemma AllocSector(S: Sys, G: Ghosts, a: int, j: nat, b: Block, bitmap': WordSector, S': Sys)
    requires Core(S, G, -1, a) && j < 1024 && Live(S.pool, a, j)
    requires var i, fd := S.pool[j].index, S.pool[j];
             && G.holder[i] == j && Occupied(S.dir[i]) && |G.files[i].blocks| < 127 * |G.files[i].chain|
             && fd.bufferState == GARBAGE && fd.inodeState != GARBAGE && fd.inodeIdx < 4096
             && G.owner[fd.inodeIdx] == InodeOf(i, |G.files[i].blocks| / 127)
    requires FirstFit(S.bitmap, bitmap', b)
    requires var fd, n := S.pool[j], |G.files[S.pool[j].index].blocks|;
             S' == S.(bitmap := bitmap', stateBitmap := NEED_WASHING,
                      pool := S.pool[j := fd.(inode := fd.inode.(dataBlocks := fd.inode.dataBlocks[n % 127 := b]),
                                              inodeState := NEED_WASHING, bufferIdx := b, bufferState := USEFUL)])
    ensures b != 0 && S.pool[j].inode.dataBlocks[|G.files[S.pool[j].index].blocks| % 127] == 0
    ensures Core(S', GrowBlocks(G, S.pool[j].index, b, S.pool[j].buffer), b, a)
  {
    hide BitmapOk, UsedSet, FirstFit, OwnerOk, DiskOk, HolderOk, Logical;
    CoreFacts(S, G, -1, a, j);
    var i, fd := S.pool[j].index, S.pool[j];
    var G' := GrowBlocks(G, i, b, fd.buffer);
    assert FdOk(G, fd, j) && FileOwned(G.owner, G.files[i], i);
    GrowBlocksOk(S.bitmap, bitmap', G, i, b, fd.buffer);
    FirstFitBlock(S.bitmap, bitmap', G, b);
    PointAt(G, i, b, fd.buffer);
    AllocSectorFd(G, i, b, fd, j);
    AllocSectorDisk(S, G, j, b, S', G');
    OtherFds(S, G, -1, a, j, S'.pool, G');
    forall k: Slot ensures EntryOk(S'.dir[k], G'.files[k]) { assert EntryOk(S.dir[k], G.files[k]); }
  }

  lemma AllocSectorFd(G: Ghosts, i: Slot, b: Block, fd: Fd, j: int)
    requires OwnerOk(G) && FdOk(G, fd, j) && fd.index == i && G.holder[i] == j && G.owner[b] == Free && b != 0
    requires fd.inodeState != GARBAGE && fd.inodeIdx < 4096
    requires G.owner[fd.inodeIdx] == InodeOf(i, |G.files[i].blocks| / 127)
    ensures var n := |G.files[i].blocks|;
            FdOk(GrowBlocks(G, i, b, fd.buffer),
                 fd.(inode := fd.inode.(dataBlocks := fd.inode.dataBlocks[n % 127 := b]),
                     inodeState := NEED_WASHING, bufferIdx := b, bufferState := USEFUL), j)
  {
    assert FileOwned(G.owner, G.files[i], i);
    PointAt(G, i, b, fd.buffer);
  }

  lemma AllocSectorDisk(S: Sys, G: Ghosts, j: nat, b: Block, S': Sys, G': Ghosts)
    requires OwnerOk(G) && DiskOk(S, G, -1) && j < 1024 && G.owner[b] == Free
    requires var i, fd := S.pool[j].index, S.pool[j];
             && G.holder[i] == j && fd.bufferState == GARBAGE && fd.inodeIdx < 4096
             && G.owner[fd.inodeIdx] == InodeOf(i, |G.files[i].blocks| / 127)
    requires G' == GrowBlocks(G, S.pool[j].index, b, S.pool[j].buffer)
    requires S'.disk == S.disk && S'.pool == S.pool[j := S'.pool[j]]
    requires S'.pool[j].inodeState == NEED_WASHING && S'.pool[j].inodeIdx == S.pool[j].inodeIdx
    ensures DiskOk(S', G', b)
  {
    var i, fd := S.pool[j].index, S.pool[j];
    forall c: Block | G'.owner[c] != Free && c != b && !Dirty(S'.pool, G', c) ensures S'.disk[3 + c] == Logical(G', c) {
      assert OwnedBack(G.owner, G.files, c) && OwnedBack(G.owner, G.files, fd.inodeIdx);
      assert c != fd.inodeIdx;
      GrowBlocksLogical(G, i, b, fd.buffer, c);
      assert !Dirty(S.pool, G, c);
    }
  }

  function SetSector(G: Ghosts, i: Slot, s: nat, buf: Sector): Ghosts
    requires s < |G.files[i].sects|
  {
    var g := G.files[i];
    G.(files := G.files[i := g.(sects := g.sects[s := buf])])
  }

  lemma SetSectorOk(G: Ghosts, i: Slot, s: nat, buf: Sector)
    requires OwnerOk(G) && s < |G.files[i].sects|
    ensures var G' := SetSector(G, i, s, buf);
            OwnerOk(G') && Total(G'.files) == Total(G.files) && OnlyFile(G, G', i)
    ensures forall m :: INodeOf(SetSector(G, i, s, buf).files[i], m) == INodeOf(G.files[i], m)
    ensures forall c: Block :: G.owner[c] != Free && c != G.files[i].blocks[s] ==>
              Logical(SetSector(G, i, s, buf), c) == Logical(G, c)
  {
    var G' := SetSector(G, i, s, buf);
    forall k: Slot ensures FileOwned(G'.owner, G'.files[k], k) { assert FileOwned(G.owner, G.files[k], k); }
    forall c: Block ensures OwnedBack(G'.owner, G'.files, c) { assert OwnedBack(G.owner, G.files, c); }
    TotalUpdate(G.files, i, G'.files[i]);
    forall m ensures INodeOf(G'.files[i], m) == INodeOf(G.files[i], m) { INodeOfSame(G.files[i], G'.files[i], m); }
    forall c: Block | G.owner[c] != Free && c != G.files[i].blocks[s] ensures Logical(G', c) == Logical(G, c) {
      assert OwnedBack(G.owner, G.files, c);
    }
  }

  lemma StoreSectorDisk(S: Sys, G: Ghosts, x: int, j: nat, s: nat, S': Sys, G': Ghosts)
    requires DiskOk(S, G, x) && j < 1024 && S'.disk == S.disk && G'.owner == G.owner && G'.holder == G.holder
    requires var i, fd, fd' := S.pool[j].index, S.pool[j], S'.pool[j];
             && fd.bufferIdx < 4096 && (x == -1 || x == fd.bufferIdx) && s < |G.files[i].blocks|
             && G.owner[fd.bufferIdx] == DataOf(i, s) && G.files[i].blocks[s] == fd.bufferIdx && G.holder[i] == j
             && fd' == fd.(buffer := fd'.buffer, bufferState := NEED_WASHING, offset := fd'.offset)
             && S'.pool == S.pool[j := fd']
             && forall c: Block :: G.owner[c] != Free && c != G.files[i].blocks[s] ==> Logical(G', c) == Logical(G, c)
    ensures DiskOk(S', G', -1)
  {
    forall c: Block | G'.owner[c] != Free && !Dirty(S'.pool, G', c) ensures S'.disk[3 + c] == Logical(G', c) {
      assert c != S.pool[j].bufferIdx;
      assert !Dirty(S.pool, G, c);
    }
  }

  lemma DirAfterStore(S: Sys, G: Ghosts, a: int, j: nat, fd': Fd, dir': Dir, G': Ghosts)
    requires DirOk(S.dir, G.files) && LiveOccupied(S.pool, S.dir, a) && j < 1024 && Live(S.pool, a, j)
    requires fd'.index == S.pool[j].index && fd'.isOpen == S.pool[j].isOpen
    requires var i := S.pool[j].index; dir' == S.dir[i := S.dir[i].(fileSize := dir'[i].fileSize)]
    requires forall k: Slot :: G'.files[k].chain == G.files[k].chain
    requires forall k: Slot :: k != S.pool[j].index ==> G'.files[k] == G.files[k]
    ensures DirOk(dir', G'.files) && LiveOccupied(S.pool[j := fd'], dir', a)
  {
    forall k: Slot ensures EntryOk(dir'[k], G'.files[k]) { assert EntryOk(S.dir[k], G.files[k]); }
  }

  /** Bytes land in the buffer (kernel/fs.c:197-204); the sector now means the buffer, and
      is dirty, so it no longer matters whether the disk ever had it. */
  lemma StoreSector(S: Sys, G: Ghosts, x: int, a: int, j: nat, s: nat, fd': Fd, dir': Dir, state': CacheState, S': Sys)
    requires Core(S, G, x, a) && j < 1024 && Live(S.pool, a, j)
    requires var i, fd := S.pool[j].index, S.pool[j];
             && fd.bufferState != GARBAGE && (x == -1 || x == fd.bufferIdx)
             && fd.bufferIdx < 4096 && G.owner[fd.bufferIdx] == DataOf(i, s)
             && fd' == fd.(buffer := fd'.buffer, bufferState := NEED_WASHING, offset := fd'.offset)
             && G.holder[i] == j && Occupied(S.dir[i])
             && dir' == S.dir[i := S.dir[i].(fileSize := dir'[i].fileSize)]
             && ((dir' == S.dir && state' == S.stateDir) || state' == NEED_WASHING)
    requires S' == S.(dir := dir', stateDir := state', pool := S.pool[j := fd'])
    ensures s < |G.files[S.pool[j].index].sects|
    ensures Core(S', SetSector(G, S.pool[j].index, s, fd'.buffer), -1, a)
  {
    hide BitmapOk, DirOk, HolderOk, DiskOk, INodeOf, UsedSet;
    var i, fd := S.pool[j].index, S.pool[j];
    assert FdOk(G, fd, j) && OwnedBack(G.owner, G.files, fd.bufferIdx) && FileOwned(G.owner, G.files[i], i);
    var G' := SetSector(G, i, s, fd'.buffer);
    SetSectorOk(G, i, s, fd'.buffer);
    StoreSectorDisk(S, G, x, j, s, S', G');
    assert FdOk(G', fd', j) by {
      assert INodeCacheOk(G', fd');
      assert BufferOk(G', fd');
    }
    OtherFds(S, G, x, a, j, S'.pool, G');
    DirAfterStore(S, G, a, j, fd', dir', G');
  }

  // ---------------------------------------------------------------- loading

  /** A clean inode read from disk is the inode the block means. */
  lemma LoadINode(S: Sys, G: Ghosts, a: int, j: nat, b: Block, c: nat)
    requires Core(S, G, -1, a) && j < 1024 && Live(S.pool, a, j)
    requires S.pool[j].inodeState == GARBAGE && G.owner[b] == InodeOf(S.pool[j].index, c)
    ensures DecodeINode(S.disk[3 + b]) == INodeOf(G.files[S.pool[j].index], c)
    ensures var fd' := S.pool[j].(inodeState := USEFUL, inodeIdx := b, inode := DecodeINode(S.disk[3 + b]));
            Core(S.(pool := S.pool[j := fd']), G, -1, a)
  {
    hide Core, DiskOk, HolderOk, OwnerOk, BitmapOk;
    OnDisk(S, G, a, j, b);
    INodeRoundTrip(INodeOf(G.files[S.pool[j].index], c));
    CoreFacts(S, G, -1, a, j);
    var fd' := S.pool[j].(inodeState := USEFUL, inodeIdx := b, inode := DecodeINode(S.disk[3 + b]));
    Recache(S, G, a, j, fd', S.(pool := S.pool[j := fd']));
  }

  /** A sector read from disk is the sector the block means. */
  lemma LoadSector(S: Sys, G: Ghosts, a: int, j: nat, b: Block, s: nat)
    requires Core(S, G, -1, a) && j < 1024 && Live(S.pool, a, j)
    requires S.pool[j].bufferState == GARBAGE && G.owner[b] == DataOf(S.pool[j].index, s)
    ensures var fd' := S.pool[j].(bufferState := USEFUL, bufferIdx := b, buffer := S.disk[3 + b]);
            Core(S.(pool := S.pool[j := fd']), G, -1, a)
  {
    hide Core, DiskOk, HolderOk, OwnerOk, BitmapOk;
    OnDisk(S, G, a, j, b);
    CoreFacts(S, G, -1, a, j);
    var fd' := S.pool[j].(bufferState := USEFUL, bufferIdx := b, buffer := S.disk[3 + b]);
    Recache(S, G, a, j, fd', S.(pool := S.pool[j := fd']));
  }

  /** inodeOffset says whether the file has a first inode, and which. */
  lemma FirstINode(S: Sys, G: Ghosts, a: int, j: nat)
    requires Core(S, G, -1, a) && j < 1024 && Live(S.pool, a, j)
    ensures var i := S.pool[j].index;
            && (S.dir[i].inodeOffset == NO_INODE <==> G.files[i].chain == [])
            && (G.files[i].chain != [] ==> S.dir[i].inodeOffset == G.files[i].chain[0]
                                           && G.owner[G.files[i].chain[0]] == InodeOf(i, 0))
  {
    var i := S.pool[j].index;
    assert EntryOk(S.dir[i], G.files[i]) && FileOwned(G.owner, G.files[i], i);
  }

  /** next == 0 says the chain ends here; otherwise next is the following inode. */
  lemma NextINode(G: Ghosts, i: Slot, c: nat)
    requires OwnerOk(G) && c < |G.files[i].chain|
    ensures INodeOf(G.files[i], c).next == 0 <==> c + 1 == |G.files[i].chain|
    ensures c + 1 < |G.files[i].chain| ==>
              && INodeOf(G.files[i], c).next == G.files[i].chain[c + 1]
              && G.owner[G.files[i].chain[c + 1]] == InodeOf(i, c + 1)
  {
    assert FileOwned(G.owner, G.files[i], i);
  }

  /** A zero data pointer says the file has no such sector. */
  lemma DataPointer(G: Ghosts, i: Slot, s: nat)
    requires OwnerOk(G)
    ensures var p := INodeOf(G.files[i], s / 127).dataBlocks[s % 127];
            && (p == 0 <==> s >= |G.files[i].blocks|)
            && (s < |G.files[i].blocks| ==> p == G.files[i].blocks[s] && G.owner[G.files[i].blocks[s]] == DataOf(i, s))
  {
    assert FileOwned(G.owner, G.files[i], i);
    assert INodeOf(G.files[i], s / 127).dataBlocks[s % 127] == PointerOf(G.files[i], s / 127, s % 127);
  }

  /** A clean inode may be forgotten. */
  lemma DropINode(S: Sys, G: Ghosts, a: int, j: nat)
    requires Core(S, G, -1, a) && j < 1024 && Live(S.pool, a, j)
    requires S.pool[j].inodeState != NEED_WASHING
    ensures Core(S.(pool := S.pool[j := S.pool[j].(inodeState := GARBAGE)]), G, -1, a)
  {
    hide Core, DiskOk, HolderOk, OwnerOk, BitmapOk;
    CoreFacts(S, G, -1, a, j);
    var fd' := S.pool[j].(inodeState := GARBAGE);
    Recache(S, G, a, j, fd', S.(pool := S.pool[j := fd']));
  }

  /** What the cached inode's pointer for sector s says. */
  lemma CachedPointer(S: Sys, G: Ghosts, a: int, j: nat, s: nat)
    requires Core(S, G, -1, a) && j < 1024 && Live(S.pool, a, j)
    requires var fd := S.pool[j];
             fd.inodeState != GARBAGE && fd.inodeIdx < 4096 && G.owner[fd.inodeIdx] == InodeOf(fd.index, s / 127)
    ensures var i, p := S.pool[j].index, S.pool[j].inode.dataBlocks[s % 127];
            && (p == 0 <==> s >= |G.files[i].blocks|)
            && (s < |G.files[i].blocks| ==> p == G.files[i].blocks[s] && G.owner[G.files[i].blocks[s]] == DataOf(i, s))
    ensures OwnerOk(G) && BitmapOk(S.bitmap, G.owner) && S.stateBitmap != GARBAGE
  {
    hide DiskOk, BitmapOk, HolderOk;
    assert FdOk(G, S.pool[j], j);
    DataPointer(G, S.pool[j].index, s);
  }

  /** Where offset o of a file of n bytes falls among its sectors and inodes. */
  lemma SizedPosition(files: Files, dir: Dir, i: Slot, o: nat)
    requires SizesOk(files, dir) && o <= dir[i].fileSize
    ensures var g, n := files[i], dir[i].fileSize;
            && (o < n || o % 512 != 0 ==> o / 512 < |g.blocks| && o / 65024 < |g.chain|)
            && (o == n && o % 512 == 0 ==> |g.blocks| == o / 512)
            && (o == n && o % 65024 == 0 ==> |g.chain| == o / 65024 && |g.blocks| == 127 * |g.chain|)
            && (o == n && o % 65024 != 0 ==> |g.chain| == o / 65024 + 1)
            && o / 65024 <= |g.chain|
    ensures o / 512 / 127 == o / 65024
    ensures o % 65024 == 0 ==> o % 512 == 0
    ensures o % 65024 != 0 && o % 512 == 0 ==> (o - 1) / 65024 == o / 65024
    ensures o > 0 && o % 65024 == 0 ==> (o - 1) / 65024 == o / 65024 - 1
    ensures o / 512 < 127 * (o / 65024 + 1)
  {
    assert Sized(files[i], dir[i].fileSize);
    SizedBlocks(files[i], dir[i].fileSize);
  }

  // ---------------------------------------------------------------- block separation

  /** No block serves twice: as two inodes, two sectors, or one of each, in one file or in
      two; the used blocks are exactly these, and 0 is no data block and no inode but a
      first. */
  lemma BlockSeparation(G: Ghosts, i: Slot, k: Slot)
    requires OwnerOk(G)
    ensures var f, g := G.files[i], G.files[k];
            && (forall c, d :: 0 <= c < |f.chain| && 0 <= d < |g.chain| && f.chain[c] == g.chain[d] ==>
                 i == k && c == d)
            && (forall s, t :: 0 <= s < |f.blocks| && 0 <= t < |g.blocks| && f.blocks[s] == g.blocks[t] ==>
                 i == k && s == t)
            && (forall c, t :: 0 <= c < |f.chain| && 0 <= t < |g.blocks| ==> f.chain[c] != g.blocks[t])
    ensures 0 !in G.files[i].blocks && (|G.files[i].chain| > 0 ==> 0 !in G.files[i].chain[1..])
  {
    assert FileOwned(G.owner, G.files[i], i) && FileOwned(G.owner, G.files[k], k);
    assert forall c :: 1 <= c < |G.files[i].chain| ==> G.owner[G.files[i].chain[c]] != InodeOf(i, 0);
  }

  // ---------------------------------------------------------------- cache transparency

  /** An open descriptor has block b cached and not written back. */
  ghost predicate DirtySomewhere(pool: Pool, b: Block) {
    exists j :: 0 <= j < 1024 && pool[j].isOpen && DirtyBy(pool[j], b)
  }

  function CachedBlock(fd: Fd, b: Block): Sector {
    if fd.inodeState == NEED_WASHING && fd.inodeIdx == b then EncodeINode(fd.inode) else fd.buffer
  }

  /** The disk overlaid with the dirty caches, whoever holds them. */
  ghost function Overlay(S: Sys, b: Block): Sector {
    if DirtySomewhere(S.pool, b) then
      var j :| 0 <= j < 1024 && S.pool[j].isOpen && DirtyBy(S.pool[j], b);
      CachedBlock(S.pool[j], b)
    else S.disk[3 + b]
  }

  lemma OverlayIsLogical(S: Sys, G: Ghosts, b: Block)
    requires Inv(S, G) && G.owner[b] != Free
    ensures Overlay(S, b) == Logical(G, b)
  {
    hide OwnerOk, BitmapOk, DirOk, FlagsOk, SizesOk, PositionsOk;
    forall j | 0 <= j < 1024 && S.pool[j].isOpen && DirtyBy(S.pool[j], b)
      ensures CachedBlock(S.pool[j], b) == Logical(G, b)
    {
      assert Live(S.pool, -1, j) && FdOk(G, S.pool[j], j);
    }
    if !DirtySomewhere(S.pool, b) {
      assert HolderOk(S.pool, G.holder, -1, G.owner[b].slot);
      assert !Dirty(S.pool, G, b);
    }
  }

  /** Descriptor fd caches nothing that the overlaid disk does not say. */
  ghost predicate CachesAgree(S: Sys, fd: Fd) {
    && (fd.inodeState != GARBAGE ==> fd.inodeIdx < 4096 && EncodeINode(fd.inode) == Overlay(S, fd.inodeIdx))
    && (fd.bufferState != GARBAGE ==> fd.bufferIdx < 4096 && fd.buffer == Overlay(S, fd.bufferIdx))
  }

  /** Whatever is cached where: disk plus dirty caches is what the blocks mean, every cache in
      use agrees with it, and a clean directory or bitmap is its sector on disk. */
  lemma CacheTransparency(S: Sys, G: Ghosts)
    requires Inv(S, G)
    ensures forall b: Block :: G.owner[b] != Free ==> Overlay(S, b) == Logical(G, b)
    ensures forall j :: 0 <= j < 1024 && S.pool[j].isOpen ==> CachesAgree(S, S.pool[j])
    ensures S.stateDir == USEFUL ==> S.disk[2] == EncodeDir(S.dir)
    ensures S.stateBitmap == USEFUL ==> S.disk[1] == EncodeBitmap(S.bitmap)
  {
    hide Overlay, OwnerOk, BitmapOk, DirOk, DiskOk, HolderOk, SizesOk, PositionsOk, INodeOf, EncodeDir, EncodeBitmap;
    forall b: Block | G.owner[b] != Free ensures Overlay(S, b) == Logical(G, b) { OverlayIsLogical(S, G, b); }
    forall j | 0 <= j < 1024 && S.pool[j].isOpen ensures CachesAgree(S, S.pool[j]) {
      assert Live(S.pool, -1, j) && FdOk(G, S.pool[j], j);
    }
  }
}
