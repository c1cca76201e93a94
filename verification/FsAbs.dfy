/** The files and descriptors a concrete state stands for, and how single operations
    move the concrete and the abstract state together. */
module FsAbs {
  import opened Words
  import opened CString
  import opened Bitmap
  import opened FsLayout
  import opened FsSpec
  import opened FsInv

  function ByteAt(g: FileG, k: nat): byte { SectorOf(g, k / 512)[k % 512] }

  /** The first n bytes of file g. */
  function Content(g: FileG, n: nat): (c: seq<byte>)
    ensures |c| == n
  {
    seq(n, k requires 0 <= k < n => ByteAt(g, k))
  }

  function AbsFile(e: DirEntry, g: FileG): File {
    if Occupied(e) then File(e.fileName, Content(g, e.fileSize)) else NoFile
  }

  function AbsDesc(fd: Fd, holds: bool): Desc {
    if fd.isOpen then Open(fd.index, fd.offset, fd.writable, holds) else Closed(fd.writable)
  }

  function AbsFiles(dir: Dir, files: Files): FileTable {
    seq(16, i requires 0 <= i < 16 => AbsFile(dir[i], files[i]))
  }

  function AbsDescs(pool: Pool, holder: Holders): DescTable {
    seq(1024, j requires 0 <= j < 1024 => AbsDesc(pool[j], holder[pool[j].index] == j))
  }

  /** The abstract state of S. */
  function Abs(S: Sys, G: Ghosts): Fs { Fs(AbsFiles(S.dir, G.files), AbsDescs(S.pool, G.holder)) }

  /** An operation that touches file i and descriptor j only. */
  lemma AbsUpdate(S: Sys, G: Ghosts, S': Sys, G': Ghosts, i: Slot, j: nat)
    requires j < 1024
    requires forall k: Slot :: k != i ==> S'.dir[k] == S.dir[k] && G'.files[k] == G.files[k]
    requires forall k :: 0 <= k < 1024 && k != j ==>
               && S'.pool[k] == S.pool[k]
               && (G'.holder[S'.pool[k].index] == k <==> G.holder[S.pool[k].index] == k)
    ensures Abs(S', G') == Fs(Abs(S, G).files[i := AbsFile(S'.dir[i], G'.files[i])],
                              Abs(S, G).descs[j := AbsDesc(S'.pool[j], G'.holder[S'.pool[j].index] == j)])
  {
    assert AbsFiles(S'.dir, G'.files) == AbsFiles(S.dir, G.files)[i := AbsFile(S'.dir[i], G'.files[i])];
    assert AbsDescs(S'.pool, G'.holder)
        == AbsDescs(S.pool, G.holder)[j := AbsDesc(S'.pool[j], G'.holder[S'.pool[j].index] == j)];
  }

  // ---------------------------------------------------------------- contents

  /** Laying count bytes into one sector of the file, possibly one just added, splices
      them into the content. */
  lemma SpliceSector(g: FileG, g': FileG, n: nat, o: nat, chunk: seq<byte>)
    requires o <= n <= 512 * |g.sects| && |g.sects| <= |g'.sects| && o / 512 < |g'.sects|
    requires 0 < |chunk| <= 512 - o % 512
    requires forall s :: 0 <= s < |g.sects| && s != o / 512 ==> g'.sects[s] == g.sects[s]
    requires var s := o / 512;
             && (forall m :: 0 <= m < |chunk| ==> g'.sects[s][o % 512 + m] == chunk[m])
             && (s < |g.sects| ==> forall m :: (0 <= m < o % 512 || o % 512 + |chunk| <= m < 512) ==>
                   g'.sects[s][m] == g.sects[s][m])
    ensures var n' := if o + |chunk| > n then o + |chunk| else n;
            Content(g', n') == Splice(Content(g, n), o, chunk)
  {
    var n' := if o + |chunk| > n then o + |chunk| else n;
    var c, c' := Splice(Content(g, n), o, chunk), Content(g', n');
    forall k | 0 <= k < n' ensures c'[k] == c[k] {
      if o <= k < o + |chunk| {
        assert k / 512 == o / 512 && k % 512 == o % 512 + (k - o);
        assert c[k] == chunk[k - o];
      } else {
        assert c[k] == ByteAt(g, k);
        if k / 512 == o / 512 {
          assert k < o ==> k % 512 < o % 512;
          assert k >= o + |chunk| ==> k % 512 >= o % 512 + |chunk|;
        }
      }
    }
  }

  // ---------------------------------------------------------------- space

  lemma FileBlocksIsSize(e: DirEntry, g: FileG)
    requires Sized(g, e.fileSize) && EntryOk(e, g)
    ensures FileBlocks(AbsFile(e, g)) == Size(g)
  {
    SizedBlocks(g, e.fileSize);
  }

  lemma {:induction false} BlocksTakenIsTotal(abs: seq<File>, files: seq<FileG>)
    requires |abs| == |files|
    requires forall i :: 0 <= i < |abs| ==> FileBlocks(abs[i]) == Size(files[i])
    ensures BlocksTaken(abs) == Total(files)
  {
    if abs == [] {
    } else {
      BlocksTakenIsTotal(abs[..|abs| - 1], files[..|files| - 1]);
    }
  }

  /** The set bits of the bitmap are exactly the blocks the files need. */
  lemma SpaceAccounting(S: Sys, G: Ghosts)
    requires Inv(S, G)
    ensures |UsedSet(S.bitmap)| == BlocksTaken(Abs(S, G).files)
  {
    assert SizesOk(G.files, S.dir) && DirOk(S.dir, G.files);
    forall i: Slot ensures FileBlocks(AbsFiles(S.dir, G.files)[i]) == Size(G.files[i]) {
      FileBlocksIsSize(S.dir[i], G.files[i]);
    }
    BlocksTakenIsTotal(AbsFiles(S.dir, G.files), G.files);
  }

  // ---------------------------------------------------------------- growth

  /** G' is G with file i possibly grown and nothing else changed. */
  ghost predicate Extends(G: Ghosts, G': Ghosts, i: Slot) {
    && OnlyFile(G, G', i)
    && (forall c: Block :: G.owner[c] != Free ==> G'.owner[c] == G.owner[c])
    && G.files[i].chain <= G'.files[i].chain
    && G.files[i].blocks <= G'.files[i].blocks
    && G.files[i].sects <= G'.files[i].sects
  }

  /** Names and sizes agree. */
  ghost predicate SameEntries(dir: Dir, dir': Dir, i: Slot) {
    dir' == dir[i := dir[i].(inodeOffset := dir'[i].inodeOffset)]
  }

  lemma GrowChainExtends(G: Ghosts, i: Slot, b: Block)
    requires G.owner[b] == Free
    ensures Extends(G, GrowChain(G, i, b), i)
  {
  }

  lemma GrowBlocksExtends(G: Ghosts, i: Slot, b: Block, sect: Sector)
    requires G.owner[b] == Free
    ensures Extends(G, GrowBlocks(G, i, b, sect), i)
  {
  }

  /** Descriptors other than j keep their positions while file i grows. */
  lemma PositionsKept(G: Ghosts, G': Ghosts, pool: Pool, pool': Pool, dir: Dir, dir': Dir, j: int)
    requires PositionsOk(G.owner, pool, dir, j)
    requires forall c: Block :: G.owner[c] != Free ==> G'.owner[c] == G.owner[c]
    requires forall k :: 0 <= k < 1024 && k != j ==> pool'[k] == pool[k]
    requires forall k :: 0 <= k < 1024 && k != j && pool[k].isOpen ==>
               dir'[pool[k].index].fileSize == dir[pool[k].index].fileSize
    ensures PositionsOk(G'.owner, pool', dir', j)
  {
    forall k | 0 <= k < 1024 && pool'[k].isOpen && k != j
      ensures PosOk(G'.owner, pool'[k], dir'[pool'[k].index].fileSize)
    {
      assert PosOk(G.owner, pool[k], dir[pool[k].index].fileSize);
    }
  }

  // ---------------------------------------------------------------- the layout of a lone file

  /** File i has the whole disk to itself, laid out with inode c at block 128 * c and
      sector s at block s + s / 127 + 1. */
  ghost predicate Linear(G: Ghosts, i: Slot) {
    && (forall b: Block :: G.owner[b] == Free <==> b >= Size(G.files[i]))
    && (forall c :: 0 <= c < |G.files[i].chain| ==> G.files[i].chain[c] == 128 * c)
    && (forall s :: 0 <= s < |G.files[i].blocks| ==> G.files[i].blocks[s] == s + s / 127 + 1)
  }

  lemma LinearHolder(G: Ghosts, G': Ghosts, i: Slot)
    requires G' == G.(holder := G'.holder)
    ensures Linear(G, i) <==> Linear(G', i)
  {
  }

  lemma FirstFitLinear(bitmap: WordSector, bitmap': WordSector, G: Ghosts, i: Slot, b: Block)
    requires BitmapOk(bitmap, G.owner) && FirstFit(bitmap, bitmap', b) && Linear(G, i)
    ensures b == Size(G.files[i])
  {
    UsedSetMember(bitmap, b);
    UsedSetMember(bitmap, Size(G.files[i]));
    assert G.owner[b] == Free;
    assert G.owner[Size(G.files[i])] == Free;
  }

  lemma GrowChainLinear(bitmap: WordSector, bitmap': WordSector, G: Ghosts, i: Slot, b: Block)
    requires BitmapOk(bitmap, G.owner) && FirstFit(bitmap, bitmap', b) && Linear(G, i)
    requires |G.files[i].blocks| == 127 * |G.files[i].chain|
    ensures Linear(GrowChain(G, i, b), i)
  {
    FirstFitLinear(bitmap, bitmap', G, i, b);
  }

  lemma GrowBlocksLinear(bitmap: WordSector, bitmap': WordSector, G: Ghosts, i: Slot, b: Block, sect: Sector)
    requires BitmapOk(bitmap, G.owner) && FirstFit(bitmap, bitmap', b) && Linear(G, i)
    requires |G.files[i].chain| == |G.files[i].blocks| / 127 + 1
    ensures Linear(GrowBlocks(G, i, b, sect), i)
  {
    FirstFitLinear(bitmap, bitmap', G, i, b);
  }

  // ---------------------------------------------------------------- reading

  /** An open descriptor's content and offset, seen abstractly. */
  lemma OpenView(S: Sys, G: Ghosts, fd: nat)
    requires Inv(S, G) && fd < 1024 && S.pool[fd].isOpen
    ensures IsOpen(Abs(S, G), fd)
    ensures Abs(S, G).descs[fd] == AbsDesc(S.pool[fd], G.holder[S.pool[fd].index] == fd)
    ensures var i := S.pool[fd].index;
            && Abs(S, G).files[i] == File(S.dir[i].fileName, Content(G.files[i], S.dir[i].fileSize))
            && ContentOf(Abs(S, G), fd) == Content(G.files[i], S.dir[i].fileSize)
            && S.pool[fd].offset <= S.dir[i].fileSize
            && PosOk(G.owner, S.pool[fd], S.dir[i].fileSize)
  {
    hide DiskOk, OwnerOk, DirOk, BitmapOk;
    assert Occupied(S.dir[S.pool[fd].index]);
  }

  /** Moving only the cursor of fd, by as many bytes as a read delivers, is the abstract read. */
  lemma ReadDone(S: Sys, G: Ghosts, S': Sys, fd: nat, len: int, n: nat)
    requires Inv(S, G) && fd < 1024 && S.pool[fd].isOpen && S'.dir == S.dir && S'.pool == S.pool[fd := S'.pool[fd]]
    requires var d, d' := S.pool[fd], S'.pool[fd];
             d'.isOpen && d'.index == d.index && d'.writable == d.writable && d'.offset == d.offset + n
    requires IsOpen(Abs(S, G), fd) && n == ReadCount(Abs(S, G), fd, len)
    ensures var i, o := S.pool[fd].index, S.pool[fd].offset;
            && o + n <= S.dir[i].fileSize
            && ReadOp(Abs(S, G), fd, len) == (Abs(S', G), Content(G.files[i], S.dir[i].fileSize)[o..o + n])
  {
    hide Inv, Content;
    var i := S.pool[fd].index;
    OpenView(S, G, fd);
    AbsUpdate(S, G, S', G, i, fd);
    var s, s' := Abs(S, G), Abs(S', G);
    assert s'.files == s.files;
    assert s'.descs == s.descs[fd := s.descs[fd].(offset := s.descs[fd].offset + n)];
    if n == 0 {
      assert s'.descs == s.descs;
    }
    assert ReadOp(s, fd, len).0 == s';
    assert ReadOp(s, fd, len).1 == ContentOf(s, fd)[s.descs[fd].offset..s.descs[fd].offset + n];
  }

  lemma OpenIsOpen(S: Sys, G: Ghosts, fd: nat)
    requires IsOpen(Abs(S, G), fd)
    ensures fd < 1024 && S.pool[fd].isOpen
  {
  }

  /** Moving count bytes on within one sector keeps the caches at the right place. */
  lemma PosAdvance(owner: Owners, fd: Fd, fd': Fd, count: nat, size: nat)
    requires 0 < count <= 512 - fd.offset % 512 && fd.offset + count <= size
    requires fd.bufferState != GARBAGE && fd.bufferIdx < 4096
    requires owner[fd.bufferIdx] == DataOf(fd.index, fd.offset / 512)
    requires fd.inodeState != GARBAGE && fd.inodeIdx < 4096
    requires owner[fd.inodeIdx] == InodeOf(fd.index, fd.offset / 65024)
    requires fd'.offset == fd.offset + count && fd'.index == fd.index
    requires fd'.inodeState != GARBAGE && fd'.inodeIdx == fd.inodeIdx
    requires if fd'.offset % 512 == 0 then fd'.bufferState == GARBAGE
             else fd'.bufferState != GARBAGE && fd'.bufferIdx == fd.bufferIdx
    ensures PosOk(owner, fd', size) && Tight(fd')
  {
    AdvanceArith(fd.offset, count);
  }

  lemma AdvanceArith(o: nat, count: nat)
    requires 0 < count <= 512 - o % 512
    ensures (o + count) % 512 != 0 ==> (o + count) / 512 == o / 512
    ensures (o + count - 1) / 65024 == o / 65024
  {
    assert (o + count - 1) / 512 == o / 512;
    Position(o);
    Position(o + count - 1);
  }

  /** The bytes of a file within one sector, from that sector's buffer. */
  lemma SectorSlice(g: FileG, n: nat, o: nat, count: nat)
    requires count <= 512 - o % 512 && o + count <= n
    ensures Content(g, n)[o..o + count] == SectorOf(g, o / 512)[o % 512..o % 512 + count]
  {
    var a, b := Content(g, n)[o..o + count], SectorOf(g, o / 512)[o % 512..o % 512 + count];
    forall k | 0 <= k < count ensures a[k] == b[k] {
      assert (o + k) / 512 == o / 512 && (o + k) % 512 == o % 512 + k;
    }
  }

  lemma BufferSlice(S: Sys, G: Ghosts, x: int, a: int, j: nat, s: nat)
    requires Core(S, G, x, a) && j < 1024 && Live(S.pool, a, j)
    requires var fd := S.pool[j];
             fd.bufferState != GARBAGE && fd.bufferIdx < 4096 && G.owner[fd.bufferIdx] == DataOf(fd.index, s)
    ensures S.pool[j].buffer == SectorOf(G.files[S.pool[j].index], s)
  {
    assert FdOk(G, S.pool[j], j);
  }

  /** A change of j's offset alone leaves the invariant inside j's operation. */
  lemma MoveOffset(S: Sys, G: Ghosts, a: int, j: nat, o: nat)
    requires Core(S, G, -1, a) && j < 1024 && Live(S.pool, a, j)
    ensures Core(S.(pool := S.pool[j := S.pool[j].(offset := o)]), G, -1, a)
  {
    hide Core, DiskOk, HolderOk, OwnerOk, BitmapOk;
    CoreFacts(S, G, -1, a, j);
    Recache(S, G, a, j, S.pool[j].(offset := o), S.(pool := S.pool[j := S.pool[j].(offset := o)]));
  }

  /** Moving the cursor under the caches keeps the invariant just for the moves that are served. */
  lemma Moved(S: Sys, G: Ghosts, fd: nat, n: nat)
    requires Inv(S, G) && fd < 1024 && S.pool[fd].isOpen
    ensures IsOpen(Abs(S, G), fd)
    ensures var S' := S.(pool := S.pool[fd := S.pool[fd].(offset := n)]);
            && Abs(S', G) == SeekOp(Abs(S, G), fd, n)
            && (Tight(S.pool[fd]) ==> (Inv(S', G) <==> SeekServed(Abs(S, G), fd, n)))
            && (Tight(S.pool[fd]) && SeekSafe(Abs(S, G), fd, n) ==> Tight(S'.pool[fd]))
  {
    hide Core, SizesOk, Content;
    var S' := S.(pool := S.pool[fd := S.pool[fd].(offset := n)]);
    OpenView(S, G, fd);
    AbsUpdate(S, G, S', G, S.pool[fd].index, fd);
    assert Abs(S', G).files == Abs(S, G).files;
    CoreOfOpen(S, G, -1, fd);
    MoveOffset(S, G, -1, fd, n);
    if Tight(S.pool[fd]) { MovedPos(G.owner, S.pool[fd], n, S.dir[S.pool[fd].index].fileSize); }
    assert PositionsOk(G.owner, S'.pool, S.dir, -1)
      <==> PosOk(G.owner, S'.pool[fd], S.dir[S.pool[fd].index].fileSize) by {
      forall k | 0 <= k < 1024 && S'.pool[k].isOpen && k != fd
        ensures PosOk(G.owner, S'.pool[k], S.dir[S'.pool[k].index].fileSize)
      {
        assert PosOk(G.owner, S.pool[k], S.dir[S.pool[k].index].fileSize);
      }
    }
  }

  lemma MovedPos(owner: Owners, fd: Fd, n: nat, size: nat)
    requires PosOk(owner, fd, size) && Tight(fd)
    ensures PosOk(owner, fd.(offset := n), size) <==> n <= size && Served(fd.offset, n)
  {
    Position(fd.offset);
    Position(n);
  }

  lemma CoreLive(S: Sys, G: Ghosts, x: int, a: int, a': int)
    requires Core(S, G, x, a)
    requires forall k :: 0 <= k < 1024 ==> (Live(S.pool, a, k) <==> Live(S.pool, a', k))
    ensures Core(S, G, x, a')
  {
    forall i: Slot ensures HolderOk(S.pool, G.holder, a', i) { assert HolderOk(S.pool, G.holder, a, i); }
  }

  /** Inside an operation of an open descriptor the invariant reads the same. */
  lemma CoreOfOpen(S: Sys, G: Ghosts, x: int, j: nat)
    requires j < 1024 && S.pool[j].isOpen
    ensures Core(S, G, x, j) <==> Core(S, G, x, -1)
  {
    hide Core;
    if Core(S, G, x, j) { CoreLive(S, G, x, j, -1); }
    if Core(S, G, x, -1) { CoreLive(S, G, x, -1, j); }
  }

  /** Re-establishes the invariant once j is back between operations. */
  lemma Settle(S: Sys, G: Ghosts, j: nat)
    requires j < 1024 && S.pool[j].isOpen && Core(S, G, -1, j)
    requires SizesOk(G.files, S.dir) && PositionsOk(G.owner, S.pool, S.dir, j)
    requires PosOk(G.owner, S.pool[j], S.dir[S.pool[j].index].fileSize)
    ensures Inv(S, G)
  {
    hide Core;
    CoreOfOpen(S, G, -1, j);
  }

  // ---------------------------------------------------------------- writing

  /** The blocks a fetch can need are within what the whole write needs. */
  lemma FetchRoom(used: nat, size: nat, o: nat, len: nat)
    requires 0 < len && o <= size
    requires BlocksOf(size) <= used && used + BlocksOf(Max(size, o + len)) - BlocksOf(size) <= 4096
    ensures o + len < 0x1_0000_0000
    ensures o == size && o % 512 == 0 ==> used + 1 + (if o % 65024 == 0 then 1 else 0) <= 4096
  {
    assert DataBlocksOf(Max(size, o + len)) <= 4096;
    if o == size && o % 512 == 0 {
      BlocksOfMono(size + 1, o + len);
      assert DataBlocksOf(size + 1) == DataBlocksOf(size) + 1;
      if o % 65024 == 0 { assert INodesOf(size + 1) == INodesOf(size) + 1; }
      else { BlocksOfMono(size, size + 1); }
    }
  }

  lemma {:induction false} SizeWithinTotal(files: seq<FileG>, i: nat)
    requires i < |files|
    ensures Size(files[i]) <= Total(files)
  {
    if i == |files| - 1 {
    } else {
      SizeWithinTotal(files[..|files| - 1], i);
    }
  }

  lemma SizedIsBlocks(g: FileG, n: nat)
    requires Sized(g, n)
    ensures Size(g) == BlocksOf(n)
  {
    SizedBlocks(g, n);
  }

  /** What a write through fd may rely on before its next fetch. */
  lemma WriteRoom(S: Sys, G: Ghosts, fd: nat, len: nat)
    requires Inv(S, G) && fd < 1024 && S.pool[fd].isOpen && 0 < len
    requires var i, o := S.pool[fd].index, S.pool[fd].offset;
             |UsedSet(S.bitmap)| + BlocksOf(Max(S.dir[i].fileSize, o + len)) - BlocksOf(S.dir[i].fileSize) <= 4096
    ensures var i, o := S.pool[fd].index, S.pool[fd].offset;
            && o + len < 0x1_0000_0000
            && (o == S.dir[i].fileSize && o % 512 == 0 ==>
                  |UsedSet(S.bitmap)| + 1 + (if o % 65024 == 0 then 1 else 0) <= 4096)
  {
    hide Core, PositionsOk, Sized, BlocksOf, Total, UsedSet, OwnerOk, BitmapOk, HolderOk, FdOk, FileOwned, Content;
    var i := S.pool[fd].index;
    OpenView(S, G, fd);
    CoreFacts(S, G, -1, -1, fd);
    assert Sized(G.files[i], S.dir[i].fileSize);
    SizedIsBlocks(G.files[i], S.dir[i].fileSize);
    SizeWithinTotal(G.files, i);
    FetchRoom(|UsedSet(S.bitmap)|, S.dir[i].fileSize, S.pool[fd].offset, len);
  }

  lemma SectorEnd(o: nat, count: nat)
    requires o % 512 + count <= 512
    ensures (o + count) % 512 == 0 <==> (o % 512 + count == 512 || (count == 0 && o % 512 == 0))
  {
  }

  /** A file grown by one fetch and one store has exactly the blocks of its new size. */
  lemma SizedAfter(g: FileG, g': FileG, size: nat, o: nat, count: nat)
    requires Sized(g, size) && o <= size && 0 < count <= 512 - o % 512
    requires |g'.blocks| == Max(|g.blocks|, o / 512 + 1)
    requires |g'.chain| == Max(|g.chain|, o / 65024 + 1)
    ensures Sized(g', Max(size, o + count))
  {
    SizedBlocks(g, size);
    SizedBlocks(g', Max(size, o + count));
    AdvanceArith(o, count);
    assert CeilDiv(o + count, 512) == o / 512 + 1;
    assert CeilDiv(o + count, 65024) == o / 65024 + 1;
    BlocksOfMono(size, Max(size, o + count));
  }

  /** One chunk stored: fetch has brought S0, G0 to S1, G1; the store gives S2, G2. */
  lemma StoreContent(G0: Ghosts, G1: Ghosts, i: Slot, size: nat, o: nat, chunk: seq<byte>, oldBuf: Sector, buf: Sector)
    requires Extends(G0, G1, i) && Sized(G0.files[i], size) && o <= size
    requires FileOwned(G0.owner, G0.files[i], i)
    requires 0 < |chunk| <= 512 - o % 512 && o / 512 < |G1.files[i].sects|
    requires oldBuf == SectorOf(G1.files[i], o / 512)
    requires buf == oldBuf[..o % 512] + chunk + oldBuf[o % 512 + |chunk|..]
    ensures Content(SetSector(G1, i, o / 512, buf).files[i], Max(size, o + |chunk|))
         == Splice(Content(G0.files[i], size), o, chunk)
  {
    SpliceSector(G0.files[i], SetSector(G1, i, o / 512, buf).files[i], size, o, chunk);
  }

  /** What fd_buffer_fetch does: the sector and inode of the cursor are at hand, and the file
      has grown just enough to have them. */
  ghost predicate Fetched(S: Sys, G: Ghosts, S': Sys, G': Ghosts, fd: nat)
    requires fd < 1024
  {
    var d, d' := S.pool[fd], S'.pool[fd];
    var i, o := d.index, d.offset;
    && S'.pool == S.pool[fd := d']
    && d'.index == i && d'.offset == o && d'.isOpen == d.isOpen && d'.writable == d.writable
    && AtHand(G'.owner, d', o)
    && Extends(G, G', i) && SameEntries(S.dir, S'.dir, i)
    && |G'.files[i].blocks| == Max(|G.files[i].blocks|, o / 512 + 1)
    && |G'.files[i].chain| == Max(|G.files[i].chain|, o / 65024 + 1)
    && (Linear(G, i) ==> Linear(G', i))
  }

  /** The first part of it, at an inode boundary: the inode of the cursor is at hand. */
  ghost predicate INodeFetched(S: Sys, G: Ghosts, S': Sys, G': Ghosts, fd: nat)
    requires fd < 1024
  {
    var d, d' := S.pool[fd], S'.pool[fd];
    var i, c := d.index, d.offset / 65024;
    && S'.pool == S.pool[fd := d.(inodeIdx := d'.inodeIdx, inode := d'.inode, inodeState := d'.inodeState)]
    && d'.inodeState != GARBAGE && d'.inodeIdx < 4096 && G'.owner[d'.inodeIdx] == InodeOf(i, c)
    && Extends(G, G', i) && SameEntries(S.dir, S'.dir, i)
    && G'.holder == G.holder && G'.files[i].blocks == G.files[i].blocks
    && |G'.files[i].chain| == Max(|G.files[i].chain|, c + 1)
    && (Linear(G, i) ==> Linear(G', i))
  }

  /** Nothing to do: within a sector both are at hand already. */
  lemma FetchedAlready(S: Sys, G: Ghosts, fd: nat)
    requires fd < 1024 && S.pool[fd].bufferState != GARBAGE
    requires PosOk(G.owner, S.pool[fd], S.dir[S.pool[fd].index].fileSize)
    requires SizesOk(G.files, S.dir) && OwnerOk(G)
    ensures Fetched(S, G, S, G, fd)
  {
    SizedPosition(G.files, S.dir, S.pool[fd].index, S.pool[fd].offset);
    AtHandExists(G, S.pool[fd]);
  }

  lemma AtHandExists(G: Ghosts, fd: Fd)
    requires OwnerOk(G) && AtHand(G.owner, fd, fd.offset)
    ensures fd.offset / 512 < |G.files[fd.index].blocks| && fd.offset / 65024 < |G.files[fd.index].chain|
  {
    assert OwnedBack(G.owner, G.files, fd.bufferIdx) && OwnedBack(G.owner, G.files, fd.inodeIdx);
  }

  /** The sector is read through the fetched inode. */
  lemma FetchedByLoad(S: Sys, G: Ghosts, S1: Sys, G1: Ghosts, S2: Sys, fd: nat)
    requires fd < 1024 && INodeFetched(S, G, S1, G1, fd)
    requires var d1, d2 := S1.pool[fd], S2.pool[fd];
             && S2.pool == S1.pool[fd := d1.(bufferIdx := d2.bufferIdx, buffer := d2.buffer, bufferState := USEFUL)]
             && d2.bufferIdx < 4096 && G1.owner[d2.bufferIdx] == DataOf(d1.index, d1.offset / 512)
             && S2.dir == S1.dir && d1.offset / 512 < |G1.files[d1.index].blocks|
    ensures Fetched(S, G, S2, G1, fd)
  {
  }

  /** The sector is a new block. */
  lemma FetchedByAlloc(S: Sys, G: Ghosts, S1: Sys, G1: Ghosts, S2: Sys, G2: Ghosts, fd: nat, b: Block)
    requires fd < 1024 && INodeFetched(S, G, S1, G1, fd) && G1.owner[b] == Free
    requires var d1, d2 := S1.pool[fd], S2.pool[fd];
             && S2.pool == S1.pool[fd := d1.(inode := d2.inode, inodeState := NEED_WASHING,
                                                     bufferIdx := b, bufferState := USEFUL)]
             && S2.dir == S1.dir
             && d1.offset / 512 == |G1.files[d1.index].blocks|
             && G2 == GrowBlocks(G1, d1.index, b, d1.buffer)
             && (Linear(G1, d1.index) ==> Linear(G2, d1.index))
    ensures Fetched(S, G, S2, G2, fd)
  {
    hide Linear;
    GrowBlocksExtends(G1, S1.pool[fd].index, b, S1.pool[fd].buffer);
  }

  function Patched(buf: Sector, at: nat, chunk: seq<byte>): Sector
    requires at + |chunk| <= 512
  {
    buf[..at] + chunk + buf[at + |chunk|..]
  }

  /** What lines 197-204 do once the sector is at hand. */
  ghost predicate Stored(S: Sys, G: Ghosts, S': Sys, G': Ghosts, fd: nat, chunk: seq<byte>)
    requires fd < 1024
  {
    var d, d' := S.pool[fd], S'.pool[fd];
    var i, o := d.index, d.offset;
    && o % 512 + |chunk| <= 512 && o + |chunk| < 0x1_0000_0000
    && S'.pool == S.pool[fd := d']
    && d' == d.(bufferState := NEED_WASHING, offset := o + |chunk|, buffer := Patched(d.buffer, o % 512, chunk))
    && o / 512 < |G.files[i].sects| && d.buffer == SectorOf(G.files[i], o / 512)
    && G' == SetSector(G, i, o / 512, d'.buffer)
    && S'.dir == S.dir[i := S.dir[i].(fileSize := Max(S.dir[i].fileSize, o + |chunk|))]
  }

  /** The net effect of a write chunk on its file. */
  ghost predicate Spliced(S: Sys, G: Ghosts, S': Sys, G': Ghosts, fd: nat, chunk: seq<byte>)
    requires fd < 1024
  {
    var i, o, size := S.pool[fd].index, S.pool[fd].offset, S.dir[S.pool[fd].index].fileSize;
    && o <= size
    && OnlyFile(G, G', i)
    && S'.dir == S.dir[i := S'.dir[i]] && S'.dir[i].fileName == S.dir[i].fileName
    && S'.dir[i].fileSize == Max(size, o + |chunk|)
    && Content(G'.files[i], S'.dir[i].fileSize) == Splice(Content(G.files[i], size), o, chunk)
    && S'.pool == S.pool[fd := S'.pool[fd]]
    && S'.pool[fd].isOpen == S.pool[fd].isOpen && S'.pool[fd].index == i && S'.pool[fd].writable == S.pool[fd].writable
    && S'.pool[fd].offset == o + |chunk|
    && (Linear(G, i) ==> Linear(G', i))
  }

  lemma WriteSpliced(S0: Sys, G0: Ghosts, S1: Sys, G1: Ghosts, S: Sys, G: Ghosts, fd: nat, chunk: seq<byte>)
    requires fd < 1024 && Fetched(S0, G0, S1, G1, fd) && Stored(S1, G1, S, G, fd, chunk) && 0 < |chunk|
    requires var i := S0.pool[fd].index;
             && S0.pool[fd].offset <= S0.dir[i].fileSize && Sized(G0.files[i], S0.dir[i].fileSize)
             && FileOwned(G0.owner, G0.files[i], i)
    ensures Spliced(S0, G0, S, G, fd, chunk)
    ensures Sized(G.files[S0.pool[fd].index], S.dir[S0.pool[fd].index].fileSize)
  {
    hide FileOwned, Sized;
    var i, o, size := S0.pool[fd].index, S0.pool[fd].offset, S0.dir[S0.pool[fd].index].fileSize;
    StoreContent(G0, G1, i, size, o, chunk, S1.pool[fd].buffer, S.pool[fd].buffer);
    SizedAfter(G0.files[i], G.files[i], size, o, |chunk|);
  }

  /** After fetch (S0, G0 to S1, G1), store (to S2, G) and, at a sector's end, flush (to S),
      the invariant holds again. */
  lemma WriteSettled(S0: Sys, G0: Ghosts, S1: Sys, G1: Ghosts, S2: Sys, S: Sys, G: Ghosts, fd: nat, chunk: seq<byte>)
    requires Inv(S0, G0) && fd < 1024 && S0.pool[fd].isOpen && G0.holder[S0.pool[fd].index] == fd && 0 < |chunk|
    requires Fetched(S0, G0, S1, G1, fd) && Stored(S1, G1, S2, G, fd, chunk)
    requires Core(S, G, -1, fd) && S.dir == S2.dir && S.pool == S2.pool[fd := S.pool[fd]]
    requires S.pool[fd] == if S2.pool[fd].offset % 512 == 0 then S2.pool[fd].(bufferState := GARBAGE) else S2.pool[fd]
    ensures Inv(S, G) && Spliced(S0, G0, S, G, fd, chunk) && Tight(S.pool[fd])
  {
    hide Core, FdOk, Fetched, Stored, Sized, FileOwned;
    var i := S0.pool[fd].index;
    OpenView(S0, G0, fd);
    CoreFacts(S0, G0, -1, -1, fd);
    assert Sized(G0.files[i], S0.dir[i].fileSize);
    WriteSpliced(S0, G0, S1, G1, S2, G, fd, chunk);
    assert Spliced(S0, G0, S, G, fd, chunk);
    WritePositions(S0, G0, S1, G1, S2, S, G, fd, chunk);
    assert SizesOk(G.files, S.dir) by {
      forall k: Slot ensures Sized(G.files[k], S.dir[k].fileSize) { assert Sized(G0.files[k], S0.dir[k].fileSize); }
    }
    Settle(S, G, fd);
  }

  lemma WritePositions(S0: Sys, G0: Ghosts, S1: Sys, G1: Ghosts, S2: Sys, S: Sys, G: Ghosts, fd: nat, chunk: seq<byte>)
    requires Inv(S0, G0) && fd < 1024 && S0.pool[fd].isOpen && G0.holder[S0.pool[fd].index] == fd && 0 < |chunk|
    requires Fetched(S0, G0, S1, G1, fd) && Stored(S1, G1, S2, G, fd, chunk)
    requires S.dir == S2.dir && S.pool == S2.pool[fd := S.pool[fd]]
    requires S.pool[fd] == if S2.pool[fd].offset % 512 == 0 then S2.pool[fd].(bufferState := GARBAGE) else S2.pool[fd]
    ensures PositionsOk(G.owner, S.pool, S.dir, fd)
    ensures PosOk(G.owner, S.pool[fd], S.dir[S.pool[fd].index].fileSize) && Tight(S.pool[fd])
  {
    hide Core;
    PosAdvance(G.owner, S1.pool[fd], S.pool[fd], |chunk|, S.dir[S.pool[fd].index].fileSize);
    OthersElsewhere(S0, G0, fd);
    PositionsKept(G0, G, S0.pool, S.pool, S0.dir, S.dir, fd);
  }

  /** The holder of a file is alone on it. */
  lemma OthersElsewhere(S: Sys, G: Ghosts, fd: nat)
    requires Inv(S, G) && fd < 1024 && S.pool[fd].isOpen && G.holder[S.pool[fd].index] == fd
    ensures forall k :: 0 <= k < 1024 && k != fd && S.pool[k].isOpen ==> S.pool[k].index != S.pool[fd].index
  {
    hide OwnerOk, DiskOk, FdOk, BitmapOk, DirOk, PositionsOk, SizesOk, FlagsOk;
    assert HolderOk(S.pool, G.holder, -1, S.pool[fd].index);
    forall k | 0 <= k < 1024 && k != fd && S.pool[k].isOpen ensures S.pool[k].index != S.pool[fd].index {
      assert Live(S.pool, -1, k);
    }
  }

  /** The concrete effect of a write chunk is the abstract write. */
  lemma SplicedAbs(S: Sys, G: Ghosts, S': Sys, G': Ghosts, fd: nat, chunk: seq<byte>)
    requires Inv(S, G) && fd < 1024 && S.pool[fd].isOpen && Spliced(S, G, S', G', fd, chunk)
    requires G'.holder == G.holder && G.holder[S.pool[fd].index] == fd
    ensures Writable(Abs(S, G), fd)
    ensures Abs(S', G') == WriteOp(Abs(S, G), fd, chunk)
  {
    hide Core;
    var i := S.pool[fd].index;
    OpenView(S, G, fd);
    AbsUpdate(S, G, S', G', i, fd);
    assert Occupied(S'.dir[i]);
  }

  /** A descriptor alone on its file may become its holder. */
  lemma TakeHoldCore(S: Sys, G: Ghosts, fd: nat)
    requires Core(S, G, -1, -1) && fd < 1024 && S.pool[fd].isOpen
    requires forall k :: 0 <= k < 1024 && S.pool[k].isOpen && S.pool[k].index == S.pool[fd].index ==> k == fd
    ensures Core(S, G.(holder := G.holder[S.pool[fd].index := fd]), -1, -1)
  {
    hide OwnerOk, BitmapOk, FlagsOk, DirOk, INodeCacheOk, BufferOk;
    var i := S.pool[fd].index;
    var G' := G.(holder := G.holder[i := fd]);
    OwnerOkHolder(G, G');
    assert HolderOk(S.pool, G.holder, -1, i);
    forall k: Slot ensures HolderOk(S.pool, G'.holder, -1, k) { assert HolderOk(S.pool, G.holder, -1, k); }
    forall k | 0 <= k < 1024 && Live(S.pool, -1, k) ensures FdOk(G', S.pool[k], k) {
      assert FdOk(G, S.pool[k], k);
      CachesHolder(G, G', S.pool[k]);
    }
    forall b: Block | G.owner[b] != Free && !Dirty(S.pool, G', b) ensures S.disk[3 + b] == Logical(G', b) {
      assert !Dirty(S.pool, G, b);
    }
  }

  /** Who holds a file does not enter into what the blocks mean. */
  lemma OwnerOkHolder(G: Ghosts, G': Ghosts)
    requires G' == G.(holder := G'.holder)
    ensures OwnerOk(G) <==> OwnerOk(G')
  {
  }

  lemma CachesHolder(G: Ghosts, G': Ghosts, fd: Fd)
    requires G' == G.(holder := G'.holder)
    ensures INodeCacheOk(G, fd) <==> INodeCacheOk(G', fd)
    ensures BufferOk(G, fd) <==> BufferOk(G', fd)
  {
  }

  /** Becoming the holder is the abstract write of nothing. */
  lemma TakeHold(S: Sys, G: Ghosts, fd: nat, G': Ghosts)
    requires fd < 1024 && S.pool[fd].isOpen && G' == G.(holder := G.holder[S.pool[fd].index := fd])
    requires forall k :: 0 <= k < 1024 && S.pool[k].isOpen && S.pool[k].index == S.pool[fd].index ==> k == fd
    requires Inv(S, G)
    ensures Writable(Abs(S, G), fd)
    ensures Abs(S, G') == WriteOp(Abs(S, G), fd, [])
    ensures Inv(S, G')
  {
    hide Core, SizesOk, PositionsOk;
    OpenView(S, G, fd);
    CoreFacts(S, G, -1, -1, fd);
    TakeHoldCore(S, G, fd);
    HoldAbs(S, G, fd);
  }

  lemma HoldAbs(S: Sys, G: Ghosts, fd: nat)
    requires fd < 1024 && S.pool[fd].isOpen && Occupied(S.dir[S.pool[fd].index])
    requires S.pool[fd].offset <= S.dir[S.pool[fd].index].fileSize
    requires forall k :: 0 <= k < 1024 && S.pool[k].isOpen && S.pool[k].index == S.pool[fd].index ==> k == fd
    ensures Writable(Abs(S, G), fd)
    ensures Abs(S, G.(holder := G.holder[S.pool[fd].index := fd])) == WriteOp(Abs(S, G), fd, [])
  {
    var i := S.pool[fd].index;
    var G' := G.(holder := G.holder[i := fd]);
    var s, s' := Abs(S, G), WriteOp(Abs(S, G), fd, []);
    SpliceNothing(Content(G.files[i], S.dir[i].fileSize), S.pool[fd].offset);
    assert s'.files == Abs(S, G').files;
    forall k | 0 <= k < 1024 ensures Abs(S, G').descs[k] == s'.descs[k] {
      assert s.descs[k] == AbsDesc(S.pool[k], G.holder[S.pool[k].index] == k);
    }
    assert s'.descs == Abs(S, G').descs;
  }

  /** The room left for the rest of a write that fits. */
  lemma RoomLeft(S: Sys, G: Ghosts, fd: nat, rest: seq<byte>)
    requires Inv(S, G) && fd < 1024 && S.pool[fd].isOpen && Writable(Abs(S, G), fd)
    requires BlocksTaken(WriteOp(Abs(S, G), fd, rest).files) <= 4096
    ensures var i, o := S.pool[fd].index, S.pool[fd].offset;
            |UsedSet(S.bitmap)| + BlocksOf(Max(S.dir[i].fileSize, o + |rest|)) - BlocksOf(S.dir[i].fileSize) <= 4096
  {
    hide Core;
    var s, i := Abs(S, G), S.pool[fd].index;
    OpenView(S, G, fd);
    SpaceAccounting(S, G);
    BlocksTakenUpdate(s.files, i, WriteOp(s, fd, rest).files[i]);
  }

  /** What MayWrite says about the descriptor itself. */
  lemma OpenOnly(S: Sys, G: Ghosts, fd: int, data: seq<byte>)
    requires MayWrite(Abs(S, G), fd, data)
    ensures 0 <= fd < 1024 && IsOpen(Abs(S, G), fd) && Sole(Abs(S, G), fd)
    ensures S.pool[fd].isOpen && S.pool[fd].writable
    ensures Writable(Abs(S, G), fd) && BlocksTaken(WriteOp(Abs(S, G), fd, data).files) <= 4096
    ensures forall k :: 0 <= k < 1024 && S.pool[k].isOpen && S.pool[k].index == S.pool[fd].index ==> k == fd
  {
    forall k | 0 <= k < 1024 && S.pool[k].isOpen && S.pool[k].index == S.pool[fd].index ensures k == fd {
      assert IsOpen(Abs(S, G), k) && Abs(S, G).descs[k].slot == Abs(S, G).descs[fd].slot;
    }
  }

  // ---------------------------------------------------------------- opening and closing

  /** Descriptor j stays closed; its other fields are free. */
  lemma TouchClosed(S: Sys, G: Ghosts, j: nat, fd': Fd)
    requires Inv(S, G) && j < 1024 && !S.pool[j].isOpen && !fd'.isOpen
    ensures var S' := S.(pool := S.pool[j := fd']);
            Inv(S', G) && Abs(S', G) == Abs(S, G).(descs := Abs(S, G).descs[j := Closed(fd'.writable)])
  {
    hide OwnerOk, BitmapOk, DirOk, FlagsOk, SizesOk, INodeCacheOk, BufferOk, PosOk;
    var S' := S.(pool := S.pool[j := fd']);
    assert Core(S', G, -1, -1) by { PoolChange(S, G, j, fd'); }
    assert PositionsOk(G.owner, S'.pool, S'.dir, -1);
    AbsUpdate(S, G, S', G, fd'.index, j);
    assert AbsFiles(S'.dir, G.files)[fd'.index] == AbsFile(S'.dir[fd'.index], G.files[fd'.index]);
  }

  /** A closed descriptor may change, or be opened on a file nobody holds. */
  lemma PoolChange(S: Sys, G: Ghosts, j: nat, fd': Fd)
    requires Core(S, G, -1, -1) && j < 1024 && !S.pool[j].isOpen
    requires fd'.isOpen ==> fd'.bufferState == GARBAGE && fd'.inodeState == GARBAGE
                            && G.holder[fd'.index] == -1 && Occupied(S.dir[fd'.index])
    ensures Core(S.(pool := S.pool[j := fd']), G, -1, -1)
  {
    hide OwnerOk, BitmapOk, DirOk;
    var S' := S.(pool := S.pool[j := fd']);
    forall i: Slot ensures HolderOk(S'.pool, G.holder, -1, i) { assert HolderOk(S.pool, G.holder, -1, i); }
    forall k | 0 <= k < 1024 && Live(S'.pool, -1, k) ensures FdOk(G, S'.pool[k], k) {
      if k != j { assert FdOk(G, S.pool[k], k); }
    }
    forall b: Block | G.owner[b] != Free && !Dirty(S'.pool, G, b) ensures S'.disk[3 + b] == Logical(G, b) {
      assert HolderOk(S.pool, G.holder, -1, G.owner[b].slot);
      assert !Dirty(S.pool, G, b);
    }
  }

  /** Whatever was opened starts at the beginning with no caches, and what its inode field held
      before is still there. */
  ghost predicate Opened(pool: Pool, pool': Pool) {
    forall j :: 0 <= j < 1024 ==>
      && pool'[j].inode == pool[j].inode
      && (pool'[j].isOpen ==>
            pool'[j] == pool[j]
            || (pool'[j].offset == 0 && pool'[j].bufferState == GARBAGE && pool'[j].inodeState == GARBAGE))
  }

  /** Opens the file in slot i on the closed descriptor j. */
  lemma OpenSlot(S: Sys, G: Ghosts, i: Slot, j: nat, fd': Fd)
    requires Inv(S, G) && j < 1024 && !S.pool[j].isOpen && G.holder[i] == -1 && Occupied(S.dir[i])
    requires fd'.isOpen && fd'.index == i && fd'.offset == 0 && fd'.bufferState == GARBAGE && fd'.inodeState == GARBAGE
    ensures var S' := S.(pool := S.pool[j := fd']);
            Inv(S', G) && Abs(S', G) == Abs(S, G).(descs := Abs(S, G).descs[j := Open(i, 0, fd'.writable, false)])
  {
    hide OwnerOk, BitmapOk, DirOk, FlagsOk, SizesOk, INodeCacheOk, BufferOk;
    var S' := S.(pool := S.pool[j := fd']);
    PoolChange(S, G, j, fd');
    assert PositionsOk(G.owner, S'.pool, S'.dir, -1) by {
      forall k | 0 <= k < 1024 && S'.pool[k].isOpen
        ensures PosOk(G.owner, S'.pool[k], S'.dir[S'.pool[k].index].fileSize)
      {
        if k != j { assert PosOk(G.owner, S.pool[k], S.dir[S.pool[k].index].fileSize); }
      }
    }
    AbsUpdate(S, G, S', G, i, j);
    assert AbsFiles(S'.dir, G.files)[i] == AbsFile(S'.dir[i], G.files[i]);
  }

  /** A slot of the abstract table is free exactly when its entry has no name. */
  lemma SlotView(S: Sys, G: Ghosts, i: Slot)
    requires Inv(S, G)
    ensures Abs(S, G).files[i].File? <==> Occupied(S.dir[i])
    ensures Abs(S, G).files[i].File? ==> Abs(S, G).files[i].name == S.dir[i].fileName
    ensures Padded(S.dir[i].fileName) && NameForm(S.dir[i].fileName, 24) == S.dir[i].fileName
    ensures EntryOk(S.dir[i], G.files[i])
  {
    assert EntryOk(S.dir[i], G.files[i]);
    NameFormOfPadded(S.dir[i].fileName);
  }

  /** A file that is quiet has no holder. */
  lemma QuietView(S: Sys, G: Ghosts, i: Slot)
    requires Inv(S, G) && Quiet(Abs(S, G), i)
    ensures G.holder[i] == -1
  {
    hide OwnerOk, BitmapOk, DirOk, FlagsOk, DiskOk, FdOk, SizesOk, PositionsOk;
    assert HolderOk(S.pool, G.holder, -1, i);
    if G.holder[i] >= 0 { HolderView(S, G, i); }
  }

  lemma HolderView(S: Sys, G: Ghosts, i: Slot)
    requires G.holder[i] >= 0 && S.pool[G.holder[i]].isOpen && S.pool[G.holder[i]].index == i
    ensures !Quiet(Abs(S, G), i)
  {
    var h := G.holder[i];
    assert Abs(S, G).descs[h] == AbsDesc(S.pool[h], true);
    assert IsOpen(Abs(S, G), h);
  }

  /** Names the free slot i; the file there is empty and has no inode yet. */
  lemma NameSlot(S: Sys, G: Ghosts, i: Slot, name: Name, S': Sys)
    requires Inv(S, G) && !Occupied(S.dir[i]) && name[0] != 0 && Padded(name)
    requires forall k: Slot :: Occupied(S.dir[k]) ==> S.dir[k].fileName != name
    requires S' == S.(stateDir := NEED_WASHING, dir := S.dir[i := DirEntry(name, 0, NO_INODE)])
    ensures Inv(S', G) && G.holder[i] == -1
    ensures Abs(S', G) == Abs(S, G).(files := Abs(S, G).files[i := File(name, [])])
  {
    hide OwnerOk, BitmapOk, INodeCacheOk, BufferOk, PosOk;
    assert EntryOk(S.dir[i], G.files[i]);
    assert HolderOk(S.pool, G.holder, -1, i);
    NameSlotInv(S, G, i, name, S');
    assert AbsFiles(S'.dir, G.files) == AbsFiles(S.dir, G.files)[i := File(name, [])];
  }

  lemma NameSlotInv(S: Sys, G: Ghosts, i: Slot, name: Name, S': Sys)
    requires Inv(S, G) && !Occupied(S.dir[i]) && name[0] != 0 && Padded(name) && EntryOk(S.dir[i], G.files[i])
    requires forall k: Slot :: Occupied(S.dir[k]) ==> S.dir[k].fileName != name
    requires S' == S.(stateDir := NEED_WASHING, dir := S.dir[i := DirEntry(name, 0, NO_INODE)])
    ensures Inv(S', G)
  {
    hide OwnerOk, BitmapOk, FdOk;
    assert DirOk(S'.dir, G.files) by {
      forall k: Slot ensures EntryOk(S'.dir[k], G.files[k]) { assert EntryOk(S.dir[k], G.files[k]); }
    }
    assert SizesOk(G.files, S'.dir) by {
      forall k: Slot ensures Sized(G.files[k], S'.dir[k].fileSize) { assert Sized(G.files[k], S.dir[k].fileSize); }
    }
    assert PositionsOk(G.owner, S'.pool, S'.dir, -1) by {
      forall k | 0 <= k < 1024 && S'.pool[k].isOpen
        ensures PosOk(G.owner, S'.pool[k], S'.dir[S'.pool[k].index].fileSize)
      {
        assert Live(S.pool, -1, k);
        assert PosOk(G.owner, S.pool[k], S.dir[S.pool[k].index].fileSize);
      }
    }
    forall k: Slot ensures HolderOk(S'.pool, G.holder, -1, k) { assert HolderOk(S.pool, G.holder, -1, k); }
    forall k | 0 <= k < 1024 && Live(S'.pool, -1, k) ensures FdOk(G, S'.pool[k], k) { assert FdOk(G, S.pool[k], k); }
    forall b: Block | G.owner[b] != Free && !Dirty(S'.pool, G, b) ensures S'.disk[3 + b] == Logical(G, b) {
      assert !Dirty(S.pool, G, b);
    }
  }

  /** A descriptor with nothing left to write lets its file go. */
  lemma LetGo(S: Sys, G: Ghosts, a: int, j: nat, G': Ghosts)
    requires Core(S, G, -1, a) && j < 1024 && Live(S.pool, a, j) && !Washing(S.pool[j])
    requires G' == G.(holder := if G.holder[S.pool[j].index] == j then G.holder[S.pool[j].index := -1] else G.holder)
    ensures Core(S, G', -1, a)
  {
    hide OwnerOk, BitmapOk, FlagsOk, DirOk, INodeCacheOk, BufferOk;
    OwnerOkHolder(G, G');
    forall k: Slot ensures HolderOk(S.pool, G'.holder, a, k) { assert HolderOk(S.pool, G.holder, a, k); }
    forall k | 0 <= k < 1024 && Live(S.pool, a, k) ensures FdOk(G', S.pool[k], k) {
      assert FdOk(G, S.pool[k], k);
      CachesHolder(G, G', S.pool[k]);
    }
    forall b: Block | G.owner[b] != Free && !Dirty(S.pool, G', b) ensures S.disk[3 + b] == Logical(G', b) {
      assert !Dirty(S.pool, G, b);
    }
  }

  /** Once it is closed, clean and holds nothing, the descriptor is out of the picture. */
  lemma Released(S: Sys, G: Ghosts, j: nat)
    requires Core(S, G, -1, j) && j < 1024 && !S.pool[j].isOpen && forall i: Slot :: G.holder[i] != j
    ensures Core(S, G, -1, -1)
  {
    hide OwnerOk, BitmapOk, FlagsOk, DirOk, DiskOk, FdOk;
    forall k: Slot ensures HolderOk(S.pool, G.holder, -1, k) { assert HolderOk(S.pool, G.holder, j, k); }
  }

  lemma FlushTables(S: Sys, G: Ghosts, a: int, S': Sys)
    requires Core(S, G, -1, a)
    requires S'.dir == S.dir && S'.bitmap == S.bitmap && S'.pool == S.pool && S'.disk[3..] == S.disk[3..]
    requires S'.stateDir == USEFUL && S'.stateBitmap == USEFUL
    requires S'.disk[2] == if S.stateDir == NEED_WASHING then EncodeDir(S.dir) else S.disk[2]
    requires S'.disk[1] == if S.stateBitmap == NEED_WASHING then EncodeBitmap(S.bitmap) else S.disk[1]
    ensures Core(S', G, -1, a)
  {
    hide OwnerOk, BitmapOk, DirOk, FdOk, HolderOk, Logical, EncodeDir, EncodeBitmap, UsedSet;
    forall b: Block | G.owner[b] != Free && !Dirty(S'.pool, G, b) ensures S'.disk[3 + b] == Logical(G, b) {
      assert !Dirty(S.pool, G, b);
      assert S'.disk[3 + b] == S'.disk[3..][b] && S.disk[3 + b] == S.disk[3..][b];
    }
  }

  /** Rewinding drops the clean caches. */
  lemma DropCaches(S: Sys, G: Ghosts, a: int, j: nat)
    requires Core(S, G, -1, a) && j < 1024 && Live(S.pool, a, j)
    requires S.pool[j].inodeState != NEED_WASHING && S.pool[j].bufferState == GARBAGE
    ensures Core(S.(pool := S.pool[j := S.pool[j].(offset := 0, inodeState := GARBAGE)]), G, -1, a)
  {
    hide Core, DiskOk, HolderOk, OwnerOk, BitmapOk;
    CoreFacts(S, G, -1, a, j);
    var fd' := S.pool[j].(offset := 0, inodeState := GARBAGE);
    Recache(S, G, a, j, fd', S.(pool := S.pool[j := fd']));
  }

  /** After the flushes of a rewind, the descriptor is as if just opened. */
  lemma Rewound(S: Sys, G: Ghosts, S': Sys, G': Ghosts, fd: nat)
    requires Inv(S, G) && fd < 1024 && S.pool[fd].isOpen && Core(S', G, -1, fd)
    requires S'.pool == S.pool[fd := S.pool[fd].(bufferState := GARBAGE, offset := 0, inodeState := GARBAGE)]
             && S'.dir == S.dir
    requires G' == G.(holder := if G.holder[S.pool[fd].index] == fd then G.holder[S.pool[fd].index := -1] else G.holder)
    ensures Inv(S', G')
    ensures IsOpen(Abs(S, G), fd) && Abs(S', G') == RewindOp(Abs(S, G), fd)
  {
    hide Core, SizesOk;
    OpenView(S, G, fd);
    CoreFacts(S, G, -1, -1, fd);
    LetGo(S', G, fd, fd, G');
    assert PositionsOk(G'.owner, S'.pool, S'.dir, fd) by { PositionsKept(G, G', S.pool, S'.pool, S.dir, S'.dir, fd); }
    Settle(S', G', fd);
    ReleaseAbs(S, G, S', G', fd);
  }

  /** Letting a file go shows on no other descriptor. */
  lemma ReleaseAbs(S: Sys, G: Ghosts, S': Sys, G': Ghosts, fd: nat)
    requires fd < 1024 && S'.dir == S.dir && G'.files == G.files && S'.pool == S.pool[fd := S'.pool[fd]]
    requires S'.pool[fd].index == S.pool[fd].index
    requires G'.holder == if G.holder[S.pool[fd].index] == fd then G.holder[S.pool[fd].index := -1] else G.holder
    ensures Abs(S', G') == Abs(S, G).(descs := Abs(S, G).descs[fd := AbsDesc(S'.pool[fd], false)])
  {
    AbsUpdate(S, G, S', G', S.pool[fd].index, fd);
    var i := S.pool[fd].index;
    assert AbsFiles(S.dir, G.files)[i] == AbsFile(S'.dir[i], G'.files[i]);
    assert Abs(S, G).files[i := AbsFile(S'.dir[i], G'.files[i])] == Abs(S, G).files;
  }

  /** Marking fd closed while its operation goes on. */
  lemma CloseCore(S: Sys, G: Ghosts, fd: nat)
    requires Core(S, G, -1, fd) && fd < 1024
    ensures Core(S.(pool := S.pool[fd := S.pool[fd].(isOpen := false)]), G, -1, fd)
  {
    hide OwnerOk, BitmapOk, DirOk, INodeCacheOk, BufferOk;
    var S' := S.(pool := S.pool[fd := S.pool[fd].(isOpen := false)]);
    forall i: Slot ensures HolderOk(S'.pool, G.holder, fd, i) { assert HolderOk(S.pool, G.holder, fd, i); }
    forall k | 0 <= k < 1024 && Live(S'.pool, fd, k) ensures FdOk(G, S'.pool[k], k) {
      assert FdOk(G, S.pool[k], k);
      if k == fd { SameCaches(G, S.pool[k], S'.pool[k]); }
    }
    forall b: Block | G.owner[b] != Free && !Dirty(S'.pool, G, b) ensures S'.disk[3 + b] == Logical(G, b) {
      assert !Dirty(S.pool, G, b);
    }
  }

  lemma SameCaches(G: Ghosts, fd: Fd, fd': Fd)
    requires fd' == fd.(isOpen := fd'.isOpen)
    ensures INodeCacheOk(G, fd) <==> INodeCacheOk(G, fd')
    ensures BufferOk(G, fd) <==> BufferOk(G, fd')
  {
  }

  /** After the flushes of a close, the descriptor is out of the picture. */
  lemma Shut(S: Sys, G: Ghosts, S': Sys, G': Ghosts, fd: nat)
    requires Inv(S, G) && fd < 1024 && S.pool[fd].isOpen && Core(S', G, -1, fd)
    requires S'.pool == S.pool[fd := S'.pool[fd]] && S'.dir == S.dir
    requires !S'.pool[fd].isOpen && !Washing(S'.pool[fd])
             && S'.pool[fd].index == S.pool[fd].index && S'.pool[fd].writable == S.pool[fd].writable
    requires G' == G.(holder := if G.holder[S.pool[fd].index] == fd then G.holder[S.pool[fd].index := -1] else G.holder)
    ensures Inv(S', G')
    ensures IsOpen(Abs(S, G), fd) && Abs(S', G') == CloseOp(Abs(S, G), fd)
  {
    hide Core, SizesOk;
    OpenView(S, G, fd);
    LetGo(S', G, fd, fd, G');
    forall i: Slot ensures G'.holder[i] != fd { HolderAt(S, G, i); }
    Released(S', G', fd);
    PositionsKept(G, G', S.pool, S'.pool, S.dir, S'.dir, fd);
    assert PositionsOk(G'.owner, S'.pool, S'.dir, -1);
    ReleaseAbs(S, G, S', G', fd);
  }

  lemma HolderAt(S: Sys, G: Ghosts, i: Slot)
    requires Inv(S, G)
    ensures G.holder[i] >= 0 ==> S.pool[G.holder[i]].isOpen && S.pool[G.holder[i]].index == i
  {
    assert HolderOk(S.pool, G.holder, -1, i);
  }

  lemma NoneOpenPool(S: Sys, G: Ghosts)
    requires NoneOpen(Abs(S, G))
    ensures forall j :: 0 <= j < 1024 ==> !S.pool[j].isOpen
  {
    forall j | 0 <= j < 1024 ensures !S.pool[j].isOpen {
      assert Abs(S, G).descs[j].Closed?;
    }
  }

  // ---------------------------------------------------------------- looking up names

  /** The stored form of a nonempty path starts with its first byte. */
  lemma NameHead(p: seq<byte>)
    requires p != [] && p[0] != 0
    ensures NameForm(p, 24)[0] != 0 && Padded(NameForm(p, 24))
  {
    NameFormPadded(p, 24);
  }

  lemma ClosedView(S: Sys, G: Ghosts, j: int)
    requires j == FirstClosed(Abs(S, G)) && j >= 0
    ensures j < 1024 && !S.pool[j].isOpen
  {
  }

  lemma SlotIs(s: Fs, name: Name, i: Slot)
    requires Named(s.files[i], name) && forall k :: 0 <= k < i ==> !Named(s.files[k], name)
    ensures SlotOf(s, name) == i
  {
  }

  lemma FreeSlotIs(s: Fs, i: int)
    requires -1 <= i < 16 && (i >= 0 ==> s.files[i].NoFile?)
    requires forall k: Slot :: k < (if i >= 0 then i else 16) ==> s.files[k].File?
    ensures FirstFree(s) == i
  {
  }

  lemma SlotMiss(s: Fs, name: Name)
    requires forall k: Slot :: Named(s.files[k], name) ==> FirstClosed(s) < 0
    ensures SlotOf(s, name) >= 0 ==> FirstClosed(s) < 0
  {
  }

  lemma NoSlot(S: Sys, G: Ghosts, name: Name)
    requires Inv(S, G) && forall k :: 0 <= k < 16 ==> !Named(Abs(S, G).files[k], name)
    ensures SlotOf(Abs(S, G), name) == -1
    ensures forall k: Slot :: Occupied(S.dir[k]) ==> S.dir[k].fileName != name
  {
    forall k: Slot | Occupied(S.dir[k]) ensures S.dir[k].fileName != name { SlotView(S, G, k); }
  }
}
