/** The file system over its memory image: inodes, data blocks, the two free lists and the
    directory array, updated in place. Every operation is proved to be a step of `FileStore`. */
module FileSys {
  import opened CLib
  import opened FileStore

  const FREE_LIST_SIZE := MAX_NUM_DATA_BLK * MAX_NUM_DENTRY

  datatype Inode = Inode(length: nat, blk: seq<nat>)

  // ----- the image read as files -----

  /** The first `b` block indexes of an inode are its own. */
  ghost predicate InodeOK(ino: Inode, b: nat, disk: seq<byte>) {
    && |ino.blk| == MAX_NUM_DATA_BLK
    && b <= MAX_NUM_DATA_BLK
    && forall a :: 0 <= a < b ==> BLK_SIZE * ino.blk[a] + BLK_SIZE <= |disk|
  }

  ghost function ByteAt(ino: Inode, b: nat, disk: seq<byte>, p: nat): byte
    requires InodeOK(ino, b, disk) && p < BLK_SIZE * b
  {
    disk[BLK_SIZE * ino.blk[p / BLK_SIZE] + p % BLK_SIZE]
  }

  ghost function FileOf(ino: Inode, b: nat, disk: seq<byte>): File
    requires InodeOK(ino, b, disk)
  {
    File(ino.length, ino.blk[..b],
         seq(Min(ino.length, BLK_SIZE * b), p requires 0 <= p < BLK_SIZE * b => ByteAt(ino, b, disk, p)))
  }

  ghost predicate ImageOK(inodes: seq<Inode>, backed: seq<nat>, disk: seq<byte>) {
    |backed| == |inodes| && forall i :: 0 <= i < |inodes| ==> InodeOK(inodes[i], backed[i], disk)
  }

  ghost function FilesOf(inodes: seq<Inode>, backed: seq<nat>, disk: seq<byte>): seq<File>
    requires ImageOK(inodes, backed, disk)
  {
    seq(|inodes|, i requires 0 <= i < |inodes| => FileOf(inodes[i], backed[i], disk))
  }

  // ----- the effect of a write on the image -----

  /** Block indexes [start..start + |p|) replaced by `p`. */
  ghost predicate Relinked(blk: seq<nat>, start: nat, p: seq<nat>, blk': seq<nat>) {
    && |blk'| == |blk| == MAX_NUM_DATA_BLK
    && forall a :: 0 <= a < |blk| ==> blk'[a] == if start <= a < start + |p| then p[a - start] else blk[a]
  }

  /** Only the blocks `p` differ. */
  ghost predicate OnlyBlocks(disk: seq<byte>, p: seq<nat>, disk': seq<byte>) {
    && |disk'| == |disk|
    && forall x :: 0 <= x < |disk| && x / BLK_SIZE !in p ==> disk'[x] == disk[x]
  }

  ghost predicate ByteLanded(disk: seq<byte>, p: seq<nat>, inblk: nat, buf: seq<byte>, c: nat)
    requires c < |buf|
  {
    && (inblk + c) / BLK_SIZE < |p|
    && BLK_SIZE * p[(inblk + c) / BLK_SIZE] + BLK_SIZE <= |disk|
    && disk[BLK_SIZE * p[(inblk + c) / BLK_SIZE] + (inblk + c) % BLK_SIZE] == buf[c]
  }

  /** `cnt` bytes of `buf` stand in the blocks `p`, from `inblk` in the first one. */
  ghost predicate Landed(disk: seq<byte>, p: seq<nat>, inblk: nat, buf: seq<byte>, cnt: nat) {
    cnt <= |buf| && forall c :: 0 <= c < cnt ==> ByteLanded(disk, p, inblk, buf, c)
  }

  /** How far a write has got when `k` of the blocks `p` have been linked in and `cnt` bytes stored. */
  ghost predicate Progress(ino0: Inode, disk0: seq<byte>, start: nat, p: seq<nat>, inblk: nat, buf: seq<byte>,
                           k: nat, ino: Inode, disk: seq<byte>, cnt: nat)
    requires k <= |p|
  {
    && ino.length == ino0.length && Relinked(ino0.blk, start, p[..k], ino.blk)
    && OnlyBlocks(disk0, p, disk) && Landed(disk, p, inblk, buf, cnt)
  }

  /** One more block filled, from `from`, which is where the bytes so far end. */
  lemma LandedStep(disk0: seq<byte>, disk: seq<byte>, disk': seq<byte>, p: seq<nat>, k: nat, from: nat, inblk: nat,
                   buf: seq<byte>, cnt: nat, cnt': nat)
    requires NoDup(p) && k < |p| && Landed(disk, p, inblk, buf, cnt) && OnlyBlocks(disk0, p, disk)
    requires inblk + cnt == BLK_SIZE * k + from && from <= BLK_SIZE && |disk'| == |disk|
    requires cnt <= cnt' <= |buf| && cnt' - cnt <= BLK_SIZE - from && BLK_SIZE * p[k] + BLK_SIZE <= |disk|
    requires forall c :: cnt <= c < cnt' ==> disk'[BLK_SIZE * p[k] + from + (c - cnt)] == buf[c]
    requires forall x :: 0 <= x < |disk| && !(BLK_SIZE * p[k] + from <= x < BLK_SIZE * p[k] + BLK_SIZE) ==>
             disk'[x] == disk[x]
    ensures Landed(disk', p, inblk, buf, cnt') && OnlyBlocks(disk0, p, disk')
  {
    forall c | 0 <= c < cnt'
      ensures ByteLanded(disk', p, inblk, buf, c)
    {
      var q := (inblk + c) / BLK_SIZE;
      if c < cnt {
        assert ByteLanded(disk, p, inblk, buf, c) && q <= k;
        if q == k { assert (inblk + c) % BLK_SIZE < from; }
      } else {
        assert q == k && (inblk + c) % BLK_SIZE == from + (c - cnt);
      }
    }
    forall x | 0 <= x < |disk0| && x / BLK_SIZE !in p
      ensures disk'[x] == disk0[x]
    {
      assert p[k] in p && x / BLK_SIZE != p[k];
    }
  }

  lemma BytesKept(ino: Inode, b: nat, disk: seq<byte>, p: seq<nat>, disk': seq<byte>)
    requires InodeOK(ino, b, disk) && OnlyBlocks(disk, p, disk')
    requires forall a :: 0 <= a < b ==> ino.blk[a] !in p
    ensures InodeOK(ino, b, disk') && FileOf(ino, b, disk') == FileOf(ino, b, disk)
  {
    forall q | 0 <= q < BLK_SIZE * b
      ensures ByteAt(ino, b, disk', q) == ByteAt(ino, b, disk, q)
    {
      assert (BLK_SIZE * ino.blk[q / BLK_SIZE] + q % BLK_SIZE) / BLK_SIZE == ino.blk[q / BLK_SIZE];
    }
  }

  lemma WrittenFile(ino: Inode, b: nat, disk: seq<byte>, start: nat, p: seq<nat>, ino': Inode, b': nat,
                    disk': seq<byte>, inblk: nat, buf: seq<byte>, cnt: nat)
    requires InodeOK(ino, b, disk) && OnlyBlocks(disk, p, disk')
    requires forall a :: 0 <= a < b ==> ino.blk[a] !in p
    requires forall c :: 0 <= c < |p| ==> BLK_SIZE * p[c] + BLK_SIZE <= |disk|
    requires Relinked(ino.blk, start, p, ino'.blk) && start + |p| <= MAX_NUM_DATA_BLK
    requires b' == (if start <= b then Max(b, start + |p|) else b) && ino'.length == |buf|
    requires Landed(disk', p, inblk, buf, cnt)
    ensures InodeOK(ino', b', disk')
    ensures var f, f' := FileOf(ino, b, disk), FileOf(ino', b', disk');
            && f'.length == |buf|
            && f'.owned == Overlay(f.owned, start, p)
            && |f'.bytes| == Min(|buf|, BLK_SIZE * |f'.owned|)
            && (forall c :: 0 <= c < cnt && BLK_SIZE * start + inblk + c < |f'.bytes| ==>
                  f'.bytes[BLK_SIZE * start + inblk + c] == buf[c])
            && (forall q :: 0 <= q < Min(|f.bytes|, |f'.bytes|) && !(start <= q / BLK_SIZE < start + |p|)
                  ==> f'.bytes[q] == f.bytes[q])
  {
    var f, f' := FileOf(ino, b, disk), FileOf(ino', b', disk');
    OverlayAt(f.owned, start, p);
    forall c | 0 <= c < cnt && BLK_SIZE * start + inblk + c < |f'.bytes|
      ensures f'.bytes[BLK_SIZE * start + inblk + c] == buf[c]
    {
      var q := BLK_SIZE * start + inblk + c;
      assert ByteLanded(disk', p, inblk, buf, c);
      assert q / BLK_SIZE == start + (inblk + c) / BLK_SIZE && q % BLK_SIZE == (inblk + c) % BLK_SIZE;
    }
    forall q | 0 <= q < Min(|f.bytes|, |f'.bytes|) && !(start <= q / BLK_SIZE < start + |p|)
      ensures f'.bytes[q] == f.bytes[q]
    {
      assert (BLK_SIZE * ino.blk[q / BLK_SIZE] + q % BLK_SIZE) / BLK_SIZE == ino.blk[q / BLK_SIZE];
    }
  }

  lemma PoppedDistinct(s: Store, k: nat, numBlocks: nat)
    requires Exclusive(s, numBlocks) && k <= |s.free|
    ensures var p := PoppedBlocks(s.free, k);
            NoDup(p) && forall c :: 0 <= c < |p| ==> p[c] < numBlocks && p[c] in s.free
  {
    var p := PoppedBlocks(s.free, k);
    assert forall c :: 0 <= c < |p| ==> p[c] == s.free[|s.free| - 1 - c];
  }

  lemma OwnedNotPopped(s: Store, I: seq<Inode>, B: seq<nat>, D: seq<byte>, k: nat, numBlocks: nat)
    requires ImageOK(I, B, D) && s.files == FilesOf(I, B, D) && Exclusive(s, numBlocks) && k <= |s.free|
    ensures forall j, a :: 0 <= j < |I| && 0 <= a < B[j] ==> I[j].blk[a] !in PoppedBlocks(s.free, k)
  {
    PoppedDistinct(s, k, numBlocks);
    forall j, a | 0 <= j < |I| && 0 <= a < B[j]
      ensures I[j].blk[a] !in PoppedBlocks(s.free, k)
    {
      assert I[j].blk[a] == s.files[j].owned[a];
    }
  }

  /** How many leading entries are a file's own once `k` blocks are linked in at `start`. */
  function Backing(b: nat, start: nat, k: nat): nat {
    if start <= b then Max(b, start + k) else b
  }

  lemma OthersKept(s: Store, I: seq<Inode>, B: seq<nat>, D: seq<byte>, I': seq<Inode>, D': seq<byte>,
                   inode: nat, p: seq<nat>, numBlocks: nat)
    requires ImageOK(I, B, D) && s.files == FilesOf(I, B, D) && Exclusive(s, numBlocks)
    requires |p| <= |s.free| && p == PoppedBlocks(s.free, |p|) && OnlyBlocks(D, p, D')
    requires |I'| == |I| && forall j :: 0 <= j < |I| && j != inode ==> I'[j] == I[j]
    ensures forall j :: 0 <= j < |I| && j != inode ==> InodeOK(I'[j], B[j], D') && FileOf(I'[j], B[j], D') == s.files[j]
  {
    OwnedNotPopped(s, I, B, D, |p|, numBlocks);
    forall j | 0 <= j < |I| && j != inode
      ensures InodeOK(I'[j], B[j], D') && FileOf(I'[j], B[j], D') == s.files[j]
    {
      BytesKept(I[j], B[j], D, p, D');
    }
  }

  lemma PoppedFits(s: Store, offset: nat, n: nat)
    requires offset <= MAX_NUM_DATA_BLK * BLK_SIZE && n <= MAX_NUM_DATA_BLK * BLK_SIZE
    ensures Blocks(offset) + Popped(s, offset, n) <= MAX_NUM_DATA_BLK
  {
  }

  /** The in-place effect of write_data is a write step of the abstract store. */
  lemma WriteRefines(s: Store, I: seq<Inode>, B: seq<nat>, D: seq<byte>, I': seq<Inode>, D': seq<byte>,
                     inode: nat, offset: nat, buf: seq<byte>, p: seq<nat>, cnt: nat, numBlocks: nat)
    requires ImageOK(I, B, D) && s.files == FilesOf(I, B, D) && |D| == BLK_SIZE * numBlocks && Exclusive(s, numBlocks)
    requires inode < |I| == |I'| && offset <= I[inode].length <= MAX_NUM_DATA_BLK * BLK_SIZE
    requires |buf| <= MAX_NUM_DATA_BLK * BLK_SIZE
    requires forall j :: 0 <= j < |I| && j != inode ==> I'[j] == I[j]
    requires p == PoppedBlocks(s.free, Popped(s, offset, |buf|)) && cnt == WriteCount(s, offset, |buf|)
    requires Progress(Inode(|buf|, I[inode].blk), D, Blocks(offset), p, offset % BLK_SIZE, buf, |p|, I'[inode], D', cnt)
    ensures var B' := B[inode := Backing(B[inode], Blocks(offset), |p|)];
            && ImageOK(I', B', D')
            && WriteStep(s, inode, offset, buf, cnt, s.(free := s.free[..|s.free| - |p|], files := FilesOf(I', B', D')))
  {
    var b' := Backing(B[inode], Blocks(offset), |p|);
    PoppedAreNew(s, I, B, D, inode, p, numBlocks);
    PoppedFits(s, offset, |buf|);
    OneWritten(s.files[inode], I[inode], B[inode], D, I'[inode], b', D', offset, buf, p, cnt);
    OthersKept(s, I, B, D, I', D', inode, p, numBlocks);
    FilesAfter(s, I', B, D', inode, b');
    WriteStepOf(s, inode, offset, buf, p, cnt, FileOf(I'[inode], b', D'));
  }

  /** Blocks on the disk that are not the file's own. */
  ghost predicate NewBlocks(ino: Inode, b: nat, disk: seq<byte>, p: seq<nat>)
    requires InodeOK(ino, b, disk)
  {
    && (forall a :: 0 <= a < b ==> ino.blk[a] !in p)
    && (forall c :: 0 <= c < |p| ==> BLK_SIZE * p[c] + BLK_SIZE <= |disk|)
  }

  lemma PoppedAreNew(s: Store, I: seq<Inode>, B: seq<nat>, D: seq<byte>, inode: nat, p: seq<nat>, numBlocks: nat)
    requires ImageOK(I, B, D) && s.files == FilesOf(I, B, D) && |D| == BLK_SIZE * numBlocks && Exclusive(s, numBlocks)
    requires inode < |I| && |p| <= |s.free| && p == PoppedBlocks(s.free, |p|)
    ensures NewBlocks(I[inode], B[inode], D, p)
  {
    PoppedDistinct(s, |p|, numBlocks);
    OwnedNotPopped(s, I, B, D, |p|, numBlocks);
  }

  /** The file written, in the terms of the store. */
  lemma OneWritten(f: File, ino: Inode, b: nat, D: seq<byte>, ino': Inode, b': nat, D': seq<byte>,
                   offset: nat, buf: seq<byte>, p: seq<nat>, cnt: nat)
    requires InodeOK(ino, b, D) && f == FileOf(ino, b, D) && NewBlocks(ino, b, D, p)
    requires Blocks(offset) + |p| <= MAX_NUM_DATA_BLK && b' == Backing(b, Blocks(offset), |p|)
    requires Progress(Inode(|buf|, ino.blk), D, Blocks(offset), p, offset % BLK_SIZE, buf, |p|, ino', D', cnt)
    ensures InodeOK(ino', b', D')
    ensures var f' := FileOf(ino', b', D');
            var base := BLK_SIZE * Blocks(offset) + offset % BLK_SIZE;
            && f'.length == |buf| && f'.owned == Overlay(f.owned, Blocks(offset), p)
            && |f'.bytes| == Min(|buf|, BLK_SIZE * |f'.owned|)
            && (forall c :: 0 <= c < cnt && base + c < |f'.bytes| ==> f'.bytes[base + c] == buf[c])
            && (forall q :: 0 <= q < Min(|f.bytes|, |f'.bytes|)
                            && !(Blocks(offset) <= q / BLK_SIZE < Blocks(offset) + |p|)
                    ==> f'.bytes[q] == f.bytes[q])
  {
    assert p[..|p|] == p;
    WrittenFile(ino, b, D, Blocks(offset), p, ino', b', D', offset % BLK_SIZE, buf, cnt);
  }

  /** The file that a write leaves, put together into a step of the store. */
  lemma WriteStepOf(s: Store, inode: nat, offset: nat, buf: seq<byte>, p: seq<nat>, cnt: nat, f': File)
    requires inode < |s.files| && offset <= s.files[inode].length && f'.length == |buf|
    requires p == PoppedBlocks(s.free, Popped(s, offset, |buf|)) && cnt == WriteCount(s, offset, |buf|)
    requires f'.owned == Overlay(s.files[inode].owned, Blocks(offset), p)
    requires |f'.bytes| == Min(|buf|, BLK_SIZE * |f'.owned|)
    requires var base := BLK_SIZE * Blocks(offset) + offset % BLK_SIZE;
             forall c :: 0 <= c < cnt && base + c < |f'.bytes| ==> f'.bytes[base + c] == buf[c]
    requires var f := s.files[inode];
             forall q :: 0 <= q < Min(|f.bytes|, |f'.bytes|) && !(Blocks(offset) <= q / BLK_SIZE < Blocks(offset) + |p|)
                    ==> f'.bytes[q] == f.bytes[q]
    ensures WriteStep(s, inode, offset, buf, cnt,
                      s.(free := s.free[..|s.free| - |p|], files := s.files[inode := f']))
  {
  }

  /** The files of an image in which one inode is new and the others are as before. */
  lemma FilesAfter(s: Store, I': seq<Inode>, B: seq<nat>, D': seq<byte>, inode: nat, b': nat)
    requires |s.files| == |I'| == |B| && inode < |I'| && InodeOK(I'[inode], b', D')
    requires forall j :: 0 <= j < |I'| && j != inode ==>
             InodeOK(I'[j], B[j], D') && FileOf(I'[j], B[j], D') == s.files[j]
    ensures ImageOK(I', B[inode := b'], D')
    ensures FilesOf(I', B[inode := b'], D') == s.files[inode := FileOf(I'[inode], b', D')]
  {
  }

  // ----- what free_list_init computes -----

  /** The block indexes of an inode in use; a zero length marks a free inode. */
  function InUse(ino: Inode): seq<nat>
    requires Blocks(ino.length) <= |ino.blk|
  {
    if ino.length == 0 then [] else ino.blk[..Blocks(ino.length)]
  }

  ghost predicate Readable(inodes: seq<Inode>) {
    forall i :: 0 <= i < |inodes| ==>
           |inodes[i].blk| == MAX_NUM_DATA_BLK && inodes[i].length <= MAX_NUM_DATA_BLK * BLK_SIZE
  }

  /** The busy list: the blocks of every inode in use, in order. */
  ghost function Busy(inodes: seq<Inode>, n: nat): (b: seq<nat>)
    requires n <= |inodes| && Readable(inodes)
  {
    if n == 0 then [] else Busy(inodes, n - 1) + InUse(inodes[n - 1])
  }

  ghost function EmptyInodes(inodes: seq<Inode>, n: nat): seq<nat>
    requires n <= |inodes|
  {
    if n == 0 then [] else EmptyInodes(inodes, n - 1) + if inodes[n - 1].length == 0 then [n - 1] else []
  }

  /** The block numbers below `n` that are not busy. */
  ghost function FreeBlocks(busy: seq<nat>, n: nat): seq<nat> {
    if n == 0 then [] else FreeBlocks(busy, n - 1) + if n - 1 in busy then [] else [n - 1]
  }

  predicate Ascending(s: seq<nat>) {
    forall i, j :: 0 <= i < j < |s| ==> s[i] < s[j]
  }

  lemma {:induction false} FreeBlocksExact(busy: seq<nat>, n: nat)
    ensures Ascending(FreeBlocks(busy, n))
    ensures forall b :: b in FreeBlocks(busy, n) <==> 0 <= b < n && b !in busy
  {
    if n > 0 {
      FreeBlocksExact(busy, n - 1);
      var p := FreeBlocks(busy, n - 1);
      assert forall i :: 0 <= i < |p| ==> p[i] in p;
    }
  }

  lemma {:induction false} EmptyInodesExact(inodes: seq<Inode>, n: nat)
    requires n <= |inodes|
    ensures Ascending(EmptyInodes(inodes, n))
    ensures forall i :: i in EmptyInodes(inodes, n) <==> 0 <= i < n && inodes[i].length == 0
  {
    if n > 0 {
      EmptyInodesExact(inodes, n - 1);
      var p := EmptyInodes(inodes, n - 1);
      assert forall i :: 0 <= i < |p| ==> p[i] in p;
    }
  }

  lemma {:induction false} BusyExact(inodes: seq<Inode>, n: nat, b: nat)
    requires n <= |inodes| && Readable(inodes)
    ensures b in Busy(inodes, n) <==> exists i :: 0 <= i < n && b in InUse(inodes[i])
  {
    if n > 0 {
      BusyExact(inodes, n - 1, b);
      if b in Busy(inodes, n - 1) {
        var i :| 0 <= i < n - 1 && b in InUse(inodes[i]);
        assert b in InUse(inodes[i]);
      } else if b in InUse(inodes[n - 1]) {
        assert b in InUse(inodes[n - 1]);
      }
    }
  }

  /** The free list after start-up is exactly the complement, in increasing order: the block numbers
      that no file in use has among the first ceil(length / 4096) of its entries. */
  lemma FreeListIsComplement(inodes: seq<Inode>, numBlocks: nat)
    requires Readable(inodes)
    ensures var free := FreeBlocks(Busy(inodes, |inodes|), numBlocks);
            && Ascending(free)
            && forall b :: b in free <==> 0 <= b < numBlocks && !exists i :: 0 <= i < |inodes| && b in InUse(inodes[i])
  {
    FreeBlocksExact(Busy(inodes, |inodes|), numBlocks);
    forall b: nat
      ensures b in Busy(inodes, |inodes|) <==> exists i :: 0 <= i < |inodes| && b in InUse(inodes[i])
    {
      BusyExact(inodes, |inodes|, b);
    }
  }

  lemma {:induction false} ListsGrow(inodes: seq<Inode>, busy: seq<nat>, m: nat, n: nat)
    requires m <= n
    ensures |FreeBlocks(busy, m)| <= |FreeBlocks(busy, n)|
    ensures n <= |inodes| ==> |EmptyInodes(inodes, m)| <= |EmptyInodes(inodes, n)|
    ensures n <= |inodes| && Readable(inodes) ==> |Busy(inodes, m)| <= |Busy(inodes, n)|
    decreases n
  {
    if m < n { ListsGrow(inodes, busy, m, n - 1); }
  }

  lemma NextInode(inodes: seq<Inode>, i: nat)
    requires i < |inodes| && Readable(inodes)
    ensures Busy(inodes, i + 1) == Busy(inodes, i) + InUse(inodes[i])
    ensures inodes[i].length == 0 ==> Busy(inodes, i + 1) == Busy(inodes, i)
    ensures EmptyInodes(inodes, i + 1) == EmptyInodes(inodes, i) + if inodes[i].length == 0 then [i] else []
    ensures inodes[i].length != 0 ==> EmptyInodes(inodes, i + 1) == EmptyInodes(inodes, i)
  {
  }

  /** What a boot image must satisfy: files in use have blocks of their own, and no regular directory
      entry names a free inode. */
  ghost predicate WellFormed(inodes: seq<Inode>, disk: seq<byte>, dir: seq<Dentry>) {
    && Readable(inodes)
    && (forall i, a :: 0 <= i < |inodes| && 0 <= a < |InUse(inodes[i])| ==>
          BLK_SIZE * InUse(inodes[i])[a] + BLK_SIZE <= |disk|)
    && (forall i, a, j, b |
          && 0 <= i < |inodes| && 0 <= a < |InUse(inodes[i])|
          && 0 <= j < |inodes| && 0 <= b < |InUse(inodes[j])|
          && InUse(inodes[i])[a] == InUse(inodes[j])[b] :: i == j && a == b)
    && (forall d :: d in dir ==> |d.name| == MAX_NAME_LEN)
    && (forall k :: 0 <= k < |dir| && dir[k].kind == REGULAR_FILE_TYPE && dir[k].inode < |inodes| ==>
        inodes[dir[k].inode].length > 0)
    && (forall k, l :: 0 <= k < l < |dir| && dir[k].kind == REGULAR_FILE_TYPE && dir[l].kind == REGULAR_FILE_TYPE
                       ==> dir[k].inode != dir[l].inode)
  }

  function InUseCounts(inodes: seq<Inode>): (r: seq<nat>)
    ensures |r| == |inodes| && forall i :: 0 <= i < |inodes| ==> r[i] == Blocks(inodes[i].length)
  {
    seq(|inodes|, i requires 0 <= i < |inodes| => Blocks(inodes[i].length))
  }

  lemma ReadableGivesImageOK(inodes: seq<Inode>, disk: seq<byte>, dir: seq<Dentry>)
    requires WellFormed(inodes, disk, dir)
    ensures ImageOK(inodes, InUseCounts(inodes), disk)
    ensures var files := FilesOf(inodes, InUseCounts(inodes), disk);
            |files| == |inodes| && forall i :: 0 <= i < |inodes| ==>
                files[i].owned == InUse(inodes[i]) && Sized(files[i])
  {
    forall i | 0 <= i < |inodes|
      ensures InodeOK(inodes[i], Blocks(inodes[i].length), disk)
              && inodes[i].blk[..Blocks(inodes[i].length)] == InUse(inodes[i])
    {
      var u := InUse(inodes[i]);
      assert forall a :: 0 <= a < |u| ==> u[a] == inodes[i].blk[a];
    }
  }

  lemma InUseNotFree(inodes: seq<Inode>, numBlocks: nat, i: nat, a: nat)
    requires Readable(inodes) && i < |inodes| && a < |InUse(inodes[i])|
    ensures InUse(inodes[i])[a] !in FreeBlocks(Busy(inodes, |inodes|), numBlocks)
  {
    var b := InUse(inodes[i])[a];
    assert b in InUse(inodes[i]);
    BusyExact(inodes, |inodes|, b);
    FreeBlocksExact(Busy(inodes, |inodes|), numBlocks);
  }

  lemma BootExclusive(inodes: seq<Inode>, disk: seq<byte>, dir: seq<Dentry>, numBlocks: nat, s: Store)
    requires WellFormed(inodes, disk, dir) && |disk| == BLK_SIZE * numBlocks
    requires s.free == FreeBlocks(Busy(inodes, |inodes|), numBlocks)
    requires |s.files| == |inodes| && forall i :: 0 <= i < |inodes| ==> s.files[i].owned == InUse(inodes[i])
    ensures Exclusive(s, numBlocks)
  {
    FreeBlocksExact(Busy(inodes, |inodes|), numBlocks);
    assert forall k :: 0 <= k < |s.free| ==> s.free[k] in s.free;
    forall i, a | 0 <= i < |s.files| && 0 <= a < |s.files[i].owned|
      ensures s.files[i].owned[a] < numBlocks && s.files[i].owned[a] !in s.free
    {
      InUseNotFree(inodes, numBlocks, i, a);
    }
  }

  lemma BootDirectory(inodes: seq<Inode>, disk: seq<byte>, dir: seq<Dentry>, s: Store)
    requires WellFormed(inodes, disk, dir) && |dir| <= MAX_NUM_DENTRY
    requires s.dir == dir && s.freeInodes == EmptyInodes(inodes, |inodes|) && |s.files| == |inodes|
    ensures DirectoryOK(s)
  {
    EmptyInodesExact(inodes, |inodes|);
    assert forall k :: 0 <= k < |s.freeInodes| ==> s.freeInodes[k] in s.freeInodes;
  }

  /** The store that a well-formed image holds after free_list_init. */
  ghost function BootStore(inodes: seq<Inode>, disk: seq<byte>, dir: seq<Dentry>, numBlocks: nat): Store
    requires Readable(inodes) && ImageOK(inodes, InUseCounts(inodes), disk)
  {
    Store(FreeBlocks(Busy(inodes, |inodes|), numBlocks), EmptyInodes(inodes, |inodes|),
          FilesOf(inodes, InUseCounts(inodes), disk), dir)
  }

  lemma BootStoreInv(inodes: seq<Inode>, disk: seq<byte>, dir: seq<Dentry>, numBlocks: nat)
    requires WellFormed(inodes, disk, dir) && |disk| == BLK_SIZE * numBlocks && |dir| <= MAX_NUM_DENTRY
    ensures ImageOK(inodes, InUseCounts(inodes), disk) && Inv(BootStore(inodes, disk, dir, numBlocks), numBlocks)
  {
    ReadableGivesImageOK(inodes, disk, dir);
    BootExclusive(inodes, disk, dir, numBlocks, BootStore(inodes, disk, dir, numBlocks));
    BootDirectory(inodes, disk, dir, BootStore(inodes, disk, dir, numBlocks));
  }

  /** `bytes` are the bytes of a file. */
  ghost predicate IsContent(ino: Inode, b: nat, disk: seq<byte>, bytes: seq<byte>)
    requires InodeOK(ino, b, disk)
  {
    && |bytes| == Min(ino.length, BLK_SIZE * b)
    && forall p :: 0 <= p < |bytes| ==> bytes[p] == ByteAt(ino, b, disk, p)
  }

  /** Where byte `p` of a file stands: at `r` in its block number `q`. */
  lemma ByteOf(ino: Inode, b: nat, disk: seq<byte>, bytes: seq<byte>, p: nat, q: nat, r: nat)
    requires InodeOK(ino, b, disk) && IsContent(ino, b, disk, bytes) && p < |bytes|
    requires p == BLK_SIZE * q + r && r < BLK_SIZE
    ensures q < b && BLK_SIZE * ino.blk[q] + r < |disk| && bytes[p] == disk[BLK_SIZE * ino.blk[q] + r]
  {
    assert p / BLK_SIZE == q && p % BLK_SIZE == r;
  }

  lemma SliceIs(bytes: seq<byte>, offset: nat, count: nat, data: seq<byte>)
    requires |data| <= count && (|data| > 0 ==> offset + |data| <= |bytes|)
    requires forall c :: 0 <= c < |data| ==> data[c] == bytes[offset + c]
    requires |data| == count || offset + |data| >= |bytes|
    ensures data == Slice(bytes, offset, count)
  {
  }

  lemma PoppedAt(free: seq<nat>, k: nat)
    requires k <= |free|
    ensures |PoppedBlocks(free, k)| == k
    ensures forall c :: 0 <= c < k ==> PoppedBlocks(free, k)[c] == free[|free| - 1 - c]
  {
  }

  /** What ends inside the `k`-th block does not need another one. */
  lemma ShortOf(n: nat, k: nat, inblk: nat)
    requires n < BLK_SIZE * k - inblk
    ensures Blocks(n) <= k
  {
  }

  lemma BlocksBound(offset: nat, n: nat)
    ensures Blocks(offset) == 0 ==> offset % BLK_SIZE == 0
    ensures n <= MAX_NUM_DATA_BLK * BLK_SIZE ==> Blocks(n) <= MAX_NUM_DATA_BLK
  {
  }

  class FileSystem {
    const numInodes: nat
    const numBlocks: nat
    var numDentry: nat
    const dentries: array<Dentry>
    const inodes: array<Inode>
    const disk: array<byte>
    const freeList: array<nat>
    var freeLen: int
    const freeInodes: array<nat>
    var freeInodeLen: int
    /** How many leading block indexes of each inode are its own. */
    ghost var backed: seq<nat>

    ghost predicate Shape()
      reads this, inodes, disk, freeList, freeInodes, dentries
    {
      && dentries.Length == MAX_NUM_DENTRY && numDentry <= MAX_NUM_DENTRY
      && inodes.Length == numInodes
      && disk.Length == BLK_SIZE * numBlocks
      && freeLen <= freeList.Length
      && freeInodeLen <= freeInodes.Length
      && freeList != freeInodes
      && ImageOK(inodes[..], backed, disk[..])
    }

    ghost function FreeView(): seq<nat>
      reads this, freeList
      requires freeLen <= freeList.Length
    {
      if freeLen < 0 then [] else freeList[..freeLen]
    }

    ghost function FreeInodeView(): seq<nat>
      reads this, freeInodes
      requires freeInodeLen <= freeInodes.Length
    {
      if freeInodeLen < 0 then [] else freeInodes[..freeInodeLen]
    }

    ghost function Abs(): Store
      reads this, inodes, disk, freeList, freeInodes, dentries
      requires Shape()
    {
      Store(FreeView(), FreeInodeView(), FilesOf(inodes[..], backed, disk[..]), dentries[..numDentry])
    }

    ghost predicate Valid()
      reads this, inodes, disk, freeList, freeInodes, dentries
    {
      Shape() && Inv(Abs(), numBlocks)
    }

    /** init_filesys on a boot image. */
    constructor (dentries: array<Dentry>, numDentry: nat, inodes: array<Inode>, disk: array<byte>, numBlocks: nat)
      requires dentries.Length == MAX_NUM_DENTRY && numDentry <= MAX_NUM_DENTRY && disk.Length == BLK_SIZE * numBlocks
      requires WellFormed(inodes[..], disk[..], dentries[..numDentry])
      requires |Busy(inodes[..], inodes.Length)| <= MAX_NUM_DATA_BLK * numDentry
      requires |EmptyInodes(inodes[..], inodes.Length)| <= MAX_NUM_DENTRY
      requires |FreeBlocks(Busy(inodes[..], inodes.Length), numBlocks)| <= FREE_LIST_SIZE
      ensures Valid() && this.inodes == inodes && this.disk == disk && this.dentries == dentries
      ensures this.numBlocks == numBlocks && numInodes == inodes.Length && this.numDentry == numDentry
      ensures ImageOK(inodes[..], InUseCounts(inodes[..]), disk[..])
      ensures backed == InUseCounts(inodes[..])
              && Abs() == BootStore(inodes[..], disk[..], dentries[..numDentry], numBlocks)
      ensures fresh(freeList) && fresh(freeInodes)
    {
      this.dentries, this.numDentry := dentries, numDentry;
      this.inodes, numInodes := inodes, inodes.Length;
      this.disk, this.numBlocks := disk, numBlocks;
      freeList, freeInodes := new nat[FREE_LIST_SIZE], new nat[MAX_NUM_DENTRY];
      freeLen, freeInodeLen := 0, 0;
      backed := InUseCounts(inodes[..]);
      new;
      FreeListInit();
      BootStoreInv(inodes[..], disk[..], dentries[..numDentry], numBlocks);
      assert Abs() == BootStore(inodes[..], disk[..], dentries[..numDentry], numBlocks);
    }

    /** free_list_init, first loop: collect the busy blocks and the free inodes. */
    method CollectBusy(busyList: array<nat>) returns (k: nat, x: nat)
      requires inodes.Length == numInodes && Readable(inodes[..])
      requires |Busy(inodes[..], numInodes)| <= busyList.Length
               && |EmptyInodes(inodes[..], numInodes)| <= freeInodes.Length
      requires busyList != freeInodes
      modifies busyList, freeInodes
      ensures k <= busyList.Length && busyList[..k] == Busy(inodes[..], numInodes)
      ensures x <= freeInodes.Length && freeInodes[..x] == EmptyInodes(inodes[..], numInodes)
    {
      ghost var I := inodes[..];
      k, x := 0, 0;
      for i := 0 to numInodes
        invariant k <= busyList.Length && busyList[..k] == Busy(I, i)
        invariant x <= freeInodes.Length && freeInodes[..x] == EmptyInodes(I, i)
      {
        ListsGrow(I, [], i + 1, numInodes);
        k, x := CollectInode(busyList, i, k, x, I);
      }
    }

    /** One inode: a free one goes into the list of free inodes, the blocks of one in use into the busy list. */
    method CollectInode(busyList: array<nat>, i: nat, k0: nat, x0: nat, ghost I: seq<Inode>) returns (k: nat, x: nat)
      requires i < inodes.Length && inodes[..] == I && Readable(I) && busyList != freeInodes
      requires k0 <= busyList.Length && busyList[..k0] == Busy(I, i) && |Busy(I, i + 1)| <= busyList.Length
      requires x0 <= freeInodes.Length && freeInodes[..x0] == EmptyInodes(I, i)
      requires |EmptyInodes(I, i + 1)| <= freeInodes.Length
      modifies busyList, freeInodes
      ensures k <= busyList.Length && busyList[..k] == Busy(I, i + 1)
      ensures x <= freeInodes.Length && freeInodes[..x] == EmptyInodes(I, i + 1)
    {
      NextInode(I, i);
      assert inodes[i] == I[i];
      if inodes[i].length == 0 {
        freeInodes[x0] := i;
        return k0, x0 + 1;
      }
      k := ListBlocks(busyList, k0, inodes[i]);
      x := x0;
    }

    /** Append the blocks of one inode in use to the busy list. */
    static method ListBlocks(busyList: array<nat>, k0: nat, ino: Inode) returns (k: nat)
      requires ino.length > 0 && Blocks(ino.length) <= |ino.blk| && k0 + Blocks(ino.length) <= busyList.Length
      modifies busyList
      ensures k == k0 + Blocks(ino.length) && busyList[..k] == old(busyList[..k0]) + InUse(ino)
    {
      k := k0;
      for j := 0 to Blocks(ino.length)
        invariant k == k0 + j && busyList[..k] == old(busyList[..k0]) + ino.blk[..j]
      {
        busyList[k] := ino.blk[j];
        k := k + 1;
      }
    }

    /** free_list_init, second loop: keep the blocks that are not on the busy list. */
    method CollectFree(busyList: array<nat>, busyLen: nat) returns (k: nat)
      requires busyLen <= busyList.Length && |FreeBlocks(busyList[..busyLen], numBlocks)| <= freeList.Length
      requires busyList != freeList
      modifies freeList
      ensures k <= freeList.Length && freeList[..k] == FreeBlocks(old(busyList[..busyLen]), numBlocks)
    {
      ghost var B := busyList[..busyLen];
      k := 0;
      for i := 0 to numBlocks
        invariant k <= freeList.Length && freeList[..k] == FreeBlocks(B, i)
      {
        ListsGrow([], B, i + 1, numBlocks);
        var busy := IsBusy(busyList, busyLen, i);
        assert busyList[..busyLen] == B;
        if !busy {
          freeList[k] := i;
          k := k + 1;
        }
      }
    }

    static method IsBusy(busyList: array<nat>, busyLen: nat, b: nat) returns (busy: bool)
      requires busyLen <= busyList.Length
      ensures busy <==> b in busyList[..busyLen]
    {
      busy := false;
      for j := 0 to busyLen
        invariant b !in busyList[..j]
      {
        if b == busyList[j] { return true; }
      }
    }

    /** free_list_init */
    method FreeListInit()
      requires inodes.Length == numInodes && Readable(inodes[..]) && freeList != freeInodes
      requires |Busy(inodes[..], numInodes)| <= MAX_NUM_DATA_BLK * numDentry
      requires |EmptyInodes(inodes[..], numInodes)| <= freeInodes.Length
      requires |FreeBlocks(Busy(inodes[..], numInodes), numBlocks)| <= freeList.Length
      modifies this`freeLen, this`freeInodeLen, freeList, freeInodes
      ensures 0 <= freeLen <= freeList.Length && FreeView() == FreeBlocks(Busy(inodes[..], numInodes), numBlocks)
      ensures 0 <= freeInodeLen <= freeInodes.Length && FreeInodeView() == EmptyInodes(inodes[..], numInodes)
    {
      var busyList := new nat[MAX_NUM_DATA_BLK * numDentry];
      var busyLen, x := CollectBusy(busyList);
      var k := CollectFree(busyList, busyLen);
      freeLen, freeInodeLen := k, x;
    }

    /** get_free_datablk_index */
    method PopBlock() returns (index: int)
      requires freeLen <= freeList.Length
      modifies this`freeLen
      ensures freeLen == old(freeLen) - 1
      ensures index == if freeLen < 0 then -1 else freeList[freeLen]
    {
      freeLen := freeLen - 1;
      if freeLen < 0 { return -1; }
      return freeList[freeLen];
    }

    /** get_free_inode_index */
    method PopInode() returns (index: int)
      requires freeInodeLen <= freeInodes.Length
      modifies this`freeInodeLen
      ensures freeInodeLen == old(freeInodeLen) - 1
      ensures index == if old(FreeInodeView()) == [] then -1 else old(FreeInodeView())[|old(FreeInodeView())| - 1]
      ensures FreeInodeView() ==
              if old(FreeInodeView()) == [] then [] else old(FreeInodeView())[..|old(FreeInodeView())| - 1]
    {
      freeInodeLen := freeInodeLen - 1;
      if freeInodeLen < 0 { return -1; }
      return freeInodes[freeInodeLen];
    }

    /** The inner loop of write_data: copy into one block until it is full or the buffer is done. */
    method FillBlock(cur: nat, from: nat, buf: seq<byte>, cnt0: nat) returns (cnt: nat)
      requires cnt0 <= |buf| && from <= BLK_SIZE && BLK_SIZE * cur + BLK_SIZE <= disk.Length
      modifies disk
      ensures cnt == Min(|buf|, cnt0 + BLK_SIZE - from)
      ensures forall c :: cnt0 <= c < cnt ==> disk[BLK_SIZE * cur + from + (c - cnt0)] == buf[c]
      ensures forall x :: 0 <= x < disk.Length && !(BLK_SIZE * cur + from <= x < BLK_SIZE * cur + BLK_SIZE) ==>
              disk[x] == old(disk[x])
    {
      cnt := cnt0;
      var j := from;
      while j < BLK_SIZE
        invariant from <= j <= BLK_SIZE && cnt == cnt0 + (j - from) <= |buf|
        invariant forall c :: cnt0 <= c < cnt ==> disk[BLK_SIZE * cur + from + (c - cnt0)] == buf[c]
        invariant forall x :: 0 <= x < disk.Length && !(BLK_SIZE * cur + from <= x < BLK_SIZE * cur + BLK_SIZE) ==>
                  disk[x] == old(disk[x])
      {
        if cnt == |buf| { return; }
        disk[BLK_SIZE * cur + j] := buf[cnt];
        j, cnt := j + 1, cnt + 1;
      }
    }

    /** One turn of write_data's loop, with the block it popped. */
    method StoreBlock(inode: nat, i: nat, cur: nat, from: nat, buf: seq<byte>, cnt0: nat,
                      ghost ino0: Inode, ghost disk0: seq<byte>, ghost start: nat, ghost p: seq<nat>, ghost inblk: nat)
      returns (cnt: nat)
      requires inode < inodes.Length && disk.Length == BLK_SIZE * numBlocks
      requires NoDup(p) && start <= i < Min(MAX_NUM_DATA_BLK, start + |p|) && cur == p[i - start] < numBlocks
      requires Progress(ino0, disk0, start, p, inblk, buf, i - start, inodes[inode], disk[..], cnt0)
      requires inblk + cnt0 == BLK_SIZE * (i - start) + from && from <= BLK_SIZE
      modifies inodes, disk
      ensures forall j :: 0 <= j < inodes.Length && j != inode ==> inodes[j] == old(inodes[j])
      ensures cnt == Min(|buf|, cnt0 + BLK_SIZE - from)
      ensures Progress(ino0, disk0, start, p, inblk, buf, i + 1 - start, inodes[inode], disk[..], cnt)
    {
      ghost var k, before := i - start, disk[..];
      inodes[inode] := inodes[inode].(blk := inodes[inode].blk[i := cur]);
      assert p[..k + 1] == p[..k] + [p[k]];
      cnt := FillBlock(cur, from, buf, cnt0);
      LandedStep(disk0, before, disk[..], p, k, from, inblk, buf, cnt0, cnt);
    }

    /** How far the loop of write_data has got: `k` of the blocks `p` popped, linked and filled. */
    ghost predicate Filled(I0: seq<Inode>, D0: seq<byte>, free: seq<nat>, inode: nat, start: nat, p: seq<nat>,
                           inblk: nat, buf: seq<byte>, k: nat, cnt: nat)
      reads this, inodes, disk, freeList
    {
      && inode < inodes.Length == |I0| && disk.Length == BLK_SIZE * numBlocks && freeLen <= freeList.Length
      && k <= |p| <= |free| && FreeView() == free[..|free| - k]
      && (forall j :: 0 <= j < |I0| && j != inode ==> inodes[j] == I0[j])
      && Progress(I0[inode], D0, start, p, inblk, buf, k, inodes[inode], disk[..], cnt)
      && cnt == if k == 0 then 0 else Min(|buf|, BLK_SIZE * k - inblk)
    }

    /** One more pop: the next of the blocks `p`, or -1 when there is none. */
    method PopNext(ghost free: seq<nat>, ghost p: seq<nat>, ghost k: nat) returns (cur: int)
      requires freeLen <= freeList.Length && k <= |p| <= |free| && FreeView() == free[..|free| - k]
      requires p == PoppedBlocks(free, |p|) && (k == |p| ==> |p| == |free|)
      modifies this`freeLen
      ensures freeLen <= old(freeLen)
      ensures if k < |p| then cur == p[k] && FreeView() == free[..|free| - (k + 1)]
              else cur == -1 && FreeView() == free[..|free| - k]
    {
      PoppedAt(free, |p|);
      cur := PopBlock();
    }

    /** One turn of the loop; whether it goes on. */
    method WriteTurn(inode: nat, i: nat, start: nat, inblk: nat, buf: seq<byte>, cnt0: nat, ghost p: seq<nat>,
                     ghost I0: seq<Inode>, ghost D0: seq<byte>, ghost free: seq<nat>)
      returns (cnt: nat, more: bool)
      requires start <= i < Blocks(|buf|) <= MAX_NUM_DATA_BLK && inblk < BLK_SIZE && (start == 0 ==> inblk == 0)
      requires i - start <= |p| && Filled(I0, D0, free, inode, start, p, inblk, buf, i - start, cnt0)
      requires |p| == Min(Blocks(|buf|) - start, |free|) && p == PoppedBlocks(free, |p|)
      requires NoDup(p) && forall c :: 0 <= c < |p| ==> p[c] < numBlocks
      requires cnt0 == if i == start then 0 else BLK_SIZE * (i - start) - inblk
      modifies this`freeLen, inodes, disk
      ensures freeLen <= old(freeLen)
      ensures !more ==> Filled(I0, D0, free, inode, start, p, inblk, buf, |p|, cnt)
      ensures more ==>
                && i + 1 - start <= |p| && Filled(I0, D0, free, inode, start, p, inblk, buf, i + 1 - start, cnt)
                && cnt == BLK_SIZE * (i + 1 - start) - inblk
    {
      var cur := PopNext(free, p, i - start);
      if cur == -1 { return cnt0, false; }
      var from := if i == start then inblk else 0;
      cnt := StoreBlock(inode, i, cur, from, buf, cnt0, I0[inode], D0, start, p, inblk);
      more := cnt == cnt0 + BLK_SIZE - from;
      if !more { ShortOf(|buf|, i + 1 - start, inblk); }
    }

    /** The loop of write_data over the blocks [start..dataBlkNum). */
    method WriteBlocks(inode: nat, start: nat, inblk: nat, buf: seq<byte>, dataBlkNum: nat, ghost p: seq<nat>)
      returns (cnt: nat)
      requires inode < inodes.Length && disk.Length == BLK_SIZE * numBlocks && freeLen <= freeList.Length
      requires |inodes[inode].blk| == MAX_NUM_DATA_BLK
      requires p == PoppedBlocks(FreeView(), Min(Max(dataBlkNum - start, 0), |FreeView()|))
      requires NoDup(p) && forall c :: 0 <= c < |p| ==> p[c] < numBlocks
      requires dataBlkNum == Blocks(|buf|) <= MAX_NUM_DATA_BLK && inblk < BLK_SIZE && (start == 0 ==> inblk == 0)
      modifies this`freeLen, inodes, disk
      ensures freeLen <= old(freeLen) && FreeView() == old(FreeView())[..|old(FreeView())| - |p|]
      ensures forall j :: 0 <= j < inodes.Length && j != inode ==> inodes[j] == old(inodes[j])
      ensures Progress(old(inodes[inode]), old(disk[..]), start, p, inblk, buf, |p|, inodes[inode], disk[..], cnt)
      ensures cnt == if |p| == 0 then 0 else Min(|buf|, BLK_SIZE * |p| - inblk)
    {
      ghost var free, I0, D0 := FreeView(), inodes[..], disk[..];
      cnt := 0;
      var i := start;
      while i < dataBlkNum
        invariant start <= i <= Max(start, dataBlkNum) && i - start <= |p| && freeLen <= old(freeLen)
        invariant Filled(I0, D0, free, inode, start, p, inblk, buf, i - start, cnt)
        invariant cnt == if i == start then 0 else BLK_SIZE * (i - start) - inblk
      {
        var more;
        cnt, more := WriteTurn(inode, i, start, inblk, buf, cnt, p, I0, D0, free);
        if !more { return; }
        i := i + 1;
      }
    }

    /** write_data, past its checks. */
    method WriteChecked(inode: nat, offset: nat, buf: seq<byte>, ghost p: seq<nat>) returns (code: int)
      requires inode < inodes.Length && disk.Length == BLK_SIZE * numBlocks && freeLen <= freeList.Length
      requires |inodes[inode].blk| == MAX_NUM_DATA_BLK && |buf| <= MAX_NUM_DATA_BLK * BLK_SIZE
      requires p == PoppedBlocks(FreeView(), Min(Max(Blocks(|buf|) - Blocks(offset), 0), |FreeView()|))
      requires NoDup(p) && forall c :: 0 <= c < |p| ==> p[c] < numBlocks
      modifies this`freeLen, inodes, disk
      ensures freeLen <= old(freeLen) && FreeView() == old(FreeView())[..|old(FreeView())| - |p|]
      ensures forall j :: 0 <= j < inodes.Length && j != inode ==> inodes[j] == old(inodes[j])
      ensures code == if |p| == 0 then 0 else Min(|buf|, BLK_SIZE * |p| - offset % BLK_SIZE)
      ensures Progress(Inode(|buf|, old(inodes[inode].blk)), old(disk[..]), Blocks(offset), p, offset % BLK_SIZE,
                       buf, |p|, inodes[inode], disk[..], code)
    {
      ghost var ino0 := Inode(|buf|, inodes[inode].blk);
      inodes[inode] := inodes[inode].(length := |buf|);
      assert inodes[inode] == ino0;
      BlocksBound(offset, |buf|);
      var inblk, start, dataBlkNum := offset % BLK_SIZE, Blocks(offset), Blocks(|buf|);
      code := WriteBlocks(inode, start, inblk, buf, dataBlkNum, p);
    }

    /** write_data, past its checks, as a step of the store. */
    method WriteKnown(inode: nat, offset: nat, buf: seq<byte>, ghost s: Store) returns (code: int)
      requires Shape() && s == Abs() && Exclusive(s, numBlocks)
      requires inode < numInodes && |buf| <= MAX_NUM_DATA_BLK * BLK_SIZE
      requires offset <= inodes[inode].length <= MAX_NUM_DATA_BLK * BLK_SIZE
      modifies this`freeLen, this`backed, inodes, disk
      ensures Shape() && WriteStep(s, inode, offset, buf, code, Abs())
    {
      ghost var I, D := inodes[..], disk[..];
      ghost var p := PoppedBlocks(s.free, Popped(s, offset, |buf|));
      PoppedDistinct(s, Popped(s, offset, |buf|), numBlocks);
      code := WriteChecked(inode, offset, buf, p);
      WriteRefines(s, I, backed, D, inodes[..], disk[..], inode, offset, buf, p, code, numBlocks);
      backed := backed[inode := Backing(backed[inode], Blocks(offset), |p|)];
      assert Abs() == s.(free := s.free[..|s.free| - |p|], files := FilesOf(inodes[..], backed, disk[..]));
    }

    /** write_data */
    method WriteData(inode: nat, offset: nat, buf: seq<byte>) returns (code: int)
      requires Valid() && Legal(Abs(), Write(inode, offset, buf))
      modifies this`freeLen, this`backed, inodes, disk
      ensures Valid()
      ensures WriteStep(old(Abs()), inode, offset, buf, code, Abs())
    {
      ghost var s := Abs();
      if inode > numInodes { return -1; }
      if offset > inodes[inode].length { return 0; }
      assert inodes[inode].length == s.files[inode].length && Sized(s.files[inode]);
      code := WriteKnown(inode, offset, buf, s);
      WriteKeepsInv(s, inode, offset, buf, code, Abs(), numBlocks);
    }

    /** read_data, into the caller's buffer. */
    method ReadData(inode: nat, offset: nat, buf: array<byte>, length: nat) returns (code: int)
      requires Valid() && Legal(Abs(), Read(inode, offset, length))
      requires length <= buf.Length && buf != disk
      modifies buf
      ensures Valid() && Abs() == old(Abs())
      ensures code <= buf.Length && Reply(code, buf[..Max(code, 0)]) == ReadReply(Abs(), inode, offset, length)
      ensures forall x :: Max(code, 0) <= x < buf.Length ==> buf[x] == old(buf[x])
    {
      if inode > numInodes { return -1; }
      var ino := inodes[inode];
      ghost var f := Abs().files[inode];
      assert f == FileOf(ino, backed[inode], disk[..]) && Sized(f);
      if offset > ino.length { return 0; }
      code := CopyOut(ino, backed[inode], offset, buf, length, disk[..], f.bytes);
    }

    /** The loop of read_data. */
    method CopyOut(ino: Inode, ghost b: nat, offset: nat, buf: array<byte>, length: nat,
                   ghost D: seq<byte>, ghost bytes: seq<byte>) returns (cnt: nat)
      requires D == disk[..] && InodeOK(ino, b, D) && IsContent(ino, b, D, bytes)
      requires offset <= ino.length && offset < MAX_NUM_DATA_BLK * BLK_SIZE
      requires Min(offset + length, ino.length) <= Max(offset, |bytes|)
      requires length <= buf.Length && buf != disk
      modifies buf
      ensures cnt <= buf.Length && buf[..cnt] == Slice(bytes, offset, length)
      ensures forall x :: cnt <= x < buf.Length ==> buf[x] == old(buf[x])
    {
      var dataBlkInode, offsetInblk := offset / BLK_SIZE, offset % BLK_SIZE;
      var dataBlkIndex := ino.blk[dataBlkInode];
      cnt := 0;
      var i := 0;
      while i < length
        invariant 0 <= i <= length && cnt == i && (i > 0 ==> offset + i <= |bytes|)
        invariant 0 <= offsetInblk <= BLK_SIZE && offset + i == BLK_SIZE * dataBlkInode + offsetInblk
        invariant 0 <= dataBlkInode < MAX_NUM_DATA_BLK && dataBlkIndex == ino.blk[dataBlkInode]
        invariant forall c :: 0 <= c < i ==> buf[c] == bytes[offset + c]
        invariant forall x :: i <= x < buf.Length ==> buf[x] == old(buf[x])
      {
        if offset + i >= ino.length { break; }
        if offsetInblk == BLK_SIZE {
          dataBlkInode := dataBlkInode + 1;
          if dataBlkInode >= MAX_NUM_DATA_BLK { break; }
          dataBlkIndex, offsetInblk := ino.blk[dataBlkInode], 0;
        }
        ByteOf(ino, b, D, bytes, offset + i, dataBlkInode, offsetInblk);
        buf[i] := disk[BLK_SIZE * dataBlkIndex + offsetInblk];
        cnt, i, offsetInblk := cnt + 1, i + 1, offsetInblk + 1;
      }
      SliceIs(bytes, offset, length, buf[..cnt]);
    }

    /** strncmp of a C string with a stored name. */
    method Strncmp(fname: seq<byte>, name: seq<byte>) returns (r: int)
      requires NUL !in fname && |fname| <= MAX_NAME_LEN == |name|
      ensures r == 0 <==> Trim(name) == fname
    {
      var i := 0;
      while i < MAX_NAME_LEN
        invariant 0 <= i <= |fname| && i <= MAX_NAME_LEN && name[..i] == fname[..i]
      {
        if CharAt(fname, i) != name[i] || CharAt(fname, i) == NUL {
          TrimIs(name, fname, i);
          return CharAt(fname, i) - name[i];
        }
        i := i + 1;
      }
      TrimIs(name, fname, i);
      return 0;
    }

    /** strlen of a stored name, which need not be terminated. */
    method NameLength(name: seq<byte>) returns (len: nat)
      ensures len <= |name| && Trim(name) == name[..len]
    {
      len := 0;
      while len < |name| && name[len] != NUL
        invariant len <= |name| && NUL !in name[..len]
      {
        assert name[..len + 1] == name[..len] + [name[len]];
        len := len + 1;
      }
      TrimIs(name, name[..len], len);
    }

    /** strncpy from a stored name: its characters, then NULs. */
    method Strncpy(dest: array<byte>, src: seq<byte>, n: nat)
      requires n <= dest.Length && n <= |src|
      modifies dest
      ensures var s := Trim(src[..n]);
              |s| <= n && dest[..|s|] == s && (forall k :: |s| <= k < n ==> dest[k] == NUL) && Trim(dest[..n]) == s
      ensures forall k :: n <= k < dest.Length ==> dest[k] == old(dest[k])
    {
      var i := 0;
      while i < n && src[i] != NUL
        invariant i <= n && NUL !in src[..i] && dest[..i] == src[..i]
        invariant forall k :: n <= k < dest.Length ==> dest[k] == old(dest[k])
      {
        assert src[..i + 1] == src[..i] + [src[i]];
        dest[i] := src[i];
        i := i + 1;
      }
      ghost var m := i;
      while i < n
        invariant m <= i <= n && dest[..m] == src[..m] && forall k :: m <= k < i ==> dest[k] == NUL
        invariant forall k :: n <= k < dest.Length ==> dest[k] == old(dest[k])
      {
        dest[i] := NUL;
        i := i + 1;
      }
      TrimIs(src[..n], src[..m], m);
      TrimIs(dest[..n], src[..m], m);
    }

    /** read_dentry_by_index. The bound is unsigned, so that an empty directory has none. */
    method ReadDentryByIndex(index: nat) returns (code: int, d: Dentry)
      requires Valid() && (numDentry == 0 ==> index < MAX_NUM_DENTRY && |dentries[index].name| == MAX_NAME_LEN)
      ensures code == if numDentry == 0 || index < numDentry then 0 else -1
      ensures code == 0 ==> d.kind == dentries[index].kind && d.inode == dentries[index].inode
      ensures code == 0 ==> |d.name| == MAX_NAME_LEN && Trim(d.name) == Trim(dentries[index].name)
    {
      if index > (numDentry - 1) % 0x1_0000_0000 { return -1, Dentry([], 0, 0); }
      assert numDentry > 0 ==> dentries[index] == Abs().dir[index] && Abs().dir[index] in Abs().dir;
      var name := new byte[MAX_NAME_LEN];
      ghost var stored := dentries[index].name;
      Strncpy(name, dentries[index].name, MAX_NAME_LEN);
      assert stored[..MAX_NAME_LEN] == stored && name[..MAX_NAME_LEN] == name[..];
      return 0, Dentry(name[..], dentries[index].kind, dentries[index].inode);
    }

    /** read_dentry_by_name: the index of the entry, or -1. */
    method ReadDentryByName(fname: seq<byte>) returns (index: int)
      requires Valid() && NUL !in fname
      ensures index == if |fname| > MAX_NAME_LEN then -1 else Lookup(Abs().dir, fname)
    {
      if |fname| > MAX_NAME_LEN { return -1; }
      ghost var dir := Abs().dir;
      index := 0;
      while index < numDentry
        invariant 0 <= index <= numDentry
        invariant forall k :: 0 <= k < index ==> Trim(dir[k].name) != fname
      {
        assert dir[index] == dentries[index] && dir[index] in dir;
        var r := Strncmp(fname, dentries[index].name);
        if r == 0 { return; }
        index := index + 1;
      }
      return -1;
    }

    /** The loop of file_create that cuts the name at a newline. */
    method CopyName(fname: seq<byte>) returns (i: nat)
      ensures i == LineLen(fname)
    {
      i := 0;
      while i < |fname| && fname[i] != NEWLINE
        invariant 0 <= i <= |fname| && NEWLINE !in fname[..i]
      {
        assert fname[..i + 1] == fname[..i] + [fname[i]];
        i := i + 1;
      }
      LineLenUnique(fname, i);
    }

    /** One more entry in the directory array. */
    method AppendEntry(d: Dentry, ghost s: Store)
      requires Shape() && s == Abs() && numDentry < dentries.Length
      modifies this`numDentry, dentries
      ensures Shape() && Abs() == s.(dir := s.dir + [d])
    {
      dentries[numDentry] := d;
      numDentry := numDentry + 1;
    }

    /** The end of file_create, with the inode number popped: `s` is the store before that. */
    method EnterFile(fname: seq<byte>, i: nat, slot: Dentry, inode: nat, ghost s: Store)
      requires Inv(s, numBlocks) && Legal(s, Create(fname, slot)) && i == LineLen(fname)
      requires |s.dir| < MAX_NUM_DENTRY && s.freeInodes != [] && inode == s.freeInodes[|s.freeInodes| - 1]
      requires Shape() && numDentry == |s.dir| && Abs() == s.(freeInodes := s.freeInodes[..|s.freeInodes| - 1])
      modifies this`numDentry, dentries
      ensures Valid() && Abs() == CreateStep(s, fname, slot).0
    {
      AppendEntry(Dentry(fname[..i] + [NUL] + slot.name[i + 1..], REGULAR_FILE_TYPE, inode), Abs());
      CreateKeepsDirectory(s, fname, slot);
      DirectoryStepKeepsInv(s, CreateStep(s, fname, slot).0, numBlocks);
    }

    /** file_create. `slot` is the uninitialised local entry that is filled in and copied. */
    method FileCreate(fname: seq<byte>, slot: Dentry) returns (code: int)
      requires Valid() && Legal(Abs(), Create(fname, slot))
      modifies this`freeInodeLen, this`numDentry, dentries
      ensures Valid() && (Abs(), code) == CreateStep(old(Abs()), fname, slot)
    {
      ghost var s := Abs();
      var i := CopyName(fname);
      if numDentry >= MAX_NUM_DENTRY { return -1; }
      code := PopInode();
      if code == -1 { return; }
      EnterFile(fname, i, slot, code, s);
    }

    /** The loop of file_remove: close the gap at entry `r`. */
    method ShiftDown(r: nat)
      requires r < numDentry <= dentries.Length
      modifies dentries
      ensures dentries[..numDentry - 1] == old(dentries[..numDentry])[..r] + old(dentries[..numDentry])[r + 1..]
    {
      var index := r;
      while index < numDentry - 1
        invariant r <= index <= numDentry - 1
        invariant forall k :: 0 <= k < r || index < k < numDentry ==> dentries[k] == old(dentries[k])
        invariant forall k :: r <= k < index ==> dentries[k] == old(dentries[k + 1])
      {
        dentries[index] := dentries[index + 1];
        index := index + 1;
      }
    }

    /** file_remove */
    method FileRemove(fname: seq<byte>) returns (code: int)
      requires Valid() && NUL !in fname
      modifies this`numDentry, dentries
      ensures Valid() && (Abs(), code) == RemoveStep(old(Abs()), fname)
    {
      ghost var s := Abs();
      RemoveKeepsDirectory(s, fname);
      var index := ReadDentryByName(fname);
      if index == -1 { return -1; }
      ShiftDown(index);
      numDentry := numDentry - 1;
      DirectoryStepKeepsInv(s, RemoveStep(s, fname).0, numBlocks);
      assert Abs() == RemoveStep(s, fname).0;
      return 0;
    }

    /** Any operation, with the reply it gives. */
    method Perform(op: Op) returns (r: Reply)
      requires Valid() && Legal(Abs(), op)
      modifies this`freeLen, this`freeInodeLen, this`numDentry, this`backed, inodes, disk, dentries
      ensures Valid() && Step(old(Abs()), op, r, Abs())
    {
      var code: int;
      match op
      case Create(fname, slot) =>
        code := FileCreate(fname, slot);
        r := Reply(code, []);
      case Write(inode, offset, buf) =>
        code := WriteData(inode, offset, buf);
        r := Reply(code, []);
      case Read(inode, offset, count) =>
        var buf := new byte[count];
        code := ReadData(inode, offset, buf, count);
        r := Reply(code, buf[..Max(code, 0)]);
      case Remove(fname) =>
        code := FileRemove(fname);
        r := Reply(code, []);
    }
  }
}
