/** What the file system keeps, seen from outside: files, free lists and a directory; what each
    operation may do to it; and what follows over whole runs. */
module FileStore {
  import opened CLib

  const BLK_SIZE := 4096
  const MAX_NUM_DATA_BLK := 1023
  const MAX_NUM_DENTRY := 63
  const MAX_NAME_LEN := 32
  const REGULAR_FILE_TYPE := 2

  datatype Dentry = Dentry(name: seq<byte>, kind: nat, inode: nat)

  /** A file: its recorded length, the blocks that are its own, and the bytes they hold (a write
      that ran out of space leaves a file longer than its blocks). */
  datatype File = File(length: nat, owned: seq<nat>, bytes: seq<byte>)

  datatype Store = Store(free: seq<nat>, freeInodes: seq<nat>, files: seq<File>, dir: seq<Dentry>)

  datatype Op =
    | Create(fname: seq<byte>, slot: Dentry)
    | Write(inode: nat, offset: nat, buf: seq<byte>)
    | Read(inode: nat, offset: nat, count: nat)
    | Remove(fname: seq<byte>)

  datatype Reply = Reply(code: int, data: seq<byte>)

  /** ceil((double)n / BLK_SIZE), exact for every uint32. */
  function Blocks(n: nat): nat {
    (n + BLK_SIZE - 1) / BLK_SIZE
  }

  // ----- names -----

  /** A stored name ends at its first NUL or at the end of its 32 characters. */
  function Trim(name: seq<byte>): seq<byte> {
    if name == [] || name[0] == NUL then [] else [name[0]] + Trim(name[1..])
  }

  /** A name is read back by comparing it up to the first difference or terminator, at `i`. */
  lemma {:induction false} TrimIs(name: seq<byte>, fname: seq<byte>, i: nat)
    requires NUL !in fname && i <= |fname| <= |name| && name[..i] == fname[..i]
    requires i < |name| ==> CharAt(fname, i) != name[i] || CharAt(fname, i) == NUL
    ensures Trim(name) == fname <==> i == |name| || CharAt(fname, i) == name[i]
    decreases i
  {
    if i > 0 {
      assert name[0] == name[..i][0] == fname[0];
      assert name[1..][..i - 1] == name[..i][1..] && fname[1..][..i - 1] == fname[..i][1..];
      TrimIs(name[1..], fname[1..], i - 1);
      assert fname == [fname[0]] + fname[1..];
    }
  }

  /** The first entry with this name, or -1. */
  function Lookup(dir: seq<Dentry>, fname: seq<byte>): (r: int)
    ensures -1 <= r < |dir|
    ensures r >= 0 ==> Trim(dir[r].name) == fname && forall k :: 0 <= k < r ==> Trim(dir[k].name) != fname
    ensures r == -1 ==> forall k :: 0 <= k < |dir| ==> Trim(dir[k].name) != fname
  {
    if dir == [] then -1
    else if Trim(dir[0].name) == fname then 0
    else
      var r := Lookup(dir[1..], fname);
      if r == -1 then -1 else r + 1
  }

  // ----- operations -----

  /** How many blocks a write of `n` bytes at `offset` pops. */
  function Popped(s: Store, offset: nat, n: nat): nat {
    Min(Max(Blocks(n) - Blocks(offset), 0), |s.free|)
  }

  /** The blocks popped, in the order they are handed out. */
  function PoppedBlocks(free: seq<nat>, k: nat): seq<nat>
    requires k <= |free|
  {
    Reverse(free[|free| - k..])
  }

  function WriteCount(s: Store, offset: nat, n: nat): nat {
    var k := Popped(s, offset, n);
    if k == 0 then 0 else Min(n, BLK_SIZE * k - offset % BLK_SIZE)
  }

  /** `xs` with `ys` laid over it from index `at`; beyond a gap nothing is recorded. */
  function Overlay<T>(xs: seq<T>, at: nat, ys: seq<T>): seq<T> {
    if at > |xs| then xs
    else if at + |ys| >= |xs| then xs[..at] + ys
    else xs[..at] + ys + xs[at + |ys|..]
  }

  /** write_data: the length becomes the number of bytes asked for, whatever the offset; the bytes
      go into fresh blocks, from the first block that begins at or after the offset. */
  ghost predicate WriteStep(s: Store, inode: nat, offset: nat, buf: seq<byte>, code: int, s': Store) {
    if inode >= |s.files| then code == -1 && s' == s
    else if offset > s.files[inode].length then code == 0 && s' == s
    else
      |s'.files| == |s.files| &&
      var f, f' := s.files[inode], s'.files[inode];
      var start, k := Blocks(offset), Popped(s, offset, |buf|);
      var base := BLK_SIZE * start + offset % BLK_SIZE;
      && s' == s.(free := s.free[..|s.free| - k], files := s.files[inode := f'])
      && code == WriteCount(s, offset, |buf|)
      && f'.length == |buf|
      && f'.owned == Overlay(f.owned, start, PoppedBlocks(s.free, k))
      && |f'.bytes| == Min(|buf|, BLK_SIZE * |f'.owned|)
      && (forall c :: 0 <= c < code && base + c < |f'.bytes| ==> f'.bytes[base + c] == buf[c])
      && (forall p :: 0 <= p < Min(|f.bytes|, |f'.bytes|) && !(start <= p / BLK_SIZE < start + k)
                      ==> f'.bytes[p] == f.bytes[p])
  }

  /** The bytes that a read of `count` bytes at `offset` finds. */
  function Slice(bytes: seq<byte>, offset: nat, count: nat): seq<byte> {
    var end := Min(offset + count, |bytes|);
    if end <= offset then [] else bytes[offset..end]
  }

  function ReadReply(s: Store, inode: nat, offset: nat, count: nat): Reply {
    if inode >= |s.files| then Reply(-1, [])
    else if offset > s.files[inode].length then Reply(0, [])
    else
      var data := Slice(s.files[inode].bytes, offset, count);
      Reply(|data|, data)
  }

  /** A file name as file_create stores it: cut at a newline, in a directory slot that keeps the
      rest of its old contents. */
  function NewEntry(fname: seq<byte>, slot: Dentry, inode: nat): Dentry {
    var name := fname[..LineLen(fname)];
    Dentry(name + [NUL] + slot.name[Min(|name| + 1, |slot.name|)..], REGULAR_FILE_TYPE, inode)
  }

  function CreateStep(s: Store, fname: seq<byte>, slot: Dentry): (Store, int) {
    if |s.dir| >= MAX_NUM_DENTRY || s.freeInodes == [] then (s, -1 as int)
    else
      var last := |s.freeInodes| - 1;
      var inode := s.freeInodes[last];
      (s.(freeInodes := s.freeInodes[..last], dir := s.dir + [NewEntry(fname, slot, inode)]), inode)
  }

  function RemoveStep(s: Store, fname: seq<byte>): (Store, int) {
    var r := if |fname| > MAX_NAME_LEN then -1 else Lookup(s.dir, fname);
    if r == -1 then (s, -1 as int) else (s.(dir := s.dir[..r] + s.dir[r + 1..]), 0)
  }

  ghost predicate Step(s: Store, op: Op, r: Reply, s': Store) {
    match op
    case Create(fname, slot) => (s', r.code) == CreateStep(s, fname, slot)
    case Write(inode, offset, buf) => WriteStep(s, inode, offset, buf, r.code, s')
    case Read(inode, offset, count) => s' == s && r == ReadReply(s, inode, offset, count)
    case Remove(fname) => (s', r.code) == RemoveStep(s, fname)
  }

  /** What the code asks of its callers: an inode number other than Num_Inodes, which its range
      check lets through; at most 1023 blocks; names that fit the 32-byte buffers; and no read of
      bytes that a write which ran out of space never stored. */
  ghost predicate Legal(s: Store, op: Op) {
    match op
    case Create(fname, slot) => NUL !in fname && LineLen(fname) < MAX_NAME_LEN && |slot.name| == MAX_NAME_LEN
    case Write(inode, offset, buf) => inode != |s.files| && |buf| <= MAX_NUM_DATA_BLK * BLK_SIZE
    case Read(inode, offset, count) =>
      && inode != |s.files|
      && (inode < |s.files| && offset <= s.files[inode].length ==>
            && offset < MAX_NUM_DATA_BLK * BLK_SIZE
            && Min(offset + count, s.files[inode].length) <= Max(offset, |s.files[inode].bytes|))
    case Remove(fname) => NUL !in fname
  }

  // ----- the invariant -----

  /** Every block is free, or owned once, or neither. */
  ghost predicate Exclusive(s: Store, numBlocks: nat) {
    && NoDup(s.free)
    && (forall k :: 0 <= k < |s.free| ==> s.free[k] < numBlocks)
    && (forall i, a :: 0 <= i < |s.files| && 0 <= a < |s.files[i].owned| ==>
          s.files[i].owned[a] < numBlocks && s.files[i].owned[a] !in s.free)
    && (forall i, a, j, b |
          && 0 <= i < |s.files| && 0 <= a < |s.files[i].owned|
          && 0 <= j < |s.files| && 0 <= b < |s.files[j].owned|
          && s.files[i].owned[a] == s.files[j].owned[b] :: i == j && a == b)
  }

  ghost predicate Sized(f: File) {
    && |f.owned| <= MAX_NUM_DATA_BLK
    && f.length <= MAX_NUM_DATA_BLK * BLK_SIZE
    && |f.bytes| == Min(f.length, BLK_SIZE * |f.owned|)
  }

  /** No regular file's inode can be handed out again, and no two of them share one. */
  ghost predicate DirectoryOK(s: Store) {
    && |s.dir| <= MAX_NUM_DENTRY
    && NoDup(s.freeInodes)
    && (forall k :: 0 <= k < |s.freeInodes| ==> s.freeInodes[k] < |s.files|)
    && (forall d :: d in s.dir ==> |d.name| == MAX_NAME_LEN)
    && (forall k :: 0 <= k < |s.dir| && s.dir[k].kind == REGULAR_FILE_TYPE ==> s.dir[k].inode !in s.freeInodes)
    && (forall k, l :: 0 <= k < l < |s.dir| && s.dir[k].kind == REGULAR_FILE_TYPE && s.dir[l].kind == REGULAR_FILE_TYPE
                       ==> s.dir[k].inode != s.dir[l].inode)
  }

  ghost predicate Inv(s: Store, numBlocks: nat) {
    Exclusive(s, numBlocks) && DirectoryOK(s) && forall i :: 0 <= i < |s.files| ==> Sized(s.files[i])
  }

  lemma OverlayAt<T>(xs: seq<T>, at: nat, ys: seq<T>)
    ensures forall a :: 0 <= a < |Overlay(xs, at, ys)| ==>
              Overlay(xs, at, ys)[a] == if at <= |xs| && at <= a < at + |ys| then ys[a - at] else xs[a]
    ensures at <= |xs| ==> |Overlay(xs, at, ys)| == Max(|xs|, at + |ys|)
  {
  }

  /** A block of the written file is one it had, or one just popped. */
  lemma OwnedAfter(xs: seq<nat>, start: nat, free: seq<nat>, k: nat, a: nat)
    requires k <= |free| && a < |Overlay(xs, start, PoppedBlocks(free, k))|
    ensures Overlay(xs, start, PoppedBlocks(free, k))[a] ==
              if start <= |xs| && start <= a < start + k then free[|free| - 1 - (a - start)] else xs[a]
  {
    OverlayAt(xs, start, PoppedBlocks(free, k));
  }

  /** A list of blocks that were free, or this file's own, at distinct places. */
  lemma OverlayKeepsExclusive(s: Store, i: nat, zs: seq<nat>, start: nat, k: nat, numBlocks: nat)
    requires Exclusive(s, numBlocks) && i < |s.files| && k <= |s.free|
    requires zs == Overlay(s.files[i].owned, start, PoppedBlocks(s.free, k))
    ensures var free' := s.free[..|s.free| - k];
            && (forall a :: 0 <= a < |zs| ==> zs[a] < numBlocks && zs[a] !in free')
            && (forall a, b :: 0 <= a < b < |zs| ==> zs[a] != zs[b])
            && (forall a, j, b :: 0 <= a < |zs| && 0 <= j < |s.files| && j != i && 0 <= b < |s.files[j].owned|
                                  ==> zs[a] != s.files[j].owned[b])
  {
    var xs := s.files[i].owned;
    forall a | 0 <= a < |zs|
      ensures zs[a] == if start <= |xs| && start <= a < start + k then s.free[|s.free| - 1 - (a - start)] else xs[a]
    {
      OwnedAfter(xs, start, s.free, k, a);
    }
    forall a | 0 <= a < |zs|
      ensures zs[a] < numBlocks && zs[a] !in s.free[..|s.free| - k]
    {
      if start <= |xs| && start <= a < start + k { assert zs[a] in s.free; }
    }
  }

  lemma WriteKeepsExclusive(s: Store, inode: nat, offset: nat, buf: seq<byte>, code: int, s': Store, numBlocks: nat)
    requires Exclusive(s, numBlocks) && WriteStep(s, inode, offset, buf, code, s')
    ensures Exclusive(s', numBlocks)
  {
    if inode < |s.files| && offset <= s.files[inode].length {
      OverlayKeepsExclusive(s, inode, s'.files[inode].owned, Blocks(offset), Popped(s, offset, |buf|), numBlocks);
      assert forall j :: 0 <= j < |s.files| && j != inode ==> s'.files[j] == s.files[j];
      assert forall b :: b in s'.free ==> b in s.free;
    }
  }

  lemma CreateKeepsDirectory(s: Store, fname: seq<byte>, slot: Dentry)
    requires DirectoryOK(s) && Legal(s, Create(fname, slot))
    ensures DirectoryOK(CreateStep(s, fname, slot).0)
  {
    var s' := CreateStep(s, fname, slot).0;
    assert forall b :: b in s'.freeInodes ==> b in s.freeInodes;
  }

  lemma RemoveKeepsDirectory(s: Store, fname: seq<byte>)
    requires DirectoryOK(s)
    ensures DirectoryOK(RemoveStep(s, fname).0)
  {
    var s' := RemoveStep(s, fname).0;
    assert forall d :: d in s'.dir ==> d in s.dir;
  }

  /** The invariant is about the files on the one hand, and the directory on the other. */
  lemma DirectoryStepKeepsInv(s: Store, s': Store, numBlocks: nat)
    requires Inv(s, numBlocks) && s'.free == s.free && s'.files == s.files && DirectoryOK(s')
    ensures Inv(s', numBlocks)
  {
  }

  lemma WriteKeepsInv(s: Store, inode: nat, offset: nat, buf: seq<byte>, code: int, s': Store, numBlocks: nat)
    requires Inv(s, numBlocks) && |buf| <= MAX_NUM_DATA_BLK * BLK_SIZE && WriteStep(s, inode, offset, buf, code, s')
    ensures Inv(s', numBlocks)
  {
    WriteKeepsExclusive(s, inode, offset, buf, code, s', numBlocks);
    if inode < |s.files| {
      OverlayAt(s.files[inode].owned, Blocks(offset), PoppedBlocks(s.free, Popped(s, offset, |buf|)));
      assert Sized(s.files[inode]);
    }
  }

  /** Every operation keeps the invariant. */
  lemma StepKeepsInv(s: Store, op: Op, r: Reply, s': Store, numBlocks: nat)
    requires Inv(s, numBlocks) && Legal(s, op) && Step(s, op, r, s')
    ensures Inv(s', numBlocks)
  {
    match op
    case Create(fname, slot) => CreateKeepsDirectory(s, fname, slot);
    case Write(inode, offset, buf) => WriteKeepsInv(s, inode, offset, buf, r.code, s', numBlocks);
    case Read(inode, offset, count) =>
    case Remove(fname) => RemoveKeepsDirectory(s, fname);
  }

  // ----- names in the directory -----

  lemma NewEntryName(fname: seq<byte>, slot: Dentry, inode: nat)
    requires NUL !in fname && LineLen(fname) < MAX_NAME_LEN == |slot.name|
    ensures var d := NewEntry(fname, slot, inode);
            |d.name| == MAX_NAME_LEN && Trim(d.name) == fname[..LineLen(fname)]
  {
    var name, d := fname[..LineLen(fname)], NewEntry(fname, slot, inode);
    assert d.name[..|name|] == name[..|name|] && d.name[|name|] == NUL;
    TrimIs(d.name, name, |name|);
  }

  /** A create takes the last free inode number for one more entry at the end of the directory, a regular file
      of that name, or refuses when there is no room for it or no number left. */
  lemma CreateIsExact(s: Store, fname: seq<byte>, slot: Dentry)
    requires Legal(s, Create(fname, slot))
    ensures var (s', code) := CreateStep(s, fname, slot);
            if |s.dir| >= 63 || s.freeInodes == [] then code == -1 && s' == s
            else
              && s.freeInodes == s'.freeInodes + [code] && s'.free == s.free && s'.files == s.files
              && |s'.dir| == |s.dir| + 1 && s'.dir[..|s.dir|] == s.dir
              && var d := s'.dir[|s.dir|];
              d.kind == 2 && d.inode == code && |d.name| == 32 && Trim(d.name) == fname[..LineLen(fname)]
  {
    if |s.dir| < MAX_NUM_DENTRY && s.freeInodes != [] {
      NewEntryName(fname, slot, s.freeInodes[|s.freeInodes| - 1]);
    }
  }

  lemma LookupUnique(dir: seq<Dentry>, fname: seq<byte>, r: nat)
    requires r < |dir| && Trim(dir[r].name) == fname && forall k :: 0 <= k < r ==> Trim(dir[k].name) != fname
    ensures Lookup(dir, fname) == r
  {
  }

  /** A file just created is found under its name if and only if there was none of that name before:
      otherwise the older entry hides it. */
  lemma CreatedIsFound(s: Store, fname: seq<byte>, slot: Dentry)
    requires Legal(s, Create(fname, slot)) && CreateStep(s, fname, slot).1 != -1
    ensures var name, dir' := fname[..LineLen(fname)], CreateStep(s, fname, slot).0.dir;
            var r := Lookup(dir', name);
            && r != -1 && Trim(dir'[r].name) == name
            && (r == |s.dir| <==> Lookup(s.dir, name) == -1)
            && (r < |s.dir| ==> r == Lookup(s.dir, name))
  {
    var name, s' := fname[..LineLen(fname)], CreateStep(s, fname, slot).0;
    NewEntryName(fname, slot, CreateStep(s, fname, slot).1);
    assert forall k :: 0 <= k < |s.dir| ==> s'.dir[k] == s.dir[k];
    var old_r := Lookup(s.dir, name);
    LookupUnique(s'.dir, name, if old_r == -1 then |s.dir| else old_r);
  }

  /** Removing the name of a file just created takes its entry back, though not its inode, if and only
      if there was none of that name before: otherwise the older file goes. */
  lemma RemoveUndoesCreate(s: Store, fname: seq<byte>, slot: Dentry)
    requires DirectoryOK(s) && Legal(s, Create(fname, slot)) && CreateStep(s, fname, slot).1 != -1
    ensures var name, s' := fname[..LineLen(fname)], CreateStep(s, fname, slot).0;
            var (s'', code) := RemoveStep(s', name);
            && code == 0 && s'' == s'.(dir := s''.dir)
            && (s''.dir == s.dir <==> Lookup(s.dir, name) == -1)
  {
    var name := fname[..LineLen(fname)];
    var (s', inode) := CreateStep(s, fname, slot);
    CreatedIsFound(s, fname, slot);
    var r, n := Lookup(s.dir, name), |s.dir| - 1;
    if r != -1 {
      var dir := RemoveStep(s', name).0.dir;
      assert dir[n] == s'.dir[|s.dir|] == NewEntry(fname, slot, inode);
      assert s.dir[n].kind == REGULAR_FILE_TYPE ==> s.dir[n].inode != inode;
    }
  }

  /** What is looked up when entry `r` is taken out, for a name that it does not have. */
  lemma LookupWithout(dir: seq<Dentry>, r: nat, g: seq<byte>)
    requires r < |dir| && Trim(dir[r].name) != g
    ensures var dir', a := dir[..r] + dir[r + 1..], Lookup(dir, g);
            var b := Lookup(dir', g);
            (a == -1 <==> b == -1) && (a != -1 ==> dir'[b] == dir[a])
  {
    var dir', a := dir[..r] + dir[r + 1..], Lookup(dir, g);
    assert forall k :: 0 <= k < |dir'| ==> dir'[k] == dir[if k < r then k else k + 1];
    if a != -1 { LookupUnique(dir', g, if a < r then a else a - 1); }
  }

  /** And for the name that it was the first to have. */
  lemma LookupNext(dir: seq<Dentry>, r: nat, g: seq<byte>)
    requires Lookup(dir, g) == r
    ensures var dir', next := dir[..r] + dir[r + 1..], Lookup(dir[r + 1..], g);
            && (if next == -1 then Lookup(dir', g) == -1 else Lookup(dir', g) == r + next)
            && (next != -1 ==> dir'[r + next] == dir[r + 1..][next])
  {
    var dir', next := dir[..r] + dir[r + 1..], Lookup(dir[r + 1..], g);
    assert forall k :: r <= k < |dir'| ==> dir'[k] == dir[r + 1..][k - r];
    if next != -1 { LookupUnique(dir', g, r + next); }
  }

  /** A removal takes out the first entry of its name and no other: every other name is looked up as before,
      to the same entry, and the name itself to its next entry, if there is one. */
  lemma RemoveIsExact(s: Store, fname: seq<byte>, g: seq<byte>)
    ensures var (s', code) := RemoveStep(s, fname);
            && code == (if |fname| <= MAX_NAME_LEN && Lookup(s.dir, fname) != -1 then 0 else -1)
            && s' == s.(dir := s'.dir)
            && (code == -1 ==> s' == s)
            && (code == 0 ==>
                  && |s'.dir| == |s.dir| - 1
                  && var a, b := Lookup(s.dir, g), Lookup(s'.dir, g);
                  if g != fname then (a == -1 <==> b == -1) && (a != -1 ==> s'.dir[b] == s.dir[a])
                  else if Lookup(s.dir[a + 1..], g) == -1 then b == -1
                  else b != -1 && s'.dir[b] == s.dir[a + 1..][Lookup(s.dir[a + 1..], g)])
  {
    var (s', code) := RemoveStep(s, fname);
    if code == 0 {
      var r := Lookup(s.dir, fname);
      assert s'.dir == s.dir[..r] + s.dir[r + 1..];
      if g != fname { LookupWithout(s.dir, r, g); } else { LookupNext(s.dir, r, g); }
    }
  }

  // ----- whole runs -----

  /** A run: the states it passes through, the operations and the replies. */
  ghost predicate IsRun(ss: seq<Store>, ops: seq<Op>, rs: seq<Reply>) {
    |ss| == |ops| + 1 && |rs| == |ops| && forall k :: 0 <= k < |ops| ==> IsStep(ss, ops, rs, k)
  }

  ghost predicate IsStep(ss: seq<Store>, ops: seq<Op>, rs: seq<Reply>, k: nat)
    requires k < |ops| && |ss| == |ops| + 1 && |rs| == |ops|
  {
    Legal(ss[k], ops[k]) && Step(ss[k], ops[k], rs[k], ss[k + 1])
  }

  lemma {:induction false} RunKeepsInv(ss: seq<Store>, ops: seq<Op>, rs: seq<Reply>, numBlocks: nat, n: nat)
    requires IsRun(ss, ops, rs) && Inv(ss[0], numBlocks) && n <= |ops|
    ensures Inv(ss[n], numBlocks) && |ss[n].files| == |ss[0].files|
  {
    if n > 0 {
      RunKeepsInv(ss, ops, rs, numBlocks, n - 1);
      TurnKeepsInv(ss, ops, rs, numBlocks, n - 1);
    }
  }

  lemma TurnKeepsInv(ss: seq<Store>, ops: seq<Op>, rs: seq<Reply>, numBlocks: nat, k: nat)
    requires IsRun(ss, ops, rs) && k < |ops| && Inv(ss[k], numBlocks)
    ensures Inv(ss[k + 1], numBlocks) && |ss[k + 1].files| == |ss[k].files|
  {
    assert IsStep(ss, ops, rs, k);
    StepKeepsInv(ss[k], ops[k], rs[k], ss[k + 1], numBlocks);
    StepKeepsFiles(ss[k], ops[k], rs[k], ss[k + 1]);
  }

  lemma StepKeepsFiles(s: Store, op: Op, r: Reply, s': Store)
    requires Step(s, op, r, s')
    ensures |s'.files| == |s.files|
  {
  }

  /** The blocks one operation takes off the free list, in order. */
  function Taken(s: Store, op: Op): seq<nat> {
    if op.Write? && op.inode < |s.files| && op.offset <= s.files[op.inode].length
    then PoppedBlocks(s.free, Popped(s, op.offset, |op.buf|))
    else []
  }

  function Joined(ts: seq<seq<nat>>): seq<nat> {
    if ts == [] then [] else Joined(ts[..|ts| - 1]) + ts[|ts| - 1]
  }

  lemma {:induction false} ReverseOfAppend<T>(a: seq<T>, b: seq<T>)
    ensures Reverse(a + b) == Reverse(b) + Reverse(a)
  {
  }

  /** The inode number one operation takes off the free list. */
  function Granted(s: Store, op: Op): seq<nat> {
    if op.Create? && |s.dir| < MAX_NUM_DENTRY && s.freeInodes != [] then [s.freeInodes[|s.freeInodes| - 1]] else []
  }

  lemma StepTakesBlocks(s: Store, op: Op, r: Reply, s': Store)
    requires Step(s, op, r, s')
    ensures s.free == s'.free + Reverse(Taken(s, op))
  {
    if op.Write? && op.inode < |s.files| && op.offset <= s.files[op.inode].length {
      PopsFromTheBack(s.free, Popped(s, op.offset, |op.buf|));
    } else {
      assert s'.free == s.free;
    }
  }

  lemma PopsFromTheBack(free: seq<nat>, k: nat)
    requires k <= |free|
    ensures free == free[..|free| - k] + Reverse(PoppedBlocks(free, k))
  {
    ReverseTwice(free[|free| - k..]);
  }

  lemma StepTakesInodes(s: Store, op: Op, r: Reply, s': Store)
    requires Step(s, op, r, s')
    ensures s.freeInodes == s'.freeInodes + Reverse(Granted(s, op))
  {
    if Granted(s, op) == [] {
      assert s'.freeInodes == s.freeInodes;
    }
  }

  /** Everything a run takes off the free list of blocks, and of inodes. */
  function TakenBy(ss: seq<Store>, ops: seq<Op>): seq<nat>
    requires |ss| == |ops| + 1
  {
    Joined(seq(|ops|, k requires 0 <= k < |ops| => Taken(ss[k], ops[k])))
  }

  function GrantedBy(ss: seq<Store>, ops: seq<Op>): seq<nat>
    requires |ss| == |ops| + 1
  {
    Joined(seq(|ops|, k requires 0 <= k < |ops| => Granted(ss[k], ops[k])))
  }

  /** Lists that shrink from the back: the first is what is left, followed by all that was taken, last
      first. */
  lemma {:induction false} Conserved(lists: seq<seq<nat>>, ts: seq<seq<nat>>)
    requires |lists| == |ts| + 1 && forall k :: 0 <= k < |ts| ==> lists[k] == lists[k + 1] + Reverse(ts[k])
    ensures lists[0] == lists[|ts|] + Reverse(Joined(ts))
    decreases |ts|
  {
    if ts != [] {
      var n := |ts| - 1;
      Conserved(lists[..n + 1], ts[..n]);
      assert lists[n] == lists[n + 1] + Reverse(ts[n]);
      ReverseOfAppend(Joined(ts[..n]), ts[n]);
    }
  }

  /** Conservation, over every run and for both allocators. */
  lemma ListsConserved(ss: seq<Store>, ops: seq<Op>, rs: seq<Reply>)
    requires IsRun(ss, ops, rs)
    ensures ss[0].free == ss[|ops|].free + Reverse(TakenBy(ss, ops))
    ensures ss[0].freeInodes == ss[|ops|].freeInodes + Reverse(GrantedBy(ss, ops))
  {
    forall k | 0 <= k < |ops|
      ensures ss[k].free == ss[k + 1].free + Reverse(Taken(ss[k], ops[k]))
      ensures ss[k].freeInodes == ss[k + 1].freeInodes + Reverse(Granted(ss[k], ops[k]))
    {
      assert IsStep(ss, ops, rs, k);
      StepTakesBlocks(ss[k], ops[k], rs[k], ss[k + 1]);
      StepTakesInodes(ss[k], ops[k], rs[k], ss[k + 1]);
    }
    Conserved(seq(|ss|, k requires 0 <= k < |ss| => ss[k].free),
        seq(|ops|, k requires 0 <= k < |ops| => Taken(ss[k], ops[k])));
    Conserved(seq(|ss|, k requires 0 <= k < |ss| => ss[k].freeInodes),
        seq(|ops|, k requires 0 <= k < |ops| => Granted(ss[k], ops[k])));
  }

  lemma SplitNoDup(whole: seq<nat>, left: seq<nat>, t: seq<nat>)
    requires NoDup(whole) && whole == left + Reverse(t)
    ensures NoDup(t) && forall b :: b in t ==> b !in left && b in whole
  {
    assert forall c :: 0 <= c < |t| ==> t[c] == whole[|left| + (|t| - 1 - c)];
    forall i, j | 0 <= i < j < |t| ensures t[i] != t[j] {
      assert t[i] == whole[|left| + (|t| - 1 - i)] && t[j] == whole[|left| + (|t| - 1 - j)];
    }
    forall c, x | 0 <= c < |t| && 0 <= x < |left| ensures t[c] != left[x] {
      assert t[c] == whole[|left| + (|t| - 1 - c)] && left[x] == whole[x];
    }
  }

  /** No block is handed out twice, nor one that a file owned at the start. */
  lemma BlocksHandedOutOnce(ss: seq<Store>, ops: seq<Op>, rs: seq<Reply>, numBlocks: nat)
    requires IsRun(ss, ops, rs) && Inv(ss[0], numBlocks)
    ensures NoDup(TakenBy(ss, ops))
    ensures forall b :: b in TakenBy(ss, ops) ==> b < numBlocks && b !in ss[|ops|].free
    ensures forall b, i :: b in TakenBy(ss, ops) && 0 <= i < |ss[0].files| ==> b !in ss[0].files[i].owned
  {
    ListsConserved(ss, ops, rs);
    SplitNoDup(ss[0].free, ss[|ops|].free, TakenBy(ss, ops));
  }

  /** No inode number is handed out twice, nor one that a regular file had at the start. */
  lemma InodesHandedOutOnce(ss: seq<Store>, ops: seq<Op>, rs: seq<Reply>, numBlocks: nat)
    requires IsRun(ss, ops, rs) && Inv(ss[0], numBlocks)
    ensures NoDup(GrantedBy(ss, ops))
    ensures forall k :: 0 <= k < |ss[0].dir| && ss[0].dir[k].kind == REGULAR_FILE_TYPE ==>
            ss[0].dir[k].inode !in GrantedBy(ss, ops)
  {
    ListsConserved(ss, ops, rs);
    SplitNoDup(ss[0].freeInodes, ss[|ops|].freeInodes, GrantedBy(ss, ops));
  }

  // ----- what is written is what is read -----

  /** A write at the start of a file stores as much of the buffer as the free blocks hold, and
      exactly that much is reported. */
  lemma WriteAtStart(s: Store, inode: nat, buf: seq<byte>, code: int, s': Store)
    requires inode < |s.files| && WriteStep(s, inode, 0, buf, code, s')
    ensures code == Min(|buf|, BLK_SIZE * |s.free|)
    ensures code <= |s'.files[inode].bytes| && s'.files[inode].bytes[..code] == buf[..code]
    ensures code == |buf| ==> s'.files[inode].bytes == buf
  {
    CountAtStart(s, |buf|);
    var p := PoppedBlocks(s.free, Popped(s, 0, |buf|));
    OverlayAt(s.files[inode].owned, 0, p);
    var f' := s'.files[inode];
    assert |f'.owned| >= |p| && |f'.bytes| == Min(|buf|, BLK_SIZE * |f'.owned|);
    FirstBytes(f'.bytes, buf, code);
  }

  lemma FirstBytes(bytes: seq<byte>, buf: seq<byte>, n: nat)
    requires n <= |bytes| <= |buf| && forall c :: 0 <= c < n ==> bytes[c] == buf[c]
    ensures bytes[..n] == buf[..n]
    ensures n == |buf| ==> bytes == buf
  {
  }

  lemma CountAtStart(s: Store, n: nat)
    ensures WriteCount(s, 0, n) == Min(n, BLK_SIZE * |s.free|) == Min(n, BLK_SIZE * Popped(s, 0, n))
  {
  }

  /** Operation `op` may change the contents of file `i`. */
  predicate Writes(op: Op, i: nat) {
    op.Write? && op.inode == i
  }

  lemma {:induction false} UntouchedSince(ss: seq<Store>, ops: seq<Op>, rs: seq<Reply>, i: nat, m: nat, n: nat)
    requires IsRun(ss, ops, rs) && i < |ss[0].files| && m <= n <= |ops|
    requires forall k :: m <= k < n ==> !Writes(ops[k], i)
    ensures |ss[n].files| == |ss[m].files| && (i < |ss[m].files| ==> ss[n].files[i] == ss[m].files[i])
    decreases n
  {
    if m < n {
      UntouchedSince(ss, ops, rs, i, m, n - 1);
      assert IsStep(ss, ops, rs, n - 1) && !Writes(ops[n - 1], i);
    }
  }

  /** The refinement: in every run, whatever else happens to the store, a read of a file finds the
      bytes that the last write to it stored: all of the buffer, or as much as the free blocks held. */
  lemma ReadsLastWrite(ss: seq<Store>, ops: seq<Op>, rs: seq<Reply>, w: nat, r: nat)
    requires IsRun(ss, ops, rs) && w < r < |ops|
    requires ops[w].Write? && ops[w].offset == 0 && ops[w].inode < |ss[w].files|
    requires ops[r].Read? && ops[r].inode == ops[w].inode
    requires forall k :: w < k < r ==> !Writes(ops[k], ops[w].inode)
    ensures rs[w].code == Min(|ops[w].buf|, BLK_SIZE * |ss[w].free|)
    ensures var stored := Slice(ops[w].buf[..rs[w].code], ops[r].offset, ops[r].count);
            && stored <= rs[r].data
            && (rs[w].code == |ops[w].buf| || ops[r].offset + ops[r].count <= rs[w].code ==>
                  rs[r] == Reply(|stored|, stored))
  {
    assert IsStep(ss, ops, rs, w) && IsStep(ss, ops, rs, r);
    WriteAtStart(ss[w], ops[w].inode, ops[w].buf, rs[w].code, ss[w + 1]);
    FilesFixed(ss, ops, rs, w + 1);
    UntouchedSince(ss, ops, rs, ops[w].inode, w + 1, r);
    SliceOfPrefix(ss[r].files[ops[r].inode].bytes, rs[w].code, ops[r].offset, ops[r].count);
    assert ops[w].buf[..|ops[w].buf|] == ops[w].buf;
  }

  /** A slice of the first `n` bytes is what a slice of all of them begins with. */
  lemma SliceOfPrefix(bytes: seq<byte>, n: nat, offset: nat, count: nat)
    requires n <= |bytes|
    ensures Slice(bytes[..n], offset, count) <= Slice(bytes, offset, count)
    ensures offset + count <= n || n == |bytes| ==> Slice(bytes[..n], offset, count) == Slice(bytes, offset, count)
  {
    assert n == |bytes| ==> bytes[..n] == bytes;
    assert offset + count <= n ==> bytes[..n][offset..offset + count] == bytes[offset..offset + count];
  }

  lemma {:induction false} FilesFixed(ss: seq<Store>, ops: seq<Op>, rs: seq<Reply>, n: nat)
    requires IsRun(ss, ops, rs) && n <= |ops|
    ensures |ss[n].files| == |ss[0].files|
  {
    if n > 0 {
      FilesFixed(ss, ops, rs, n - 1);
      assert IsStep(ss, ops, rs, n - 1);
    }
  }

  /** A write at the end of the file's own bytes appends to them if and only if that end is the
      start: the length becomes the number of bytes asked for, not the offset plus that number. */
  lemma AppendsOnlyAtZero(s: Store, inode: nat, buf: seq<byte>, code: int, s': Store)
    requires inode < |s.files| && Sized(s.files[inode])
    requires WriteStep(s, inode, |s.files[inode].bytes|, buf, code, s')
    requires Blocks(|buf|) <= |s.free|
    ensures s'.files[inode].bytes == s.files[inode].bytes + buf <==> s.files[inode].bytes == []
  {
    if s.files[inode].bytes == [] { WriteAtStart(s, inode, buf, code, s'); }
  }

  /** A size rounded up to whole blocks. */
  function RoundUp(n: nat): (r: nat)
    ensures n <= r < n + BLK_SIZE && r % BLK_SIZE == 0
  {
    (n + BLK_SIZE - 1) / BLK_SIZE * BLK_SIZE
  }

  lemma BlocksRoundUp(n: nat)
    ensures BLK_SIZE * Blocks(n) == RoundUp(n)
  {
  }

  /** Where the bytes of a write land: at its offset if that is block aligned, and a block further on
      otherwise. */
  function Landing(offset: nat): nat {
    if offset % BLK_SIZE == 0 then offset else offset + BLK_SIZE
  }

  /** A write at any offset within the file. There are only as many bytes as fit between their landing and the
      new length, rounded up, and the free blocks; so none at all beyond the new length. The length is the
      number of bytes asked for, every block popped is gone from the free list, and nothing else changes. */
  lemma WriteAnywhere(s: Store, inode: nat, offset: nat, buf: seq<byte>, code: int, s': Store)
    requires inode < |s.files| && offset <= s.files[inode].length && WriteStep(s, inode, offset, buf, code, s')
    ensures |s'.files| == |s.files| && s'.files[inode].length == |buf|
    ensures s'.dir == s.dir && s'.freeInodes == s.freeInodes
    ensures forall i :: 0 <= i < |s.files| && i != inode ==> s'.files[i] == s.files[i]
    ensures var room := RoundUp(|buf|) - RoundUp(offset);
            && (code > 0 <==> s.free != [] && |buf| > RoundUp(offset))
            && (room <= BLK_SIZE * |s.free| ==>
                  && code == Max(0, Min(|buf|, RoundUp(|buf|) - Landing(offset)))
                  && BLK_SIZE * (|s.free| - |s'.free|) == Max(0, room))
            && (room > BLK_SIZE * |s.free| ==>
                  && s'.free == []
                  && (s.free != [] ==> code == Min(|buf|, RoundUp(offset) + BLK_SIZE * |s.free| - Landing(offset))))
  {
    BlocksRoundUp(offset);
    BlocksRoundUp(|buf|);
    PoppedBytes(s, offset, |buf|);
  }

  /** Its bytes: the buffer's where they land; what stood before the offset's block, or behind the blocks that
      were popped, stays. */
  lemma WriteAnywhereBytes(s: Store, inode: nat, offset: nat, buf: seq<byte>, code: int, s': Store)
    requires inode < |s.files| && offset <= s.files[inode].length && WriteStep(s, inode, offset, buf, code, s')
    ensures |s'.files| == |s.files| && |s'.free| <= |s.free| && code <= |buf|
    ensures var f, f' := s.files[inode], s'.files[inode];
            && (forall c :: 0 <= c < code && Landing(offset) + c < |f'.bytes| ==>
                  f'.bytes[Landing(offset) + c] == buf[c])
            && (forall p :: 0 <= p < Min(|f.bytes|, |f'.bytes|)
                            && (p < RoundUp(offset) || p >= RoundUp(offset) + BLK_SIZE * (|s.free| - |s'.free|))
                  ==> f'.bytes[p] == f.bytes[p])
  {
    BlocksRoundUp(offset);
    PoppedBytes(s, offset, |buf|);
  }

  lemma PoppedBytes(s: Store, offset: nat, n: nat)
    ensures BLK_SIZE * Popped(s, offset, n) == Min(Max(RoundUp(n) - RoundUp(offset), 0), BLK_SIZE * |s.free|)
    ensures Popped(s, offset, n) > 0 <==> s.free != [] && n > RoundUp(offset)
  {
    BlocksRoundUp(offset);
    BlocksRoundUp(n);
  }

  /** The refusals of reads and writes: an inode number out of range, and an offset beyond the file. */
  lemma Refusals(s: Store, inode: nat, offset: nat, count: nat, buf: seq<byte>, code: int, s': Store)
    requires inode >= |s.files| || offset > s.files[inode].length
    ensures ReadReply(s, inode, offset, count) == Reply(if inode >= |s.files| then -1 else 0, [])
    ensures WriteStep(s, inode, offset, buf, code, s') <==> code == (if inode >= |s.files| then -1 else 0) && s' == s
  {
  }

  /** A write is read back at its own offset if and only if that offset is the start of the file. */
  lemma ReadBackOnlyAtZero(s: Store, inode: nat, offset: nat, buf: seq<byte>, code: int, s': Store)
    requires inode < |s.files| && offset <= s.files[inode].length && buf != []
    requires WriteStep(s, inode, offset, buf, code, s') && |buf| <= BLK_SIZE * |s.free|
    ensures ReadReply(s', inode, offset, |buf|) == Reply(|buf|, buf) <==> offset == 0
  {
    if offset == 0 { WriteAtStart(s, inode, buf, code, s'); }
  }
}
