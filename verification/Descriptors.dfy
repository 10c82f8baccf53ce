/** Files through descriptors: open, close, read and write on a process's file array, and the loops of
    the cat and ls programs over them. */
module Descriptors {
  import opened CLib
  import opened FileStore
  import opened FileSys

  const PCB_SIZE := 8
  const FIRST_FILE_FD := 2
  const RTC_TYPE := 0
  const DIRECTORY_TYPE := 1
  const CAT_BUF := 1024
  const LS_BUF := 33

  /** The operation table a descriptor points to. */
  datatype Table = NoTable | Terminal | Clock | Directory | Regular

  /** One entry of a process's file array; inode -1 marks a file still to be created under `name`. */
  datatype Entry = Entry(table: Table, inode: int, pos: nat, busy: bool, name: seq<byte>)

  function TableOf(kind: nat): Table {
    if kind == RTC_TYPE then Clock
    else if kind == DIRECTORY_TYPE then Directory
    else if kind == REGULAR_FILE_TYPE then Regular
    else NoTable
  }

  /** File positions are 32 bits wide. */
  function Wrap(n: int): nat {
    n % 0x1_0000_0000
  }

  // ----- the calls -----

  /** The lowest free descriptor from `from` on, or -1. */
  function FreeFd(fds: seq<Entry>, from: nat): (fd: int)
    ensures fd == -1 ==> forall k :: from <= k < |fds| ==> fds[k].busy
    ensures fd != -1 ==> from <= fd < |fds| && !fds[fd].busy && forall k :: from <= k < fd ==> fds[k].busy
    decreases |fds| - from
  {
    if from >= |fds| then -1 else if !fds[from].busy then from else FreeFd(fds, from + 1)
  }

  /** open; a name that is not in the directory is kept for the first write. */
  function OpenNext(fds: seq<Entry>, dir: seq<Dentry>, fname: seq<byte>): (seq<Entry>, int) {
    var name, fd := fname[..LineLen(fname)], FreeFd(fds, FIRST_FILE_FD);
    if fname == [] || fd == -1 then (fds, -1 as int)
    else
      var r := Lookup(dir, name);
      if r == -1 then (fds[fd := Entry(Regular, -1, 0, true, name)], fd)
      else if TableOf(dir[r].kind) == NoTable then (fds, -1)
      else (fds[fd := Entry(TableOf(dir[r].kind), dir[r].inode, 0, true, fds[fd].name)], fd)
  }

  function CloseNext(fds: seq<Entry>, fd: int): (seq<Entry>, int)
    requires |fds| == PCB_SIZE
  {
    if !(FIRST_FILE_FD <= fd < PCB_SIZE) || !fds[fd].busy then (fds, -1 as int)
    else (fds[fd := fds[fd].(busy := false, pos := 0, inode := 0)], 0)
  }

  /** dir_read: one name a call, cut to the count; the position afterwards. */
  function DirReply(dir: seq<Dentry>, pos: nat, n: nat): (Reply, nat) {
    if pos == |dir| then (Reply(0, []), pos)
    else if pos > |dir| then (Reply(-1, []), pos)
    else
      var name := NameRead(dir[pos], n);
      (Reply(|name|, name), Wrap(pos + 1))
  }

  function NameRead(d: Dentry, n: nat): seq<byte> {
    var name := Trim(d.name);
    name[..Min(n, |name|)]
  }

  /** read; `dev` is what the terminal or the clock answers, if the descriptor belongs to one. */
  function ReadNext(fds: seq<Entry>, s: Store, fd: int, n: int, dev: Reply): (seq<Entry>, Reply)
    requires |fds| == PCB_SIZE && LegalRead(fds, s, fd, n, dev)
  {
    if !Readable(fd, n) then (fds, Reply(-1, []))
    else
      var e := fds[fd];
      if e.inode == -1 then (CloseNext(fds, fd).0, Reply(-1, []))
      else if !e.busy then (fds, Reply(-1, []))
      else
        var (r, pos) := ReadEntry(e, s, n, dev);
        (fds[fd := e.(pos := pos)], r)
  }

  /** The read routine of a descriptor's table; the position afterwards. */
  function ReadEntry(e: Entry, s: Store, n: nat, dev: Reply): (Reply, nat)
    requires e.inode >= 0
  {
    match e.table
    case Regular =>
      var r := ReadReply(s, e.inode, e.pos, n);
      (r, Wrap(e.pos + r.code))
    case Directory => DirReply(s.dir, e.pos, n)
    case _ => (dev, e.pos)
  }

  predicate Readable(fd: int, n: int) {
    n >= 0 && 0 <= fd < PCB_SIZE && fd != 1
  }

  /** What a read asks of its caller: a legal read of the store, or of a directory that has not lost its
      last entry since the listing began; a device answers with as many bytes as it says, and no more
      than were asked for. */
  ghost predicate LegalRead(fds: seq<Entry>, s: Store, fd: int, n: int, dev: Reply)
    requires |fds| == PCB_SIZE
  {
    Readable(fd, n) ==> fds[fd].inode >= -1 && (fds[fd].inode != -1 && fds[fd].busy ==> LegalReadOf(fds[fd], s, n, dev))
  }

  ghost predicate LegalReadOf(e: Entry, s: Store, n: nat, dev: Reply)
    requires e.inode >= 0
  {
    match e.table
    case Regular => Legal(s, FileStore.Read(e.inode, e.pos, n))
    case Directory => s.dir == [] ==> e.pos == 0
    case _ => e.table != NoTable && |dev.data| == Max(dev.code, 0) <= n
  }

  /** The start of write: a file still to be created is created now. */
  function CreateNext(fds: seq<Entry>, s: Store, fd: nat, slot: Dentry): (seq<Entry>, Store)
    requires fd < |fds|
  {
    if fds[fd].inode != -1 then (fds, s)
    else
      var (s1, inode) := CreateStep(s, fds[fd].name, slot);
      (fds[fd := fds[fd].(inode := inode)], s1)
  }

  /** The write routine of a descriptor's table. Inode -1 is the largest unsigned number, which
      write_data refuses; `dev` is what the terminal or the clock answers. */
  ghost predicate WriteEntry(e: Entry, s: Store, buf: seq<byte>, dev: int, code: int, s': Store) {
    match e.table
    case Regular => if e.inode < 0 then code == -1 && s' == s else WriteStep(s, e.inode, e.pos, buf, code, s')
    case Directory => code == -1 && s' == s
    case _ => code == dev && s' == s
  }

  /** The position after a write: write advances it, and before that file_write. */
  function PosAfterWrite(e: Entry, code: int): nat {
    var pos := if e.table == Regular then Wrap(e.pos + code) else e.pos;
    if code == -1 then pos else Wrap(pos + code)
  }

  /** write */
  ghost predicate WriteCall(fds: seq<Entry>, s: Store, fd: int, buf: seq<byte>, slot: Dentry, dev: int,
                            code: int, fds': seq<Entry>, s': Store)
    requires |fds| == PCB_SIZE
  {
    if !(0 < fd < PCB_SIZE) then code == -1 && fds' == fds && s' == s
    else
      var (fds1, s1) := CreateNext(fds, s, fd, slot);
      var e := fds1[fd];
      if !e.busy then code == -1 && s' == s1 && fds' == fds1
      else WriteEntry(e, s1, buf, dev, code, s') && fds' == fds1[fd := e.(pos := PosAfterWrite(e, code))]
  }

  ghost predicate LegalWrite(fds: seq<Entry>, s: Store, fd: int, buf: seq<byte>, slot: Dentry)
    requires |fds| == PCB_SIZE
  {
    && |buf| <= MAX_NUM_DATA_BLK * BLK_SIZE
    && (0 < fd < PCB_SIZE ==>
          var e := fds[fd];
          && e.inode >= -1 && (e.table == Regular ==> e.inode != |s.files|)
          && (e.inode == -1 ==> Legal(s, Create(e.name, slot)))
          && (e.busy ==> e.table != NoTable))
  }

  // ----- what follows -----

  /** A descriptor that is opened and closed again is the next one to be handed out. */
  lemma OpenThenClose(fds: seq<Entry>, dir: seq<Dentry>, fname: seq<byte>)
    requires |fds| == PCB_SIZE && OpenNext(fds, dir, fname).1 != -1
    ensures var (fds1, fd) := OpenNext(fds, dir, fname);
            var (fds2, code) := CloseNext(fds1, fd);
            && code == 0 && FreeFd(fds2, FIRST_FILE_FD) == fd
            && forall k :: 0 <= k < PCB_SIZE && k != fd ==> fds2[k] == fds[k]
  {
    var (fds1, fd) := OpenNext(fds, dir, fname);
    var fds2 := CloseNext(fds1, fd).0;
    assert !fds2[fd].busy;
    assert forall k :: 0 <= k < fd ==> fds2[k] == fds[k];
    assert FreeFd(fds2, FIRST_FILE_FD) != -1;
  }

  /** The names in a directory, as they are stored. */
  function Names(dir: seq<Dentry>): seq<seq<byte>> {
    seq(|dir|, k requires 0 <= k < |dir| => Trim(dir[k].name))
  }

  lemma NamesSnoc(dir: seq<Dentry>, d: Dentry)
    ensures Names(dir + [d]) == Names(dir) + [Trim(d.name)]
  {
  }

  /** A name cut at its first newline has none, and is empty if and only if it began with one. */
  lemma CutName(fname: seq<byte>)
    requires fname != []
    ensures var name := fname[..LineLen(fname)];
            LineLen(name) == |name| && (name == [] <==> fname[0] == NEWLINE)
  {
    LineLenIs(fname);
    var name := fname[..LineLen(fname)];
    LineLenUnique(name, |name|);
  }

  /** A new file enters the directory at its end, under its own name. */
  lemma CreatedAtTheEnd(s: Store, name: seq<byte>, slot: Dentry)
    requires LineLen(name) == |name| && Legal(s, Create(name, slot))
    requires |s.dir| < MAX_NUM_DENTRY && s.freeInodes != []
    ensures Names(CreateStep(s, name, slot).0.dir) == Names(s.dir) + [name]
  {
    var inode := s.freeInodes[|s.freeInodes| - 1];
    NewEntryName(name, slot, inode);
    assert name[..|name|] == name;
    NamesSnoc(s.dir, NewEntry(name, slot, inode));
  }

  /** The name that a new file gets when it is opened under `fname` and created by the first write. It is
      empty if and only if `fname` begins with a newline. */
  lemma CreatedName(fds: seq<Entry>, s: Store, fname: seq<byte>, slot: Dentry)
    requires |fds| == PCB_SIZE && fname != [] && Legal(s, Create(fname, slot))
    requires OpenNext(fds, s.dir, fname).1 != -1 && Lookup(s.dir, fname[..LineLen(fname)]) == -1
    requires |s.dir| < MAX_NUM_DENTRY && s.freeInodes != []
    ensures var (fds1, fd) := OpenNext(fds, s.dir, fname);
            var names := Names(CreateNext(fds1, s, fd, slot).1.dir);
            && names == Names(s.dir) + [fname[..LineLen(fname)]]
            && ([] in names <==> [] in Names(s.dir) || fname[0] == NEWLINE)
  {
    var (fds1, fd) := OpenNext(fds, s.dir, fname);
    var name := fname[..LineLen(fname)];
    CutName(fname);
    assert fds1[fd] == Entry(Regular, -1, 0, true, name);
    CreatedAtTheEnd(s, name, slot);
  }

  lemma {:induction false} TrimOfPrefix(name: seq<byte>, l: nat)
    requires l <= |Trim(name)| <= |name|
    ensures Trim(name[..l]) == name[..l]
  {
    if l > 0 {
      TrimShortens(name[1..]);
      TrimOfPrefix(name[1..], l - 1);
      assert name[..l][1..] == name[1..][..l - 1];
    }
  }

  lemma TrimShortens(name: seq<byte>)
    ensures |Trim(name)| <= |name|
  {
  }

  /** A read with a large enough count returns a whole name. */
  lemma WholeName(dir: seq<Dentry>, k: nat)
    requires k < |dir| && forall d :: d in dir ==> |d.name| == MAX_NAME_LEN
    ensures forall n :: n >= MAX_NAME_LEN ==> NameRead(dir[k], n) == Names(dir)[k]
    ensures |Names(dir)[k]| <= MAX_NAME_LEN
  {
    assert dir[k] in dir;
    TrimShortens(dir[k].name);
  }

  // ----- a sequence of reads -----

  /** What successive reads of the given sizes return, from position `pos`. */
  function Reads(bytes: seq<byte>, pos: nat, sizes: seq<nat>): seq<seq<byte>>
    decreases |sizes|
  {
    if sizes == [] then []
    else
      var data := Slice(bytes, pos, sizes[0]);
      [data] + Reads(bytes, pos + |data|, sizes[1..])
  }

  function Flatten(xs: seq<seq<byte>>): seq<byte> {
    if xs == [] then [] else xs[0] + Flatten(xs[1..])
  }

  function Sum(sizes: seq<nat>): nat {
    if sizes == [] then 0 else sizes[0] + Sum(sizes[1..])
  }

  lemma FlattenCons(x: seq<byte>, xs: seq<seq<byte>>)
    ensures Flatten([x] + xs) == x + Flatten(xs)
  {
    assert ([x] + xs)[1..] == xs;
  }

  lemma FirstRead(bytes: seq<byte>, pos: nat, sizes: seq<nat>)
    requires sizes != []
    ensures var data := Slice(bytes, pos, sizes[0]);
            Flatten(Reads(bytes, pos, sizes)) == data + Flatten(Reads(bytes, pos + |data|, sizes[1..]))
  {
    var data := Slice(bytes, pos, sizes[0]);
    FlattenCons(data, Reads(bytes, pos + |data|, sizes[1..]));
  }

  /** However a file is cut into reads, the pieces make up its bytes. */
  lemma {:induction false} ReadsMakeUpTheFile(bytes: seq<byte>, pos: nat, sizes: seq<nat>, flat: seq<byte>)
    requires pos <= |bytes| && flat == Flatten(Reads(bytes, pos, sizes))
    ensures |flat| == Min(Sum(sizes), |bytes| - pos) && flat == bytes[pos..pos + |flat|]
    decreases |sizes|
  {
    if sizes != [] {
      var data := Slice(bytes, pos, sizes[0]);
      assert data == bytes[pos..pos + |data|];
      var rest := Flatten(Reads(bytes, pos + |data|, sizes[1..]));
      FirstRead(bytes, pos, sizes);
      ReadsMakeUpTheFile(bytes, pos + |data|, sizes[1..], rest);
    }
  }

  /** A read of a positive size returns nothing exactly when everything has been returned. */
  lemma {:induction false} EmptyOnlyAtTheEnd(bytes: seq<byte>, pos: nat, sizes: seq<nat>, k: nat)
    requires pos <= |bytes| && k < |sizes| && sizes[k] > 0
    ensures k < |Reads(bytes, pos, sizes)|
    ensures Reads(bytes, pos, sizes)[k] == [] <==> pos + Sum(sizes[..k]) >= |bytes|
    decreases k
  {
    if k > 0 {
      var data := Slice(bytes, pos, sizes[0]);
      assert sizes[..k][0] == sizes[0] && sizes[..k][1..] == sizes[1..][..k - 1];
      EmptyOnlyAtTheEnd(bytes, pos + |data|, sizes[1..], k - 1);
    }
  }

  // ----- a sequence of read calls -----

  /** An open descriptor within a file that is all there and short of the largest size. */
  predicate OnFile(fds: seq<Entry>, s: Store, fd: int) {
    && |fds| == PCB_SIZE && FIRST_FILE_FD <= fd < PCB_SIZE
    && fds[fd].busy && fds[fd].table == Regular && 0 <= fds[fd].inode < |s.files|
    && var f := s.files[fds[fd].inode];
    && |f.bytes| == f.length < MAX_NUM_DATA_BLK * BLK_SIZE && fds[fd].pos <= f.length
  }

  const NO_DEVICE := Reply(0, [])

  lemma ReadOnFile(fds: seq<Entry>, s: Store, fd: int, n: nat)
    requires OnFile(fds, s, fd)
    ensures LegalRead(fds, s, fd, n, NO_DEVICE)
    ensures var (fds', r) := ReadNext(fds, s, fd, n, NO_DEVICE);
            && OnFile(fds', s, fd)
            && r.data == Slice(s.files[fds[fd].inode].bytes, fds[fd].pos, n) && r.code == |r.data|
            && fds' == fds[fd := fds[fd].(pos := fds[fd].pos + |r.data|)]
  {
  }

  /** What read calls of the given sizes deliver, one after the other. */
  function ReadCalls(fds: seq<Entry>, s: Store, fd: int, sizes: seq<nat>): seq<seq<byte>>
    requires OnFile(fds, s, fd)
    decreases |sizes|
  {
    if sizes == [] then []
    else
      ReadOnFile(fds, s, fd, sizes[0]);
      var (fds', r) := ReadNext(fds, s, fd, sizes[0], NO_DEVICE);
      [r.data] + ReadCalls(fds', s, fd, sizes[1..])
  }

  lemma {:induction false} ReadCallsAreReads(fds: seq<Entry>, s: Store, fd: int, sizes: seq<nat>)
    requires OnFile(fds, s, fd)
    ensures ReadCalls(fds, s, fd, sizes) == Reads(s.files[fds[fd].inode].bytes, fds[fd].pos, sizes)
    decreases |sizes|
  {
    if sizes != [] {
      ReadOnFile(fds, s, fd, sizes[0]);
      ReadCallsAreReads(ReadNext(fds, s, fd, sizes[0], NO_DEVICE).0, s, fd, sizes[1..]);
    }
  }

  /** Chunked reading: however a file is cut into read calls, the buffers make up its bytes. */
  lemma ReadCallsMakeUpTheFile(fds: seq<Entry>, s: Store, fd: int, sizes: seq<nat>)
    requires OnFile(fds, s, fd)
    ensures var bytes, pos := s.files[fds[fd].inode].bytes, fds[fd].pos;
            Flatten(ReadCalls(fds, s, fd, sizes)) == bytes[pos..Min(pos + Sum(sizes), |bytes|)]
  {
    var bytes, pos := s.files[fds[fd].inode].bytes, fds[fd].pos;
    ReadCallsAreReads(fds, s, fd, sizes);
    ReadsMakeUpTheFile(bytes, pos, sizes, Flatten(ReadCalls(fds, s, fd, sizes)));
  }

  /** A read call of a positive size returns nothing exactly when everything has been returned. */
  lemma ReadCallEmptyOnlyAtTheEnd(fds: seq<Entry>, s: Store, fd: int, sizes: seq<nat>, k: nat)
    requires OnFile(fds, s, fd) && k < |sizes| && sizes[k] > 0
    ensures k < |ReadCalls(fds, s, fd, sizes)|
    ensures ReadCalls(fds, s, fd, sizes)[k] == [] <==>
              fds[fd].pos + Sum(sizes[..k]) >= |s.files[fds[fd].inode].bytes|
  {
    ReadCallsAreReads(fds, s, fd, sizes);
    EmptyOnlyAtTheEnd(s.files[fds[fd].inode].bytes, fds[fd].pos, sizes, k);
  }

  // ----- the cases of each call -----

  /** open is refused for the empty name and when every descriptor is taken; a name that is not in the
      directory is opened all the same, as a file still to be created under it. */
  lemma OpenCases(fds: seq<Entry>, dir: seq<Dentry>, fname: seq<byte>)
    requires |fds| == 8
    ensures var (fds', fd) := OpenNext(fds, dir, fname);
            var name := fname[..LineLen(fname)];
            && (fname == [] || (forall k :: 2 <= k < 8 ==> fds[k].busy) ==> fd == -1)
            && (fd == -1 ==> fds' == fds)
            && (fd != -1 ==>
                  && 2 <= fd < 8 && !fds[fd].busy && (forall k :: 2 <= k < fd ==> fds[k].busy)
                  && fds' == fds[fd := fds'[fd]] && fds'[fd].busy && fds'[fd].pos == 0)
            && (fd != -1 && Lookup(dir, name) == -1 ==>
                  fds'[fd].table == Regular && fds'[fd].inode == -1 && fds'[fd].name == name)
            && (fname != [] && (exists k :: 2 <= k < 8 && !fds[k].busy) && Lookup(dir, name) == -1 ==> fd != -1)
  {
    if exists k :: 2 <= k < 8 && !fds[k].busy {
      assert FreeFd(fds, 2) != -1;
    }
  }

  /** close frees and clears one descriptor of a file, if it is in use. */
  lemma CloseCases(fds: seq<Entry>, fd: int)
    requires |fds| == 8
    ensures var (fds', code) := CloseNext(fds, fd);
            if 2 <= fd < 8 && fds[fd].busy then
              code == 0 && fds' == fds[fd := Entry(fds[fd].table, 0, 0, false, fds[fd].name)]
            else code == -1 && fds' == fds
  {
  }

  /** read is refused for a negative count, for a descriptor that is not one or is standard output, for one that
      is free, and for a file still to be created, which is closed. */
  lemma ReadCases(fds: seq<Entry>, s: Store, fd: int, n: int, dev: Reply)
    requires |fds| == 8 && LegalRead(fds, s, fd, n, dev)
    ensures var (fds', r) := ReadNext(fds, s, fd, n, dev);
            if n < 0 || fd < 0 || fd >= 8 || fd == 1 then r == Reply(-1, []) && fds' == fds
            else if fds[fd].inode == -1 then r == Reply(-1, []) && fds' == CloseNext(fds, fd).0
            else if !fds[fd].busy then r == Reply(-1, []) && fds' == fds
            else |fds'| == 8 && fds' == fds[fd := fds[fd].(pos := fds'[fd].pos)]
  {
  }

  /** A read of a directory: the name of the entry at the position, cut to the count, and on to the next one;
      nothing at the end, and a refusal beyond it. */
  lemma DirectoryReadCases(fds: seq<Entry>, s: Store, fd: int, n: nat, dev: Reply)
    requires |fds| == 8 && 2 <= fd < 8 && fds[fd].busy && fds[fd].table == Directory && fds[fd].inode >= 0
    requires LegalRead(fds, s, fd, n, dev) && fds[fd].pos < 0xFFFF_FFFF
    ensures var (fds', r) := ReadNext(fds, s, fd, n, dev);
            var pos := fds[fd].pos;
            if pos < |s.dir| then
              && r.code == |r.data| == Min(n, |Trim(s.dir[pos].name)|) && r.data <= Trim(s.dir[pos].name)
              && fds' == fds[fd := fds[fd].(pos := pos + 1)]
            else r == Reply(if pos == |s.dir| then 0 else -1, []) && fds' == fds
  {
    assert fds[fd := fds[fd].(pos := fds[fd].pos)] == fds;
  }

  /** A read of a file: what the store answers, and the position moved by it; 32 bits back when it is refused. */
  lemma FileReadCases(fds: seq<Entry>, s: Store, fd: int, n: nat, dev: Reply)
    requires |fds| == 8 && 2 <= fd < 8 && fds[fd].busy && fds[fd].table == Regular && fds[fd].inode >= 0
    requires LegalRead(fds, s, fd, n, dev) && fds[fd].pos < 0x1_0000_0000
    ensures var (fds', r) := ReadNext(fds, s, fd, n, dev);
            && r == ReadReply(s, fds[fd].inode, fds[fd].pos, n)
            && (r.code >= 0 && fds[fd].pos + r.code < 0x1_0000_0000 ==>
                  fds' == fds[fd := fds[fd].(pos := fds[fd].pos + r.code)])
            && (r.code == -1 ==>
                  fds' == fds[fd := fds[fd].(pos := if fds[fd].pos == 0 then 0xFFFF_FFFF else fds[fd].pos - 1)])
  {
  }

  /** write is refused for a descriptor that is not one or is standard input, and for a free one and a
      directory, though a file still to be created is created first. */
  lemma WriteCases(fds: seq<Entry>, s: Store, fd: int, buf: seq<byte>, slot: Dentry, dev: int, code: int,
                   fds': seq<Entry>, s': Store)
    requires |fds| == 8 && WriteCall(fds, s, fd, buf, slot, dev, code, fds', s')
    ensures fd <= 0 || fd >= 8 ==> code == -1 && fds' == fds && s' == s
    ensures 0 < fd < 8 && fds[fd].inode != -1 && (!fds[fd].busy || fds[fd].table == Directory) ==> code == -1 && s' == s
    ensures 0 < fd < 8 && fds[fd].inode != -1 && !fds[fd].busy ==> fds' == fds
    ensures && 0 < fd < 8 && fds[fd].inode != -1 && fds[fd].busy
            && (fds[fd].table == Clock || fds[fd].table == Terminal) ==>
              && code == dev && s' == s
              && (0 <= dev && fds[fd].pos + dev < 0x1_0000_0000 ==>
                    fds' == fds[fd := fds[fd].(pos := fds[fd].pos + dev)])
    ensures 0 < fd < 8 && fds[fd].inode != -1 && fds[fd].busy && code == -1 && fds[fd].table != Regular ==> fds' == fds
    ensures 0 < fd < 8 && fds[fd].inode == -1 ==>
              var (s1, inode) := CreateStep(s, fds[fd].name, slot);
              |fds'| == 8 && fds'[fd].inode == inode && (!fds[fd].busy ==> code == -1 && s' == s1)
  {
  }

  /** A write to a file whose creation is refused is refused, and leaves the file to be created. */
  lemma WriteUncreated(fds: seq<Entry>, s: Store, fd: int, buf: seq<byte>, slot: Dentry, dev: int, code: int,
                       fds': seq<Entry>, s': Store)
    requires |fds| == 8 && 2 <= fd < 8 && fds[fd].busy && fds[fd].table == Regular && fds[fd].inode == -1
    requires |s.dir| >= 63 || s.freeInodes == []
    requires WriteCall(fds, s, fd, buf, slot, dev, code, fds', s')
    ensures code == -1 && s' == s
    ensures fds' == fds[fd := fds[fd].(pos := if fds[fd].pos % 0x1_0000_0000 == 0 then 0xFFFF_FFFF
                                              else fds[fd].pos % 0x1_0000_0000 - 1)]
  {
  }

  /** A write to a file that exists is a write of the store at the position, which moves on by twice the bytes
      that were stored. */
  lemma FileWriteCases(fds: seq<Entry>, s: Store, fd: int, buf: seq<byte>, slot: Dentry, dev: int, code: int,
                       fds': seq<Entry>, s': Store)
    requires |fds| == 8 && 2 <= fd < 8 && fds[fd].busy && fds[fd].table == Regular && fds[fd].inode >= 0
    requires WriteCall(fds, s, fd, buf, slot, dev, code, fds', s')
    ensures WriteStep(s, fds[fd].inode, fds[fd].pos, buf, code, s')
    ensures code >= 0 && fds[fd].pos + 2 * code < 0x1_0000_0000 ==>
              fds' == fds[fd := fds[fd].(pos := fds[fd].pos + 2 * code)]
  {
    assert CreateNext(fds, s, fd, slot) == (fds, s);
    assert WriteEntry(fds[fd], s, buf, dev, code, s');
  }

  // ----- opening by name -----

  /** What a name that is in the directory is opened as: a regular file, the directory and the clock each with
      a descriptor of their own kind at the start, and an entry of any other kind not at all. */
  lemma OpenExisting(fds: seq<Entry>, dir: seq<Dentry>, name: seq<byte>, r: nat)
    requires |fds| == PCB_SIZE && name != [] && LineLen(name) == |name| && Lookup(dir, name) == r
    ensures var (fds', fd) := OpenNext(fds, dir, name);
            && fd == (if dir[r].kind <= 2 then FreeFd(fds, FIRST_FILE_FD) else -1)
            && (fd == -1 ==> fds' == fds)
            && (fd != -1 ==>
                  && fds' == fds[fd := fds'[fd]] && fds'[fd].inode == dir[r].inode && fds'[fd].pos == 0 && fds'[fd].busy
                  && (dir[r].kind == 0 <==> fds'[fd].table == Clock)
                  && (dir[r].kind == 1 <==> fds'[fd].table == Directory)
                  && (dir[r].kind == 2 <==> fds'[fd].table == Regular))
  {
    assert name[..|name|] == name;
  }

  /** The directory opened by name: a listing starts there. */
  lemma OpenedOnDirectory(fds: seq<Entry>, s: Store, name: seq<byte>, r: nat)
    requires |fds| == PCB_SIZE && name != [] && LineLen(name) == |name|
    requires Lookup(s.dir, name) == r && s.dir[r].kind == 1
    ensures var (fds', fd) := OpenNext(fds, s.dir, name);
            fd != -1 ==> OnDirectory(fds', s, fd) && fds'[fd].pos == 0
  {
    OpenExisting(fds, s.dir, name, r);
  }

  /** The clock opened by name: reads and writes are answered by the device and leave files alone. */
  lemma OpenedOnClock(fds: seq<Entry>, s: Store, name: seq<byte>, r: nat, n: nat, dev: Reply,
                      buf: seq<byte>, slot: Dentry, code: int, fds2: seq<Entry>, s2: Store)
    requires |fds| == PCB_SIZE && name != [] && LineLen(name) == |name|
    requires Lookup(s.dir, name) == r && s.dir[r].kind == 0 && |dev.data| == Max(dev.code, 0) <= n
    ensures var (fds', fd) := OpenNext(fds, s.dir, name);
            fd != -1 ==>
              && LegalRead(fds', s, fd, n, dev) && ReadNext(fds', s, fd, n, dev) == (fds', dev)
              && (WriteCall(fds', s, fd, buf, slot, dev.code, code, fds2, s2) ==> code == dev.code && s2 == s)
  {
    OpenExisting(fds, s.dir, name, r);
    var (fds', fd) := OpenNext(fds, s.dir, name);
    if fd != -1 { assert fds'[fd := fds'[fd]] == fds'; }
  }

  // ----- writing through descriptors -----

  /** The first write to a file still to be created. */
  lemma NewFileWritten(fds: seq<Entry>, s: Store, name: seq<byte>, slot: Dentry, fd: int, buf: seq<byte>,
                       dev: int, code: int, fds': seq<Entry>, s': Store)
    requires |fds| == PCB_SIZE && FIRST_FILE_FD <= fd < PCB_SIZE && fds[fd] == Entry(Regular, -1, 0, true, name)
    requires Legal(s, Create(name, slot)) && LineLen(name) == |name| && Lookup(s.dir, name) == -1
    requires |s.dir| < MAX_NUM_DENTRY && s.freeInodes != [] && s.freeInodes[|s.freeInodes| - 1] < |s.files|
    requires |buf| <= BLK_SIZE * |s.free| && WriteCall(fds, s, fd, buf, slot, dev, code, fds', s')
    ensures code == |buf| && |fds'| == PCB_SIZE && fds'[fd].busy && Lookup(s'.dir, name) == |s.dir| == |s'.dir| - 1
    ensures var d := s'.dir[|s.dir|];
            && d.kind == REGULAR_FILE_TYPE && d.inode < |s'.files|
            && s'.files[d.inode].bytes == buf && s'.files[d.inode].length == |buf|
  {
    assert name[..|name|] == name;
    CreatedIsFound(s, name, slot);
    var (s1, inode) := CreateStep(s, name, slot);
    WriteAtStart(s1, inode, buf, code, s');
  }

  /** Whoever opens `name` and reads gets `data`, however the reads are cut. */
  predicate ReadsBack(fds: seq<Entry>, s: Store, name: seq<byte>, data: seq<byte>, sizes: seq<nat>) {
    var (fds', fd) := OpenNext(fds, s.dir, name);
    fd != -1 ==> OnFile(fds', s, fd) && Flatten(ReadCalls(fds', s, fd, sizes)) == data[..Min(Sum(sizes), |data|)]
  }

  /** A file opened by name is on a descriptor at its start. */
  lemma OpenedOnFile(fds: seq<Entry>, s: Store, name: seq<byte>, r: nat)
    requires |fds| == PCB_SIZE && name != [] && LineLen(name) == |name|
    requires Lookup(s.dir, name) == r && s.dir[r].kind == REGULAR_FILE_TYPE && s.dir[r].inode < |s.files|
    requires var f := s.files[s.dir[r].inode];
             |f.bytes| == f.length < MAX_NUM_DATA_BLK * BLK_SIZE
    ensures var (fds', fd) := OpenNext(fds, s.dir, name);
            fd != -1 ==> OnFile(fds', s, fd) && fds'[fd].pos == 0 && fds'[fd].inode == s.dir[r].inode
  {
    OpenExisting(fds, s.dir, name, r);
  }

  lemma ReadFromTheStart(fds: seq<Entry>, s: Store, fd: int, sizes: seq<nat>, data: seq<byte>)
    requires OnFile(fds, s, fd) && fds[fd].pos == 0 && s.files[fds[fd].inode].bytes == data
    ensures Flatten(ReadCalls(fds, s, fd, sizes)) == data[..Min(Sum(sizes), |data|)]
  {
    ReadCallsMakeUpTheFile(fds, s, fd, sizes);
    assert data[0..Min(0 + Sum(sizes), |data|)] == data[..Min(Sum(sizes), |data|)];
  }

  lemma ReadByName(fds: seq<Entry>, s: Store, name: seq<byte>, data: seq<byte>, sizes: seq<nat>, r: nat)
    requires |fds| == PCB_SIZE && name != [] && LineLen(name) == |name|
    requires Lookup(s.dir, name) == r && s.dir[r].kind == REGULAR_FILE_TYPE && s.dir[r].inode < |s.files|
    requires var f := s.files[s.dir[r].inode];
             f.bytes == data && |data| == f.length < MAX_NUM_DATA_BLK * BLK_SIZE
    ensures ReadsBack(fds, s, name, data, sizes)
  {
    OpenedOnFile(fds, s, name, r);
    var (fds', fd) := OpenNext(fds, s.dir, name);
    if fd != -1 { ReadFromTheStart(fds', s, fd, sizes, data); }
  }

  /** Through the calls: what is written to a new file is what a reader who opens it finds. */
  lemma NewFileRoundTrip(fds: seq<Entry>, s: Store, numBlocks: nat, name: seq<byte>, slot: Dentry, buf: seq<byte>,
                         dev: int, code: int, fds': seq<Entry>, s': Store, sizes: seq<nat>)
    requires |fds| == PCB_SIZE && Inv(s, numBlocks) && Legal(s, Create(name, slot))
    requires name != [] && NEWLINE !in name && Lookup(s.dir, name) == -1 && OpenNext(fds, s.dir, name).1 != -1
    requires |s.dir| < MAX_NUM_DENTRY && s.freeInodes != []
    requires |buf| <= BLK_SIZE * |s.free| && |buf| < MAX_NUM_DATA_BLK * BLK_SIZE
    ensures WriteCall(OpenNext(fds, s.dir, name).0, s, OpenNext(fds, s.dir, name).1, buf, slot, dev, code, fds', s') ==>
              && code == |buf| && |fds'| == PCB_SIZE && fds'[OpenNext(fds, s.dir, name).1].busy
              && ReadsBack(fds', s', name, buf, sizes)
  {
    LineLenUnique(name, |name|);
    var (fds1, fd) := OpenNext(fds, s.dir, name);
    OpenNew(fds, s.dir, name);
    if WriteCall(fds1, s, fd, buf, slot, dev, code, fds', s') {
      NewFileWritten(fds1, s, name, slot, fd, buf, dev, code, fds', s');
      ReadByName(fds', s', name, buf, sizes, |s.dir|);
    }
  }

  /** Opening a name that is not in the directory. */
  lemma OpenNew(fds: seq<Entry>, dir: seq<Dentry>, name: seq<byte>)
    requires |fds| == PCB_SIZE && name != [] && LineLen(name) == |name| && Lookup(dir, name) == -1
    ensures var (fds', fd) := OpenNext(fds, dir, name);
            && fd == FreeFd(fds, FIRST_FILE_FD)
            && (fd != -1 ==> fds' == fds[fd := Entry(Regular, -1, 0, true, name)])
  {
    assert name[..|name|] == name;
  }

  /** An open descriptor of a file that exists. */
  predicate OpenFile(fds: seq<Entry>, s: Store, fd: int) {
    |fds| == PCB_SIZE && FIRST_FILE_FD <= fd < PCB_SIZE
    && fds[fd].busy && fds[fd].table == Regular && 0 <= fds[fd].inode < |s.files|
  }

  /** A write call on such a descriptor is a write step at its position. */
  lemma WriteCallIsStep(fds: seq<Entry>, s: Store, fd: int, buf: seq<byte>, slot: Dentry, dev: int, code: int,
                        fds': seq<Entry>, s': Store)
    requires OpenFile(fds, s, fd) && WriteCall(fds, s, fd, buf, slot, dev, code, fds', s')
    ensures WriteStep(s, fds[fd].inode, fds[fd].pos, buf, code, s')
    ensures fds' == fds[fd := fds[fd].(pos := PosAfterWrite(fds[fd], code))]
  {
  }

  /** The two calls one after the other, the first from the start of the file. */
  ghost predicate TwoWrites(fds: seq<Entry>, s: Store, fd: int, a: seq<byte>, slot: Dentry, dev: int, code: int,
                            fds1: seq<Entry>, s1: Store, b: seq<byte>, code1: int, fds2: seq<Entry>, s2: Store)
    requires OpenFile(fds, s, fd) && |fds1| == PCB_SIZE
  {
    && WriteCall(fds, s, fd, a, slot, dev, code, fds1, s1)
    && WriteCall(fds1, s1, fd, b, slot, dev, code1, fds2, s2)
  }

  /** They are two write steps, the second one at twice what the first one stored. */
  lemma TwoWritesAreSteps(fds: seq<Entry>, s: Store, fd: int, a: seq<byte>, slot: Dentry, dev: int, code: int,
                          fds1: seq<Entry>, s1: Store, b: seq<byte>, code1: int, fds2: seq<Entry>, s2: Store)
    requires OpenFile(fds, s, fd) && fds[fd].pos == 0 && |a| <= MAX_NUM_DATA_BLK * BLK_SIZE && |fds1| == PCB_SIZE
    requires TwoWrites(fds, s, fd, a, slot, dev, code, fds1, s1, b, code1, fds2, s2)
    ensures code == Min(|a|, BLK_SIZE * |s.free|)
    ensures WriteStep(s, fds[fd].inode, 0, a, code, s1) && WriteStep(s1, fds[fd].inode, 2 * code, b, code1, s2)
  {
    var inode := fds[fd].inode;
    WriteCallIsStep(fds, s, fd, a, slot, dev, code, fds1, s1);
    WriteAtStart(s, inode, a, code, s1);
    AfterWrite(s, inode, 0, a, code, s1);
    TwiceFromZero(fds[fd], code);
    WriteCallIsStep(fds1, s1, fd, b, slot, dev, code1, fds2, s2);
  }

  lemma TwiceFromZero(e: Entry, code: nat)
    requires e.table == Regular && e.pos == 0 && code <= MAX_NUM_DATA_BLK * BLK_SIZE
    ensures PosAfterWrite(e, code) == 2 * code
  {
  }

  /** What a write step does to the length of its file and to the free list. */
  lemma AfterWrite(s: Store, inode: nat, offset: nat, b: seq<byte>, code: int, s': Store)
    requires inode < |s.files| && WriteStep(s, inode, offset, b, code, s')
    ensures |s'.files| == |s.files|
    ensures if offset > s.files[inode].length then code == 0 && s' == s
            else s'.files[inode].length == |b| && s'.free == s.free[..|s.free| - Popped(s, offset, |b|)]
    ensures s.free == [] ==> code == 0
  {
  }

  /** What two write steps come to, the second one at twice what the first one stored. */
  lemma TwoSteps(s: Store, inode: nat, a: seq<byte>, code: nat, s1: Store, b: seq<byte>, code1: int, s2: Store)
    requires inode < |s.files| && code == Min(|a|, BLK_SIZE * |s.free|)
    requires WriteStep(s, inode, 0, a, code, s1)
    requires |s1.files| == |s.files| && WriteStep(s1, inode, 2 * code, b, code1, s2)
    ensures code1 == if a == [] then Min(|b|, BLK_SIZE * |s.free|) else 0
    ensures 2 * code > |a| ==> s2 == s1
    ensures |s2.files| == |s.files| && s2.files[inode].length == if 2 * code > |a| then |a| else |b|
  {
    AfterWrite(s, inode, 0, a, code, s1);
    AfterWrite(s1, inode, 2 * code, b, code1, s2);
    if a == [] {
      assert s1.free == s.free;
      WriteAtStart(s1, inode, b, code1, s2);
    } else if 2 * code <= |a| {
      assert s1.free == [];
    }
  }

  /** Two writes through one descriptor, from the start of its file. The position advances twice, so the
      second stores nothing unless the first was empty; and it cuts the file if at most half of the
      first could be stored. */
  lemma SecondWrite(fds: seq<Entry>, s: Store, fd: int, a: seq<byte>, slot: Dentry, dev: int, code: int,
                    fds1: seq<Entry>, s1: Store, b: seq<byte>, code1: int, fds2: seq<Entry>, s2: Store)
    requires OpenFile(fds, s, fd) && fds[fd].pos == 0 && |a| <= MAX_NUM_DATA_BLK * BLK_SIZE && |fds1| == PCB_SIZE
    ensures TwoWrites(fds, s, fd, a, slot, dev, code, fds1, s1, b, code1, fds2, s2) ==>
              && code == Min(|a|, BLK_SIZE * |s.free|)
              && code1 == (if a == [] then Min(|b|, BLK_SIZE * |s.free|) else 0)
              && (2 * code > |a| ==> s2 == s1)
              && |s2.files| == |s.files|
              && s2.files[fds[fd].inode].length == if 2 * code > |a| then |a| else |b|
  {
    if TwoWrites(fds, s, fd, a, slot, dev, code, fds1, s1, b, code1, fds2, s2) {
      TwoWritesAreSteps(fds, s, fd, a, slot, dev, code, fds1, s1, b, code1, fds2, s2);
      AfterWrite(s, fds[fd].inode, 0, a, code, s1);
      TwoSteps(s, fds[fd].inode, a, code, s1, b, code1, s2);
    }
  }

  lemma JoinOfSteps(s: Store, inode: nat, a: seq<byte>, code: nat, s1: Store, b: seq<byte>, code1: int, s2: Store)
    requires inode < |s.files| && |a| <= BLK_SIZE * |s.free| && |b| <= BLK_SIZE * |s.free| && code == |a|
    requires WriteStep(s, inode, 0, a, code, s1)
    requires |s1.files| == |s.files| && WriteStep(s1, inode, 2 * code, b, code1, s2)
    ensures |s2.files| == |s.files| && (s2.files[inode].bytes == a + b <==> a == [] || b == [])
  {
    TwoSteps(s, inode, a, code, s1, b, code1, s2);
    WriteAtStart(s, inode, a, code, s1);
    assert |a + b| == |a| + |b| && (b == [] ==> a + b == a);
    if a == [] {
      assert a + b == b;
      WriteAtStart(s1, inode, b, code1, s2);
    }
  }

  /** Space permitting, two writes through one descriptor make up the file if and only if one of them is
      empty. */
  lemma WritesJoinOnlyIfEmpty(fds: seq<Entry>, s: Store, fd: int, a: seq<byte>, slot: Dentry, dev: int, code: int,
                              fds1: seq<Entry>, s1: Store, b: seq<byte>, code1: int, fds2: seq<Entry>, s2: Store)
    requires OpenFile(fds, s, fd) && fds[fd].pos == 0 && |a| <= MAX_NUM_DATA_BLK * BLK_SIZE && |fds1| == PCB_SIZE
    requires |a| <= BLK_SIZE * |s.free| && |b| <= BLK_SIZE * |s.free|
    ensures TwoWrites(fds, s, fd, a, slot, dev, code, fds1, s1, b, code1, fds2, s2) ==>
              && |s2.files| == |s.files|
              && (s2.files[fds[fd].inode].bytes == a + b <==> a == [] || b == [])
  {
    if TwoWrites(fds, s, fd, a, slot, dev, code, fds1, s1, b, code1, fds2, s2) {
      TwoWritesAreSteps(fds, s, fd, a, slot, dev, code, fds1, s1, b, code1, fds2, s2);
      AfterWrite(s, fds[fd].inode, 0, a, code, s1);
      JoinOfSteps(s, fds[fd].inode, a, code, s1, b, code1, s2);
    }
  }

  // ----- the file array, updated in place -----

  class Process {
    const files: array<Entry>

    /** pcb_initialize, the file array: the terminal's two descriptors. The names stay as they are. */
    constructor (stale: array<Entry>)
      requires stale.Length == PCB_SIZE
      modifies stale
      ensures files == stale
      ensures forall k :: 0 <= k < PCB_SIZE ==>
                files[k] == if k < FIRST_FILE_FD then Entry(Terminal, 0, 0, true, old(stale[k].name))
                    else Entry(NoTable, 0, 0, false, old(stale[k].name))
    {
      files := stale;
      new;
      for i := 0 to PCB_SIZE
        invariant forall k :: 0 <= k < i ==> files[k] == Entry(NoTable, 0, 0, false, old(stale[k].name))
        invariant forall k :: i <= k < PCB_SIZE ==> files[k] == old(stale[k])
      {
        files[i] := Entry(NoTable, 0, 0, false, files[i].name);
      }
      files[0] := files[0].(table := Terminal, busy := true);
      files[1] := files[1].(table := Terminal, busy := true);
    }

    /** The search for a free descriptor. */
    method FindFd() returns (fd: int)
      requires files.Length == PCB_SIZE
      ensures fd == FreeFd(files[..], FIRST_FILE_FD)
    {
      fd := FIRST_FILE_FD;
      while fd < PCB_SIZE
        invariant FIRST_FILE_FD <= fd <= PCB_SIZE && FreeFd(files[..], FIRST_FILE_FD) == FreeFd(files[..], fd)
      {
        if !files[fd].busy { return; }
        fd := fd + 1;
      }
      return -1;
    }

    /** open */
    method Open(fs: FileSystem, fname: seq<byte>) returns (fd: int)
      requires files.Length == PCB_SIZE && fs.Valid() && NUL !in fname && LineLen(fname) < MAX_NAME_LEN
      modifies files
      ensures fs.Valid() && fs.Abs() == old(fs.Abs())
      ensures (files[..], fd) == OpenNext(old(files[..]), fs.Abs().dir, fname)
    {
      if fname == [] { return -1; }
      var i := fs.CopyName(fname);
      fd := FindFd();
      if fd == -1 { return; }
      var r := fs.ReadDentryByName(fname[..i]);
      if r == -1 {
        files[fd] := Entry(Regular, -1, 0, true, fname[..i]);
        return;
      }
      assert fs.dentries[r] == fs.Abs().dir[r];
      fd := Take(fd, fs.dentries[r]);
    }

    /** A descriptor for an entry that was found. */
    method Take(fd0: nat, d: Dentry) returns (fd: int)
      requires fd0 < files.Length
      modifies files
      ensures if TableOf(d.kind) == NoTable then fd == -1 && files[..] == old(files[..])
              else
                && fd == fd0
                && files[..] == old(files[..])[fd0 := Entry(TableOf(d.kind), d.inode, 0, true, old(files[fd0]).name)]
    {
      if TableOf(d.kind) == NoTable { return -1; }
      files[fd0] := Entry(TableOf(d.kind), d.inode, 0, true, files[fd0].name);
      fd := fd0;
    }

    /** close */
    method Close(fd: int) returns (code: int)
      requires files.Length == PCB_SIZE
      modifies files
      ensures (files[..], code) == CloseNext(old(files[..]), fd)
    {
      if fd < FIRST_FILE_FD || fd >= PCB_SIZE { return -1; }
      if !files[fd].busy { return -1; }
      files[fd] := files[fd].(busy := false, pos := 0, inode := 0);
      return 0;
    }

    method Advance(fd: nat, cnt: int)
      requires fd < files.Length
      modifies files
      ensures files[..] == old(files[..])[fd := old(files[fd]).(pos := Wrap(old(files[fd]).pos + cnt))]
    {
      files[fd] := files[fd].(pos := Wrap(files[fd].pos + cnt));
    }

    /** The name of an entry into the caller's buffer, cut to the count. */
    static method CopyOutName(fs: FileSystem, d: Dentry, buf: array<byte>, length: nat) returns (l: nat)
      requires |d.name| == MAX_NAME_LEN && Min(length, MAX_NAME_LEN) < buf.Length
      modifies buf
      ensures l < buf.Length && buf[..l] == NameRead(d, length)
      ensures forall x :: l < x < buf.Length ==> buf[x] == old(buf[x])
    {
      l := if length > MAX_NAME_LEN then MAX_NAME_LEN else length;
      var len := fs.NameLength(d.name);
      if len < l { l := len; }
      assert d.name[..l] == NameRead(d, length);
      TrimOfPrefix(d.name, l);
      fs.Strncpy(buf, d.name, l);
      buf[l] := NUL;
    }

    /** dir_read */
    method DirRead(fs: FileSystem, fd: nat, buf: array<byte>, length: nat, ghost s: Store, ghost e: Entry)
      returns (code: int)
      requires fd < files.Length && fs.Valid() && s == fs.Abs() && e == files[fd]
      requires Min(length, MAX_NAME_LEN) < buf.Length && buf != fs.disk && (s.dir == [] ==> e.pos == 0)
      modifies files, buf
      ensures fs.Valid() && fs.Abs() == s
      ensures files[..] == old(files[..])[fd := e.(pos := DirReply(s.dir, e.pos, length).1)]
      ensures code < buf.Length && Reply(code, buf[..Max(code, 0)]) == DirReply(s.dir, e.pos, length).0
      ensures forall x :: Max(code, 0) < x < buf.Length ==> buf[x] == old(buf[x])
    {
      code := NameAt(fs, files[fd].pos, buf, length, s);
      if files[fd].pos < fs.numDentry { Advance(fd, 1); }
    }

    /** dir_read, but for the position. */
    static method NameAt(fs: FileSystem, pos: nat, buf: array<byte>, length: nat, ghost s: Store) returns (code: int)
      requires fs.Valid() && s == fs.Abs() && buf != fs.disk
      requires Min(length, MAX_NAME_LEN) < buf.Length && (s.dir == [] ==> pos == 0)
      modifies buf
      ensures fs.Valid() && fs.Abs() == s
      ensures code < buf.Length && Reply(code, buf[..Max(code, 0)]) == DirReply(s.dir, pos, length).0
      ensures forall x :: Max(code, 0) < x < buf.Length ==> buf[x] == old(buf[x])
    {
      if pos == fs.numDentry { return 0; }
      var found, d := EntryAt(fs, pos);
      if found == -1 { return -1; }
      code := CopyOutName(fs, d, buf, length);
    }

    static method EntryAt(fs: FileSystem, pos: nat) returns (code: int, d: Dentry)
      requires fs.Valid() && (fs.Abs().dir == [] ==> pos == 0) && pos != |fs.Abs().dir|
      ensures code == if pos < |fs.Abs().dir| then 0 else -1
      ensures code == 0 ==> |d.name| == MAX_NAME_LEN && forall n: nat ::
              NameRead(d, n) == NameRead(fs.Abs().dir[pos], n)
    {
      ghost var dir := fs.Abs().dir;
      if pos < fs.numDentry { assert dir[pos] in dir && dir[pos] == fs.dentries[pos]; }
      code, d := fs.ReadDentryByIndex(pos);
    }

    /** file_read */
    method FileRead(fs: FileSystem, fd: nat, buf: array<byte>, length: nat, ghost s: Store, ghost e: Entry)
      returns (code: int)
      requires fd < files.Length && fs.Valid() && s == fs.Abs() && e == files[fd]
      requires length <= buf.Length && buf != fs.disk && e.inode >= 0
      requires Legal(s, FileStore.Read(e.inode, e.pos, length))
      modifies files, buf
      ensures fs.Valid() && fs.Abs() == s
      ensures files[..] == old(files[..])[fd := e.(pos := Wrap(e.pos + code))]
      ensures code <= buf.Length && Reply(code, buf[..Max(code, 0)]) == ReadReply(s, e.inode, e.pos, length)
      ensures forall x :: Max(code, 0) <= x < buf.Length ==> buf[x] == old(buf[x])
    {
      code := fs.ReadData(files[fd].inode, files[fd].pos, buf, length);
      Advance(fd, code);
    }

    /** The read routine of a device: what it answers, in the buffer. */
    static method DeviceRead(buf: array<byte>, dev: Reply) returns (code: int)
      requires |dev.data| == Max(dev.code, 0) <= buf.Length
      modifies buf
      ensures code <= buf.Length && Reply(code, buf[..Max(code, 0)]) == dev
      ensures forall x :: Max(code, 0) <= x < buf.Length ==> buf[x] == old(buf[x])
    {
      forall i | 0 <= i < |dev.data| { buf[i] := dev.data[i]; }
      code := dev.code;
    }

    /** read, past its checks: on to the routine of the descriptor's table. */
    method ReadOpen(fs: FileSystem, fd: nat, buf: array<byte>, nbytes: nat, dev: Reply, ghost s: Store, ghost e: Entry)
      returns (code: int)
      requires fd < files.Length && fs.Valid() && s == fs.Abs() && e == files[fd]
      requires buf != fs.disk && nbytes <= buf.Length
               && (e.table == Directory ==> Min(nbytes, MAX_NAME_LEN) < buf.Length)
      requires e.inode >= 0 && LegalReadOf(e, s, nbytes, dev)
      modifies files, buf
      ensures fs.Valid() && fs.Abs() == s
      ensures files[..] == old(files[..])[fd := e.(pos := ReadEntry(e, s, nbytes, dev).1)]
      ensures code <= buf.Length && Reply(code, buf[..Max(code, 0)]) == ReadEntry(e, s, nbytes, dev).0
      ensures forall x :: Max(code, 0) < x < buf.Length ==> buf[x] == old(buf[x])
    {
      if files[fd].table == Regular {
        code := FileRead(fs, fd, buf, nbytes, s, e);
      } else if files[fd].table == Directory {
        code := DirRead(fs, fd, buf, nbytes, s, e);
      } else {
        code := DeviceRead(buf, dev);
      }
    }

    /** read */
    method Read(fs: FileSystem, fd: int, buf: array<byte>, nbytes: int, dev: Reply) returns (code: int)
      requires files.Length == PCB_SIZE && fs.Valid() && buf != fs.disk && nbytes <= buf.Length
      requires LegalRead(files[..], fs.Abs(), fd, nbytes, dev)
      requires 0 <= fd < PCB_SIZE && files[fd].table == Directory ==> Min(nbytes, MAX_NAME_LEN) < buf.Length
      modifies files, buf
      ensures fs.Valid() && fs.Abs() == old(fs.Abs())
      ensures code <= buf.Length
      ensures (files[..], Reply(code, buf[..Max(code, 0)])) == ReadNext(old(files[..]), fs.Abs(), fd, nbytes, dev)
      ensures forall x :: Max(code, 0) < x < buf.Length ==> buf[x] == old(buf[x])
    {
      if nbytes < 0 || fd < 0 || fd >= PCB_SIZE || fd == 1 { return -1; }
      if files[fd].inode == -1 {
        var _ := Close(fd);
        return -1;
      }
      if !files[fd].busy { return -1; }
      code := ReadOpen(fs, fd, buf, nbytes, dev, fs.Abs(), files[fd]);
    }

    /** The loop of halt that frees every descriptor of the process. */
    method CloseAll()
      requires files.Length == PCB_SIZE
      modifies files
      ensures forall k :: 0 <= k < PCB_SIZE ==> files[k] == old(files[k]).(busy := false)
    {
      var i := 0;
      while i < PCB_SIZE
        invariant 0 <= i <= PCB_SIZE
        invariant forall k :: 0 <= k < i ==> files[k] == old(files[k]).(busy := false)
        invariant forall k :: i <= k < PCB_SIZE ==> files[k] == old(files[k])
      {
        files[i] := files[i].(busy := false);
        i := i + 1;
      }
    }

    /** The write routine of a descriptor's table, positions apart. */
    static method WriteBy(fs: FileSystem, e: Entry, buf: seq<byte>, dev: int) returns (code: int)
      requires fs.Valid() && |buf| <= MAX_NUM_DATA_BLK * BLK_SIZE && e.inode >= -1
      requires e.table == Regular ==> e.inode != |fs.Abs().files|
      modifies fs`freeLen, fs`backed, fs.inodes, fs.disk
      ensures fs.Valid() && WriteEntry(e, old(fs.Abs()), buf, dev, code, fs.Abs())
    {
      match e.table
      case Regular => if e.inode < 0 { code := -1; } else { code := fs.WriteData(e.inode, e.pos, buf); }
      case Directory => code := -1;
      case _ => code := dev;
    }

    /** The position is advanced by file_write, and then by write. */
    method AdvanceTwice(fd: nat, code: int)
      requires fd < files.Length
      modifies files
      ensures files[..] == old(files[..])[fd := old(files[fd]).(pos := PosAfterWrite(old(files[fd]), code))]
    {
      if files[fd].table == Regular { Advance(fd, code); }
      if code != -1 { Advance(fd, code); }
    }

    /** The start of write. */
    method CreateIfNew(fs: FileSystem, fd: nat, slot: Dentry)
      requires fd < files.Length && fs.Valid()
               && (files[fd].inode == -1 ==> Legal(fs.Abs(), Create(files[fd].name, slot)))
      modifies files, fs`freeInodeLen, fs`numDentry, fs.dentries
      ensures fs.Valid() && (files[..], fs.Abs()) == CreateNext(old(files[..]), old(fs.Abs()), fd, slot)
    {
      if files[fd].inode == -1 {
        var inode := fs.FileCreate(files[fd].name, slot);
        files[fd] := files[fd].(inode := inode);
      }
    }

    /** The rest of write, on an open file that exists if it can. */
    method WriteExisting(fs: FileSystem, fd: nat, buf: seq<byte>, dev: int) returns (code: int)
      requires fd < files.Length && fs.Valid() && |buf| <= MAX_NUM_DATA_BLK * BLK_SIZE && files[fd].inode >= -1
      requires files[fd].table == Regular ==> files[fd].inode != |fs.Abs().files|
      modifies files, fs`freeLen, fs`backed, fs.inodes, fs.disk
      ensures fs.Valid() && WriteEntry(old(files[fd]), old(fs.Abs()), buf, dev, code, fs.Abs())
      ensures files[..] == old(files[..])[fd := old(files[fd]).(pos := PosAfterWrite(old(files[fd]), code))]
    {
      code := WriteBy(fs, files[fd], buf, dev);
      AdvanceTwice(fd, code);
    }

    /** write */
    method Write(fs: FileSystem, fd: int, buf: seq<byte>, nbytes: int, slot: Dentry, dev: int) returns (code: int)
      requires files.Length == PCB_SIZE && fs.Valid() && nbytes <= |buf|
      requires LegalWrite(files[..], fs.Abs(), fd, buf[..Max(nbytes, 0)], slot)
      modifies files, fs`freeLen, fs`freeInodeLen, fs`numDentry, fs`backed, fs.inodes, fs.disk, fs.dentries
      ensures fs.Valid()
      ensures if nbytes < 0 then code == -1 && files[..] == old(files[..]) && fs.Abs() == old(fs.Abs())
              else WriteCall(old(files[..]), old(fs.Abs()), fd, buf[..nbytes], slot, dev, code, files[..], fs.Abs())
    {
      if nbytes < 0 || fd <= 0 || fd >= PCB_SIZE { return -1; }
      CreateIfNew(fs, fd, slot);
      if !files[fd].busy { return -1; }
      code := WriteExisting(fs, fd, buf[..nbytes], dev);
    }
  }

  /** One read of cat, on a file that is all there. */
  method CatRead(fs: FileSystem, proc: Process, fd: int, buf: array<byte>, ghost s: Store, ghost e: Entry)
    returns (cnt: int, chunk: seq<byte>)
    requires fs.Valid() && fs.Abs() == s && OnFile(proc.files[..], s, fd) && buf != fs.disk && buf.Length == CAT_BUF
    requires proc.files[fd] == e
    modifies proc.files, buf
    ensures fs.Valid() && fs.Abs() == s && OnFile(proc.files[..], s, fd)
    ensures var bytes := s.files[e.inode].bytes;
            && 0 <= cnt == |chunk| && e.pos + cnt <= |bytes| && bytes[..e.pos] + chunk == bytes[..e.pos + cnt]
            && (cnt == 0 ==> e.pos == |bytes|)
            && proc.files[fd] == e.(pos := e.pos + cnt)
  {
    ReadOnFile(proc.files[..], s, fd, CAT_BUF);
    cnt := proc.Read(fs, fd, buf, CAT_BUF, NO_DEVICE);
    chunk := buf[..cnt];
    NextSlice(s.files[e.inode].bytes, e.pos, CAT_BUF);
  }

  lemma NextSlice(bytes: seq<byte>, pos: nat, n: nat)
    requires pos <= |bytes|
    ensures var data := Slice(bytes, pos, n);
            && pos + |data| <= |bytes| && bytes[..pos] + data == bytes[..pos + |data|]
            && (data == [] && n > 0 ==> pos == |bytes|)
  {
  }

  /** The main loop of cat, on a file just opened: everything is written out, and the loop ends. */
  method Cat(fs: FileSystem, proc: Process, fd: int) returns (code: int, out: seq<byte>)
    requires fs.Valid() && OnFile(proc.files[..], fs.Abs(), fd) && proc.files[fd].pos == 0
    modifies proc.files
    ensures code == 0 && out == fs.Abs().files[old(proc.files[fd]).inode].bytes
    ensures fs.Valid() && fs.Abs() == old(fs.Abs())
  {
    var buf := new byte[CAT_BUF];
    ghost var s, e := fs.Abs(), proc.files[fd];
    ghost var bytes := s.files[e.inode].bytes;
    out := [];
    while true
      invariant fs.Valid() && fs.Abs() == s && OnFile(proc.files[..], s, fd)
      invariant proc.files[fd] == e.(pos := |out|) && |out| <= |bytes| && out == bytes[..|out|]
      decreases |bytes| - |out|
    {
      var cnt, chunk := CatRead(fs, proc, fd, buf, s, e.(pos := |out|));
      if cnt == 0 { break; }
      if cnt == -1 { return 3, out; }
      out := out + chunk;
    }
    return 0, out;
  }

  /** An open descriptor within a directory. */
  predicate OnDirectory(fds: seq<Entry>, s: Store, fd: int) {
    && |fds| == PCB_SIZE && FIRST_FILE_FD <= fd < PCB_SIZE
    && fds[fd].busy && fds[fd].table == Directory && 0 <= fds[fd].inode && fds[fd].pos <= |s.dir|
  }

  lemma ReadOnDirectory(fds: seq<Entry>, s: Store, fd: int, n: nat)
    requires OnDirectory(fds, s, fd) && n >= MAX_NAME_LEN && |s.dir| <= MAX_NUM_DENTRY
    requires forall d :: d in s.dir ==> |d.name| == MAX_NAME_LEN
    ensures LegalRead(fds, s, fd, n, NO_DEVICE)
    ensures var (fds', r) := ReadNext(fds, s, fd, n, NO_DEVICE);
            var pos := fds[fd].pos;
            && OnDirectory(fds', s, fd) && r.code == |r.data| <= MAX_NAME_LEN
            && r.data == (if pos < |s.dir| then Names(s.dir)[pos] else [])
            && (pos < |s.dir| ==> fds'[fd] == fds[fd].(pos := pos + 1))
  {
    if fds[fd].pos < |s.dir| { WholeName(s.dir, fds[fd].pos); }
  }

  /** One turn of ls: a read, and the line it gives. */
  method LsRead(fs: FileSystem, proc: Process, fd: int, buf: array<byte>, ghost s: Store, ghost e: Entry)
    returns (cnt: int, line: seq<byte>)
    requires fs.Valid() && fs.Abs() == s && OnDirectory(proc.files[..], s, fd) && proc.files[fd] == e
    requires buf != fs.disk && buf.Length == LS_BUF
    modifies proc.files, buf
    ensures fs.Valid() && fs.Abs() == s && OnDirectory(proc.files[..], s, fd) && cnt >= 0
    ensures var names := Names(s.dir);
            if cnt == 0 then e.pos < |names| ==> names[e.pos] == []
            else
              && e.pos < |names| && names[e.pos] != [] && line == names[e.pos] + [NEWLINE]
              && proc.files[fd] == e.(pos := e.pos + 1)
  {
    ReadOnDirectory(proc.files[..], s, fd, LS_BUF - 1);
    cnt := proc.Read(fs, fd, buf, LS_BUF - 1, NO_DEVICE);
    assert cnt < LS_BUF;
    line := LineOf(buf, cnt);
  }

  /** The name read, and a newline behind it. */
  method LineOf(buf: array<byte>, cnt: nat) returns (line: seq<byte>)
    requires cnt < buf.Length
    modifies buf
    ensures line == old(buf[..cnt]) + [NEWLINE]
  {
    buf[cnt] := NEWLINE;
    line := buf[..cnt + 1];
  }

  /** A line for each of the first names, none of them empty. */
  predicate Listed(names: seq<seq<byte>>, out: seq<seq<byte>>) {
    |out| <= |names| && forall k :: 0 <= k < |out| ==> names[k] != [] && out[k] == names[k] + [NEWLINE]
  }

  /** A listing that stops at an empty name, or at the end, is complete if and only if no name is empty. */
  lemma ListingIsComplete(names: seq<seq<byte>>, out: seq<seq<byte>>)
    requires Listed(names, out) && (|out| < |names| ==> names[|out|] == [])
    ensures |out| == |names| <==> [] !in names
  {
    forall k | 0 <= k < |out| ensures names[k] != [] {
      assert out[k] == names[k] + [NEWLINE];
    }
  }

  /** The main loop of ls, on the directory just opened: each name is written out as a line, in order,
      up to the first that is empty. */
  method Ls(fs: FileSystem, proc: Process, fd: int) returns (code: int, out: seq<seq<byte>>)
    requires fs.Valid() && OnDirectory(proc.files[..], fs.Abs(), fd) && proc.files[fd].pos == 0
    modifies proc.files
    ensures fs.Valid() && fs.Abs() == old(fs.Abs()) && code == 0
    ensures var names := Names(fs.Abs().dir);
            Listed(names, out) && (|out| < |names| ==> names[|out|] == [])
  {
    var buf := new byte[LS_BUF];
    ghost var s, e := fs.Abs(), proc.files[fd];
    ghost var names := Names(s.dir);
    out := [];
    while true
      invariant fs.Valid() && fs.Abs() == s && OnDirectory(proc.files[..], s, fd)
      invariant proc.files[fd] == e.(pos := |out|) && Listed(names, out)
      decreases |names| - |out|
    {
      var cnt, line := LsRead(fs, proc, fd, buf, s, e.(pos := |out|));
      if cnt == 0 { break; }
      if cnt == -1 { return 3, out; }
      OneMoreLine(names, out, line);
      out := out + [line];
    }
    return 0, out;
  }

  const DOT: byte := 46

  /** The ls program, with "." a directory: it lists that directory, unless there is no descriptor left. */
  method LsMain(fs: FileSystem, proc: Process) returns (code: int, out: seq<seq<byte>>)
    requires fs.Valid() && proc.files.Length == PCB_SIZE
    requires var dir := fs.Abs().dir;
             Lookup(dir, [DOT]) != -1 && dir[Lookup(dir, [DOT])].kind == 1
    modifies proc.files
    ensures fs.Valid() && fs.Abs() == old(fs.Abs())
    ensures FreeFd(old(proc.files[..]), FIRST_FILE_FD) == -1 ==> code == 2 && out == [OPEN_FAILED]
    ensures FreeFd(old(proc.files[..]), FIRST_FILE_FD) != -1 ==>
              && code == 0 && Listed(Names(fs.Abs().dir), out)
              && (|out| < |Names(fs.Abs().dir)| ==> Names(fs.Abs().dir)[|out|] == [])
  {
    OpenedOnDirectory(proc.files[..], fs.Abs(), [DOT], Lookup(fs.Abs().dir, [DOT]));
    OpenExisting(proc.files[..], fs.Abs().dir, [DOT], Lookup(fs.Abs().dir, [DOT]));
    var fd := proc.Open(fs, [DOT]);
    if fd == -1 { return 2, [OPEN_FAILED]; }
    code, out := Ls(fs, proc, fd);
  }

  // "directory open failed\n"
  const OPEN_FAILED: seq<byte> := [100, 105, 114, 101, 99, 116, 111, 114, 121, 32, 111, 112, 101, 110, 32,
                                   102, 97, 105, 108, 101, 100, 10]

  lemma OneMoreLine(names: seq<seq<byte>>, out: seq<seq<byte>>, line: seq<byte>)
    requires Listed(names, out) && |out| < |names| && names[|out|] != [] && line == names[|out|] + [NEWLINE]
    ensures Listed(names, out + [line])
  {
  }
}
