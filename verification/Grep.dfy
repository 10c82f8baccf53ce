/** The streaming line scanner of the grep program. */
module Grep {
  import opened CLib

  const BUFSIZE := 1024

  // ----- what grep is for: the lines of a file that contain a pattern -----

  /** The lines of a file; a newline ends a line, the last line may lack one. */
  function Lines(f: seq<byte>): seq<seq<byte>> {
    if f == [] then []
    else
      var e := LineLen(f);
      if e == |f| then [f] else [f[..e]] + Lines(f[e + 1..])
  }

  ghost predicate OccursAt(p: seq<byte>, line: seq<byte>, k: nat) {
    k + |p| <= |line| && line[k..k + |p|] == p
  }

  ghost predicate Occurs(p: seq<byte>, line: seq<byte>) {
    exists k: nat :: OccursAt(p, line, k)
  }

  /** The scanner looks for the pattern's first character before it compares, so that an
      empty pattern selects nothing. */
  ghost predicate Selected(p: seq<byte>, line: seq<byte>) {
    p != [] && Occurs(p, line)
  }

  ghost function Matching(p: seq<byte>, ls: seq<seq<byte>>): seq<seq<byte>> {
    if ls == [] then []
    else (if Selected(p, ls[0]) then [ls[0]] else []) + Matching(p, ls[1..])
  }

  /** The four writes made for a selected line. */
  function Announce(name: seq<byte>, line: seq<byte>): seq<seq<byte>> {
    [name, [58], line, [NEWLINE]]
  }

  ghost function Report(name: seq<byte>, ls: seq<seq<byte>>): seq<seq<byte>> {
    if ls == [] then [] else Announce(name, ls[0]) + Report(name, ls[1..])
  }

  ghost function Emitted(name: seq<byte>, p: seq<byte>, line: seq<byte>): seq<seq<byte>> {
    if Selected(p, line) then Announce(name, line) else []
  }

  // ----- what the fixed buffer makes of it -----

  lemma {:induction false} ReportLength(name: seq<byte>, ls: seq<seq<byte>>)
    ensures |Report(name, ls)| == 4 * |ls|
  {
    if ls != [] { ReportLength(name, ls[1..]); }
  }

  /** For each line its file's name, a colon, the line and a newline. */
  lemma {:induction false} ReportIs(name: seq<byte>, ls: seq<seq<byte>>, j: nat)
    requires j < |ls|
    ensures |Report(name, ls)| == 4 * |ls|
    ensures Report(name, ls)[4 * j..4 * j + 4] == [name, [58], ls[j], [NEWLINE]]
    decreases j
  {
    ReportLength(name, ls);
    ReportLength(name, ls[1..]);
    var w, more := Report(name, ls), Report(name, ls[1..]);
    assert w[4..] == more;
    if j > 0 {
      ReportIs(name, ls[1..], j - 1);
      assert w[4 * j..4 * j + 4] == more[4 * (j - 1)..4 * (j - 1) + 4];
    }
  }

  /** The units the scanner searches: the lines, a long one cut every BUFSIZE bytes. */
  function Pieces(f: seq<byte>): seq<seq<byte>> {
    if f == [] then []
    else
      var e := LineLen(f);
      if e >= BUFSIZE then [f[..BUFSIZE]] + Pieces(f[BUFSIZE..])
      else if e == |f| then [f]
      else [f[..e]] + Pieces(f[e + 1..])
  }

  // ----- the code -----

  /** ece391_strncmp: zero exactly when the first `n` characters agree. */
  method Strncmp(mem: array<byte>, at: nat, ghost line: seq<byte>, s: seq<byte>, n: nat) returns (r: int)
    requires StringAt(mem[..], at, line) && NUL !in s
    ensures r == 0 <==> line[..Min(n, |line|)] == s[..Min(n, |s|)]
  {
    if n == 0 { return 0; }
    var k, left := 0, n;
    while mem[at + k] == CharAt(s, k)
      invariant k <= |line| && k <= |s| && left == n - k && left > 0
      invariant line[..k] == s[..k]
      decreases left
    {
      if mem[at + k] == NUL {
        assert k == |line| && k == |s|;
        return 0;
      }
      assert line[..k + 1] == line[..k] + [line[k]] && s[..k + 1] == s[..k] + [s[k]];
      left := left - 1;
      if left == 0 { return 0; }
      k := k + 1;
    }
    r := mem[at + k] - CharAt(s, k);
    assert k < |line| ==> line[..Min(n, |line|)][k] == line[k];
    assert k < |s| ==> s[..Min(n, |s|)][k] == s[k];
  }

  /** ece391_strcpy, copying a string downwards within one buffer. */
  method StrcpyDown(mem: array<byte>, src: nat, ghost s: seq<byte>)
    requires StringAt(mem[..], src, s)
    modifies mem
    ensures StringAt(mem[..], 0, s)
    ensures forall i :: |s| < i < mem.Length ==> mem[i] == old(mem[i])
  {
    var k := 0;
    mem[0] := mem[src];
    while mem[k] != NUL
      invariant k <= |s|
      invariant forall i :: 0 <= i <= k ==> mem[i] == CharAt(s, i)
      invariant forall i :: k < i < mem.Length ==> mem[i] == old(mem[i])
      decreases |s| - k
    {
      k := k + 1;
      mem[k] := mem[src + k];
    }
  }

  /** read: as many bytes as asked for, fewer only at the end of the file. */
  method Read(file: seq<byte>, pos: nat, mem: array<byte>, at: nat, n: nat) returns (cnt: nat)
    requires pos <= |file| && at + n <= mem.Length
    modifies mem
    ensures cnt == Min(n, |file| - pos)
    ensures mem[at..at + cnt] == file[pos..pos + cnt]
    ensures forall i :: 0 <= i < mem.Length && !(at <= i < at + cnt) ==> mem[i] == old(mem[i])
  {
    cnt := Min(n, |file| - pos);
    forall i | 0 <= i < cnt { mem[at + i] := file[pos + i]; }
  }

  /** Fill the buffer behind the `last` bytes carried over. */
  method Fill(f: seq<byte>, pos: nat, data: array<byte>, last: nat) returns (cnt: nat)
    requires pos <= |f| && last <= BUFSIZE < data.Length
    requires NUL !in data[..last] && NUL !in f
    modifies data
    ensures cnt == Min(BUFSIZE - last, |f| - pos) && data[BUFSIZE] == old(data[BUFSIZE])
    ensures NUL !in data[..last + cnt]
    ensures data[..last + cnt] + f[pos + cnt..] == old(data[..last]) + f[pos..]
  {
    ghost var carried := data[..last];
    cnt := Read(f, pos, data, last, BUFSIZE - last);
    assert data[..last + cnt] == carried + f[pos..pos + cnt];
    assert f[pos..] == f[pos..pos + cnt] + f[pos + cnt..];
  }

  /** The inner search loop: does the pattern occur in the line at `at`? */
  method Search(mem: array<byte>, at: nat, end: nat, ghost line: seq<byte>, s: seq<byte>) returns (found: bool)
    requires StringAt(mem[..], at, line) && end == at + |line| && NUL !in s
    ensures found <==> Selected(s, line)
  {
    var check := at;
    found := false;
    while check < end
      invariant at <= check <= end
      invariant forall k: nat :: k < check - at ==> s == [] || !OccursAt(s, line, k)
    {
      ghost var k := check - at;
      assert mem[check] == line[k];
      if CharAt(s, 0) == mem[check] {
        var r := Strncmp(mem, check, line[k..], s, |s|);
        assert line[k..][..Min(|s|, |line| - k)] == line[k..k + Min(|s|, |line| - k)];
        assert s[..|s|] == s;
        if r == 0 {
          assert OccursAt(s, line, k);
          return true;
        }
      } else {
        assert s != [] && k + |s| <= |line| ==> line[k..k + |s|][0] == line[k];
      }
      check := check + 1;
    }
  }

  // ----- how the pieces unroll -----

  lemma {:induction false} LineLenOfAppend(a: seq<byte>, t: seq<byte>)
    requires NEWLINE !in a
    ensures LineLen(a + t) == |a| + LineLen(t)
  {
    LineLenIs(t);
    assert (a + t)[..|a| + LineLen(t)] == a + t[..LineLen(t)];
    LineLenUnique(a + t, |a| + LineLen(t));
  }

  lemma {:induction false} PiecesTerminated(a: seq<byte>, t: seq<byte>)
    requires NEWLINE !in a && |a| < BUFSIZE
    ensures Pieces(a + [NEWLINE] + t) == [a] + Pieces(t)
  {
    var f := a + [NEWLINE] + t;
    assert f == a + ([NEWLINE] + t);
    LineLenOfAppend(a, [NEWLINE] + t);
    assert f[..|a|] == a && f[|a| + 1..] == t;
  }

  lemma {:induction false} PiecesCut(a: seq<byte>, t: seq<byte>)
    requires NEWLINE !in a && |a| == BUFSIZE
    ensures Pieces(a + t) == [a] + Pieces(t)
  {
    LineLenOfAppend(a, t);
    assert (a + t)[..BUFSIZE] == a && (a + t)[BUFSIZE..] == t;
  }

  lemma {:induction false} PiecesUnterminated(a: seq<byte>)
    requires NEWLINE !in a && 0 < |a| <= BUFSIZE
    ensures Pieces(a) == [a]
  {
    assert a + [] == a;
    LineLenOfAppend(a, []);
    assert a[..|a|] == a;
  }

  /** What is still to be printed when `left` is the unread part of the file. */
  ghost function Rest(name: seq<byte>, p: seq<byte>, left: seq<byte>): seq<seq<byte>> {
    Report(name, Matching(p, Pieces(left)))
  }

  lemma {:induction false} RestStep(name: seq<byte>, p: seq<byte>, left: seq<byte>, a: seq<byte>, t: seq<byte>)
    requires Pieces(left) == [a] + Pieces(t)
    ensures Rest(name, p, left) == Emitted(name, p, a) + Rest(name, p, t)
  {
    assert Pieces(left)[1..] == Pieces(t);
    var m := Matching(p, Pieces(t));
    if Selected(p, a) { assert ([a] + m)[1..] == m; } else { assert [] + m == m; }
  }

  /** What is left when the scanner has taken the line in `a` off the front of `left`. */
  ghost predicate TakesLine(left: seq<byte>, a: seq<byte>, t: seq<byte>) {
    && NEWLINE !in a
    && (|| (|a| < BUFSIZE && left == a + [NEWLINE] + t)
        || (|a| == BUFSIZE && left == a + t)
        || (|a| < BUFSIZE && left == a && t == []))
  }

  lemma {:induction false} RestOfLine(name: seq<byte>, p: seq<byte>, left: seq<byte>, a: seq<byte>, t: seq<byte>)
    requires TakesLine(left, a, t)
    ensures Rest(name, p, left) == Emitted(name, p, a) + Rest(name, p, t)
  {
    if |a| < BUFSIZE && left == a + [NEWLINE] + t {
      PiecesTerminated(a, t);
      RestStep(name, p, left, a, t);
    } else if |a| == BUFSIZE {
      PiecesCut(a, t);
      RestStep(name, p, left, a, t);
    } else if a != [] {
      PiecesUnterminated(a);
      RestStep(name, p, left, a, t);
    }
  }

  /** `R` accounts, line by line, for the writes that some remaining input still calls for. The
      loops below work for every such account; `RestUnrolls` says that `Rest` is one. */
  ghost predicate Unrolls(name: seq<byte>, p: seq<byte>, R: seq<byte> -> seq<seq<byte>>) {
    forall left, a, t :: TakesLine(left, a, t) ==> R(left) == Emitted(name, p, a) + R(t)
  }

  lemma RestUnrolls(name: seq<byte>, p: seq<byte>)
    ensures Unrolls(name, p, left => Rest(name, p, left))
  {
    forall left, a, t | TakesLine(left, a, t)
      ensures Rest(name, p, left) == Emitted(name, p, a) + Rest(name, p, t)
    {
      RestOfLine(name, p, left, a, t);
    }
  }

  /** Advance over the line that starts at `lineStart`. */
  method FindEnd(data: array<byte>, lineStart: nat, last: nat) returns (lineEnd: nat)
    requires lineStart <= last < data.Length
    ensures lineStart <= lineEnd <= last
    ensures NEWLINE !in data[lineStart..lineEnd]
    ensures lineEnd < last ==> data[lineEnd] == NEWLINE
  {
    lineEnd := lineStart;
    while lineEnd < last && data[lineEnd] != NEWLINE
      invariant lineStart <= lineEnd <= last
      invariant NEWLINE !in data[lineStart..lineEnd]
    {
      assert data[lineStart..lineEnd + 1] == data[lineStart..lineEnd] + [data[lineEnd]];
      lineEnd := lineEnd + 1;
    }
  }

  /** Search one line and write it out if it is selected. */
  method Emit(s: seq<byte>, name: seq<byte>, data: array<byte>, lineStart: nat, lineEnd: nat)
    returns (writes: seq<seq<byte>>)
    requires lineStart <= lineEnd < data.Length && NUL !in data[lineStart..lineEnd] && NUL !in s
    modifies data
    ensures data[lineEnd] == NUL && forall i :: 0 <= i < data.Length && i != lineEnd ==> data[i] == old(data[i])
    ensures writes == Emitted(name, s, old(data[lineStart..lineEnd]))
  {
    ghost var a := data[lineStart..lineEnd];
    data[lineEnd] := NUL;
    assert data[lineStart..lineEnd] == a;
    writes := [];
    var found := Search(data, lineStart, lineEnd, a, s);
    if found {
      var n := Strlen(data, lineStart, a);
      writes := Announce(name, data[lineStart..lineStart + n]);
    }
  }

  /** Move the incomplete line to the front of the buffer. */
  method CarryDown(data: array<byte>, lineStart: nat, lineEnd: nat) returns (last: nat)
    requires 0 < lineStart <= lineEnd < data.Length && NUL !in data[lineStart..lineEnd]
    modifies data
    ensures last == lineEnd - lineStart && data[..last] == old(data[lineStart..lineEnd])
    ensures forall i :: lineEnd < i < data.Length ==> data[i] == old(data[i])
    ensures data[lineEnd] == NUL
  {
    ghost var a := data[lineStart..lineEnd];
    data[lineEnd] := NUL;
    assert data[lineStart..lineEnd] == a;
    StrcpyDown(data, lineStart, a);
    last := lineEnd - lineStart;
    assert data[..last] == a;
  }

  /** The line data[ls..le] of a buffer is the next one of the file. */
  lemma NextLine(data: seq<byte>, ls: nat, le: nat, last: nat, rest: seq<byte>)
    requires ls <= le <= last <= BUFSIZE && |data| == BUFSIZE + 1
    requires NEWLINE !in data[ls..le] && (le < last ==> data[le] == NEWLINE)
    requires rest != [] && le == last ==> ls == 0 && last == BUFSIZE
    ensures TakesLine(data[ls..last] + rest, data[ls..le], data[Min(le + 1, last)..last] + rest)
  {
    var left, a, t := data[ls..last], data[ls..le], data[Min(le + 1, last)..last];
    if le < last {
      assert left + rest == a + [NEWLINE] + (t + rest);
    } else {
      assert left == a && t + rest == rest;
      if rest == [] && |a| < BUFSIZE { assert left + rest == a; }
    }
  }

  lemma LineAccounted(data: seq<byte>, ls: nat, le: nat, last: nat, rest: seq<byte>,
                      name: seq<byte>, p: seq<byte>, R: seq<byte> -> seq<seq<byte>>)
    requires Unrolls(name, p, R)
    requires ls <= le <= last <= BUFSIZE && |data| == BUFSIZE + 1
    requires NEWLINE !in data[ls..le] && (le < last ==> data[le] == NEWLINE)
    requires rest != [] && le == last ==> ls == 0 && last == BUFSIZE
    ensures R(data[ls..last] + rest) == Emitted(name, p, data[ls..le]) + R(data[Min(le + 1, last)..last] + rest)
  {
    NextLine(data, ls, le, last, rest);
  }

  /** Search the line data[lineStart..lineEnd] and say what remains of the buffer. */
  method TakeLine(s: seq<byte>, name: seq<byte>, data: array<byte>, lineStart: nat, lineEnd: nat, last: nat,
                  ghost rest: seq<byte>, ghost R: seq<byte> -> seq<seq<byte>>)
    returns (w: seq<seq<byte>>, ghost left: seq<byte>)
    requires Unrolls(name, s, R) && data.Length == BUFSIZE + 1 && lineStart <= lineEnd <= last <= BUFSIZE
    requires NEWLINE !in data[lineStart..lineEnd] && (lineEnd < last ==> data[lineEnd] == NEWLINE)
    requires rest != [] && lineEnd == last ==> lineStart == 0 && last == BUFSIZE
    requires NUL !in data[lineStart..lineEnd] && NUL !in s
    modifies data
    ensures left == old(data[Min(lineEnd + 1, last)..last]) == data[Min(lineEnd + 1, last)..last]
    ensures data[lineEnd] == NUL && forall i :: 0 <= i < data.Length && i != lineEnd ==> data[i] == old(data[i])
    ensures R(old(data[lineStart..last]) + rest) == w + R(left + rest)
  {
    ghost var D := data[..];
    left := D[Min(lineEnd + 1, last)..last];
    assert D[lineStart..lineEnd] == data[lineStart..lineEnd] && D[lineStart..last] == data[lineStart..last];
    LineAccounted(D, lineStart, lineEnd, last, rest, name, s, R);
    w := Emit(s, name, data, lineStart, lineEnd);
  }

  lemma PartOf(data: seq<byte>, from: nat, mid: nat, to: nat)
    requires from <= mid <= to <= |data| && NUL !in data[from..to]
    ensures NUL !in data[from..mid] && NUL !in data[Min(mid + 1, to)..to]
  {
    assert forall i :: from <= i < to ==> data[i] == data[from..to][i - from];
  }

  /** One turn of the inner loop: search the line that starts at `lineStart`, unless it is the
      incomplete one at the end of the buffer, which is carried over. `left` is what remains in the
      buffer then. */
  method ScanLine(s: seq<byte>, name: seq<byte>, data: array<byte>, lineStart: nat, last: nat, cnt: nat,
                  ghost rest: seq<byte>, ghost R: seq<byte> -> seq<seq<byte>>)
    returns (next: nat, carried: nat, w: seq<seq<byte>>, ghost left: seq<byte>)
    requires Unrolls(name, s, R)
    requires lineStart <= last <= BUFSIZE && (lineStart < last || lineStart == 0)
    requires data.Length == BUFSIZE + 1 && data[BUFSIZE] != NEWLINE
    requires last < BUFSIZE || cnt == 0 ==> rest == []
    requires NUL !in data[lineStart..last] && NUL !in s
    modifies data
    ensures data[BUFSIZE] != NEWLINE && NUL !in left
    ensures lineStart < next && (cnt == 0 ==> carried == 0)
    ensures if carried > 0 then carried < BUFSIZE && left == data[..carried]
            else left == if next < last then data[next..last] else []
    ensures R(old(data[lineStart..last]) + rest) == w + R(left + rest)
  {
    ghost var D := data[..];
    var lineEnd := FindEnd(data, lineStart, last);
    next := lineEnd + 1;
    PartOf(D, lineStart, lineEnd, last);
    if data[lineEnd] != NEWLINE && cnt != 0 && lineStart != 0 {
      assert lineEnd == last;
      carried := CarryDown(data, lineStart, lineEnd);
      return next, carried, [], D[lineStart..last];
    }
    w, left := TakeLine(s, name, data, lineStart, lineEnd, last, rest, R);
    carried := 0;
  }

  /** The inner loop: take the complete lines out of data[..last], and move an incomplete one
      to the front of the buffer. `rest` is the part of the file that is still unread. */
  method ScanBuffer(s: seq<byte>, name: seq<byte>, data: array<byte>, last0: nat, cnt: nat, ghost rest: seq<byte>,
                    ghost R: seq<byte> -> seq<seq<byte>>)
    returns (last: nat, writes: seq<seq<byte>>)
    requires Unrolls(name, s, R)
    requires last0 <= BUFSIZE && data.Length == BUFSIZE + 1 && data[BUFSIZE] != NEWLINE
    requires last0 < BUFSIZE || cnt == 0 ==> rest == []
    requires NUL !in data[..last0] && NUL !in s
    modifies data
    ensures last < BUFSIZE && data[BUFSIZE] != NEWLINE && NUL !in data[..last]
    ensures cnt == 0 ==> last == 0
    ensures writes + R(data[..last] + rest) == R(old(data[..last0]) + rest)
  {
    ghost var left, total := data[..last0], R(data[..last0] + rest);
    writes := [];
    var lineStart := 0;
    while true
      invariant 0 <= lineStart <= last0 && (lineStart < last0 || lineStart == 0)
      invariant data[BUFSIZE] != NEWLINE && NUL !in left && left == data[lineStart..last0]
      invariant writes + R(left + rest) == total
      decreases last0 - lineStart
    {
      var next, carried, w;
      next, carried, w, left := ScanLine(s, name, data, lineStart, last0, cnt, rest, R);
      writes := writes + w;
      if carried > 0 {
        last := carried;
        break;
      }
      if next >= last0 {
        last := 0;
        break;
      }
      lineStart := next;
    }
  }

  // "file open failed\n", "file read failed\n", "file close failed\n"
  const OPEN_FAILED: seq<byte> := [102, 105, 108, 101, 32, 111, 112, 101, 110, 32, 102, 97, 105, 108, 101, 100, 10]
  const READ_FAILED: seq<byte> := [102, 105, 108, 101, 32, 114, 101, 97, 100, 32, 102, 97, 105, 108, 101, 100, 10]
  const CLOSE_FAILED: seq<byte> := [102, 105, 108, 101, 32, 99, 108, 111, 115, 101, 32, 102, 97, 105, 108, 101, 100, 10]

  /** The outer loop: fill the buffer and scan it, until a read returns nothing, or fails. `good` is the
      number of reads that succeed before one fails, None if none does. */
  method ScanFile(s: seq<byte>, name: seq<byte>, f: seq<byte>, data: array<byte>, good: Option<nat>,
                  ghost R: seq<byte> -> seq<seq<byte>>)
    returns (ok: bool, writes: seq<seq<byte>>)
    requires Unrolls(name, s, R)
    requires data.Length == BUFSIZE + 1 && data[BUFSIZE] != NEWLINE
    requires NUL !in s && NUL !in f
    modifies data
    ensures ok ==> writes + R([]) == R(f)
    ensures !ok ==> writes <= R(f)
    ensures good.None? ==> ok
    ensures good == Some(0) ==> !ok && writes == []
  {
    var pos, last := 0, 0;
    var calls := 0;
    writes := [];
    assert data[..0] + f[0..] == f;
    while true
      invariant pos <= |f| && 0 <= last < BUFSIZE && data[BUFSIZE] != NEWLINE
      invariant NUL !in data[..last]
      invariant writes + R(data[..last] + f[pos..]) == R(f)
      invariant (calls == 0 ==> writes == []) && (good.Some? ==> calls <= good.value)
      decreases |f| - pos
    {
      if good == Some(calls) {
        assert writes <= writes + R(data[..last] + f[pos..]);
        return false, writes;
      }
      calls := calls + 1;
      var cnt := Fill(f, pos, data, last);
      last, pos := last + cnt, pos + cnt;
      var w;
      last, w := ScanBuffer(s, name, data, last, cnt, f[pos..], R);
      writes := writes + w;
      if cnt == 0 { break; }
    }
    assert data[..last] + f[pos..] == [];
    return true, writes;
  }

  /** do_one_file. `file` is None when the open fails, `good` says which read fails, `closes` whether the
      close succeeds; `data` is the uninitialised stack buffer. `writes` lists the strings written to
      standard output: what a failed read leaves out comes at the end. */
  method DoOneFile(s: seq<byte>, name: seq<byte>, file: Option<seq<byte>>, good: Option<nat>, closes: bool,
                   data: array<byte>)
    returns (r: int, writes: seq<seq<byte>>)
    requires data.Length == BUFSIZE + 1 && data[BUFSIZE] != NEWLINE
    requires NUL !in s && (file.Some? ==> NUL !in file.value)
    modifies data
    ensures file.None? ==> r == -1 && writes == [OPEN_FAILED]
    ensures file.Some? && good.None? ==>
              && r == (if closes then 0 else -1)
              && writes == Report(name, Matching(s, Pieces(file.value))) + if closes then [] else [CLOSE_FAILED]
    ensures file.Some? && good == Some(0) ==> r == -1 && writes == [READ_FAILED]
    ensures file.Some? ==>
              var all := Report(name, Matching(s, Pieces(file.value)));
              || writes == all + (if closes then [] else [CLOSE_FAILED])
              || (r == -1 && exists done :: done <= all && writes == done + [READ_FAILED])
  {
    if file.None? { return -1, [OPEN_FAILED]; }
    RestUnrolls(name, s);
    var ok;
    ok, writes := ScanFile(s, name, file.value, data, good, left => Rest(name, s, left));
    if !ok { return -1, writes + [READ_FAILED]; }
    if !closes { return -1, writes + [CLOSE_FAILED]; }
    assert writes + [] == writes;
    return 0, writes;
  }

  // ----- when the scanner is the filter -----

  lemma {:induction false} MatchingOfAppend(p: seq<byte>, a: seq<seq<byte>>, b: seq<seq<byte>>)
    ensures Matching(p, a + b) == Matching(p, a) + Matching(p, b)
  {
    if a == [] {
      assert a + b == b;
    } else {
      assert (a + b)[1..] == a[1..] + b;
      MatchingOfAppend(p, a[1..], b);
    }
  }

  /** What follows the first line of a file. */
  function AfterLine(f: seq<byte>): seq<byte> {
    f[Min(LineLen(f) + 1, |f|)..]
  }

  lemma LineBehindCut(f: seq<byte>)
    requires LineLen(f) >= BUFSIZE
    ensures LineLen(f[BUFSIZE..]) == LineLen(f) - BUFSIZE && AfterLine(f[BUFSIZE..]) == AfterLine(f)
  {
    LineLenIs(f);
    var e, f' := LineLen(f), f[BUFSIZE..];
    assert f'[..e - BUFSIZE] == f[BUFSIZE..e] == f[..e][BUFSIZE..];
    LineLenUnique(f', e - BUFSIZE);
  }

  lemma MatchingOfCut(p: seq<byte>, line: seq<byte>)
    requires |line| >= BUFSIZE
    ensures Matching(p, Cut(line, BUFSIZE)) ==
              Matching(p, [line[..BUFSIZE]]) + Matching(p, Cut(line[BUFSIZE..], BUFSIZE))
  {
    MatchingOfAppend(p, [line[..BUFSIZE]], Cut(line[BUFSIZE..], BUFSIZE));
  }

  lemma MatchingOfPieces(p: seq<byte>, f: seq<byte>)
    requires LineLen(f) >= BUFSIZE
    ensures Matching(p, Pieces(f)) == Matching(p, [f[..BUFSIZE]]) + Matching(p, Pieces(f[BUFSIZE..]))
  {
    MatchingOfAppend(p, [f[..BUFSIZE]], Pieces(f[BUFSIZE..]));
  }

  lemma ShortLinePieces(p: seq<byte>, f: seq<byte>)
    requires f != [] && LineLen(f) < BUFSIZE
    ensures Matching(p, Pieces(f)) == Matching(p, Cut(f[..LineLen(f)], BUFSIZE)) + Matching(p, Pieces(AfterLine(f)))
  {
    var line := f[..LineLen(f)];
    assert Cut(line, BUFSIZE) == [line] && (LineLen(f) == |f| ==> line == f);
    MatchingOfAppend(p, [line], Pieces(AfterLine(f)));
  }

  lemma {:induction false} PiecesOfLine(p: seq<byte>, f: seq<byte>)
    requires f != []
    ensures Matching(p, Pieces(f)) == Matching(p, Cut(f[..LineLen(f)], BUFSIZE)) + Matching(p, Pieces(AfterLine(f)))
    decreases |f|, 0
  {
    if LineLen(f) < BUFSIZE {
      ShortLinePieces(p, f);
    } else {
      var line, f' := f[..LineLen(f)], f[BUFSIZE..];
      assert line[..BUFSIZE] == f[..BUFSIZE] && line[BUFSIZE..] == f'[..LineLen(f) - BUFSIZE];
      LineBehindCut(f);
      MatchingOfPieces(p, f);
      MatchingOfCut(p, line);
      RestOfLongLine(p, f');
      var more := Matching(p, Cut(line[BUFSIZE..], BUFSIZE));
      Associates(Matching(p, [f[..BUFSIZE]]), more, Matching(p, Pieces(AfterLine(f))));
    }
  }

  /** The same behind a cut, where nothing may be left. */
  lemma {:induction false} RestOfLongLine(p: seq<byte>, f: seq<byte>)
    ensures Matching(p, Pieces(f)) == Matching(p, Cut(f[..LineLen(f)], BUFSIZE)) + Matching(p, Pieces(AfterLine(f)))
    decreases |f|, 1
  {
    if f == [] {
      assert Cut([], BUFSIZE) == [[]] && !Selected(p, []);
      assert Matching(p, [[]]) == [];
    } else {
      PiecesOfLine(p, f);
    }
  }

  lemma SelectedInPart(p: seq<byte>, line: seq<byte>, from: nat, to: nat)
    requires from <= to <= |line| && Selected(p, line[from..to])
    ensures Selected(p, line)
  {
    var k: nat :| OccursAt(p, line[from..to], k);
    var part := line[from..to];
    assert part[k..k + |p|] == p;
    forall i | 0 <= i < |p|
      ensures line[from + k..from + k + |p|][i] == p[i]
    {
      assert part[k..k + |p|][i] == part[k + i] == line[from + k + i];
    }
    assert line[from + k..from + k + |p|] == p;
    assert OccursAt(p, line, from + k);
  }

  lemma {:induction false} CutOfUnselected(p: seq<byte>, line: seq<byte>)
    requires !Selected(p, line)
    ensures Matching(p, Cut(line, BUFSIZE)) == []
    decreases |line|
  {
    if |line| >= BUFSIZE {
      var cut, more := line[0..BUFSIZE], line[BUFSIZE..|line|];
      assert cut == line[..BUFSIZE] && more == line[BUFSIZE..];
      if Selected(p, cut) { SelectedInPart(p, line, 0, BUFSIZE); }
      if Selected(p, more) { SelectedInPart(p, line, BUFSIZE, |line|); }
      CutOfUnselected(p, more);
      MatchingOfAppend(p, [cut], Cut(more, BUFSIZE));
    }
  }

  lemma {:induction false} CutOfShort(p: seq<byte>, line: seq<byte>)
    requires |line| <= BUFSIZE
    ensures Matching(p, Cut(line, BUFSIZE)) == Matching(p, [line])
  {
    if |line| == BUFSIZE {
      assert line[..BUFSIZE] == line && line[BUFSIZE..] == [];
      MatchingOfAppend(p, [line], [[]]);
      assert !Selected(p, []);
    }
  }

  /** Every selected line fits the buffer. */
  ghost predicate SelectedLinesFit(p: seq<byte>, f: seq<byte>) {
    forall l :: l in Lines(f) && Selected(p, l) ==> |l| <= BUFSIZE
  }

  lemma {:induction false} FilterWhenLinesFit(p: seq<byte>, f: seq<byte>)
    requires SelectedLinesFit(p, f)
    ensures Matching(p, Pieces(f)) == Matching(p, Lines(f))
    decreases |f|
  {
    if f != [] {
      var line, f' := f[..LineLen(f)], AfterLine(f);
      assert Lines(f) == [line] + Lines(f') by { if LineLen(f) == |f| { assert line == f; } }
      assert forall l :: l in Lines(f') ==> l in Lines(f);
      FilterWhenLinesFit(p, f');
      PiecesOfLine(p, f);
      if Selected(p, line) {
        assert line in Lines(f);
        CutOfShort(p, line);
      } else {
        CutOfUnselected(p, line);
      }
      MatchingOfAppend(p, [line], Lines(f'));
    }
  }

  lemma {:induction false} MatchingMembers(p: seq<byte>, ls: seq<seq<byte>>, l: seq<byte>)
    ensures l in Matching(p, ls) <==> l in ls && Selected(p, l)
  {
    if ls != [] { MatchingMembers(p, ls[1..], l); }
  }

  lemma {:induction false} PiecesFit(f: seq<byte>, l: seq<byte>)
    requires l in Pieces(f)
    ensures |l| <= BUFSIZE
    decreases |f|
  {
    var e := LineLen(f);
    if e >= BUFSIZE {
      if l != f[..BUFSIZE] { PiecesFit(f[BUFSIZE..], l); }
    } else if e < |f| && l != f[..e] {
      PiecesFit(f[e + 1..], l);
    }
  }

  lemma {:induction false} ReportInjective(name: seq<byte>, a: seq<seq<byte>>, b: seq<seq<byte>>)
    requires Report(name, a) == Report(name, b)
    ensures a == b
  {
    if a != [] && b != [] {
      var x, y := Report(name, a), Report(name, b);
      assert a[0] == x[2] == y[2] == b[0];
      assert Report(name, a[1..]) == x[4..] && Report(name, b[1..]) == y[4..];
      ReportInjective(name, a[1..], b[1..]);
      assert a == [a[0]] + a[1..] && b == [b[0]] + b[1..];
    }
  }

  /** The program prints exactly the selected lines, in order, if and only if each of them fits
      the buffer. */
  lemma GrepIsTheFilter(name: seq<byte>, p: seq<byte>, f: seq<byte>)
    ensures Report(name, Matching(p, Pieces(f))) == Report(name, Matching(p, Lines(f))) <==> SelectedLinesFit(p, f)
  {
    if Report(name, Matching(p, Pieces(f))) == Report(name, Matching(p, Lines(f))) {
      ReportInjective(name, Matching(p, Pieces(f)), Matching(p, Lines(f)));
      forall l | l in Lines(f) && Selected(p, l) ensures |l| <= BUFSIZE {
        MatchingMembers(p, Lines(f), l);
        MatchingMembers(p, Pieces(f), l);
        PiecesFit(f, l);
      }
    }
    if SelectedLinesFit(p, f) { FilterWhenLinesFit(p, f); }
  }

  lemma {:induction false} NothingForTheEmptyPattern(ls: seq<seq<byte>>)
    ensures Matching([], ls) == []
  {
    if ls != [] { NothingForTheEmptyPattern(ls[1..]); }
  }

  /** A plain substring filter would print every line for the empty pattern; the program prints
      none, so the two agree exactly when the pattern is nonempty or the file is empty. */
  lemma EmptyPattern(p: seq<byte>, f: seq<byte>)
    ensures (forall l :: l in Lines(f) ==> (Occurs(p, l) <==> l in Matching(p, Lines(f)))) <==> p != [] || f == []
  {
    forall l { MatchingMembers(p, Lines(f), l); }
    if p == [] && f != [] {
      NothingForTheEmptyPattern(Lines(f));
      var l := Lines(f)[0];
      assert OccursAt(p, l, 0);
    }
  }

  /** Lines joined with newlines, the last of them closed by one or not. */
  function Join(ls: seq<seq<byte>>, terminated: bool): seq<byte> {
    if ls == [] then []
    else if |ls| == 1 && !terminated then ls[0]
    else ls[0] + [NEWLINE] + Join(ls[1..], terminated)
  }

  predicate Terminated(f: seq<byte>) {
    f != [] && f[|f| - 1] == NEWLINE
  }

  /** `ls` make up `f`: no newline in any of them, and no empty line at an end that no newline closes. */
  predicate AreLines(ls: seq<seq<byte>>, f: seq<byte>) {
    && (forall k :: 0 <= k < |ls| ==> NEWLINE !in ls[k])
    && (Terminated(f) || ls == [] || ls[|ls| - 1] != [])
    && Join(ls, Terminated(f)) == f
  }

  lemma LineInFront(a: seq<byte>, ls: seq<seq<byte>>, t: seq<byte>)
    requires NEWLINE !in a && AreLines(ls, t)
    ensures AreLines([a] + ls, a + [NEWLINE] + t)
  {
    var f := a + [NEWLINE] + t;
    assert t != [] ==> f[|f| - 1] == t[|t| - 1];
    assert t == [] ==> ls == [];
    assert ([a] + ls)[1..] == ls;
    assert Join([a] + ls, Terminated(f)) == a + [NEWLINE] + Join(ls, Terminated(f));
  }

  lemma {:induction false} LinesAreLines(f: seq<byte>)
    ensures AreLines(Lines(f), f)
    decreases |f|
  {
    if f != [] {
      var e, f' := LineLen(f), AfterLine(f);
      LineLenIs(f);
      if e < |f| {
        assert f == f[..e] + [NEWLINE] + f' && Lines(f) == [f[..e]] + Lines(f');
        LinesAreLines(f');
        LineInFront(f[..e], Lines(f'), f');
      } else {
        assert f[..e] == f && f[|f| - 1] in f;
      }
    }
  }

  /** What is behind the first line of lines that make up a file. */
  lemma FirstOfLines(ls: seq<seq<byte>>, f: seq<byte>)
    requires AreLines(ls, f) && f != []
    ensures ls != [] && LineLen(f) == |ls[0]| && f[..LineLen(f)] == ls[0]
    ensures AreLines(ls[1..], AfterLine(f))
  {
    if |ls| == 1 && !Terminated(f) {
      LineLenUnique(f, |f|);
    } else {
      var rest := Join(ls[1..], Terminated(f));
      assert f == ls[0] + [NEWLINE] + rest;
      LineLenUnique(f, |ls[0]|);
      assert AfterLine(f) == rest;
      assert rest != [] ==> rest[|rest| - 1] == f[|f| - 1];
      assert rest == [] ==> Terminated(f) && ls[1..] == [];
    }
  }

  /** The lines of a file are the only ones that make it up. */
  lemma {:induction false} LinesJoin(ls: seq<seq<byte>>, f: seq<byte>)
    ensures AreLines(ls, f) <==> ls == Lines(f)
    decreases |f|
  {
    LinesAreLines(f);
    if AreLines(ls, f) {
      if f != [] {
        FirstOfLines(ls, f);
        LinesJoin(ls[1..], AfterLine(f));
        assert ls == [ls[0]] + ls[1..];
      } else {
        assert ls == [];
      }
    }
  }
}
