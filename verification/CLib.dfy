/** C strings and the few string routines that several programs share. */
module CLib {

  type byte = b: int | 0 <= b < 256
  type u16 = n: int | 0 <= n < 0x10000

  datatype Option<+T> = None | Some(value: T)

  const NUL: byte := 0
  const NEWLINE: byte := 10
  const RETURN: byte := 13

  function Min(a: int, b: int): int {
    if a <= b then a else b
  }

  function Max(a: int, b: int): int {
    if a <= b then b else a
  }

  /** C's division and remainder truncate toward zero. */
  function CDiv(a: int, b: int): int
    requires b > 0
  {
    if a >= 0 then a / b else -(-a / b)
  }

  function CMod(a: int, b: int): int
    requires b > 0
  {
    a - b * CDiv(a, b)
  }

  lemma SmallMod(a: int, b: int)
    requires -b < a < b
    ensures CDiv(a, b) == 0 && CMod(a, b) == a
  {
    if a >= 0 {
      SmallDiv(a, b);
    } else {
      SmallDiv(-a, b);
    }
    assert b * CDiv(a, b) == 0;
  }

  lemma SmallDiv(a: nat, b: nat)
    requires a < b
    ensures a / b == 0
  {
  }

  predicate NoDup<T(==)>(s: seq<T>) {
    forall i, j :: 0 <= i < j < |s| ==> s[i] != s[j]
  }

  function Reverse<T>(s: seq<T>): (r: seq<T>)
    ensures |r| == |s|
    ensures forall k :: 0 <= k < |s| ==> r[k] == s[|s| - 1 - k]
  {
    if s == [] then [] else Reverse(s[1..]) + [s[0]]
  }

  /** The length of the line at the front of `s`: up to its first newline, or all of it. */
  function LineLen(s: seq<byte>): (n: nat)
    ensures n <= |s|
  {
    if s == [] || s[0] == NEWLINE then 0 else 1 + LineLen(s[1..])
  }

  lemma {:induction false} LineLenIs(s: seq<byte>)
    ensures NEWLINE !in s[..LineLen(s)]
    ensures LineLen(s) < |s| ==> s[LineLen(s)] == NEWLINE
  {
    if s != [] && s[0] != NEWLINE {
      LineLenIs(s[1..]);
      assert s[..LineLen(s)] == [s[0]] + s[1..][..LineLen(s[1..])];
    }
  }

  lemma LineLenUnique(s: seq<byte>, n: nat)
    requires n <= |s| && NEWLINE !in s[..n]
    requires n < |s| ==> s[n] == NEWLINE
    ensures LineLen(s) == n
  {
    LineLenIs(s);
    var m := LineLen(s);
    assert forall i :: 0 <= i < n ==> s[i] in s[..n];
    assert forall i :: 0 <= i < m ==> s[i] in s[..m];
  }

  lemma ReverseTwice<T>(a: seq<T>)
    ensures Reverse(Reverse(a)) == a
  {
    assert forall k :: 0 <= k < |a| ==> Reverse(Reverse(a))[k] == Reverse(a)[|a| - 1 - k];
  }

  lemma Associates<T>(a: seq<T>, b: seq<T>, c: seq<T>)
    ensures a + (b + c) == a + b + c
  {
  }

  // ----- arithmetic -----

  lemma MulMono(a: int, b: int, r: nat)
    ensures a <= b ==> a * r <= b * r
  {
  }

  lemma DivideOut(q: nat, r: nat, d: nat)
    requires 0 <= d < r
    ensures (q * r + d) / r == q && (q * r + d) % r == d
  {
    var n := q * r + d;
    assert n == n / r * r + n % r;
    MulMono(n / r + 1, q, r);
    MulMono(q + 1, n / r, r);
  }

  // ----- strings and lines -----

  /** Memory holds, at address `at`, the NUL-terminated string `s`. */
  ghost predicate StringAt(mem: seq<byte>, at: nat, s: seq<byte>) {
    && at + |s| < |mem|
    && (forall i {:trigger s[i]} :: 0 <= i < |s| ==> mem[at + i] == s[i])
    && mem[at + |s|] == NUL
    && NUL !in s
  }

  /** Character `k` of a C string given by its contents; the terminator follows the last one. */
  function CharAt(s: seq<byte>, k: nat): byte
    requires k <= |s|
  {
    if k < |s| then s[k] else NUL
  }

  /** A line cut every `width` bytes; a cut that falls on the line's end leaves an empty piece. */
  function Cut(line: seq<byte>, width: nat): seq<seq<byte>>
    requires width > 0
  {
    if |line| < width then [line] else [line[..width]] + Cut(line[width..], width)
  }

  /** strlen */
  method Strlen(mem: array<byte>, at: nat, ghost s: seq<byte>) returns (len: nat)
    requires StringAt(mem[..], at, s)
    ensures len == |s|
  {
    len := 0;
    while mem[at + len] != NUL
      invariant len <= |s| && mem[at + len] == CharAt(s, len)
      decreases |s| - len
    {
      len := len + 1;
    }
  }
}
