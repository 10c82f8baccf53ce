/** Printing numbers: itoa with its in-place reversal, and the padded hexadecimal form of printf. */
module Numbers {
  import opened CLib

  const MAX_RADIX := 36

  predicate Radix(r: int) {
    2 <= r <= MAX_RADIX
  }

  // ----- digit strings -----

  /** The lookup table of itoa. */
  function DigitChar(d: nat): byte
    requires d < MAX_RADIX
  {
    if d < 10 then 48 + d else 55 + d
  }

  /** The value of a digit character, or -1. */
  function DigitValue(c: byte): int {
    if 48 <= c < 58 then c - 48 else if 65 <= c < 91 then c - 55 else -1
  }

  predicate Digits(s: seq<byte>, r: nat) {
    forall i :: 0 <= i < |s| ==> 0 <= DigitValue(s[i]) < r
  }

  /** What a string of digits denotes. */
  function Value(s: seq<byte>, r: nat): int
    decreases |s|
  {
    if s == [] then 0 else Value(s[..|s| - 1], r) * r + DigitValue(s[|s| - 1])
  }

  /** The digits of `v`, none for 0. */
  function DigitsOf(v: nat, r: nat): seq<byte>
    requires Radix(r)
  {
    if v == 0 then [] else DigitsOf(v / r, r) + [DigitChar(v % r)]
  }

  function Numeral(v: nat, r: nat): seq<byte>
    requires Radix(r)
  {
    if v == 0 then [DigitChar(0)] else DigitsOf(v, r)
  }

  /** A digit string as numbers are written: not empty, and no superfluous zero in front. */
  predicate Canonical(s: seq<byte>, r: nat) {
    Digits(s, r) && s != [] && (|s| > 1 ==> DigitValue(s[0]) != 0)
  }

  lemma DivMod(v: nat, r: nat)
    requires r >= 2
    ensures v / r * r + v % r == v && v % r < r && 0 <= v / r
    ensures v > 0 ==> v / r < v
    ensures v / r == 0 ==> v % r == v
  {
    assert v / r * r + v % r == v;
    MulMono(2, r, v / r);
  }

  lemma ValueOfSnoc(t: seq<byte>, c: byte, r: nat)
    ensures Value(t + [c], r) == Value(t, r) * r + DigitValue(c)
  {
    assert (t + [c])[..|t|] == t;
  }

  lemma {:induction false} DigitsOfDenotes(v: nat, r: nat)
    requires Radix(r)
    ensures Value(DigitsOf(v, r), r) == v && Digits(DigitsOf(v, r), r)
    ensures v > 0 ==> DigitsOf(v, r) != [] && DigitValue(DigitsOf(v, r)[0]) != 0
    decreases v
  {
    if v > 0 {
      var q, d := v / r, v % r;
      DivMod(v, r);
      DigitsOfDenotes(q, r);
      DigitsUnfold(v, r, q, d);
      OneMoreDigit(DigitsOf(q, r), q, r, d);
    }
  }

  lemma OneMoreDigit(t: seq<byte>, q: nat, r: nat, d: nat)
    requires Radix(r) && d < r && Digits(t, r) && Value(t, r) == q
    requires if q == 0 then t == [] && d > 0 else t != [] && DigitValue(t[0]) != 0
    ensures Value(t + [DigitChar(d)], r) == q * r + d && Digits(t + [DigitChar(d)], r)
    ensures DigitValue((t + [DigitChar(d)])[0]) != 0
  {
    ValueOfSnoc(t, DigitChar(d), r);
  }

  /** Round trip: the numeral of a number is canonical and denotes it. */
  lemma NumeralDenotes(v: nat, r: nat)
    requires Radix(r)
    ensures Canonical(Numeral(v, r), r) && Value(Numeral(v, r), r) == v
  {
    DigitsOfDenotes(v, r);
  }

  lemma {:induction false} ValueNonNegative(s: seq<byte>, r: nat)
    requires Radix(r) && Digits(s, r)
    ensures Value(s, r) >= 0
    ensures s != [] && DigitValue(s[0]) != 0 ==> Value(s, r) > 0
    decreases |s|
  {
    if s != [] {
      ValueNonNegative(s[..|s| - 1], r);
      assert |s| > 1 ==> s[..|s| - 1][0] == s[0];
      MulMono(1, Value(s[..|s| - 1], r), r);
      MulMono(0, Value(s[..|s| - 1], r), r);
    }
  }

  lemma {:induction false} DigitsOfValue(s: seq<byte>, r: nat)
    requires Radix(r) && Digits(s, r) && (s != [] ==> DigitValue(s[0]) != 0)
    ensures Value(s, r) >= 0 && DigitsOf(Value(s, r), r) == s
    decreases |s|
  {
    if s != [] {
      var t, d := s[..|s| - 1], DigitValue(s[|s| - 1]);
      DigitsOfValue(t, r);
      ValueNonNegative(s, r);
      DigitsOfSnoc(Value(t, r), r, d);
      assert s == t + [s[|s| - 1]] && DigitChar(d) == s[|s| - 1];
    }
  }

  lemma DigitsOfSnoc(q: nat, r: nat, d: nat)
    requires Radix(r) && d < r && q * r + d > 0
    ensures DigitsOf(q * r + d, r) == DigitsOf(q, r) + [DigitChar(d)]
  {
    DivideOut(q, r, d);
    DigitsUnfold(q * r + d, r, q, d);
  }

  lemma DigitsUnfold(v: nat, r: nat, q: nat, d: nat)
    requires Radix(r) && v > 0 && v / r == q && v % r == d
    ensures DigitsOf(v, r) == DigitsOf(q, r) + [DigitChar(d)]
  {
  }

  /** And the other way: the numeral of what a canonical string denotes is that string, so that a number
      is printed in one way only. */
  lemma NumeralOfValue(s: seq<byte>, r: nat)
    requires Radix(r) && Canonical(s, r)
    ensures Value(s, r) >= 0 && Numeral(Value(s, r), r) == s
  {
    ValueNonNegative(s, r);
    if DigitValue(s[0]) != 0 {
      DigitsOfValue(s, r);
    } else {
      assert s == [48];
      assert s[..0] == [];
    }
  }

  // ----- how long a numeral is -----

  function Power(r: nat, k: nat): nat {
    if k == 0 then 1 else r * Power(r, k - 1)
  }

  lemma {:induction false} DigitsFit(v: nat, r: nat, k: nat)
    requires Radix(r) && v < Power(r, k)
    ensures |DigitsOf(v, r)| <= k
    decreases k
  {
    if v > 0 {
      QuotientBelow(v, r, Power(r, k - 1));
      DigitsFit(v / r, r, k - 1);
      DigitsUnfold(v, r, v / r, v % r);
    }
  }

  lemma QuotientBelow(v: nat, r: nat, p: nat)
    requires r > 0 && v < r * p
    ensures v / r < p
  {
    var q := v / r;
    assert q * r <= v;
    if p <= q { MulMono(p, q, r); }
  }

  lemma HexFits(v: nat)
    requires v < 0x1_0000_0000
    ensures |Numeral(v, 16)| <= 8
  {
    assert Power(16, 2) == 256 && Power(16, 4) == 65536;
    assert Power(16, 6) == 0x100_0000 && Power(16, 8) == 0x1_0000_0000;
    DigitsFit(v, 16, 8);
  }

  lemma {:induction false} PadKeepsValue(n: nat, s: seq<byte>, r: nat)
    requires Radix(r) && Digits(s, r)
    ensures Value(Zeros(n) + s, r) == Value(s, r) && Digits(Zeros(n) + s, r)
    decreases |s|, n
  {
    if s != [] {
      assert (Zeros(n) + s)[..|Zeros(n) + s| - 1] == Zeros(n) + s[..|s| - 1];
      PadKeepsValue(n, s[..|s| - 1], r);
    } else if n > 0 {
      assert (Zeros(n) + s)[..n - 1] == Zeros(n - 1) + [];
      PadKeepsValue(n - 1, [], r);
    }
  }

  function Zeros(n: nat): (s: seq<byte>)
    ensures |s| == n && forall i :: 0 <= i < n ==> s[i] == 48
  {
    seq(n, _ => 48)
  }

  // ----- the code -----

  /** strrev: reverse the string at `at` in place. */
  method Strrev(mem: array<byte>, at: nat, ghost s: seq<byte>)
    requires StringAt(mem[..], at, s)
    modifies mem
    ensures StringAt(mem[..], at, Reverse(s))
    ensures forall i :: 0 <= i < mem.Length && !(at <= i < at + |s|) ==> mem[i] == old(mem[i])
  {
    var len := Strlen(mem, at, s);
    ghost var rs := Reverse(s);
    var beg, end := 0, len as int - 1;
    while beg < end
      invariant 0 <= beg <= end + 1 && beg + end == |s| - 1
      invariant forall k {:trigger rs[k]} :: 0 <= k < beg || end < k < |s| ==> mem[at + k] == rs[k]
      invariant forall k {:trigger s[k]} :: beg <= k <= end ==> mem[at + k] == s[k]
      invariant forall i :: 0 <= i < mem.Length && !(at <= i < at + |s|) ==> mem[i] == old(mem[i])
    {
      assert rs[beg] == s[end] && rs[end] == s[beg];
      var tmp := mem[at + end];
      mem[at + end] := mem[at + beg];
      mem[at + beg] := tmp;
      beg, end := beg + 1, end - 1;
    }
    assert beg == end ==> rs[beg] == s[beg];
    assert forall k :: 0 <= k < |s| ==> rs[k] == s[|s| - 1 - k] && s[|s| - 1 - k] in s;
  }

  lemma {:induction false} NoNul(v: nat, r: nat)
    requires Radix(r)
    ensures NUL !in Numeral(v, r) && NUL !in Reverse(Numeral(v, r))
  {
    NumeralDenotes(v, r);
    var s := Numeral(v, r);
    assert forall i :: 0 <= i < |s| ==> DigitValue(s[i]) >= 0 && s[i] != NUL;
  }

  /** One turn of itoa's loop: the lowest digit, and the number without it. */
  method LowestDigit(v: nat, radix: nat) returns (c: byte, rest: nat)
    requires Radix(radix) && v > 0
    ensures DigitsOf(v, radix) == DigitsOf(rest, radix) + [c] && rest < v
  {
    DivMod(v, radix);
    c, rest := DigitChar(v % radix), v / radix;
  }

  /** The loop of itoa: the digits, lowest first. */
  method PutDigits(value: nat, buf: array<byte>, at: nat, radix: nat) returns (newbuf: nat)
    requires Radix(radix) && at + |DigitsOf(value, radix)| < buf.Length
    modifies buf
    ensures newbuf == at + |DigitsOf(value, radix)|
    ensures buf[at..newbuf] == Reverse(DigitsOf(value, radix))
    ensures forall i :: 0 <= i < buf.Length && !(at <= i < newbuf) ==> buf[i] == old(buf[i])
  {
    ghost var s := DigitsOf(value, radix);
    ghost var low: seq<byte> := [];
    newbuf := at;
    var newval := value;
    assert s == s + [];
    while newval > 0
      invariant at <= newbuf <= at + |s| && s == DigitsOf(newval, radix) + low
      invariant |low| == newbuf - at && buf[at..newbuf] == Reverse(low)
      invariant forall i :: 0 <= i < buf.Length && !(at <= i < newbuf) ==> buf[i] == old(buf[i])
      decreases newval
    {
      ghost var done := buf[at..newbuf];
      var c, rest := LowestDigit(newval, radix);
      buf[newbuf] := c;
      assert buf[at..newbuf + 1] == done + [c];
      low := [c] + low;
      newbuf, newval := newbuf + 1, rest;
    }
  }

  /** itoa, of a positive number. */
  method PutNumeral(value: nat, buf: array<byte>, at: nat, radix: nat, ghost s: seq<byte>)
    requires Radix(radix) && s == DigitsOf(value, radix) && NUL !in Reverse(s) && at + |s| < buf.Length
    modifies buf
    ensures StringAt(buf[..], at, s)
    ensures forall i :: 0 <= i < buf.Length && !(at <= i <= at + |s|) ==> buf[i] == old(buf[i])
  {
    ghost var rs := Reverse(s);
    var newbuf := PutDigits(value, buf, at, radix);
    buf[newbuf] := NUL;
    assert StringAt(buf[..], at, rs) by {
      assert forall k {:trigger rs[k]} :: 0 <= k < |rs| ==> buf[at + k] == buf[at..newbuf][k];
    }
    Strrev(buf, at, rs);
    ReverseTwice(s);
  }

  /** itoa */
  method Itoa(value: nat, buf: array<byte>, at: nat, radix: nat)
    requires Radix(radix) && at + |Numeral(value, radix)| < buf.Length
    modifies buf
    ensures StringAt(buf[..], at, Numeral(value, radix))
    ensures forall i :: 0 <= i < buf.Length && !(at <= i <= at + |Numeral(value, radix)|) ==> buf[i] == old(buf[i])
  {
    if value == 0 {
      buf[at] := 48;
      buf[at + 1] := NUL;
    } else {
      NoNul(value, radix);
      PutNumeral(value, buf, at, radix, Numeral(value, radix));
    }
  }

  /** The %#x branch of printf: always eight hexadecimal digits. */
  method PadHex(value: nat, convBuf: array<byte>) returns (start: nat)
    requires value < 0x1_0000_0000 && convBuf.Length == 64
    modifies convBuf
    ensures |Numeral(value, 16)| <= 8
    ensures start <= 8 && StringAt(convBuf[..], start, Zeros(8 - |Numeral(value, 16)|) + Numeral(value, 16))
    ensures |Zeros(8 - |Numeral(value, 16)|) + Numeral(value, 16)| == 8
  {
    HexFits(value);
    NoNul(value, 16);
    ghost var s := Numeral(value, 16);
    Itoa(value, convBuf, 8, 16);
    start := Strlen(convBuf, 8, s);
    var i := start;
    while i < 8
      invariant start <= i <= 8
      invariant forall k :: start <= k < i ==> convBuf[k] == 48
      invariant StringAt(convBuf[..], 8, s)
    {
      convBuf[i] := 48;
      i := i + 1;
    }
    ZerosInFront(convBuf[..], start, 8 - start, s);
  }

  lemma ZerosInFront(mem: seq<byte>, at: nat, n: nat, s: seq<byte>)
    requires StringAt(mem, at + n, s) && forall k :: at <= k < at + n ==> mem[k] == 48
    ensures StringAt(mem, at, Zeros(n) + s)
  {
    var t := Zeros(n) + s;
    forall i {:trigger t[i]} | 0 <= i < |t| ensures mem[at + i] == t[i] {
      if i >= n { assert mem[at + n + (i - n)] == s[i - n]; }
    }
    assert forall i :: 0 <= i < n ==> t[i] != NUL;
  }

  /** And they denote the number. */
  lemma PaddedDenotes(value: nat)
    requires value < 0x1_0000_0000
    ensures |Numeral(value, 16)| <= 8
    ensures var p := Zeros(8 - |Numeral(value, 16)|) + Numeral(value, 16);
            |p| == 8 && Digits(p, 16) && Value(p, 16) == value
  {
    HexFits(value);
    NumeralDenotes(value, 16);
    PadKeepsValue(8 - |Numeral(value, 16)|, Numeral(value, 16), 16);
  }
}
