/** The line discipline: the keyboard buffer that keys edit in place, and the read that hands out a
    finished line. */
module LineEditor {
  import opened CLib

  const KB_BUF_SIZE := 128
  const TERMINAL_BUF_SIZE := 128

  datatype Key = Char(c: byte) | Backspace | Enter

  /** keyboard_buffer and kb_buf_idx. */
  datatype Keyboard = Keyboard(buf: seq<byte>, idx: nat)

  /** Characters that are entered as they are. */
  predicate Printable(c: byte) {
    c != NUL && c != NEWLINE && c != RETURN && c != 8 && c != 9
  }

  /** All but NUL, backspace, tab, newline and carriage return. */
  lemma PrintableIs(c: byte)
    ensures Printable(c) <==> c !in {0, 8, 9, 10, 13}
  {
  }

  predicate EndsLine(c: byte) {
    c == NEWLINE || c == RETURN
  }

  predicate Shape(k: Keyboard) {
    |k.buf| == KB_BUF_SIZE && k.idx < KB_BUF_SIZE
  }

  // ----- what editing a line means -----

  /** A line of at most 127 characters; backspace takes the last one back. */
  function Edit(keys: seq<Key>): (line: seq<byte>)
    ensures |line| < KB_BUF_SIZE
    decreases |keys|
  {
    if keys == [] then []
    else
      var line := Edit(keys[..|keys| - 1]);
      match keys[|keys| - 1]
      case Char(c) => if |line| < KB_BUF_SIZE - 1 then line + [c] else line
      case Backspace => if line == [] then [] else line[..|line| - 1]
      case Enter => line
  }

  // ----- the code's steps -----

  /** The paths of keyboard_handler for a character, a backspace and Enter. */
  function Press(k: Keyboard, key: Key): Keyboard
    requires Shape(k)
  {
    match key
    case Backspace => if k.idx == 0 then k else k.(idx := k.idx - 1)
    case Enter => Keyboard(k.buf[k.idx := NEWLINE], 0)
    case Char(c) => if k.idx < KB_BUF_SIZE - 1 && c != 0 then Keyboard(k.buf[k.idx := c], k.idx + 1) else k
  }

  function PressAll(k: Keyboard, keys: seq<Key>): (r: Keyboard)
    requires Shape(k)
    ensures Shape(r)
    decreases |keys|
  {
    if keys == [] then k else Press(PressAll(k, keys[..|keys| - 1]), keys[|keys| - 1])
  }

  /** detect_enter_signal: the position of the first line end, or -1. */
  function EnterAt(buf: seq<byte>): (r: int)
    ensures -1 <= r < |buf|
    ensures r >= 0 ==> EndsLine(buf[r]) && forall i :: 0 <= i < r ==> !EndsLine(buf[i])
    ensures r == -1 ==> forall i :: 0 <= i < |buf| ==> !EndsLine(buf[i])
  {
    if buf == [] then -1
    else if EndsLine(buf[0]) then 0
    else
      var r := EnterAt(buf[1..]);
      if r == -1 then -1 else r + 1
  }

  /** How much terminal_read hands out: at most 128 bytes, at most the line with its end. A negative
      count becomes a huge one. */
  function ReadCount(buf: seq<byte>, num: int): nat
    requires EnterAt(buf) != -1
  {
    if 0 <= num <= EnterAt(buf) then num else EnterAt(buf) + 1
  }

  function Zeros(): seq<byte> {
    seq(KB_BUF_SIZE, _ => NUL)
  }

  /** terminal_read once a line is there: the bytes handed out, and the buffer cleared. */
  function Read(k: Keyboard, num: int): (Keyboard, seq<byte>)
    requires Shape(k) && EnterAt(k.buf) != -1
  {
    (k.(buf := Zeros()), k.buf[..ReadCount(k.buf, num)])
  }

  // ----- the law -----

  /** No line end in the buffer, and editing starts at its front; old characters may be left behind. */
  predicate Clean(k: Keyboard) {
    Shape(k) && k.idx == 0 && forall i :: 0 <= i < |k.buf| ==> !EndsLine(k.buf[i])
  }

  predicate Editing(keys: seq<Key>) {
    forall i :: 0 <= i < |keys| ==> keys[i].Backspace? || (keys[i].Char? && Printable(keys[i].c))
  }

  lemma {:induction false} BufferHoldsTheLine(k: Keyboard, keys: seq<Key>)
    requires Clean(k) && Editing(keys)
    ensures var r := PressAll(k, keys);
            && r.idx == |Edit(keys)| && r.buf[..r.idx] == Edit(keys)
            && forall i :: 0 <= i < |r.buf| ==> !EndsLine(r.buf[i])
    ensures forall i :: 0 <= i < |Edit(keys)| ==> Printable(Edit(keys)[i])
    decreases |keys|
  {
    if keys != [] {
      var n := |keys| - 1;
      BufferHoldsTheLine(k, keys[..n]);
      var a, r := PressAll(k, keys[..n]), PressAll(k, keys);
      assert r == Press(a, keys[n]);
      assert r.idx <= a.idx ==> r.buf[..r.idx] == a.buf[..a.idx][..r.idx];
      assert r.idx > a.idx ==> r.buf[..r.idx] == a.buf[..a.idx] + [keys[n].c];
    }
  }

  function Prefix(s: seq<byte>, num: int): seq<byte> {
    if 0 <= num < |s| then s[..num] else s
  }

  /** Whatever was typed and taken back, Enter and a read deliver the edited line with its newline, cut
      to the count asked for; and the buffer is clean again. */
  lemma ReadDeliversTheLine(k: Keyboard, keys: seq<Key>, num: int)
    requires Clean(k) && Editing(keys)
    ensures var r := PressAll(k, keys + [Enter]);
            && EnterAt(r.buf) != -1
            && Read(r, num).1 == Prefix(Edit(keys) + [NEWLINE], num)
            && Clean(Read(r, num).0)
  {
    BufferHoldsTheLine(k, keys);
    var a, r, line := PressAll(k, keys), PressAll(k, keys + [Enter]), Edit(keys);
    assert (keys + [Enter])[..|keys|] == keys && r == Press(a, Enter);
    assert EndsLine(r.buf[|line|]) && forall i :: 0 <= i < |line| ==> r.buf[i] == a.buf[i];
    assert EnterAt(r.buf) == |line|;
    assert r.buf[..|line| + 1] == line + [NEWLINE];
  }

  /** One line after another: keys typed, and the count its reader asks for. */
  datatype Round = Round(keys: seq<Key>, num: int)

  function Session(k: Keyboard, rounds: seq<Round>): seq<seq<byte>>
    requires Clean(k) && forall i :: 0 <= i < |rounds| ==> Editing(rounds[i].keys)
    decreases |rounds|
  {
    if rounds == [] then []
    else
      ReadDeliversTheLine(k, rounds[0].keys, rounds[0].num);
      var r := Read(PressAll(k, rounds[0].keys + [Enter]), rounds[0].num);
      [r.1] + Session(r.0, rounds[1..])
  }

  /** Over a whole session every reader gets its own line. */
  lemma {:induction false} SessionDeliversEachLine(k: Keyboard, rounds: seq<Round>, i: nat)
    requires Clean(k) && (forall j :: 0 <= j < |rounds| ==> Editing(rounds[j].keys)) && i < |rounds|
    ensures |Session(k, rounds)| == |rounds|
    ensures Session(k, rounds)[i] == Prefix(Edit(rounds[i].keys) + [NEWLINE], rounds[i].num)
    decreases |rounds|
  {
    ReadDeliversTheLine(k, rounds[0].keys, rounds[0].num);
    var r := Read(PressAll(k, rounds[0].keys + [Enter]), rounds[0].num);
    if |rounds| > 1 {
      SessionDeliversEachLine(r.0, rounds[1..], if i == 0 then 0 else i - 1);
    }
  }

  /** A character typed after Enter and before the read lands on the waiting line: the read is not
      spoilt exactly if it is the character that stands there already. */
  lemma TypedTooSoon(k: Keyboard, keys: seq<Key>, c: byte)
    requires Clean(k) && Editing(keys) && Printable(c)
    ensures var line := Edit(keys) + [NEWLINE];
            var r := Press(PressAll(k, keys + [Enter]), Char(c));
            (EnterAt(r.buf) != -1 && Read(r, -1).1 == line) <==> line[0] == c
  {
    BufferHoldsTheLine(k, keys);
    ReadDeliversTheLine(k, keys, -1);
    var a, line := PressAll(k, keys + [Enter]), Edit(keys) + [NEWLINE];
    assert (keys + [Enter])[..|keys|] == keys;
    assert a.buf[..|line|] == line by { assert Read(a, -1).1 == a.buf[..ReadCount(a.buf, -1)]; }
    var r := Press(a, Char(c));
    assert r.buf[0] == c;
    if line[0] == c {
      assert a.buf[0] == a.buf[..|line|][0] == c;
      assert r.buf == a.buf;
    } else if EnterAt(r.buf) != -1 {
      assert Read(r, -1).1[0] == c;
    }
  }

  // ----- the kernel's variables, updated in place -----

  class KeyboardBuffer {
    const keyboardBuffer: array<byte>
    var kbBufIdx: nat

    ghost function Snapshot(): Keyboard
      reads this, keyboardBuffer
    {
      Keyboard(keyboardBuffer[..], kbBufIdx)
    }

    constructor ()
      ensures Clean(Snapshot()) && fresh(keyboardBuffer)
    {
      keyboardBuffer := new byte[KB_BUF_SIZE](_ => NUL);
      kbBufIdx := 0;
    }

    method Handle(key: Key)
      requires Shape(Snapshot())
      modifies this, keyboardBuffer
      ensures Snapshot() == Press(old(Snapshot()), key) && Shape(Snapshot())
    {
      match key
      case Backspace =>
        if kbBufIdx != 0 { kbBufIdx := kbBufIdx - 1; }
      case Enter =>
        keyboardBuffer[kbBufIdx] := NEWLINE;
        kbBufIdx := 0;
      case Char(c) =>
        if kbBufIdx < KB_BUF_SIZE - 1 {
          if c == 0 { return; }
          keyboardBuffer[kbBufIdx] := c;
          kbBufIdx := kbBufIdx + 1;
        }
    }

    /** detect_enter_signal, with the position it leaves in enter_position. */
    method DetectEnter() returns (found: bool, position: nat)
      requires Shape(Snapshot())
      ensures found <==> EnterAt(keyboardBuffer[..]) != -1
      ensures found ==> position == EnterAt(keyboardBuffer[..])
    {
      position := 0;
      while position < KB_BUF_SIZE
        invariant position <= KB_BUF_SIZE && forall i :: 0 <= i < position ==> !EndsLine(keyboardBuffer[..][i])
      {
        if keyboardBuffer[position] == NEWLINE || keyboardBuffer[position] == RETURN {
          assert EndsLine(keyboardBuffer[..][position]);
          return true, position;
        }
        position := position + 1;
      }
      return false, 0;
    }

    /** strncpy out of the buffer, where no NUL comes first. */
    method CopyOut(dest: array<byte>, n: nat)
      requires n <= keyboardBuffer.Length && n <= dest.Length && dest != keyboardBuffer
      requires forall i :: 0 <= i < n ==> keyboardBuffer[i] != NUL
      modifies dest
      ensures dest[..n] == keyboardBuffer[..n]
      ensures forall i :: n <= i < dest.Length ==> dest[i] == old(dest[i])
    {
      var i := 0;
      while i < n && keyboardBuffer[i] != NUL
        invariant 0 <= i <= n && dest[..i] == keyboardBuffer[..i]
        invariant forall j :: i <= j < dest.Length ==> dest[j] == old(dest[j])
        invariant keyboardBuffer[..] == old(keyboardBuffer[..])
      {
        dest[i] := keyboardBuffer[i];
        i := i + 1;
      }
    }

    /** terminal_read on the displayed terminal, when a line is waiting. */
    method TerminalRead(dest: array<byte>, num: int) returns (count: nat)
      requires Shape(Snapshot()) && EnterAt(keyboardBuffer[..]) != -1 && dest != keyboardBuffer
      requires -0x8000_0000 <= num < 0x8000_0000
      requires NUL !in keyboardBuffer[..EnterAt(keyboardBuffer[..])]
      requires dest.Length >= ReadCount(keyboardBuffer[..], num)
      modifies keyboardBuffer, dest
      ensures Shape(Snapshot()) && count <= dest.Length
      ensures (Snapshot(), dest[..count]) == Read(old(Snapshot()), num)
      ensures forall i :: count <= i < dest.Length ==> dest[i] == old(dest[i])
    {
      var limit := if num > TERMINAL_BUF_SIZE then TERMINAL_BUF_SIZE else num;
      var unsigned := if limit < 0 then limit + 0x1_0000_0000 else limit;
      var found, position := DetectEnter();
      if unsigned > position { unsigned := position + 1; }
      count := unsigned;
      assert count == ReadCount(old(Snapshot()).buf, num);
      ghost var line := old(Snapshot()).buf[..count];
      assert forall i :: 0 <= i < count ==> keyboardBuffer[i] != NUL by {
        assert EndsLine(keyboardBuffer[..][position]);
        assert forall i :: 0 <= i < position ==> keyboardBuffer[..position][i] == keyboardBuffer[i];
      }
      CopyOut(dest, count);
      assert dest[..count] == line;
      forall j | 0 <= j < KB_BUF_SIZE { keyboardBuffer[j] := NUL; }
      assert keyboardBuffer[..] == Zeros() && dest[..count] == line;
    }
  }
}
