/** The text screen: what one character does to the 80 by 25 cells and the cursor, and the unbounded
    transcript that the cells are a window on. */
module Screen {
  import opened CLib

  const NUM_COLS := 80
  const NUM_ROWS := 25
  const CELLS := NUM_COLS * NUM_ROWS
  const BLANK: byte := 32
  const TAB: byte := 9
  const BACKSPACE: byte := 8

  /** Character cells, screen_x, screen_y. */
  datatype Scr = Scr(cells: seq<byte>, x: int, y: int)

  // ----- one character -----

  function Blanks(n: nat): (s: seq<byte>)
    ensures |s| == n && forall i :: 0 <= i < n ==> s[i] == BLANK
  {
    seq(n, _ => BLANK)
  }

  function Cleared(): Scr {
    Scr(Blanks(CELLS), 0, 0)
  }

  /** A cursor may stand past the last column, but not of the last row; and past the end of a row above
      the first one. */
  predicate CursorOK(x: int, y: int) {
    0 <= x <= NUM_COLS && -1 <= y < NUM_ROWS && (x == NUM_COLS ==> y < NUM_ROWS - 1) && (y == -1 ==> x == NUM_COLS)
  }

  predicate OnScreen(s: Scr) {
    |s.cells| == CELLS && CursorOK(s.x, s.y)
  }

  /** newline: to the next row, scrolling at the bottom. */
  function NewLine(s: Scr): Scr
    requires |s.cells| == CELLS && -1 <= s.y < NUM_ROWS
  {
    if s.y + 1 >= NUM_ROWS then Scr(s.cells[NUM_COLS..] + Blanks(NUM_COLS), 0, NUM_ROWS - 1)
    else Scr(s.cells, 0, s.y + 1)
  }

  /** An ordinary character; a full row is left at once. */
  function Graphic(s: Scr, c: byte): Scr
    requires OnScreen(s)
  {
    var t := s.(cells := s.cells[NUM_COLS * s.y + s.x := c]);
    if s.x + 1 >= NUM_COLS then NewLine(t) else t.(x := s.x + 1)
  }

  /** A character other than backspace. */
  function Type(s: Scr, c: byte): Scr
    requires OnScreen(s)
  {
    if c == NUL || c == TAB then s
    else if c == NEWLINE || c == RETURN then NewLine(s)
    else Graphic(s, c)
  }

  /** enter_or_overflow afterwards: 1 after a line was ended, 0 after it overflowed. */
  function FlagAfter(s: Scr, flag: int, c: byte): int {
    if c == NUL || c == TAB then flag
    else if c == NEWLINE || c == RETURN then 1
    else if s.x + 1 >= NUM_COLS then 0
    else flag
  }

  /** The cell that a backspace blanks: the one before the cursor, or the one at it when the cursor is at
      the start of a line that Enter began. */
  function EraseCell(x: int, y: int, flag: int): int {
    NUM_COLS * y + if flag == 1 && x == 0 then 0 else x - 1
  }

  predicate OnPage(x: int, y: int, flag: int) {
    0 <= EraseCell(x, y, flag) < CELLS
  }

  /** When a backspace leaves the page: never after Enter, unless the cursor is already above the first
      row; and after an overflow only at the very first cell. */
  lemma EraseStaysOnPage(x: int, y: int, flag: int)
    requires CursorOK(x, y)
    ensures OnPage(x, y, flag) <==> y >= 0 && !(flag != 1 && x == 0 && y == 0)
  {
  }

  /** Backspace: within a line it moves back and blanks; at the start of a line that overflow began it
      goes up to the end of the one above. */
  function RubOut(s: Scr, flag: int): (r: (Scr, int))
    requires OnScreen(s) && OnPage(s.x, s.y, flag)
    ensures OnScreen(r.0)
  {
    var cells := s.cells[EraseCell(s.x, s.y, flag) := NUL];
    if flag == 1 then (Scr(cells, Max(s.x - 1, 0), s.y), 1)
    else if s.x <= 1 then (Scr(cells, NUM_COLS, s.y - 1), 1)
    else (Scr(cells, s.x - 1, s.y), flag)
  }

  /** Where a backspace takes the cursor, and the one cell that it blanks: in a line begun by Enter the one it
      then stands at, otherwise the one before it. */
  lemma RubOutBlanks(s: Scr, flag: int)
    requires OnScreen(s) && OnPage(s.x, s.y, flag)
    ensures var (r, f) := RubOut(s, flag);
            if flag == 1 then
              r.x == (if s.x == 0 then 0 else s.x - 1) && r.y == s.y && f == 1
              && 0 <= 80 * r.y + r.x < 2000 && r.cells == s.cells[80 * r.y + r.x := NUL]
            else
              && 0 <= 80 * s.y + s.x - 1 < 2000 && r.cells == s.cells[80 * s.y + s.x - 1 := NUL]
              && (if s.x >= 2 then r.x == s.x - 1 && r.y == s.y && f == flag else r.x == 80 && r.y == s.y - 1 && f == 1)
  {
  }

  /** It takes back a character typed before it, cursor included, unless that is the first one of a line
      that overflow began; and what stood there is gone. */
  lemma RubOutTakesBack(s: Scr, flag: int, c: byte)
    requires OnScreen(s) && s.y >= 0 && s.x + 1 < NUM_COLS && c != BACKSPACE && c != NUL && c != TAB && !Ends(c)
    ensures var (t, f) := Put(s, flag, c, false);
            && f == flag && OnPage(t.x, t.y, f)
            && var r := RubOut(t, f);
            && r.0.cells == s.cells[NUM_COLS * s.y + s.x := NUL]
            && (((r.0.x, r.0.y) == (s.x, s.y) && r.1 == flag) <==> flag == 1 || s.x > 0)
            && (flag != 1 && s.x == 0 ==> r == (Scr(r.0.cells, NUM_COLS, s.y - 1), 1))
  {
  }

  /** Whether the line was begun by Enter or by overflow matters to a backspace exactly in the first two
      columns. */
  lemma FlagMatters(s: Scr, f: int, g: int)
    requires OnScreen(s) && OnPage(s.x, s.y, f) && OnPage(s.x, s.y, g)
    ensures RubOut(s, f).0 == RubOut(s, g).0 <==> (f == 1 <==> g == 1) || s.x >= 2
  {
  }

  /** Any character. On a page that is not displayed NUL is drawn like any other: `raw`. */
  function Put(s: Scr, flag: int, c: byte, raw: bool): (r: (Scr, int))
    requires OnScreen(s) && (c == BACKSPACE ==> OnPage(s.x, s.y, flag))
    ensures OnScreen(r.0)
  {
    if c == BACKSPACE then RubOut(s, flag)
    else if c == NUL && raw then (Graphic(s, c), if s.x + 1 >= NUM_COLS then 0 else flag)
    else (Type(s, c), FlagAfter(s, flag, c))
  }

  /** That matters exactly for NUL. */
  lemma NulMatters(s: Scr, flag: int, c: byte)
    requires OnScreen(s) && (c == BACKSPACE ==> OnPage(s.x, s.y, flag))
    ensures Put(s, flag, c, true).0 == Put(s, flag, c, false).0 <==> c != NUL
  {
  }

  /** What becomes of enter_or_overflow: a line end sets it, a character that fills its row clears it, and
      nothing else changes it. */
  lemma FlagAfterPut(s: Scr, flag: int, c: byte, raw: bool)
    requires OnScreen(s) && c != BACKSPACE
    ensures var (t, f) := Put(s, flag, c, raw);
            f == if c == NEWLINE || c == RETURN then 1
                 else if c == TAB || (c == NUL && !raw) then flag
                 else if t.x == 0 then 0
                 else flag
  {
  }

  /** Any stream of characters; None once a backspace has left the page. */
  function PutAll(s: Scr, flag: int, cs: seq<byte>, raw: bool): (r: Option<(Scr, int)>)
    requires OnScreen(s)
    ensures r.Some? ==> OnScreen(r.value.0)
    decreases |cs|
  {
    if cs == [] then Some((s, flag))
    else
      match PutAll(s, flag, cs[..|cs| - 1], raw)
      case None => None
      case Some(r) => PutIf(r.0, r.1, cs[|cs| - 1], raw)
  }

  function PutIf(s: Scr, flag: int, c: byte, raw: bool): (r: Option<(Scr, int)>)
    requires OnScreen(s)
    ensures r.Some? ==> OnScreen(r.value.0)
  {
    if c == BACKSPACE && !OnPage(s.x, s.y, flag) then None else Some(Put(s, flag, c, raw))
  }

  /** The states of one screen that is used on its own. */
  predicate Safe(s: Scr, flag: int) {
    OnScreen(s) && s.y >= 0 && (flag == 0 || flag == 1) && (flag == 0 ==> s.y >= 1 && s.x < NUM_COLS)
  }

  /** Cursor safety: on a screen of its own every stream, backspaces included, writes to the 2000 cells
      only. */
  lemma {:induction false} EveryStreamStaysOnPage(s: Scr, flag: int, cs: seq<byte>)
    requires Safe(s, flag)
    ensures PutAll(s, flag, cs, false).Some?
    ensures Safe(PutAll(s, flag, cs, false).value.0, PutAll(s, flag, cs, false).value.1)
    decreases |cs|
  {
    if cs != [] { EveryStreamStaysOnPage(s, flag, cs[..|cs| - 1]); }
  }

  // ----- the transcript -----

  /** Whether `c` ends a line. */
  predicate Ends(c: byte) {
    c == NEWLINE || c == RETURN
  }

  function RowLen(s: seq<byte>): (n: nat)
    ensures n <= |s|
  {
    if s == [] || Ends(s[0]) then 0 else 1 + RowLen(s[1..])
  }

  /** The rows of a transcript: its lines, each wrapped as soon as it fills 80 columns. */
  function Rows(s: seq<byte>): (r: seq<seq<byte>>)
    ensures |r| > 0
    decreases |s|
  {
    var n := RowLen(s);
    if n == |s| then Cut(s, NUM_COLS) else Cut(s[..n], NUM_COLS) + Rows(s[n + 1..])
  }

  /** What reaches the transcript: NUL and tab are ignored. */
  function Visible(s: seq<byte>): seq<byte> {
    if s == [] then []
    else Visible(s[..|s| - 1]) + if s[|s| - 1] == NUL || s[|s| - 1] == TAB then [] else [s[|s| - 1]]
  }

  /** One more character at the end of a transcript. */
  function Feed(rows: seq<seq<byte>>, c: byte): seq<seq<byte>>
    requires |rows| > 0
  {
    var n := |rows| - 1;
    if Ends(c) then rows + [[]]
    else if |rows[n]| + 1 >= NUM_COLS then rows[..n] + [rows[n] + [c], []]
    else rows[..n] + [rows[n] + [c]]
  }

  lemma {:induction false} CutOfSnoc(line: seq<byte>, c: byte)
    requires !Ends(c)
    ensures |Cut(line, NUM_COLS)| > 0 && Cut(line + [c], NUM_COLS) == Feed(Cut(line, NUM_COLS), c)
    decreases |line|
  {
    if |line| < NUM_COLS - 1 {
    } else if |line| == NUM_COLS - 1 {
      assert (line + [c])[..NUM_COLS] == line + [c] && (line + [c])[NUM_COLS..] == [];
    } else {
      assert (line + [c])[..NUM_COLS] == line[..NUM_COLS] && (line + [c])[NUM_COLS..] == line[NUM_COLS..] + [c];
      CutOfSnoc(line[NUM_COLS..], c);
    }
  }

  lemma {:induction false} RowLenOfSnoc(s: seq<byte>, c: byte)
    ensures RowLen(s + [c]) == if RowLen(s) == |s| && !Ends(c) then |s| + 1 else RowLen(s)
  {
    if s != [] {
      assert (s + [c])[1..] == s[1..] + [c];
      RowLenOfSnoc(s[1..], c);
    }
  }

  lemma FeedBehind(a: seq<seq<byte>>, b: seq<seq<byte>>, c: byte)
    requires |b| > 0
    ensures Feed(a + b, c) == a + Feed(b, c)
  {
    assert (a + b)[..|a + b| - 1] == a + b[..|b| - 1];
  }

  lemma RowsOfLine(s: seq<byte>, c: byte)
    requires RowLen(s) == |s|
    ensures Rows(s + [c]) == Feed(Rows(s), c)
  {
    RowLenOfSnoc(s, c);
    if Ends(c) {
      assert (s + [c])[..|s|] == s && (s + [c])[|s| + 1..] == [];
      assert Rows([]) == [[]];
    } else {
      CutOfSnoc(s, c);
    }
  }

  lemma RowsSplit(s: seq<byte>, n: nat, line: seq<byte>, rest: seq<byte>)
    requires n == RowLen(s) < |s| && line == s[..n] && rest == s[n + 1..]
    ensures Rows(s) == Cut(line, NUM_COLS) + Rows(rest)
  {
  }

  /** The transcript grows at its end, whatever stands before. */
  lemma {:induction false} RowsOfSnoc(s: seq<byte>, c: byte)
    ensures Rows(s + [c]) == Feed(Rows(s), c)
    decreases |s|
  {
    var n := RowLen(s);
    if n == |s| {
      RowsOfLine(s, c);
    } else {
      var line, rest := s[..n], s[n + 1..];
      RowLenOfSnoc(s, c);
      assert (s + [c])[..n] == line && (s + [c])[n + 1..] == rest + [c];
      RowsSplit(s, n, line, rest);
      RowsSplit(s + [c], n, line, rest + [c]);
      RowsOfSnoc(rest, c);
      FeedBehind(Cut(line, NUM_COLS), Rows(rest), c);
    }
  }

  // ----- the screen is a window on the transcript -----

  /** The first transcript row on the screen. */
  function Top(rows: seq<seq<byte>>): nat {
    Max(0, |rows| - NUM_ROWS)
  }

  /** The character of transcript row `i` at column `j`, blank past its end and past the last row. */
  function At(rows: seq<seq<byte>>, i: nat, j: nat): byte {
    if i < |rows| && j < |rows[i]| then rows[i][j] else BLANK
  }

  function Cell(cells: seq<byte>, r: nat, j: nat): byte
    requires |cells| == CELLS && r < NUM_ROWS && j < NUM_COLS
  {
    cells[NUM_COLS * r + j]
  }

  /** The cells are the last 25 rows, padded with blanks. */
  ghost predicate Window(cells: seq<byte>, rows: seq<seq<byte>>) {
    && |cells| == CELLS && |rows| > 0
    && (forall i :: 0 <= i < |rows| ==> |rows[i]| <= NUM_COLS)
    && (forall r, j :: 0 <= r < NUM_ROWS && 0 <= j < NUM_COLS ==> Cell(cells, r, j) == At(rows, Top(rows) + r, j))
  }

  /** And the cursor is at the end. */
  ghost predicate Shows(s: Scr, rows: seq<seq<byte>>) {
    && Window(s.cells, rows)
    && s.x == |rows[|rows| - 1]| < NUM_COLS
    && s.y == Min(|rows|, NUM_ROWS) - 1
  }

  lemma NewLineShows(s: Scr, rows: seq<seq<byte>>)
    requires OnScreen(s) && Window(s.cells, rows) && s.y == Min(|rows|, NUM_ROWS) - 1
    ensures Shows(NewLine(s), rows + [[]])
  {
    var t, rows' := NewLine(s), rows + [[]];
    forall r, j | 0 <= r < NUM_ROWS && 0 <= j < NUM_COLS
      ensures Cell(t.cells, r, j) == At(rows', Top(rows') + r, j)
    {
      if s.y + 1 < NUM_ROWS {
        assert Cell(t.cells, r, j) == Cell(s.cells, r, j);
      } else if r < NUM_ROWS - 1 {
        assert Cell(t.cells, r, j) == Cell(s.cells, r + 1, j);
      }
    }
  }

  lemma WriteShows(s: Scr, rows: seq<seq<byte>>, c: byte)
    requires Shows(s, rows)
    ensures Window(s.cells[NUM_COLS * s.y + s.x := c], rows[|rows| - 1 := rows[|rows| - 1] + [c]])
  {
    var n := |rows| - 1;
    var cells', rows' := s.cells[NUM_COLS * s.y + s.x := c], rows[n := rows[n] + [c]];
    forall r, j | 0 <= r < NUM_ROWS && 0 <= j < NUM_COLS
      ensures Cell(cells', r, j) == At(rows', Top(rows') + r, j)
    {
      assert Cell(s.cells, r, j) == At(rows, Top(rows) + r, j);
      assert NUM_COLS * r + j == NUM_COLS * s.y + s.x <==> r == s.y && j == s.x;
    }
  }

  lemma GraphicShows(s: Scr, rows: seq<seq<byte>>, c: byte)
    requires Shows(s, rows) && !Ends(c)
    ensures Shows(Graphic(s, c), Feed(rows, c))
  {
    var n := |rows| - 1;
    var t, rows' := s.(cells := s.cells[NUM_COLS * s.y + s.x := c]), rows[n := rows[n] + [c]];
    WriteShows(s, rows, c);
    assert rows[..n] + [rows[n] + [c]] == rows';
    if s.x + 1 >= NUM_COLS {
      NewLineShows(t, rows');
      assert rows' + [[]] == Feed(rows, c);
    }
  }

  /** One character: the window moves with the transcript. */
  lemma TypeShows(s: Scr, rows: seq<seq<byte>>, c: byte)
    requires Shows(s, rows) && c != NUL && c != TAB
    ensures Shows(Type(s, c), Feed(rows, c))
  {
    if Ends(c) { NewLineShows(s, rows); } else { GraphicShows(s, rows, c); }
  }

  /** The characters typed on a screen, backspace excepted. */
  function TypeAll(s: Scr, cs: seq<byte>): (r: Scr)
    requires OnScreen(s)
    ensures OnScreen(r)
    decreases |cs|
  {
    if cs == [] then s else Type(TypeAll(s, cs[..|cs| - 1]), cs[|cs| - 1])
  }

  /** The scrolling screen refines the transcript: for every stream without backspace, from a cleared
      screen. */
  lemma {:induction false} ScreenShowsTranscript(cs: seq<byte>)
    requires BACKSPACE !in cs
    ensures Shows(TypeAll(Cleared(), cs), Rows(Visible(cs)))
    decreases |cs|
  {
    if cs == [] {
      assert Rows([]) == [[]];
      forall r, j | 0 <= r < NUM_ROWS && 0 <= j < NUM_COLS ensures Cell(Cleared().cells, r, j) == At([[]], r, j) {
      }
    } else {
      var n := |cs| - 1;
      ScreenShowsTranscript(cs[..n]);
      if cs[n] != NUL && cs[n] != TAB {
        TypeShows(TypeAll(Cleared(), cs[..n]), Rows(Visible(cs[..n])), cs[n]);
        RowsOfSnoc(Visible(cs[..n]), cs[n]);
      } else {
        assert Visible(cs) == Visible(cs[..n]);
      }
    }
  }

  lemma {:induction false} PutAllOfAppend(s: Scr, flag: int, a: seq<byte>, b: seq<byte>, raw: bool)
    requires OnScreen(s) && PutAll(s, flag, a, raw).Some?
    ensures var p := PutAll(s, flag, a, raw).value;
            PutAll(s, flag, a + b, raw) == PutAll(p.0, p.1, b, raw)
    decreases |b|
  {
    if b == [] {
      assert a + b == a;
    } else {
      assert (a + b)[..|a + b| - 1] == a + b[..|b| - 1];
      PutAllOfAppend(s, flag, a, b[..|b| - 1], raw);
    }
  }

  lemma PutOne(s: Scr, flag: int, c: byte, raw: bool)
    requires OnScreen(s)
    ensures PutAll(s, flag, [c], raw) == PutIf(s, flag, c, raw)
  {
    assert [c][..0] == [];
  }

  /** Where the cursor goes, and whether a backspace leaves the page, does not depend on the cells. */
  lemma {:induction false} CellsDoNotMatter(s: Scr, cells: seq<byte>, flag: int, cs: seq<byte>, raw: bool)
    requires OnScreen(s) && |cells| == CELLS
    ensures var a, b := PutAll(s, flag, cs, raw), PutAll(s.(cells := cells), flag, cs, raw);
            && a.Some? == b.Some?
            && (a.Some? ==> a.value.0.x == b.value.0.x && a.value.0.y == b.value.0.y && a.value.1 == b.value.1)
    decreases |cs|
  {
    if cs != [] { CellsDoNotMatter(s, cells, flag, cs[..|cs| - 1], raw); }
  }

  /** Without NULs it does not matter how they are drawn. */
  lemma {:induction false} RawDoesNotMatter(s: Scr, flag: int, cs: seq<byte>)
    requires OnScreen(s) && NUL !in cs
    ensures PutAll(s, flag, cs, true) == PutAll(s, flag, cs, false)
    decreases |cs|
  {
    if cs != [] { RawDoesNotMatter(s, flag, cs[..|cs| - 1]); }
  }

  /** Without backspaces it is the stream typed, whatever the flag. */
  lemma {:induction false} PutAllIsTypeAll(s: Scr, flag: int, cs: seq<byte>)
    requires OnScreen(s) && BACKSPACE !in cs
    ensures PutAll(s, flag, cs, false).Some? && PutAll(s, flag, cs, false).value.0 == TypeAll(s, cs)
    decreases |cs|
  {
    if cs != [] { PutAllIsTypeAll(s, flag, cs[..|cs| - 1]); }
  }

  /** The line at the end of a transcript. */
  function LastLine(s: seq<byte>): seq<byte> {
    if s == [] || Ends(s[|s| - 1]) then [] else LastLine(s[..|s| - 1]) + [s[|s| - 1]]
  }

  lemma {:induction false} LastRowIs(s: seq<byte>)
    ensures |Rows(s)[|Rows(s)| - 1]| == |LastLine(s)| % NUM_COLS
    decreases |s|
  {
    if s == [] {
      assert Rows([]) == [[]];
    } else {
      var n := |s| - 1;
      LastRowIs(s[..n]);
      RowsOfSnoc(s[..n], s[n]);
      assert s == s[..n] + [s[n]];
      NextColumn(|LastLine(s[..n])|);
    }
  }

  lemma NextColumn(n: nat)
    ensures (n + 1) % NUM_COLS == if n % NUM_COLS + 1 >= NUM_COLS then 0 else n % NUM_COLS + 1
    ensures n % NUM_COLS + 1 >= NUM_COLS ==> n + 1 >= NUM_COLS
    ensures n < NUM_COLS <= n + 1 ==> n % NUM_COLS + 1 >= NUM_COLS
  {
  }

  /** What enter_or_overflow says on a screen of its own: zero exactly if the line being typed has filled a
      row. */
  lemma {:induction false} FlagTellsOverflow(cs: seq<byte>)
    requires BACKSPACE !in cs
    ensures PutAll(Cleared(), 1, cs, false).Some?
    ensures PutAll(Cleared(), 1, cs, false).value.1 == if |LastLine(Visible(cs))| >= NUM_COLS then 0 else 1
    decreases |cs|
  {
    if cs != [] {
      var n := |cs| - 1;
      FlagTellsOverflow(cs[..n]);
      PutAllIsTypeAll(Cleared(), 1, cs[..n]);
      ScreenShowsTranscript(cs[..n]);
      LastRowIs(Visible(cs[..n]));
      NextColumn(|LastLine(Visible(cs[..n]))|);
      var s := TypeAll(Cleared(), cs[..n]);
      assert s.x == |LastLine(Visible(cs[..n]))| % NUM_COLS;
      if cs[n] != NUL && cs[n] != TAB {
        assert Visible(cs) == Visible(cs[..n]) + [cs[n]];
        assert Visible(cs)[..|Visible(cs)| - 1] == Visible(cs[..n]);
      } else {
        assert Visible(cs) == Visible(cs[..n]);
      }
    }
  }

  lemma {:induction false} TypeAllOfAppend(s: Scr, a: seq<byte>, b: seq<byte>)
    requires OnScreen(s)
    ensures TypeAll(s, a + b) == TypeAll(TypeAll(s, a), b)
    decreases |b|
  {
    if b == [] {
      assert a + b == a;
    } else {
      assert (a + b)[..|a + b| - 1] == a + b[..|b| - 1];
      TypeAllOfAppend(s, a, b[..|b| - 1]);
    }
  }
}
