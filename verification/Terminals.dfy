/** Three terminals on one screen: the displayed page, the backing pages, the saved cursors and
    keyboard buffers, and the page that video memory is mapped to. */
module Terminals {
  import opened CLib
  import opened Screen
  import L = LineEditor

  const TERMINALS := 3
  const KB_BUF_SIZE := L.KB_BUF_SIZE

  /** What a terminal is to its user: character cells, cursor, keyboard buffer and its fill. */
  datatype Terminal = Terminal(scr: Scr, kbBuf: seq<byte>, kbIdx: nat)

  /** What terminal_store keeps of a terminal that is not displayed, besides its page. */
  datatype Saved = Saved(x: int, y: int, kbBuf: seq<byte>, kbIdx: nat)

  /** Page 0 is the screen, page t the backing page of terminal t; `vid` is the page that video
      memory is mapped to; x, y, kbBuf and kbIdx are those of the displayed terminal. */
  datatype Video = Video(pages: seq<seq<byte>>, saved: seq<Saved>, x: int, y: int, flag: int,
                         kbBuf: seq<byte>, kbIdx: nat, display: nat, now: nat, vid: nat)

  datatype Event =
    | Switch(next: nat)            // pit_handler moves on to another terminal
    | Show(terminal: nat)          // terminal_shift to a live terminal
    | Start(terminal: nat, ok: bool) // terminal_shift to a new one; ok when its shell could be executed
    | Write(buf: seq<byte>)        // terminal_write by the running terminal
    | Key(c: byte)                 // a character, backspace or Enter at the keyboard

  /** "391OS> " */
  const PROMPT: seq<byte> := [51, 57, 49, 79, 83, 62, 32]

  predicate Shape(v: Video) {
    && |v.pages| == TERMINALS + 1 && (forall p :: 0 <= p <= TERMINALS ==> |v.pages[p]| == CELLS)
    && |v.saved| == TERMINALS
    && 1 <= v.display <= TERMINALS && v.now < TERMINALS && v.vid <= TERMINALS
    && (forall t :: 0 <= t < TERMINALS ==> |v.saved[t].kbBuf| == KB_BUF_SIZE && v.saved[t].kbIdx < KB_BUF_SIZE)
    && |v.kbBuf| == KB_BUF_SIZE && v.kbIdx < KB_BUF_SIZE
  }

  /** Terminal `t` as its user would see it. */
  function Logical(v: Video, t: nat): Terminal
    requires Shape(v) && 1 <= t <= TERMINALS
  {
    if t == v.display then Terminal(Scr(v.pages[0], v.x, v.y), v.kbBuf, v.kbIdx)
    else
      var s := v.saved[t - 1];
      Terminal(Scr(v.pages[t], s.x, s.y), s.kbBuf, s.kbIdx)
  }

  predicate Inv(v: Video) {
    && Shape(v) && CursorOK(v.x, v.y)
    && forall t :: 0 <= t < TERMINALS && t + 1 != v.display ==> CursorOK(v.saved[t].x, v.saved[t].y)
  }

  /** Where a terminal's screen stands: at the front for the one displayed, on its own page for another. */
  lemma WhereItStands(v: Video, t: nat)
    requires Shape(v) && 1 <= t <= TERMINALS
    ensures Logical(v, t).scr ==
              if t == v.display then Scr(v.pages[0], v.x, v.y)
              else Scr(v.pages[t], v.saved[t - 1].x, v.saved[t - 1].y)
  {
  }

  /** The page that the running terminal's output belongs on. */
  function HomePage(v: Video): nat {
    if v.now + 1 == v.display then 0 else v.now + 1
  }

  /** The running terminal's output goes to its own page. */
  predicate Placed(v: Video) {
    v.vid == HomePage(v)
  }

  // ----- the steps of the code -----

  function Store(v: Video, t: nat): Video
    requires Shape(v) && 1 <= t <= TERMINALS
  {
    v.(saved := v.saved[t - 1 := Saved(v.x, v.y, v.kbBuf, v.kbIdx)], pages := v.pages[t := v.pages[0]])
  }

  function Load(v: Video, t: nat): Video
    requires Shape(v) && 1 <= t <= TERMINALS
  {
    var s := v.saved[t - 1];
    v.(x := s.x, y := s.y, kbBuf := s.kbBuf, kbIdx := s.kbIdx, pages := v.pages[0 := v.pages[t]])
  }

  /** putc_modf: a character on the page that is mapped, at the displayed cursor. */
  function PutModf(v: Video, c: byte): (w: Video)
    requires Inv(v) && (c == BACKSPACE ==> OnPage(v.x, v.y, v.flag))
    ensures Inv(w) && w.vid == v.vid && w.now == v.now && w.display == v.display
  {
    var (t, flag) := Put(Scr(v.pages[v.vid], v.x, v.y), v.flag, c, false);
    v.(pages := v.pages[v.vid := t.cells], x := t.x, y := t.y, flag := flag)
  }

  /** putc_backstage, at the running terminal's saved cursor; it does not skip NUL. */
  function PutBackstage(v: Video, c: byte): (w: Video)
    requires Inv(v) && v.now + 1 != v.display
    requires c == BACKSPACE ==> OnPage(v.saved[v.now].x, v.saved[v.now].y, v.flag)
    ensures Inv(w) && w.vid == v.vid && w.now == v.now && w.display == v.display
  {
    var s := Scr(v.pages[v.vid], v.saved[v.now].x, v.saved[v.now].y);
    var (t, flag) := Put(s, v.flag, c, true);
    v.(pages := v.pages[v.vid := t.cells], saved := v.saved[v.now := v.saved[v.now].(x := t.x, y := t.y)], flag := flag)
  }

  /** The cell that a backspace of the running terminal blanks is on its page. */
  predicate RunningOnPage(v: Video)
    requires Shape(v)
  {
    if v.now + 1 == v.display then OnPage(v.x, v.y, v.flag) else OnPage(v.saved[v.now].x, v.saved[v.now].y, v.flag)
  }

  /** One character of the running terminal's output. */
  function PutRunning(v: Video, c: byte): (w: Video)
    requires Inv(v) && (c == BACKSPACE ==> RunningOnPage(v))
    ensures Inv(w) && w.vid == v.vid && w.now == v.now && w.display == v.display
  {
    if v.now + 1 == v.display then PutModf(v, c) else PutBackstage(v, c)
  }

  /** The loop of terminal_write over the first `n` characters; None once a backspace has left the page. */
  function PutAllRunning(v: Video, buf: seq<byte>, n: nat): (r: Option<Video>)
    requires Inv(v) && n <= |buf|
    ensures r.Some? ==> Inv(r.value) && r.value.vid == v.vid && r.value.now == v.now && r.value.display == v.display
  {
    if n == 0 then Some(v)
    else
      match PutAllRunning(v, buf, n - 1)
      case None => None
      case Some(w) => PutIfRunning(w, buf[n - 1])
  }

  function PutIfRunning(v: Video, c: byte): (r: Option<Video>)
    requires Inv(v)
    ensures r.Some? ==> Inv(r.value) && r.value.vid == v.vid && r.value.now == v.now && r.value.display == v.display
  {
    if c == BACKSPACE && !RunningOnPage(v) then None else Some(PutRunning(v, c))
  }

  lemma PutsBefore(v: Video, buf: seq<byte>, m: nat, n: nat)
    requires Inv(v) && m <= n <= |buf| && PutAllRunning(v, buf, n).Some?
    ensures PutAllRunning(v, buf, m).Some?
  {
  }

  /** If the loop of terminal_write gets through, its next character can be put. */
  lemma NextPut(v: Video, buf: seq<byte>, i: nat, w: Video)
    requires Inv(v) && i < |buf| && PutAllRunning(v, buf, |buf|).Some? && PutAllRunning(v, buf, i) == Some(w)
    ensures Inv(w) && (buf[i] == BACKSPACE ==> RunningOnPage(w))
    ensures PutAllRunning(v, buf, i + 1) == Some(PutRunning(w, buf[i]))
  {
    PutsBefore(v, buf, i + 1, |buf|);
    assert PutAllRunning(v, buf, i + 1) == PutIfRunning(w, buf[i]);
  }

  /** The newline that terminal_write puts before a prompt, on whatever screen is displayed. */
  function PutPrompt(v: Video, buf: seq<byte>): Video
    requires Inv(v)
  {
    if PROMPT <= buf then PutModf(v, NEWLINE) else v
  }

  function WriteNext(v: Video, buf: seq<byte>): Option<Video>
    requires Inv(v)
  {
    PutAllRunning(PutPrompt(v, buf), buf, |buf|)
  }

  /** A character, backspace or Enter as the line editor's key. */
  function KeyOf(c: byte): L.Key {
    if c == NEWLINE then L.Enter else if c == BACKSPACE then L.Backspace else L.Char(c)
  }

  /** The keyboard buffer after a key. */
  function StoredKey(v: Video, c: byte): Video
    requires Shape(v)
  {
    var k := L.Press(L.Keyboard(v.kbBuf, v.kbIdx), KeyOf(c));
    v.(kbBuf := k.buf, kbIdx := k.idx)
  }

  /** Whether a key is echoed: a backspace if there is something to take back, a character if there is room. */
  predicate Echoed(v: Video, c: byte) {
    if c == BACKSPACE then v.kbIdx > 0 else Ends(c) || v.kbIdx < KB_BUF_SIZE - 1
  }

  /** keyboard_handler, echo included. A backspace on an empty line is dropped before anything else. */
  function KeyNext(v: Video, c: byte): Video
    requires Inv(v) && KeyOnPage(v, c)
  {
    if c == BACKSPACE && v.kbIdx == 0 then v
    else
      var k := Struck(v.(vid := 0), c);
      if k.now + 1 != k.display then k.(vid := k.now + 1) else k
  }

  /** A key stored and echoed. */
  function Struck(v: Video, c: byte): (w: Video)
    requires Inv(v) && KeyOnPage(v, c)
    ensures Inv(w) && w.vid == v.vid && w.now == v.now && w.display == v.display
  {
    if Echoed(v, c) then PutModf(StoredKey(v, c), c) else StoredKey(v, c)
  }

  predicate KeyOnPage(v: Video, c: byte) {
    c == BACKSPACE && v.kbIdx > 0 ==> OnPage(v.x, v.y, v.flag)
  }

  function SwitchNext(v: Video, next: nat): Video
    requires Shape(v) && next < TERMINALS
  {
    if next == v.now then v
    else
      var w := v.(now := next);
      w.(vid := HomePage(w))
  }

  /** terminal_shift to a live terminal: at its end video memory is mapped to the running terminal's
      backing page, even if that terminal is now the displayed one. */
  function ShowNext(v: Video, terminal: nat): Video
    requires Shape(v) && 1 <= terminal <= TERMINALS
  {
    if terminal == v.display then v
    else Load(Store(v, v.display).(display := terminal), terminal).(vid := v.now + 1)
  }

  /** The displayed terminal stored, and a new one brought up on a blank screen. */
  function Fresh(v: Video, terminal: nat): (w: Video)
    requires Shape(v) && 1 <= terminal <= TERMINALS
    ensures Shape(w)
  {
    var w := Store(v, v.display);
    w.(display := terminal, pages := w.pages[0 := Cleared().cells], x := 0, y := 0,
       now := terminal - 1, kbIdx := 0, kbBuf := w.kbBuf[0 := NUL], vid := 0)
  }

  /** terminal_shift to a terminal that runs nothing: a fresh screen and a shell, or back. */
  function StartNext(v: Video, terminal: nat, ok: bool): Video
    requires Shape(v) && 1 <= terminal <= TERMINALS && terminal != v.display
  {
    var w := Fresh(v, terminal);
    if ok then w else Load(w.(now := v.now, display := v.display), v.display).(vid := v.now + 1)
  }

  // ----- what each event means for one terminal -----

  /** An event that can happen: shells are started on terminals that do not run, keys are what the handler
      stores, and no backspace leaves the page. */
  predicate Defined(v: Video, e: Event)
    requires Inv(v)
  {
    match e
    case Switch(next) => next < TERMINALS
    case Show(terminal) => 1 <= terminal <= TERMINALS
    case Start(terminal, ok) => 2 <= terminal <= TERMINALS && terminal != v.display && terminal != v.now + 1
    case Write(buf) => WriteNext(v, buf).Some?
    case Key(c) => (c == NEWLINE || c == BACKSPACE || L.Printable(c)) && KeyOnPage(v, c)
  }

  function Next(v: Video, e: Event): Video
    requires Inv(v) && Defined(v, e)
  {
    match e
    case Switch(next) => SwitchNext(v, next)
    case Show(terminal) => ShowNext(v, terminal)
    case Start(terminal, ok) => StartNext(v, terminal, ok)
    case Write(buf) => WriteNext(v, buf).value
    case Key(c) => KeyNext(v, c)
  }

  /** Video memory is mapped to the page of the running terminal, or it is that terminal's backing page
      though the terminal is displayed. */
  predicate Mapped(v: Video) {
    Placed(v) || (v.now + 1 == v.display && v.vid == v.display)
  }

  predicate Good(v: Video) {
    Inv(v) && Mapped(v)
  }

  /** What can happen to a terminal's screen. */
  datatype Action =
    | Typed(flag: int, raw: bool, out: seq<byte>) // output, with enter_or_overflow as it was found
    | Missed(flag: int, out: seq<byte>)           // output that went to another page: the cursor moves on
    | Broken                                      // a prompt from the background takes the cursor to a new row
    | Pushed                                      // and, if there is none, moves the rows of the prompting terminal up

  /** A screen that has been given `out`. */
  function GivenScr(s: Scr, flag: int, out: seq<byte>, raw: bool): (r: Scr)
    requires OnScreen(s)
    ensures OnScreen(r)
  {
    match PutAll(s, flag, out, raw)
    case None => s
    case Some(r) => r.0
  }

  function Act(s: Scr, a: Action): (r: Scr)
    requires OnScreen(s)
    ensures OnScreen(r)
  {
    match a
    case Typed(flag, raw, out) => GivenScr(s, flag, out, raw)
    case Missed(flag, out) =>
      var r := GivenScr(s, flag, out, false);
      s.(x := r.x, y := r.y)
    case Broken => s.(x := 0, y := Min(s.y + 1, NUM_ROWS - 1))
    case Pushed => s.(cells := s.cells[NUM_COLS..] + Blanks(NUM_COLS))
  }

  function ActAll(s: Scr, acts: seq<Action>): (r: Scr)
    requires OnScreen(s)
    ensures OnScreen(r)
    decreases |acts|
  {
    if acts == [] then s else Act(ActAll(s, acts[..|acts| - 1]), acts[|acts| - 1])
  }

  /** What terminal_write puts before its buffer. */
  function Before(buf: seq<byte>): seq<byte> {
    if PROMPT <= buf then [NEWLINE] else []
  }

  /** What a write of the running terminal does to that terminal. */
  function OwnActions(v: Video, buf: seq<byte>): seq<Action>
    requires Shape(v)
  {
    if v.now + 1 != v.display then
      if !(PROMPT <= buf) then [Typed(v.flag, true, buf)]
      else if v.y + 1 >= NUM_ROWS then [Pushed, Typed(1, true, buf)]
      else [Typed(1, true, buf)]
    else if Placed(v) then [Typed(v.flag, false, Before(buf) + buf)]
    else [Missed(v.flag, Before(buf) + buf)]
  }

  /** What an event does to the screen of terminal `t`. */
  function Actions(v: Video, e: Event, t: nat): seq<Action>
    requires Shape(v)
  {
    match e
    case Write(buf) =>
      if t == v.now + 1 then OwnActions(v, buf)
      else if t == v.display && PROMPT <= buf then [Broken]
      else []
    case Key(c) => if t == v.display && Echoed(v, c) then [Typed(v.flag, false, [c])] else []
    case _ => []
  }

  /** What an event makes of terminal `t`. */
  function Acted(v: Video, e: Event, t: nat): Terminal
    requires Inv(v) && 1 <= t <= TERMINALS
  {
    var l := Logical(v, t);
    if e.Start? && e.ok && e.terminal == t then Terminal(Cleared(), v.kbBuf[0 := NUL], 0)
    else
      var scr := ActAll(l.scr, Actions(v, e, t));
      if e.Key? && t == v.display then
        var k := L.Press(L.Keyboard(l.kbBuf, l.kbIdx), KeyOf(e.c));
        Terminal(scr, k.buf, k.idx)
      else l.(scr := scr)
  }

  lemma ActNone(s: Scr)
    requires OnScreen(s)
    ensures ActAll(s, []) == s
  {
  }

  lemma ActOne(s: Scr, a: Action)
    requires OnScreen(s)
    ensures ActAll(s, [a]) == Act(s, a)
  {
    assert [a][..0] == [];
  }

  lemma ActTwo(s: Scr, a: Action, b: Action)
    requires OnScreen(s)
    ensures ActAll(s, [a, b]) == Act(Act(s, a), b)
  {
    assert [a, b][..1] == [a];
    ActOne(s, a);
  }

  lemma SwitchActs(v: Video, next: nat)
    requires Inv(v) && next < TERMINALS
    ensures Inv(SwitchNext(v, next)) && forall t :: 1 <= t <= TERMINALS ==>
            Logical(SwitchNext(v, next), t) == Logical(v, t)
  {
    assert forall t :: 1 <= t <= TERMINALS ==> Logical(SwitchNext(v, next), t) == Logical(v, t);
  }

  /** Shifting between live terminals changes nothing that a user would see. */
  lemma ShowActs(v: Video, terminal: nat)
    requires Inv(v) && 1 <= terminal <= TERMINALS
    ensures Inv(ShowNext(v, terminal)) && forall t :: 1 <= t <= TERMINALS ==>
            Logical(ShowNext(v, terminal), t) == Logical(v, t)
  {
    assert forall t :: 1 <= t <= TERMINALS ==> Logical(ShowNext(v, terminal), t) == Logical(v, t);
  }

  lemma StartActs(v: Video, terminal: nat, ok: bool, t: nat)
    requires Inv(v) && 2 <= terminal <= TERMINALS && terminal != v.display && terminal != v.now + 1
    requires 1 <= t <= TERMINALS
    ensures Inv(StartNext(v, terminal, ok))
    ensures Logical(StartNext(v, terminal, ok), t) ==
              if ok && t == terminal then Terminal(Cleared(), v.kbBuf[0 := NUL], 0) else Logical(v, t)
  {
  }

  // ----- output, character by character -----

  /** The page that is mapped, with the running terminal's cursor. */
  function RunningScr(v: Video): Scr
    requires Shape(v)
  {
    if v.now + 1 == v.display then Scr(v.pages[v.vid], v.x, v.y)
    else Scr(v.pages[v.vid], v.saved[v.now].x, v.saved[v.now].y)
  }

  function WithRunning(v: Video, s: Scr, flag: int): Video
    requires Shape(v)
  {
    var pages := v.pages[v.vid := s.cells];
    if v.now + 1 == v.display then v.(pages := pages, x := s.x, y := s.y, flag := flag)
    else v.(pages := pages, saved := v.saved[v.now := v.saved[v.now].(x := s.x, y := s.y)], flag := flag)
  }

  lemma WithTwice(v: Video, a: Scr, f: int, b: Scr, g: int)
    requires Shape(v) && |a.cells| == CELLS
    ensures Shape(WithRunning(v, a, f)) && RunningScr(WithRunning(v, a, f)) == a
    ensures WithRunning(WithRunning(v, a, f), b, g) == WithRunning(v, b, g)
  {
  }

  lemma WithItself(v: Video)
    requires Shape(v)
    ensures WithRunning(v, RunningScr(v), v.flag) == v
  {
  }

  lemma PutRunningIs(v: Video, c: byte)
    requires Inv(v)
    ensures PutIfRunning(v, c) ==
              match PutIf(RunningScr(v), v.flag, c, v.now + 1 != v.display)
              case None => None
              case Some(p) => Some(WithRunning(v, p.0, p.1))
  {
  }

  /** The loop of terminal_write is the stream put on the page that is mapped. */
  lemma {:induction false} PutAllRunningIs(v: Video, buf: seq<byte>, n: nat)
    requires Inv(v) && n <= |buf|
    ensures PutAllRunning(v, buf, n) ==
              match PutAll(RunningScr(v), v.flag, buf[..n], v.now + 1 != v.display)
              case None => None
              case Some(p) => Some(WithRunning(v, p.0, p.1))
  {
    if n == 0 {
      WithItself(v);
    } else {
      PutAllRunningIs(v, buf, n - 1);
      assert buf[..n][..n - 1] == buf[..n - 1];
      var r := PutAll(RunningScr(v), v.flag, buf[..n - 1], v.now + 1 != v.display);
      if r.Some? {
        var w := WithRunning(v, r.value.0, r.value.1);
        PutRunningIs(w, buf[n - 1]);
        var q := PutIf(r.value.0, r.value.1, buf[n - 1], v.now + 1 != v.display);
        if q.Some? {
          WithTwice(v, r.value.0, r.value.1, q.value.0, q.value.1);
        } else {
          WithTwice(v, r.value.0, r.value.1, r.value.0, r.value.1);
        }
      }
    }
  }

  /** Who sees it: the running terminal, or nobody. */
  lemma WithRunningIs(v: Video, s: Scr, flag: int, t: nat)
    requires Good(v) && OnScreen(s) && 1 <= t <= TERMINALS
    ensures Inv(WithRunning(v, s, flag))
    ensures var l := Logical(v, t);
            Logical(WithRunning(v, s, flag), t) ==
              if t != v.now + 1 then l
              else if Placed(v) then l.(scr := s)
              else l.(scr := l.scr.(x := s.x, y := s.y))
  {
  }

  /** Where the running terminal's output is put, in its user's terms. */
  lemma RunningScrIs(v: Video)
    requires Good(v)
    ensures var s := Logical(v, v.now + 1).scr;
            if Placed(v) then RunningScr(v) == s else RunningScr(v) == s.(cells := v.pages[v.vid])
  {
  }

  /** What a stream put on the mapped page would make of the running terminal's own screen. */
  lemma OwnStream(v: Video, buf: seq<byte>, p: (Scr, int))
    requires Good(v) && PutAll(RunningScr(v), v.flag, buf, v.now + 1 != v.display) == Some(p)
    ensures var s, raw := Logical(v, v.now + 1).scr, v.now + 1 != v.display;
            && PutAll(s, v.flag, buf, raw).Some?
            && (if Placed(v) then Act(s, Typed(v.flag, raw, buf)) == p.0
                else Act(s, Missed(v.flag, buf)) == s.(x := p.0.x, y := p.0.y))
  {
    RunningScrIs(v);
    CellsDoNotMatter(Logical(v, v.now + 1).scr, v.pages[v.vid], v.flag, buf, v.now + 1 != v.display);
  }

  lemma StreamActs(v: Video, buf: seq<byte>, p: (Scr, int), t: nat)
    requires Good(v) && 1 <= t <= TERMINALS && OnScreen(p.0)
    requires PutAll(RunningScr(v), v.flag, buf, v.now + 1 != v.display) == Some(p)
    ensures var l, raw := Logical(v, t), v.now + 1 != v.display;
            var a := if Placed(v) then Typed(v.flag, raw, buf) else Missed(v.flag, buf);
            && Inv(WithRunning(v, p.0, p.1))
            && Logical(WithRunning(v, p.0, p.1), t) == if t == v.now + 1 then l.(scr := Act(l.scr, a)) else l
  {
    OwnStream(v, buf, p);
    WithRunningIs(v, p.0, p.1, t);
  }

  /** Output without a prompt. */
  lemma PlainActs(v: Video, buf: seq<byte>, t: nat)
    requires Good(v) && 1 <= t <= TERMINALS && PutAllRunning(v, buf, |buf|).Some?
    ensures PutAll(Logical(v, v.now + 1).scr, v.flag, buf, v.now + 1 != v.display).Some?
    ensures var l, raw := Logical(v, t), v.now + 1 != v.display;
            var a := if Placed(v) then Typed(v.flag, raw, buf) else Missed(v.flag, buf);
            Logical(PutAllRunning(v, buf, |buf|).value, t) == if t == v.now + 1 then l.(scr := Act(l.scr, a)) else l
  {
    assert buf[..|buf|] == buf;
    PutAllRunningIs(v, buf, |buf|);
    var p := PutAll(RunningScr(v), v.flag, buf, v.now + 1 != v.display).value;
    assert PutAllRunning(v, buf, |buf|).value == WithRunning(v, p.0, p.1);
    OwnStream(v, buf, p);
    StreamActs(v, buf, p, t);
  }

  lemma NewlineFirst(s: Scr, flag: int, buf: seq<byte>)
    requires OnScreen(s)
    ensures PutAll(s, flag, [NEWLINE] + buf, false) == PutAll(NewLine(s), 1, buf, false)
  {
    PutOne(s, flag, NEWLINE, false);
    PutAllOfAppend(s, flag, [NEWLINE], buf, false);
  }

  /** The newline before a prompt of the displayed terminal. */
  lemma OwnNewline(v: Video, t: nat)
    requires Good(v) && 1 <= t <= TERMINALS && v.now + 1 == v.display
    ensures var w, s := PutModf(v, NEWLINE), Logical(v, v.now + 1).scr;
            && Good(w) && w.flag == 1 && (Placed(w) <==> Placed(v))
            && (t != v.now + 1 ==> Logical(w, t) == Logical(v, t))
            && Logical(w, v.now + 1) ==
                 Logical(v, v.now + 1).(scr := if Placed(v) then NewLine(s) else NewLine(s).(cells := s.cells))
  {
  }

  /** Output goes on from a screen or from one with other cells to the same cursor. */
  lemma MissedAlike(s: Scr, cells: seq<byte>, flag: int, buf: seq<byte>)
    requires OnScreen(s) && |cells| == CELLS && PutAll(s, flag, buf, false).Some?
    ensures PutAll(s.(cells := cells), flag, buf, false).Some?
    ensures var a, b := GivenScr(s, flag, buf, false), GivenScr(s.(cells := cells), flag, buf, false);
            a.x == b.x && a.y == b.y
  {
    CellsDoNotMatter(s, cells, flag, buf, false);
  }

  /** A newline and more that go to another page: only the cursor moves, from where the newline took it. */
  lemma MissedAfterNewline(s: Scr, u: Scr, flag: int, buf: seq<byte>)
    requires OnScreen(s) && u == NewLine(s).(cells := s.cells) && PutAll(u, 1, buf, false).Some?
    ensures Act(s, Missed(flag, [NEWLINE] + buf)) == Act(u, Missed(1, buf))
  {
    NewlineFirst(s, flag, buf);
    MissedAlike(u, NewLine(s).cells, 1, buf);
    assert u.(cells := NewLine(s).cells) == NewLine(s);
  }

  lemma TypedAfterNewline(s: Scr, flag: int, buf: seq<byte>)
    requires OnScreen(s) && PutAll(NewLine(s), 1, buf, false).Some?
    ensures Act(s, Typed(flag, false, [NEWLINE] + buf)) == Act(NewLine(s), Typed(1, false, buf))
  {
    NewlineFirst(s, flag, buf);
  }

  /** A prompt of the displayed terminal. */
  lemma PromptActs(v: Video, buf: seq<byte>, t: nat)
    requires Good(v) && 1 <= t <= TERMINALS && v.now + 1 == v.display && PROMPT <= buf && WriteNext(v, buf).Some?
    ensures var l := Logical(v, t);
            var a := if Placed(v) then Typed(v.flag, false, [NEWLINE] + buf) else Missed(v.flag, [NEWLINE] + buf);
            Logical(WriteNext(v, buf).value, t) == if t == v.now + 1 then l.(scr := Act(l.scr, a)) else l
  {
    var w, s := PutModf(v, NEWLINE), Logical(v, v.now + 1).scr;
    OwnNewline(v, t);
    PlainActs(w, buf, t);
    if Placed(v) {
      TypedAfterNewline(s, v.flag, buf);
    } else {
      MissedAfterNewline(s, Logical(w, v.now + 1).scr, v.flag, buf);
    }
  }

  /** What the newline before a prompt does when the prompt comes from the background: it moves the displayed
      cursor, and the mapped page when there is no row left. */
  lemma BackgroundNewline(v: Video, t: nat)
    requires Good(v) && 1 <= t <= TERMINALS && v.now + 1 != v.display
    ensures var w := PutModf(v, NEWLINE);
            && Good(w) && w.flag == 1
            && Logical(w, t) ==
                 var l := Logical(v, t);
                 if t == v.display then l.(scr := Act(l.scr, Broken))
                 else if t == v.now + 1 && v.y + 1 >= NUM_ROWS then l.(scr := Act(l.scr, Pushed))
                 else l
  {
  }

  lemma BackgroundPromptActs(v: Video, buf: seq<byte>, t: nat)
    requires Good(v) && 1 <= t <= TERMINALS && v.now + 1 != v.display && PROMPT <= buf && WriteNext(v, buf).Some?
    ensures Logical(WriteNext(v, buf).value, t) == Acted(v, Write(buf), t)
  {
    var w, s := PutModf(v, NEWLINE), Logical(v, t).scr;
    BackgroundNewline(v, t);
    PlainActs(w, buf, t);
    if t == v.now + 1 {
      ActOne(s, Typed(1, true, buf));
      ActTwo(s, Pushed, Typed(1, true, buf));
    } else {
      ActOne(s, Broken);
      ActNone(s);
    }
  }

  lemma WriteActs(v: Video, buf: seq<byte>, t: nat)
    requires Good(v) && Defined(v, Write(buf)) && 1 <= t <= TERMINALS
    ensures Logical(WriteNext(v, buf).value, t) == Acted(v, Write(buf), t)
  {
    var s := Logical(v, t).scr;
    if v.now + 1 != v.display && PROMPT <= buf {
      BackgroundPromptActs(v, buf, t);
    } else {
      if PROMPT <= buf {
        PromptActs(v, buf, t);
      } else {
        PlainActs(v, buf, t);
        assert [] + buf == buf;
      }
      ActNone(s);
      if t == v.now + 1 { ActOne(s, OwnActions(v, buf)[0]); }
    }
  }

  lemma KeyActs(v: Video, c: byte, t: nat)
    requires Inv(v) && Defined(v, Key(c)) && 1 <= t <= TERMINALS
    ensures Inv(KeyNext(v, c)) && Logical(KeyNext(v, c), t) == Acted(v, Key(c), t)
  {
    var s := Logical(v, t).scr;
    ActNone(s);
    ActOne(s, Typed(v.flag, false, [c]));
    PutOne(Logical(v, v.display).scr, v.flag, c, false);
  }

  lemma StepKeepsGood(v: Video, e: Event)
    requires Good(v) && Defined(v, e)
    ensures Good(Next(v, e))
  {
    match e
    case Switch(next) => SwitchActs(v, next);
    case Show(terminal) => ShowActs(v, terminal);
    case Start(terminal, ok) => StartActs(v, terminal, ok, 1);
    case Write(buf) =>
    case Key(c) => KeyActs(v, c, 1);
  }

  lemma StepActsOn(v: Video, e: Event, t: nat)
    requires Good(v) && Defined(v, e) && 1 <= t <= TERMINALS
    ensures Inv(Next(v, e)) && Logical(Next(v, e), t) == Acted(v, e, t)
  {
    StepKeepsGood(v, e);
    match e
    case Switch(next) => SwitchActs(v, next);
    case Show(terminal) => ShowActs(v, terminal);
    case Start(terminal, ok) => StartActs(v, terminal, ok, t);
    case Write(buf) => WriteActs(v, buf, t);
    case Key(c) => KeyActs(v, c, t);
  }

  /** What a key does to the displayed screen: a character is drawn while there is room for it, Enter starts
      a new row, a backspace rubs out while there is something to take back. */
  lemma KeyIsDrawn(v: Video, c: byte)
    requires Inv(v) && Defined(v, Key(c))
    ensures Inv(KeyNext(v, c))
    ensures var s, s' := Logical(v, v.display).scr, Logical(KeyNext(v, c), v.display).scr;
            && (c == NEWLINE ==> s' == NewLine(s))
            && (L.Printable(c) ==> s' == if v.kbIdx < L.KB_BUF_SIZE - 1 then Type(s, c) else s)
            && (c == BACKSPACE && v.kbIdx == 0 ==> KeyNext(v, c) == v)
            && (c == BACKSPACE && v.kbIdx > 0 ==> OnPage(s.x, s.y, v.flag) && s' == RubOut(s, v.flag).0)
  {
    KeyActs(v, c, v.display);
    var s := Logical(v, v.display).scr;
    ActNone(s);
    ActOne(s, Typed(v.flag, false, [c]));
    PutOne(s, v.flag, c, false);
  }

  /** Multiplexing, for every event: what it makes of each terminal, whichever is displayed. */
  lemma StepActs(v: Video, e: Event)
    requires Good(v) && Defined(v, e)
    ensures Good(Next(v, e)) && forall t :: 1 <= t <= TERMINALS ==> Logical(Next(v, e), t) == Acted(v, e, t)
  {
    StepKeepsGood(v, e);
    forall t | 1 <= t <= TERMINALS ensures Logical(Next(v, e), t) == Acted(v, e, t) { StepActsOn(v, e, t); }
  }

  // ----- isolation -----

  /** The terminal an event is about. */
  predicate About(v: Video, e: Event, t: nat) {
    || (e.Write? && t == v.now + 1)
    || (e.Key? && t == v.display)
    || (e.Start? && e.ok && t == e.terminal)
  }

  /** A prompt of a terminal that is not displayed. */
  predicate PromptsBehind(v: Video, e: Event) {
    e.Write? && PROMPT <= e.buf && v.now + 1 != v.display
  }

  /** Isolation: an event leaves a terminal that it is not about as it was, unless it is a prompt from the
      background, the terminal is the displayed one, and its cursor is not at the start of the last row. */
  lemma StepIsolated(v: Video, e: Event, t: nat)
    requires Good(v) && Defined(v, e) && 1 <= t <= TERMINALS && !About(v, e, t)
    ensures Logical(Next(v, e), t) == Logical(v, t) <==>
              !(PromptsBehind(v, e) && t == v.display && !(v.x == 0 && v.y == NUM_ROWS - 1))
  {
    StepActs(v, e);
    ActNone(Logical(v, t).scr);
    ActOne(Logical(v, t).scr, Broken);
  }

  // ----- where video memory is mapped -----

  /** The mapping after every event, whatever it was before: terminal_shift maps the running terminal's
      backing page at its end, which is wrong when that terminal is the one displayed then. */
  lemma MappingAfter(v: Video, e: Event)
    requires Inv(v) && Defined(v, e)
    ensures Placed(Next(v, e)) <==>
              match e
              case Switch(next) => next != v.now || Placed(v)
              case Show(terminal) => if terminal == v.display then Placed(v) else terminal != v.now + 1
              case Start(terminal, ok) => ok || v.now + 1 != v.display
              case Write(buf) => Placed(v)
              case Key(c) => c == BACKSPACE && v.kbIdx == 0 ==> Placed(v)
  {
  }

  /** The events that misplace the output: showing the running terminal, and failing to start a new one
      while the running terminal is displayed. */
  predicate Misplaces(v: Video, e: Event) {
    || (e.Show? && e.terminal != v.display && e.terminal == v.now + 1)
    || (e.Start? && !e.ok && v.now + 1 == v.display)
  }

  lemma MappingBreaks(v: Video, e: Event)
    requires Inv(v) && Defined(v, e) && Placed(v)
    ensures Placed(Next(v, e)) <==> !Misplaces(v, e)
  {
    MappingAfter(v, e);
  }

  /** With the wrong mapping the running terminal's output never changes the displayed cells; an ordinary
      character moves the cursor all the same. */
  lemma OutputMissesTheScreen(v: Video, c: byte)
    requires Inv(v) && v.now + 1 == v.display && v.vid == v.display && (c == BACKSPACE ==> RunningOnPage(v))
    ensures var a, b := Logical(v, v.display).scr, Logical(PutRunning(v, c), v.display).scr;
            && b.cells == a.cells
            && (c != NUL && c != TAB && c != BACKSPACE && !Ends(c) ==> (b.x, b.y) != (a.x, a.y))
  {
  }

  /** As terminal_init and the clear before the first shell leave things: terminal 1 displayed and
      running, its screen blank, video memory mapped to it. */
  function Initial(junk: seq<byte>, keys: seq<byte>): (v: Video)
    requires |junk| == CELLS && |keys| == KB_BUF_SIZE
    ensures Good(v) && Placed(v)
    ensures Logical(v, 1) == Terminal(Cleared(), keys, 0)
    ensures Logical(v, 2) == Logical(v, 3) == Terminal(Scr(junk, 0, 0), keys, 0)
  {
    var s := Saved(0, 0, keys, 0);
    Video([Cleared().cells, junk, junk, junk], [s, s, s], 0, 0, 1, keys, 0, 1, 0, 0)
  }

  /** The wrong mapping is reached in one event from the start, and without any failure in three. */
  lemma MisplacedIsReached(junk: seq<byte>, keys: seq<byte>)
    requires |junk| == CELLS && |keys| == KB_BUF_SIZE
    ensures var v := Initial(junk, keys);
            && Defined(v, Start(2, false))
            && !Placed(Next(v, Start(2, false)))
    ensures var v := Initial(junk, keys);
            && Defined(v, Start(2, true))
            && var v1 := Next(v, Start(2, true));
            && Inv(v1) && Defined(v1, Show(1))
            && var v2 := Next(v1, Show(1));
            && Inv(v2) && Placed(v2) && Defined(v2, Show(2)) && !Placed(Next(v2, Show(2)))
  {
    var v := Initial(junk, keys);
    MappingAfter(v, Start(2, false));
    StepActs(v, Start(2, true));
    var v1 := Next(v, Start(2, true));
    StepActs(v1, Show(1));
    MappingAfter(v1, Show(1));
    MappingAfter(Next(v1, Show(1)), Show(2));
  }

  /** A row of `n` letters. */
  function Letters(n: nat): seq<byte> {
    if n == 0 then [] else Letters(n - 1) + [97]
  }

  lemma {:induction false} RowOverflows(n: nat)
    requires n <= NUM_COLS
    ensures |Letters(n)| == n && !(PROMPT <= Letters(n))
    ensures var r := PutAll(Cleared(), 1, Letters(n), false);
            r.Some? && if n < NUM_COLS then r.value.0.x == n && r.value.0.y == 0 && r.value.1 == 1 else r.value.1 == 0
  {
    if n > 0 {
      RowOverflows(n - 1);
      assert Letters(n)[..n - 1] == Letters(n - 1);
      assert PROMPT <= Letters(n) ==> Letters(n)[0] == PROMPT[0] && Letters(n)[0] in Letters(n);
      OnlyLetters(n);
    }
  }

  lemma {:induction false} OnlyLetters(n: nat)
    ensures forall c :: c in Letters(n) ==> c == 97
  {
    if n > 0 { OnlyLetters(n - 1); }
  }

  /** Terminal 2 started from the beginning, and a row written there. */
  function AfterARow(junk: seq<byte>, keys: seq<byte>): (v: Video)
    requires |junk| == CELLS && |keys| == KB_BUF_SIZE
    ensures Good(v) && v.flag == 0 && v.now == 1 && v.display == 2 && Logical(v, 1).scr == Cleared()
    ensures Defined(Initial(junk, keys), Start(2, true))
    ensures var v1 := Next(Initial(junk, keys), Start(2, true));
            Inv(v1) && Defined(v1, Write(Letters(NUM_COLS))) && v == Next(v1, Write(Letters(NUM_COLS)))
  {
    var v1 := Next(Initial(junk, keys), Start(2, true));
    var row := Letters(NUM_COLS);
    StepActs(Initial(junk, keys), Start(2, true));
    RowOverflows(NUM_COLS);
    assert row[..NUM_COLS] == row;
    PutAllRunningIs(v1, row, NUM_COLS);
    StepActs(v1, Write(row));
    StepIsolated(v1, Write(row), 1);
    Next(v1, Write(row))
  }

  /** The state in which a backspace leaves the page is reached: a row that overflows on one terminal, and a
      backspace at the first cell of another. */
  lemma OffPageIsReached(junk: seq<byte>, keys: seq<byte>)
    requires |junk| == CELLS && |keys| == KB_BUF_SIZE
    ensures var v := AfterARow(junk, keys);
            && Defined(v, Show(1))
            && var v1 := Next(v, Show(1));
            && Inv(v1) && Defined(v1, Switch(0))
            && var v2 := Next(v1, Switch(0));
            Inv(v2) && Placed(v2) && WriteNext(v2, [BACKSPACE]).None?
  {
    var v := AfterARow(junk, keys);
    StepActs(v, Show(1));
    StepActs(Next(v, Show(1)), Switch(0));
    var v2 := Next(Next(v, Show(1)), Switch(0));
    assert PutAllRunning(v2, [BACKSPACE], 0) == Some(v2);
    assert PutAllRunning(v2, [BACKSPACE], 1).None?;
  }

  // ----- whole runs -----

  /** Everything that happened to a terminal since its screen was last cleared; None before it was started. */
  type Streams = s: seq<Option<seq<Action>>> | |s| == TERMINALS witness [None, None, None]

  function StreamAfter(v: Video, stream: Option<seq<Action>>, e: Event, t: nat): Option<seq<Action>>
    requires Inv(v)
  {
    if e.Start? && e.ok && e.terminal == t then Some([])
    else if stream.None? then None
    else Some(stream.value + Actions(v, e, t))
  }

  function StreamsAfter(v: Video, ss: Streams, e: Event): Streams
    requires Inv(v)
  {
    seq(TERMINALS, i requires 0 <= i < TERMINALS => StreamAfter(v, ss[i], e, i + 1))
  }

  /** The screen of a terminal is what its stream makes of a cleared one. */
  predicate Follows(s: Scr, stream: Option<seq<Action>>) {
    stream.Some? ==> s == ActAll(Cleared(), stream.value)
  }

  predicate Tracks(v: Video, ss: Streams) {
    Good(v) && forall t :: 1 <= t <= TERMINALS ==> Follows(Logical(v, t).scr, ss[t - 1])
  }

  lemma {:induction false} ActAllOfAppend(s: Scr, a: seq<Action>, b: seq<Action>)
    requires OnScreen(s)
    ensures ActAll(s, a + b) == ActAll(ActAll(s, a), b)
    decreases |b|
  {
    if b == [] {
      assert a + b == a;
    } else {
      assert (a + b)[..|a + b| - 1] == a + b[..|b| - 1];
      ActAllOfAppend(s, a, b[..|b| - 1]);
    }
  }

  lemma OneTracks(v: Video, e: Event, t: nat, stream: Option<seq<Action>>)
    requires Inv(v) && Defined(v, e) && 1 <= t <= TERMINALS && Follows(Logical(v, t).scr, stream)
    ensures Follows(Acted(v, e, t).scr, StreamAfter(v, stream, e, t))
  {
    if e.Start? && e.ok && e.terminal == t {
      ActNone(Cleared());
    } else if stream.Some? {
      ActAllOfAppend(Cleared(), stream.value, Actions(v, e, t));
    }
  }

  lemma StepTracks(v: Video, ss: Streams, e: Event)
    requires Tracks(v, ss) && Defined(v, e)
    ensures Tracks(Next(v, e), StreamsAfter(v, ss, e))
  {
    StepActs(v, e);
    forall t | 1 <= t <= TERMINALS
      ensures Follows(Logical(Next(v, e), t).scr, StreamsAfter(v, ss, e)[t - 1])
    {
      OneTracks(v, e, t, ss[t - 1]);
    }
  }

  /** A run of events that can happen. */
  ghost predicate IsRun(vs: seq<Video>, es: seq<Event>) {
    |vs| == |es| + 1 && forall k :: 0 <= k < |es| ==> IsStep(vs, es, k)
  }

  ghost predicate IsStep(vs: seq<Video>, es: seq<Event>, k: nat)
    requires k < |es| && |vs| == |es| + 1
  {
    Inv(vs[k]) && Defined(vs[k], es[k]) && vs[k + 1] == Next(vs[k], es[k])
  }

  /** Without the two events that misplace it, output is placed right through every run. */
  lemma {:induction false} PlacedInEveryRun(vs: seq<Video>, es: seq<Event>, n: nat)
    requires IsRun(vs, es) && n <= |es| && Inv(vs[0]) && Placed(vs[0])
    requires forall k :: 0 <= k < n ==> !Misplaces(vs[k], es[k])
    ensures Inv(vs[n]) && Placed(vs[n])
  {
    if n > 0 {
      assert IsStep(vs, es, n - 1);
      PlacedInEveryRun(vs, es, n - 1);
      StepActs(vs[n - 1], es[n - 1]);
      MappingBreaks(vs[n - 1], es[n - 1]);
    }
  }

  ghost function StreamsOf(vs: seq<Video>, es: seq<Event>, ss: Streams, n: nat): Streams
    requires IsRun(vs, es) && n <= |es|
  {
    if n == 0 then ss
    else
      assert IsStep(vs, es, n - 1);
      StreamsAfter(vs[n - 1], StreamsOf(vs, es, ss, n - 1), es[n - 1])
  }

  /** In every run each terminal's screen, displayed or not, is what happened to this terminal made of a
      blank one. */
  lemma {:induction false} EachTerminalReplaysItsOwn(vs: seq<Video>, es: seq<Event>, ss: Streams, n: nat)
    requires IsRun(vs, es) && n <= |es| && Tracks(vs[0], ss)
    ensures Tracks(vs[n], StreamsOf(vs, es, ss, n))
  {
    if n > 0 {
      EachTerminalReplaysItsOwn(vs, es, ss, n - 1);
      RunTracks(vs, es, ss, n);
    }
  }

  lemma RunTracks(vs: seq<Video>, es: seq<Event>, ss: Streams, n: nat)
    requires IsRun(vs, es) && 0 < n <= |es| && Tracks(vs[n - 1], StreamsOf(vs, es, ss, n - 1))
    ensures Tracks(vs[n], StreamsOf(vs, es, ss, n))
  {
    assert IsStep(vs, es, n - 1);
    StepTracks(vs[n - 1], StreamsOf(vs, es, ss, n - 1), es[n - 1]);
  }

  // ----- terminals that were only typed on -----

  /** Output on the terminal's own page, with no NUL drawn. */
  predicate Plain(a: Action) {
    a.Typed? && (a.raw ==> NUL !in a.out)
  }

  predicate AllPlain(acts: seq<Action>) {
    forall k :: 0 <= k < |acts| ==> Plain(acts[k])
  }

  /** The characters of such a stream. */
  function Text(acts: seq<Action>): seq<byte>
    requires AllPlain(acts)
  {
    if acts == [] then [] else Text(acts[..|acts| - 1]) + acts[|acts| - 1].out
  }

  lemma PlainAct(s: Scr, a: Action)
    requires OnScreen(s) && Plain(a)
    ensures Act(s, a) == GivenScr(s, a.flag, a.out, false)
  {
    if a.raw { RawDoesNotMatter(s, a.flag, a.out); }
  }

  lemma {:induction false} PlainTypes(acts: seq<Action>)
    requires AllPlain(acts) && BACKSPACE !in Text(acts)
    ensures ActAll(Cleared(), acts) == TypeAll(Cleared(), Text(acts))
    decreases |acts|
  {
    if acts != [] {
      var before, last := acts[..|acts| - 1], acts[|acts| - 1];
      assert forall c :: c in Text(before) || c in last.out ==> c in Text(acts);
      PlainTypes(before);
      PlainAct(ActAll(Cleared(), before), last);
      PutAllIsTypeAll(ActAll(Cleared(), before), last.flag, last.out);
      TypeAllOfAppend(Cleared(), Text(before), last.out);
    }
  }

  /** Such a terminal shows the window on its own transcript, if it received no backspace. */
  lemma EachTerminalShowsItsOwn(vs: seq<Video>, es: seq<Event>, ss: Streams, n: nat, t: nat)
    requires IsRun(vs, es) && n <= |es| && Tracks(vs[0], ss) && 1 <= t <= TERMINALS
    ensures Inv(vs[n])
    ensures var stream := StreamsOf(vs, es, ss, n)[t - 1];
            stream.Some? && AllPlain(stream.value) && BACKSPACE !in Text(stream.value) ==>
              Shows(Logical(vs[n], t).scr, Rows(Visible(Text(stream.value))))
  {
    EachTerminalReplaysItsOwn(vs, es, ss, n);
    var stream := StreamsOf(vs, es, ss, n)[t - 1];
    assert Follows(Logical(vs[n], t).scr, stream);
    if stream.Some? && AllPlain(stream.value) && BACKSPACE !in Text(stream.value) {
      PlainTypes(stream.value);
      ScreenShowsTranscript(Text(stream.value));
    }
  }

  // ----- the flag that the terminals share -----

  /** A terminal with a flag of its own: its screen and that flag. */
  function OnItsOwn(acts: seq<Action>): (r: (Scr, int))
    requires AllPlain(acts)
    ensures Safe(r.0, r.1)
  {
    EveryStreamStaysOnPage(Cleared(), 1, Text(acts));
    PutAll(Cleared(), 1, Text(acts), false).value
  }

  /** The shared flag does no harm to an output: it is what the terminal's own would be, or there is no
      backspace, or a single one beyond the second column. */
  predicate Harmless(s: Scr, own: int, a: Action)
    requires Plain(a)
  {
    (own == 1 <==> a.flag == 1) || BACKSPACE !in a.out || (a.out == [BACKSPACE] && s.x >= 2)
  }

  predicate AllHarmless(acts: seq<Action>)
    requires AllPlain(acts)
  {
    acts == [] ||
    var before, last := acts[..|acts| - 1], acts[|acts| - 1];
    AllHarmless(before) && Harmless(OnItsOwn(before).0, OnItsOwn(before).1, last)
  }

  lemma {:induction false} FlagsAlike(s: Scr, f: int, g: int, cs: seq<byte>)
    requires OnScreen(s) && (f == 1 <==> g == 1)
    ensures match (PutAll(s, f, cs, false), PutAll(s, g, cs, false))
            case (Some(a), Some(b)) => a.0 == b.0 && (a.1 == 1 <==> b.1 == 1)
            case (None, None) => true
            case _ => false
    decreases |cs|
  {
    if cs != [] { FlagsAlike(s, f, g, cs[..|cs| - 1]); }
  }

  lemma HarmlessStep(s: Scr, own: int, a: Action)
    requires Safe(s, own) && Plain(a) && Harmless(s, own, a)
    ensures PutAll(s, own, a.out, false).Some?
    ensures GivenScr(s, a.flag, a.out, false) == PutAll(s, own, a.out, false).value.0
  {
    EveryStreamStaysOnPage(s, own, a.out);
    if own == 1 <==> a.flag == 1 {
      FlagsAlike(s, own, a.flag, a.out);
    } else if BACKSPACE !in a.out {
      PutAllIsTypeAll(s, own, a.out);
      PutAllIsTypeAll(s, a.flag, a.out);
    } else {
      PutOne(s, own, BACKSPACE, false);
      PutOne(s, a.flag, BACKSPACE, false);
      EraseStaysOnPage(s.x, s.y, a.flag);
      FlagMatters(s, own, a.flag);
    }
  }

  /** With backspaces too, such a terminal shows what it would show on its own, as long as the shared flag
      does no harm to any output (and a backspace by itself is harmed exactly as FlagMatters says). */
  lemma {:induction false} HarmlessIsOnItsOwn(acts: seq<Action>)
    requires AllPlain(acts) && AllHarmless(acts)
    ensures ActAll(Cleared(), acts) == OnItsOwn(acts).0
    decreases |acts|
  {
    if acts == [] {
      assert Text(acts) == [];
    } else {
      var before, last := acts[..|acts| - 1], acts[|acts| - 1];
      HarmlessIsOnItsOwn(before);
      EveryStreamStaysOnPage(Cleared(), 1, Text(before));
      PlainAct(ActAll(Cleared(), before), last);
      HarmlessStep(OnItsOwn(before).0, OnItsOwn(before).1, last);
      PutAllOfAppend(Cleared(), 1, Text(before), last.out, false);
    }
  }

  // ----- the kernel's variables, updated in place -----

  class Console {
    const pages: array<seq<byte>>
    const saved: array<Saved>
    const keyboardBuffer: array<byte>
    var screenX: int
    var screenY: int
    var enterOrOverflow: int
    var kbBufIdx: nat
    var curDisplay: nat
    var terminalNow: nat
    var videoPage: nat

    ghost function Snapshot(): Video
      reads this, pages, saved, keyboardBuffer
    {
      Video(pages[..], saved[..], screenX, screenY, enterOrOverflow, keyboardBuffer[..], kbBufIdx,
            curDisplay, terminalNow, videoPage)
    }

    ghost predicate Valid()
      reads this, pages, saved, keyboardBuffer
    {
      Inv(Snapshot())
    }

    /** As terminal_init and the clear before the first shell leave them: terminal 1 displayed, its
        screen blank, video memory mapped to it. */
    constructor (junk: seq<byte>, keys: seq<byte>)
      requires |junk| == CELLS && |keys| == KB_BUF_SIZE
      ensures Valid() && fresh(pages) && fresh(saved) && fresh(keyboardBuffer)
      ensures Snapshot() == Initial(junk, keys) && Tracks(Snapshot(), [Some([]), None, None])
    {
      pages := new seq<byte>[TERMINALS + 1](i => if i == 0 then Cleared().cells else junk);
      saved := new Saved[TERMINALS](_ => Saved(0, 0, keys, 0));
      keyboardBuffer := new byte[KB_BUF_SIZE](i requires 0 <= i < KB_BUF_SIZE => keys[i]);
      screenX, screenY, enterOrOverflow, kbBufIdx := 0, 0, 1, 0;
      curDisplay, terminalNow, videoPage := 1, 0, 0;
      new;
      assert pages[..] == [Cleared().cells, junk, junk, junk];
      assert saved[..] == [Saved(0, 0, keys, 0), Saved(0, 0, keys, 0), Saved(0, 0, keys, 0)]
             && keyboardBuffer[..] == keys;
    }

    /** clean_one_line, on the page that is mapped. */
    method CleanOneLine(y: nat)
      requires Shape(Snapshot()) && y < NUM_ROWS
      modifies pages
      ensures pages[..] == old(pages[..])[videoPage := pages[videoPage]]
      ensures pages[videoPage] == old(pages[videoPage])[..NUM_COLS * y] + Blanks(NUM_COLS)
              + old(pages[videoPage])[NUM_COLS * y + NUM_COLS..]
    {
      ghost var cells := pages[videoPage];
      var i := 0;
      while i < NUM_COLS
        invariant 0 <= i <= NUM_COLS && |pages[videoPage]| == CELLS
        invariant pages[..] == old(pages[..])[videoPage := pages[videoPage]]
        invariant pages[videoPage] == cells[..NUM_COLS * y] + Blanks(i) + cells[NUM_COLS * y + i..]
      {
        pages[videoPage] := pages[videoPage][NUM_COLS * y + i := BLANK];
        i := i + 1;
      }
    }

    /** The scrolling part of newline and newline_backstage: the rows move up by one, through a copy. */
    method Scroll()
      requires Shape(Snapshot())
      modifies pages
      ensures pages[..] == old(pages[..])[videoPage := pages[videoPage]]
      ensures pages[videoPage] == old(pages[videoPage])[NUM_COLS..] + Blanks(NUM_COLS)
    {
      ghost var cells := pages[videoPage];
      var copy := pages[videoPage][NUM_COLS..];
      pages[videoPage] := copy + pages[videoPage][CELLS - NUM_COLS..];
      CleanOneLine(NUM_ROWS - 1);
      assert pages[videoPage] == cells[NUM_COLS..] + Blanks(NUM_COLS);
    }

    /** newline */
    method Newline()
      requires Shape(Snapshot()) && -1 <= screenY < NUM_ROWS
      modifies this`screenX, this`screenY, pages
      ensures pages[..] == old(pages[..])[videoPage := pages[videoPage]]
      ensures Scr(pages[videoPage], screenX, screenY) == NewLine(old(Scr(pages[videoPage], 0, screenY)))
    {
      screenY := screenY + 1;
      screenX := 0;
      if screenY >= NUM_ROWS {
        Scroll();
        screenY := NUM_ROWS - 1;
      }
    }

    /** The normalisation at the end of putc_modf, which changes nothing in range. */
    method Normalize()
      requires -NUM_COLS < screenX < NUM_COLS && 0 <= screenY < NUM_ROWS
      modifies this`screenX, this`screenY
      ensures screenX == old(screenX) && screenY == old(screenY)
    {
      SmallMod(screenX, NUM_COLS);
      SmallMod(screenY, NUM_ROWS);
      screenX := CMod(screenX, NUM_COLS);
      screenY := CMod(screenY + CDiv(screenX, NUM_COLS), NUM_ROWS);
    }

    /** putc_modf, ordinary characters. */
    method Graph(c: byte)
      requires Valid()
      modifies this`screenX, this`screenY, this`enterOrOverflow, pages
      ensures pages[..] == old(pages[..])[videoPage := pages[videoPage]]
      ensures Scr(pages[videoPage], screenX, screenY) == Graphic(old(Scr(pages[videoPage], screenX, screenY)), c)
      ensures enterOrOverflow == if old(screenX) + 1 >= NUM_COLS then 0 else old(enterOrOverflow)
    {
      pages[videoPage] := pages[videoPage][NUM_COLS * screenY + screenX := c];
      screenX := screenX + 1;
      if screenX >= NUM_COLS {
        Newline();
        enterOrOverflow := 0;
      }
      Normalize();
    }

    /** putc_modf, backspace. */
    method Erase()
      requires Valid() && OnPage(screenX, screenY, enterOrOverflow)
      modifies this`screenX, this`screenY, this`enterOrOverflow, pages
      ensures pages[..] == old(pages[..])[videoPage := pages[videoPage]]
      ensures (Scr(pages[videoPage], screenX, screenY), enterOrOverflow)
              == RubOut(old(Scr(pages[videoPage], screenX, screenY)), old(enterOrOverflow))
    {
      EraseStaysOnPage(screenX, screenY, enterOrOverflow);
      if enterOrOverflow == 1 {
        if screenX != 0 { screenX := screenX - 1; }
        pages[videoPage] := pages[videoPage][NUM_COLS * screenY + screenX := NUL];
        Normalize();
      } else {
        screenX := screenX - 1;
        pages[videoPage] := pages[videoPage][NUM_COLS * screenY + screenX := NUL];
        Normalize();
        if screenX <= 0 {
          screenX := NUM_COLS;
          screenY := screenY - 1;
          enterOrOverflow := 1;
        }
      }
    }

    /** putc_modf */
    method PutcModf(c: byte)
      requires Valid() && (c == BACKSPACE ==> OnPage(screenX, screenY, enterOrOverflow))
      modifies this`screenX, this`screenY, this`enterOrOverflow, pages
      ensures Valid() && Snapshot() == PutModf(old(Snapshot()), c)
    {
      ghost var v := Snapshot();
      if c == NUL {
        assert v.pages == v.pages[v.vid := v.pages[v.vid]];
        return;
      }
      if c == NEWLINE || c == RETURN {
        Newline();
        enterOrOverflow := 1;
      } else if c == TAB {
        assert v.pages == v.pages[v.vid := v.pages[v.vid]];
      } else if c == BACKSPACE {
        Erase();
      } else {
        Graph(c);
      }
      assert pages[..] == v.pages[v.vid := pages[videoPage]];
    }

    /** newline_backstage, at the running terminal's saved cursor. */
    method NewlineBackstage()
      requires Shape(Snapshot()) && -1 <= saved[terminalNow].y < NUM_ROWS
      modifies pages, saved
      ensures pages[..] == old(pages[..])[videoPage := pages[videoPage]]
      ensures
        var s := NewLine(old(Scr(pages[videoPage], 0, saved[terminalNow].y)));
        && pages[videoPage] == s.cells
        && saved[..] == old(saved[..])[terminalNow := old(saved[terminalNow]).(x := s.x, y := s.y)]
    {
      saved[terminalNow] := saved[terminalNow].(y := saved[terminalNow].y + 1);
      saved[terminalNow] := saved[terminalNow].(x := 0);
      if saved[terminalNow].y >= NUM_ROWS {
        Scroll();
        saved[terminalNow] := saved[terminalNow].(y := NUM_ROWS - 1);
      }
    }

    /** putc_backstage, ordinary characters. */
    method GraphBackstage(c: byte)
      requires Shape(Snapshot()) && CursorOK(saved[terminalNow].x, saved[terminalNow].y)
      modifies this`enterOrOverflow, pages, saved
      ensures pages[..] == old(pages[..])[videoPage := pages[videoPage]]
      ensures
        var s := Graphic(old(Scr(pages[videoPage], saved[terminalNow].x, saved[terminalNow].y)), c);
        && pages[videoPage] == s.cells
        && saved[..] == old(saved[..])[terminalNow := old(saved[terminalNow]).(x := s.x, y := s.y)]
      ensures enterOrOverflow == if old(saved[terminalNow].x) + 1 >= NUM_COLS then 0 else old(enterOrOverflow)
    {
      pages[videoPage] := pages[videoPage][NUM_COLS * saved[terminalNow].y + saved[terminalNow].x := c];
      saved[terminalNow] := saved[terminalNow].(x := saved[terminalNow].x + 1);
      if saved[terminalNow].x >= NUM_COLS {
        NewlineBackstage();
        enterOrOverflow := 0;
      }
      NormalizeBackstage();
    }

    /** The same normalisation at the saved cursor. */
    method NormalizeBackstage()
      requires terminalNow < saved.Length
      requires -NUM_COLS < saved[terminalNow].x < NUM_COLS && 0 <= saved[terminalNow].y < NUM_ROWS
      modifies saved
      ensures saved[..] == old(saved[..])
    {
      ghost var all := saved[..];
      var s := saved[terminalNow];
      SmallMod(s.x, NUM_COLS);
      SmallMod(s.y, NUM_ROWS);
      saved[terminalNow] := s.(x := CMod(s.x, NUM_COLS),
          y := CMod(s.y + CDiv(CMod(s.x, NUM_COLS), NUM_COLS), NUM_ROWS));
      assert all[terminalNow := s] == all;
    }

    /** putc_backstage, backspace. */
    method EraseBackstage()
      requires Shape(Snapshot()) && CursorOK(saved[terminalNow].x, saved[terminalNow].y)
      requires OnPage(saved[terminalNow].x, saved[terminalNow].y, enterOrOverflow)
      modifies this`enterOrOverflow, pages, saved
      ensures pages[..] == old(pages[..])[videoPage := pages[videoPage]]
      ensures
        var (s, flag) := RubOut(old(Scr(pages[videoPage], saved[terminalNow].x, saved[terminalNow].y)),
            old(enterOrOverflow));
        && pages[videoPage] == s.cells && enterOrOverflow == flag
        && saved[..] == old(saved[..])[terminalNow := old(saved[terminalNow]).(x := s.x, y := s.y)]
    {
      EraseStaysOnPage(saved[terminalNow].x, saved[terminalNow].y, enterOrOverflow);
      if enterOrOverflow == 1 {
        if saved[terminalNow].x != 0 { saved[terminalNow] := saved[terminalNow].(x := saved[terminalNow].x - 1); }
        pages[videoPage] := pages[videoPage][NUM_COLS * saved[terminalNow].y + saved[terminalNow].x := NUL];
        NormalizeBackstage();
      } else {
        saved[terminalNow] := saved[terminalNow].(x := saved[terminalNow].x - 1);
        pages[videoPage] := pages[videoPage][NUM_COLS * saved[terminalNow].y + saved[terminalNow].x := NUL];
        NormalizeBackstage();
        if saved[terminalNow].x <= 0 {
          saved[terminalNow] := saved[terminalNow].(x := NUM_COLS);
          saved[terminalNow] := saved[terminalNow].(y := saved[terminalNow].y - 1);
          enterOrOverflow := 1;
        }
      }
    }

    /** putc_backstage */
    method PutcBackstage(c: byte)
      requires Valid() && terminalNow + 1 != curDisplay
      requires c == BACKSPACE ==> OnPage(saved[terminalNow].x, saved[terminalNow].y, enterOrOverflow)
      modifies this`enterOrOverflow, pages, saved
      ensures Valid() && Snapshot() == PutBackstage(old(Snapshot()), c)
    {
      ghost var v := Snapshot();
      if c == NEWLINE || c == RETURN {
        NewlineBackstage();
        enterOrOverflow := 1;
      } else if c == TAB {
        assert saved[..] == v.saved[v.now := v.saved[v.now]];
      } else if c == BACKSPACE {
        EraseBackstage();
      } else {
        GraphBackstage(c);
      }
      assert pages[..] == v.pages[v.vid := pages[videoPage]];
    }

    /** The body of terminal_write's loop. */
    method PutcRunning(c: byte)
      requires Valid() && (c == BACKSPACE ==> RunningOnPage(Snapshot()))
      modifies this`screenX, this`screenY, this`enterOrOverflow, pages, saved
      ensures Valid() && Snapshot() == PutRunning(old(Snapshot()), c)
    {
      if terminalNow == curDisplay - 1 { PutcModf(c); } else { PutcBackstage(c); }
    }

    /** The loop of terminal_write. */
    method WriteChars(buf: seq<byte>)
      requires Valid() && PutAllRunning(Snapshot(), buf, |buf|).Some?
      modifies this`screenX, this`screenY, this`enterOrOverflow, pages, saved
      ensures Valid() && Some(Snapshot()) == PutAllRunning(old(Snapshot()), buf, |buf|)
    {
      ghost var w := Snapshot();
      var i := 0;
      while i < |buf|
        invariant 0 <= i <= |buf| && Valid() && Some(Snapshot()) == PutAllRunning(w, buf, i)
      {
        NextPut(w, buf, i, Snapshot());
        PutcRunning(buf[i]);
        i := i + 1;
      }
    }

    /** terminal_write */
    method TerminalWrite(buf: seq<byte>)
      requires Valid() && WriteNext(Snapshot(), buf).Some?
      modifies this`screenX, this`screenY, this`enterOrOverflow, pages, saved
      ensures Valid() && Some(Snapshot()) == WriteNext(old(Snapshot()), buf)
    {
      if PROMPT <= buf { PutcModf(NEWLINE); }
      WriteChars(buf);
    }

    /** Put a key into the keyboard buffer, or take one back; whether it is echoed. */
    method StoreKey(c: byte) returns (echo: bool)
      requires Valid() && (c == NEWLINE || L.Printable(c) || (c == BACKSPACE && kbBufIdx > 0))
      modifies this`kbBufIdx, keyboardBuffer
      ensures Valid() && Snapshot() == StoredKey(old(Snapshot()), c)
      ensures echo <==> Echoed(old(Snapshot()), c)
    {
      echo := true;
      if c == BACKSPACE {
        kbBufIdx := kbBufIdx - 1;
      } else if c == NEWLINE {
        keyboardBuffer[kbBufIdx] := c;
        kbBufIdx := 0;
      } else if kbBufIdx < KB_BUF_SIZE - 1 {
        keyboardBuffer[kbBufIdx] := c;
        kbBufIdx := kbBufIdx + 1;
      } else {
        echo := false;
      }
    }

    /** A key stored and echoed. */
    method Strike(c: byte)
      requires Valid() && (c == NEWLINE || L.Printable(c) || (c == BACKSPACE && kbBufIdx > 0))
               && KeyOnPage(Snapshot(), c)
      modifies this`screenX, this`screenY, this`enterOrOverflow, this`kbBufIdx, pages, keyboardBuffer
      ensures Valid() && Snapshot() == Struck(old(Snapshot()), c)
    {
      var echo := StoreKey(c);
      if echo { PutcModf(c); }
    }

    /** The character, backspace and Enter paths of keyboard_handler. */
    method KeyboardHandler(c: byte)
      requires Valid() && (c == NEWLINE || c == BACKSPACE || L.Printable(c)) && KeyOnPage(Snapshot(), c)
      modifies this`screenX, this`screenY, this`enterOrOverflow, this`kbBufIdx, this`videoPage, pages, keyboardBuffer
      ensures Valid() && Snapshot() == KeyNext(old(Snapshot()), c)
    {
      if c == BACKSPACE && kbBufIdx == 0 { return; }
      videoPage := 0;
      Strike(c);
      if terminalNow != curDisplay - 1 { videoPage := terminalNow + 1; }
    }

    /** terminal_store */
    method TerminalStore(t: nat)
      requires Shape(Snapshot()) && 1 <= t <= TERMINALS
      modifies pages, saved
      ensures Shape(Snapshot()) && Snapshot() == Store(old(Snapshot()), t)
    {
      saved[t - 1] := Saved(screenX, screenY, keyboardBuffer[..], kbBufIdx);
      pages[t] := pages[0];
    }

    /** terminal_load */
    method TerminalLoad(t: nat)
      requires Shape(Snapshot()) && 1 <= t <= TERMINALS
      modifies this`screenX, this`screenY, this`kbBufIdx, keyboardBuffer, pages
      ensures Shape(Snapshot()) && Snapshot() == Load(old(Snapshot()), t)
    {
      var s := saved[t - 1];
      screenX, screenY, kbBufIdx := s.x, s.y, s.kbIdx;
      forall i | 0 <= i < KB_BUF_SIZE { keyboardBuffer[i] := s.kbBuf[i]; }
      pages[0] := pages[t];
      assert keyboardBuffer[..] == s.kbBuf;
    }

    /** clear, with video memory mapped to the screen. */
    method Clear()
      requires Shape(Snapshot()) && videoPage == 0
      modifies this`screenX, this`screenY, pages
      ensures pages[..] == old(pages[..])[0 := Cleared().cells] && screenX == 0 && screenY == 0
    {
      var i := 0;
      while i < CELLS
        invariant 0 <= i <= CELLS && |pages[0]| == CELLS && pages[..] == old(pages[..])[0 := pages[0]]
        invariant forall j :: 0 <= j < i ==> pages[0][j] == BLANK
      {
        pages[0] := pages[0][i := BLANK];
        i := i + 1;
      }
      assert pages[0] == Cleared().cells;
      screenX, screenY := 0, 0;
    }

    /** terminal_shift; `live` says whether the terminal runs a process, `ok` whether its shell could
        be executed when it does not. */
    method TerminalShift(terminal: nat, live: bool, ok: bool)
      requires Valid() && 1 <= terminal <= TERMINALS && (terminal == 1 ==> live)
      modifies this`screenX, this`screenY, this`kbBufIdx, this`curDisplay, this`terminalNow, this`videoPage,
               keyboardBuffer, pages, saved
      ensures Valid()
      ensures Snapshot() == if terminal == old(curDisplay) || live then ShowNext(old(Snapshot()), terminal)
                            else StartNext(old(Snapshot()), terminal, ok)
    {
      if terminal == curDisplay { return; }
      if live {
        videoPage := 0;
        TerminalStore(curDisplay);
        curDisplay := terminal;
        TerminalLoad(curDisplay);
        videoPage := terminalNow + 1;
      } else {
        StartTerminal(terminal, ok);
      }
    }

    /** terminal_shift, up to the execution of a shell on a new terminal. */
    method BringUp(terminal: nat)
      requires Valid() && 1 <= terminal <= TERMINALS
      modifies this`screenX, this`screenY, this`kbBufIdx, this`curDisplay, this`terminalNow, this`videoPage,
               keyboardBuffer, pages, saved
      ensures Snapshot() == Fresh(old(Snapshot()), terminal)
    {
      videoPage := 0;
      TerminalStore(curDisplay);
      curDisplay := terminal;
      Clear();
      terminalNow := curDisplay - 1;
      kbBufIdx := 0;
      keyboardBuffer[0] := NUL;
    }

    /** The branch of terminal_shift for a terminal that runs nothing. */
    method StartTerminal(terminal: nat, ok: bool)
      requires Valid() && 1 <= terminal <= TERMINALS && terminal != curDisplay
      modifies this`screenX, this`screenY, this`kbBufIdx, this`curDisplay, this`terminalNow, this`videoPage,
               keyboardBuffer, pages, saved
      ensures Valid() && Snapshot() == StartNext(old(Snapshot()), terminal, ok)
    {
      var last, displayLast := terminalNow, curDisplay;
      BringUp(terminal);
      if ok { return; }
      terminalNow, curDisplay := last, displayLast;
      TerminalLoad(curDisplay);
      videoPage := terminalNow + 1;
    }

    /** pit_handler's part: another terminal runs, and video memory follows it. */
    method PitSwitch(next: nat)
      requires Valid() && next < TERMINALS
      modifies this`terminalNow, this`videoPage
      ensures Valid() && Snapshot() == SwitchNext(old(Snapshot()), next)
    {
      if next == terminalNow { return; }
      terminalNow := next;
      videoPage := if terminalNow == curDisplay - 1 then 0 else terminalNow + 1;
    }
  }
}
