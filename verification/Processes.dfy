/** The process table, the scheduler and the address mapping: execute, halt, pit_handler and
    terminal_shift as steps over the kernel's bookkeeping. */
module Processes {
  import opened CLib

  const MAX_PROCESS := 6
  const TERMINALS := 3
  const PAGE_4MB := 0x400000
  const STACK_8KB := 0x2000
  const PROGRAM_START_ADDR := 0x800000
  const KERNEL_BASE := 0x800000
  const OFFSET := 2
  /** PRESENT | R_W | U_S | PS, and the same with GLOBAL. */
  const USER_PAGE := 0x87
  const GLOBAL_USER_PAGE := 0x187

  datatype Pcb = Pcb(id: int, parent: int)

  /** id_array, parent_array, pcb_array, the process control blocks, terminal_now,
      cur_display_terminal_id, the user page-directory entry and tss.esp0. */
  datatype Tables = Tables(ids: seq<int>, parents: seq<int>, tops: seq<int>, pcbs: seq<Pcb>,
                           now: nat, display: nat, pde: int, esp0: int)

  datatype Event = Execute(loadable: bool) | Halt | Tick | Shift(terminal: nat, loadable: bool)

  predicate Sizes(k: Tables) {
    && |k.ids| == MAX_PROCESS && |k.pcbs| == MAX_PROCESS
    && |k.parents| == TERMINALS && |k.tops| == TERMINALS
    && k.now < TERMINALS && 1 <= k.display <= TERMINALS
  }

  /** Every process has its own number and a parent in range. */
  predicate PcbsOK(k: Tables)
    requires Sizes(k)
  {
    forall i :: 0 <= i < MAX_PROCESS && k.ids[i] != 0 ==> k.pcbs[i].id == i && 0 <= k.pcbs[i].parent < MAX_PROCESS
  }

  predicate Shape(k: Tables) {
    && Sizes(k) && PcbsOK(k)
    && (forall t :: 0 <= t < TERMINALS && k.tops[t] != -1 ==>
          0 <= k.tops[t] < MAX_PROCESS && k.ids[k.tops[t]] != 0 && 0 <= k.parents[t] < MAX_PROCESS)
    && k.tops[k.now] != -1
  }

  // ----- the steps -----

  function FirstFree(ids: seq<int>): (r: int)
    ensures -1 <= r < |ids|
    ensures r >= 0 ==> ids[r] == 0 && forall i :: 0 <= i < r ==> ids[i] != 0
    ensures r == -1 ==> forall i :: 0 <= i < |ids| ==> ids[i] != 0
  {
    if ids == [] then -1
    else if ids[0] == 0 then 0
    else
      var r := FirstFree(ids[1..]);
      if r == -1 then -1 else r + 1
  }

  function UserFrame(id: int): int {
    PROGRAM_START_ADDR + id * PAGE_4MB
  }

  function KernelStack(id: int): int {
    PROGRAM_START_ADDR - 4 - STACK_8KB * id
  }

  /** execute; `loadable` says whether the command names an executable file. It writes the slots of
      the terminal on display. */
  function Launch(k: Tables, loadable: bool): (Tables, int)
    requires Sizes(k)
  {
    var id := if loadable then FirstFree(k.ids) else -1;
    if id == -1 then (k, -1 as int)
    else
      var d := k.display - 1;
      var parent := if k.parents[d] == -1 then id else k.parents[d];
      (k.(ids := k.ids[id := 1], pcbs := k.pcbs[id := Pcb(id, parent)], tops := k.tops[d := id],
          parents := k.parents[d := id], pde := Frame(UserFrame(id)) + GLOBAL_USER_PAGE,
          esp0 := KernelStack(id)), 0)
  }

  /** halt; a root process is started again instead. */
  function HaltNext(k: Tables): Tables
    requires Shape(k)
  {
    var cur := k.pcbs[k.tops[k.now]];
    var par := k.pcbs[cur.parent];
    if cur.id == cur.parent then k
    else
      k.(tops := k.tops[k.now := cur.parent], parents := k.parents[k.now := par.parent], ids := k.ids[cur.id := 0],
         pde := PAGE_4MB * (cur.parent + OFFSET) + USER_PAGE, esp0 := KERNEL_BASE - par.id * STACK_8KB - 4)
  }

  function NextLive(tops: seq<int>, now: nat): (r: nat)
    requires |tops| == TERMINALS && now < TERMINALS && tops[now] != -1
    ensures r < TERMINALS && tops[r] != -1
  {
    var a, b := (now + 1) % TERMINALS, (now + 2) % TERMINALS;
    if tops[a] != -1 then a else if tops[b] != -1 then b else now
  }

  /** pit_handler */
  function TickNext(k: Tables): Tables
    requires Shape(k)
  {
    var cur, now' := k.pcbs[k.tops[k.now]], NextLive(k.tops, k.now);
    var next := k.pcbs[k.tops[now']];
    if next.id == cur.id then k.(now := now')
    else k.(now := now', pde := Frame(UserFrame(next.id)) + GLOBAL_USER_PAGE, esp0 := KernelStack(next.id))
  }

  /** terminal_shift: a terminal shown for the first time starts a shell, and everything is put back
      when that fails. */
  function ShiftNext(k: Tables, terminal: nat, loadable: bool): Tables
    requires Shape(k) && 1 <= terminal <= TERMINALS
  {
    if terminal == k.display then k
    else if terminal != 1 && k.tops[terminal - 1] == -1 then
      var (k', code) := StartShell(k, terminal, loadable);
      if code == -1 then k'.(now := k.now, display := k.display) else k'
    else k.(display := terminal)
  }

  /** The execute("shell") of terminal_shift, with the new terminal already current. */
  function StartShell(k: Tables, terminal: nat, loadable: bool): (Tables, int)
    requires Sizes(k) && 1 <= terminal <= TERMINALS
  {
    Launch(k.(now := terminal - 1, display := terminal), loadable)
  }

  predicate Allowed(e: Event) {
    e.Shift? ==> 1 <= e.terminal <= TERMINALS
  }

  function Next(k: Tables, e: Event): Tables
    requires Shape(k) && Allowed(e)
  {
    match e
    case Execute(loadable) => Launch(k, loadable).0
    case Halt => HaltNext(k)
    case Tick => TickNext(k)
    case Shift(terminal, loadable) => ShiftNext(k, terminal, loadable)
  }

  // ----- chains of callers -----

  /** Live processes, each the child of the next one, down to a process that is its own parent. */
  ghost predicate Linked(ids: seq<int>, pcbs: seq<Pcb>, c: seq<nat>)
    requires |ids| == MAX_PROCESS && |pcbs| == MAX_PROCESS
  {
    && c != []
    && (forall i :: 0 <= i < |c| ==> c[i] < MAX_PROCESS && ids[c[i]] != 0 && pcbs[c[i]].id == c[i])
    && (forall i, j | 0 <= i < |c| && 0 <= j < |c| && j == i + 1 :: pcbs[c[i]].parent == c[j])
    && pcbs[c[|c| - 1]].parent == c[|c| - 1]
  }

  /** `c` is the chain of terminal `t`: the process on top, its parent, and so on. parent_array holds
      the top or the top's parent. */
  ghost predicate IsChain(k: Tables, t: nat, c: seq<nat>)
    requires Sizes(k) && t < TERMINALS
  {
    if k.tops[t] == -1 then c == [] && k.parents[t] == -1
    else
      && Linked(k.ids, k.pcbs, c) && c[0] == k.tops[t]
      && (k.parents[t] == c[0] || (|c| > 1 && k.parents[t] == c[1]))
  }

  /** No process twice, on one terminal or on two. */
  predicate Apart(cs: seq<seq<nat>>) {
    forall t, i, u, j | 0 <= t < |cs| && 0 <= u < |cs| && 0 <= i < |cs[t]| && 0 <= j < |cs[u]|
           && cs[t][i] == cs[u][j] ::
      t == u && i == j
  }

  ghost predicate AllChains(k: Tables, cs: seq<seq<nat>>)
    requires Sizes(k)
  {
    |cs| == TERMINALS && forall t :: 0 <= t < TERMINALS ==> IsChain(k, t, cs[t])
  }

  ghost predicate InvWith(k: Tables, cs: seq<seq<nat>>) {
    && Shape(k) && AllChains(k, cs) && Apart(cs)
    && k.tops[0] != -1 && k.tops[k.display - 1] != -1
  }

  /** What a new process is put on top of. */
  function Onto(c: seq<nat>, parent: int): seq<nat> {
    if c == [] || c[0] == parent then c else c[1..]
  }

  function ChainsAfter(k: Tables, cs: seq<seq<nat>>, e: Event): seq<seq<nat>>
    requires Shape(k) && Allowed(e) && |cs| == TERMINALS
  {
    match e
    case Execute(loadable) =>
      var id, d := if loadable then FirstFree(k.ids) else -1, k.display - 1;
      if id == -1 then cs else cs[d := [id as nat] + Onto(cs[d], k.parents[d])]
    case Halt => if |cs[k.now]| <= 1 then cs else cs[k.now := cs[k.now][1..]]
    case Tick => cs
    case Shift(terminal, loadable) =>
      var id := if loadable then FirstFree(k.ids) else -1;
      if terminal == k.display || terminal == 1 || k.tops[terminal - 1] != -1 || id == -1 then cs
      else cs[terminal - 1 := [id as nat]]
  }

  /** A chain stands as long as its own entries do. */
  lemma ChainFrame(k: Tables, k': Tables, t: nat, c: seq<nat>)
    requires Sizes(k) && Sizes(k') && t < TERMINALS && IsChain(k, t, c)
    requires k'.tops[t] == k.tops[t] && k'.parents[t] == k.parents[t]
    requires forall i :: 0 <= i < |c| ==> k'.ids[c[i]] != 0 && k'.pcbs[c[i]] == k.pcbs[c[i]]
    ensures IsChain(k', t, c)
  {
  }

  lemma ShapeOfChains(k: Tables, cs: seq<seq<nat>>)
    requires Sizes(k) && PcbsOK(k) && AllChains(k, cs) && k.tops[k.now] != -1
    ensures Shape(k)
  {
    forall t | 0 <= t < TERMINALS && k.tops[t] != -1
      ensures 0 <= k.tops[t] < MAX_PROCESS && k.ids[k.tops[t]] != 0 && 0 <= k.parents[t] < MAX_PROCESS
    {
      assert IsChain(k, t, cs[t]);
    }
  }

  lemma ApartWithNew(cs: seq<seq<nat>>, t: nat, c: seq<nat>, id: nat, cs': seq<seq<nat>>)
    requires Apart(cs) && t < |cs| && (c == cs[t] || (cs[t] != [] && c == cs[t][1..]) || c == [])
    requires forall u, j :: 0 <= u < |cs| && 0 <= j < |cs[u]| ==> cs[u][j] != id
    requires cs' == cs[t := [id] + c]
    ensures Apart(cs')
  {
    var d := if c == cs[t] then 1 else 0;
    forall u, i, v, j | 0 <= u < |cs| && 0 <= v < |cs| && 0 <= i < |cs'[u]| && 0 <= j < |cs'[v]|
           && cs'[u][i] == cs'[v][j]
      ensures u == v && i == j
    {
      assert u == t && i > 0 ==> cs'[u][i] == cs[t][i - d];
      assert v == t && j > 0 ==> cs'[v][j] == cs[t][j - d];
    }
  }

  lemma ApartWithTail(cs: seq<seq<nat>>, t: nat, cs': seq<seq<nat>>)
    requires Apart(cs) && t < |cs| && cs[t] != [] && cs' == cs[t := cs[t][1..]]
    ensures Apart(cs')
    ensures forall u, j :: 0 <= u < |cs| && 0 <= j < |cs'[u]| ==> cs'[u][j] != cs[t][0]
  {
    forall u, i, v, j | 0 <= u < |cs| && 0 <= v < |cs| && 0 <= i < |cs'[u]| && 0 <= j < |cs'[v]|
           && cs'[u][i] == cs'[v][j]
      ensures u == v && i == j
    {
      assert cs'[u][i] == cs[u][if u == t then i + 1 else i];
      assert cs'[v][j] == cs[v][if v == t then j + 1 else j];
    }
    forall u, j | 0 <= u < |cs| && 0 <= j < |cs'[u]|
      ensures cs'[u][j] != cs[t][0]
    {
      assert cs'[u][j] == cs[u][if u == t then j + 1 else j];
    }
  }

  lemma LinkedTail(ids: seq<int>, pcbs: seq<Pcb>, c: seq<nat>)
    requires |ids| == MAX_PROCESS && |pcbs| == MAX_PROCESS && Linked(ids, pcbs, c) && |c| > 1
    ensures Linked(ids, pcbs, c[1..])
  {
  }

  lemma LinkedCons(ids: seq<int>, pcbs: seq<Pcb>, c: seq<nat>, id: nat)
    requires |ids| == MAX_PROCESS && |pcbs| == MAX_PROCESS && Linked(ids, pcbs, c)
    requires id < MAX_PROCESS && ids[id] == 0
    ensures Linked(ids[id := 1], pcbs[id := Pcb(id, c[0])], [id] + c)
  {
    var c' := [id] + c;
    assert forall i :: 1 <= i < |c'| ==> c'[i] == c[i - 1];
  }

  /** The chain of the launched process: it stands on the process that parent_array names. */
  lemma NewChain(k: Tables, d: nat, c: seq<nat>, id: nat)
    requires Sizes(k) && k.display == d + 1 && FirstFree(k.ids) == id && IsChain(k, d, c)
    ensures IsChain(Launch(k, true).0, d, [id] + Onto(c, k.parents[d]))
  {
    if c != [] {
      if c[0] != k.parents[d] { LinkedTail(k.ids, k.pcbs, c); }
      LinkedCons(k.ids, k.pcbs, Onto(c, k.parents[d]), id);
    }
  }

  lemma LaunchAllChains(k: Tables, cs: seq<seq<nat>>, d: nat, id: nat, cs': seq<seq<nat>>)
    requires Sizes(k) && AllChains(k, cs)
    requires k.display == d + 1 && FirstFree(k.ids) == id && cs' == cs[d := [id] + Onto(cs[d], k.parents[d])]
    ensures AllChains(Launch(k, true).0, cs')
  {
    forall t | 0 <= t < TERMINALS
      ensures IsChain(Launch(k, true).0, t, cs'[t])
    {
      if t == d { NewChain(k, d, cs[d], id); } else { ChainFrame(k, Launch(k, true).0, t, cs[t]); }
    }
  }

  lemma LaunchPcbs(k: Tables, d: nat, c: seq<nat>, id: nat)
    requires Sizes(k) && PcbsOK(k) && k.display == d + 1 && FirstFree(k.ids) == id && IsChain(k, d, c)
    ensures Sizes(Launch(k, true).0) && PcbsOK(Launch(k, true).0)
  {
    var parent := if k.parents[d] == -1 then id else k.parents[d];
    assert 0 <= parent < MAX_PROCESS;
    var k' := Launch(k, true).0;
    assert k'.pcbs == k.pcbs[id := Pcb(id, parent)] && k'.ids == k.ids[id := 1];
  }

  lemma FreeOnNoChain(k: Tables, cs: seq<seq<nat>>, id: nat)
    requires Sizes(k) && AllChains(k, cs) && id < MAX_PROCESS && k.ids[id] == 0
    ensures forall u, j :: 0 <= u < |cs| && 0 <= j < |cs[u]| ==> cs[u][j] != id
  {
    forall u, j | 0 <= u < |cs| && 0 <= j < |cs[u]| ensures cs[u][j] != id {
      assert IsChain(k, u, cs[u]);
    }
  }

  /** A launch for the displayed terminal `d`. */
  lemma LaunchChains(k: Tables, cs: seq<seq<nat>>, d: nat, id: nat, cs': seq<seq<nat>>)
    requires Sizes(k) && PcbsOK(k) && AllChains(k, cs) && Apart(cs)
    requires k.display == d + 1 && FirstFree(k.ids) == id && cs' == cs[d := [id] + Onto(cs[d], k.parents[d])]
    ensures var k' := Launch(k, true).0;
            Sizes(k') && PcbsOK(k') && AllChains(k', cs') && Apart(cs')
  {
    LaunchAllChains(k, cs, d, id, cs');
    assert IsChain(k, d, cs[d]);
    LaunchPcbs(k, d, cs[d], id);
    FreeOnNoChain(k, cs, id);
    ApartWithNew(cs, d, Onto(cs[d], k.parents[d]), id, cs');
  }

  lemma LaunchKeepsChains(k: Tables, cs: seq<seq<nat>>, loadable: bool)
    requires InvWith(k, cs)
    ensures InvWith(Next(k, Execute(loadable)), ChainsAfter(k, cs, Execute(loadable)))
  {
    var e := Execute(loadable);
    if loadable && FirstFree(k.ids) != -1 {
      LaunchChains(k, cs, k.display - 1, FirstFree(k.ids), ChainsAfter(k, cs, e));
      ShapeOfChains(Next(k, e), ChainsAfter(k, cs, e));
    }
  }

  /** Moving terminal_now and the display, and changing the mapping, leaves the chains alone. */
  lemma ChainsElsewhere(k: Tables, k': Tables, cs: seq<seq<nat>>)
    requires Sizes(k) && AllChains(k, cs) && Sizes(k')
    requires k'.ids == k.ids && k'.pcbs == k.pcbs && k'.tops == k.tops && k'.parents == k.parents
    ensures AllChains(k', cs)
  {
    forall t | 0 <= t < TERMINALS ensures IsChain(k', t, cs[t]) {
      ChainFrame(k, k', t, cs[t]);
    }
  }

  /** terminal_shift to a terminal that runs nothing, when its shell can be started. */
  lemma StartKeepsChains(k: Tables, cs: seq<seq<nat>>, terminal: nat)
    requires InvWith(k, cs) && 2 <= terminal <= TERMINALS && k.tops[terminal - 1] == -1 && FirstFree(k.ids) != -1
    ensures InvWith(StartShell(k, terminal, true).0, cs[terminal - 1 := [FirstFree(k.ids) as nat]])
  {
    var d := terminal - 1;
    var k1, cs' := k.(now := d, display := terminal), cs[d := [FirstFree(k.ids) as nat]];
    ChainsElsewhere(k, k1, cs);
    assert IsChain(k, d, cs[d]) && [FirstFree(k.ids)] + Onto(cs[d], k.parents[d]) == [FirstFree(k.ids)];
    LaunchChains(k1, cs, d, FirstFree(k.ids), cs');
    ShapeOfChains(StartShell(k, terminal, true).0, cs');
  }

  lemma ShiftKeepsChains(k: Tables, cs: seq<seq<nat>>, terminal: nat, loadable: bool)
    requires InvWith(k, cs) && 1 <= terminal <= TERMINALS
    ensures InvWith(ShiftNext(k, terminal, loadable), ChainsAfter(k, cs, Shift(terminal, loadable)))
  {
    if terminal != k.display && terminal != 1 && k.tops[terminal - 1] == -1 && loadable && FirstFree(k.ids) != -1 {
      StartKeepsChains(k, cs, terminal);
    } else {
      ChainsElsewhere(k, ShiftNext(k, terminal, loadable), cs);
      ShapeOfChains(ShiftNext(k, terminal, loadable), cs);
    }
  }

  lemma TickKeepsChains(k: Tables, cs: seq<seq<nat>>)
    requires InvWith(k, cs)
    ensures InvWith(TickNext(k), cs)
  {
    ChainsElsewhere(k, TickNext(k), cs);
    ShapeOfChains(TickNext(k), cs);
  }

  /** The chain that is left when the top process halts. */
  lemma TailChain(k: Tables, c: seq<nat>)
    requires Shape(k) && IsChain(k, k.now, c) && |c| > 1 && forall i :: 1 <= i < |c| ==> c[i] != c[0]
    ensures IsChain(HaltNext(k), k.now, c[1..]) && PcbsOK(HaltNext(k)) && HaltNext(k).ids == k.ids[c[0] := 0]
    ensures HaltNext(k).tops == k.tops[k.now := c[1]]
  {
    var c' := c[1..];
    LinkedTail(k.ids, k.pcbs, c);
    assert forall i :: 0 <= i < |c'| ==> c'[i] != c[0];
  }

  lemma HaltElsewhere(k: Tables, u: nat, c: seq<nat>)
    requires Shape(k) && u < TERMINALS && u != k.now && IsChain(k, u, c)
    requires forall j :: 0 <= j < |c| ==> c[j] != k.tops[k.now]
    ensures IsChain(HaltNext(k), u, c)
  {
    ChainFrame(k, HaltNext(k), u, c);
  }

  lemma HaltAllChains(k: Tables, cs: seq<seq<nat>>, cs': seq<seq<nat>>)
    requires Shape(k) && AllChains(k, cs) && |cs[k.now]| > 1 && cs' == cs[k.now := cs[k.now][1..]]
    requires forall u, j :: 0 <= u < |cs| && 0 <= j < |cs'[u]| ==> cs'[u][j] != cs[k.now][0]
    ensures AllChains(HaltNext(k), cs') && PcbsOK(HaltNext(k)) && HaltNext(k).tops == k.tops[k.now := cs[k.now][1]]
  {
    var c := cs[k.now];
    assert IsChain(k, k.now, c);
    assert forall i :: 1 <= i < |c| ==> cs'[k.now][i - 1] == c[i];
    TailChain(k, c);
    forall u | 0 <= u < TERMINALS ensures IsChain(HaltNext(k), u, cs'[u]) {
      if u != k.now {
        assert forall j :: 0 <= j < |cs[u]| ==> cs'[u][j] == cs[u][j];
        HaltElsewhere(k, u, cs[u]);
      }
    }
  }

  /** A halt takes the top process off its chain. */
  lemma HaltKeepsChains(k: Tables, cs: seq<seq<nat>>)
    requires InvWith(k, cs)
    ensures InvWith(HaltNext(k), ChainsAfter(k, cs, Halt))
  {
    assert IsChain(k, k.now, cs[k.now]);
    if |cs[k.now]| > 1 {
      var cs' := ChainsAfter(k, cs, Halt);
      ApartWithTail(cs, k.now, cs');
      HaltAllChains(k, cs, cs');
      ShapeOfChains(HaltNext(k), cs');
    }
  }

  /** execute in full: without an executable file or a free number it answers -1 and changes nothing; otherwise
      the lowest free number becomes busy, on top of the displayed terminal and named by parent_array there,
      with a control block of its own, and nothing else changes but the mapping. */
  lemma LaunchIsExact(k: Tables, loadable: bool)
    requires Sizes(k)
    ensures var (k', code) := Launch(k, loadable);
            var id, d := FirstFree(k.ids), k.display - 1;
            if !loadable || id == -1 then code == -1 && k' == k
            else
              && code == 0 && k.ids[id] == 0 && (forall i :: 0 <= i < id ==> k.ids[i] != 0)
              && k'.ids == k.ids[id := 1] && k'.tops == k.tops[d := id] && k'.parents == k.parents[d := id]
              && k'.pcbs == k.pcbs[id := Pcb(id, if k.parents[d] == -1 then id else k.parents[d])]
              && k'.now == k.now && k'.display == k.display
              && k'.pde == 0x80_0000 + 0x40_0000 * id + 0x187 && k'.esp0 == 0x80_0000 - 4 - 0x2000 * id
  {
    FrameOf(FirstFree(k.ids));
    WholeFrame(FirstFree(k.ids));
  }

  lemma WholeFrame(id: int)
    ensures Frame(UserFrame(id)) == UserFrame(id)
  {
    assert UserFrame(id) == PAGE_4MB * (id + 2);
  }

  /** halt in full: a root is left as it is; any other process gives its place to its parent, and its number
      back, and parent_array takes that parent's parent. */
  lemma HaltIsExact(k: Tables)
    requires Shape(k)
    ensures var k', id := HaltNext(k), k.tops[k.now];
            var parent := k.pcbs[id].parent;
            if parent == id then k' == k
            else
              && k'.ids == k.ids[id := 0] && k'.tops == k.tops[k.now := parent]
              && k'.parents == k.parents[k.now := k.pcbs[parent].parent]
              && k'.pcbs == k.pcbs && k'.now == k.now && k'.display == k.display
              && k'.pde == 0x40_0000 * (parent + 2) + 0x87 && k'.esp0 == 0x80_0000 - 4 - 0x2000 * k.pcbs[parent].id
  {
  }

  /** pit_handler in full: the next live terminal in turn, and the mapping of its process, unless there is no
      other. */
  lemma TickIsExact(k: Tables)
    requires Shape(k)
    ensures var k', a, b := TickNext(k), (k.now + 1) % 3, (k.now + 2) % 3;
            var id := k.pcbs[k.tops[k'.now]].id;
            && k'.now == (if k.tops[a] != -1 then a else if k.tops[b] != -1 then b else k.now)
            && k' == k.(now := k'.now, pde := k'.pde, esp0 := k'.esp0)
            && (if id == k.pcbs[k.tops[k.now]].id then k'.pde == k.pde && k'.esp0 == k.esp0
                else k'.pde == 0x80_0000 + 0x40_0000 * id + 0x187 && k'.esp0 == 0x80_0000 - 4 - 0x2000 * id)
  {
    WholeFrame(k.pcbs[k.tops[TickNext(k).now]].id);
  }

  /** terminal_shift in full: nothing but the display for a live terminal; for a new one a launch there, or, if
      that is refused, nothing at all. */
  lemma ShiftIsExact(k: Tables, terminal: nat, loadable: bool)
    requires Shape(k) && k.tops[0] != -1 && k.tops[k.display - 1] != -1 && 1 <= terminal <= 3
    ensures ShiftNext(k, terminal, loadable) ==
              if k.tops[terminal - 1] != -1 then k.(display := terminal)
              else if loadable && FirstFree(k.ids) != -1 then
                Launch(k.(now := terminal - 1, display := terminal), true).0
              else k
  {
  }

  // ----- whole runs -----

  ghost predicate Inv(k: Tables) {
    exists cs :: InvWith(k, cs)
  }

  lemma StepKeepsChains(k: Tables, cs: seq<seq<nat>>, e: Event)
    requires InvWith(k, cs) && Allowed(e)
    ensures InvWith(Next(k, e), ChainsAfter(k, cs, e))
  {
    match e
    case Execute(loadable) => LaunchKeepsChains(k, cs, loadable);
    case Halt => HaltKeepsChains(k, cs);
    case Tick => TickKeepsChains(k, cs);
    case Shift(terminal, loadable) => ShiftKeepsChains(k, cs, terminal, loadable);
  }

  function Run(k: Tables, es: seq<Event>): Tables
    requires Inv(k) && forall e :: e in es ==> Allowed(e)
    ensures Inv(Run(k, es))
    decreases |es|
  {
    if es == [] then k
    else
      var n := |es| - 1;
      var k' := Run(k, es[..n]);
      StepKeepsInv(k', es[n]);
      Next(k', es[n])
  }

  lemma StepKeepsInv(k: Tables, e: Event)
    requires Inv(k) && Allowed(e)
    ensures Inv(Next(k, e))
  {
    var cs :| InvWith(k, cs);
    StepKeepsChains(k, cs, e);
  }

  /** The tables when the kernel starts its first shell. */
  function Boot(pcbs: seq<Pcb>): Tables
    requires |pcbs| == MAX_PROCESS
  {
    Launch(Tables([0, 0, 0, 0, 0, 0], [0, -1, -1], [0, -1, -1], pcbs, 0, 1, 0, KERNEL_BASE), true).0
  }

  lemma BootInv(pcbs: seq<Pcb>)
    requires |pcbs| == MAX_PROCESS
    ensures InvWith(Boot(pcbs), [[0], [], []]) && Mapped(Boot(pcbs))
  {
    BootTables(pcbs);
    var k := Boot(pcbs);
    assert Linked(k.ids, k.pcbs, [0]);
    assert IsChain(k, 0, [0]) && IsChain(k, 1, []) && IsChain(k, 2, []);
  }

  lemma BootTables(pcbs: seq<Pcb>)
    requires |pcbs| == MAX_PROCESS
    ensures Boot(pcbs) == Tables([1, 0, 0, 0, 0, 0], [0, -1, -1], [0, -1, -1], pcbs[0 := Pcb(0, 0)], 0, 1,
                                 Frame(UserFrame(0)) + GLOBAL_USER_PAGE, KernelStack(0))
  {
    assert FirstFree([0, 0, 0, 0, 0, 0]) == 0;
  }

  // ----- the mapping follows the running process -----

  function Running(k: Tables): int
    requires Shape(k)
  {
    k.tops[k.now]
  }

  /** The 4MB frame that a page-directory entry points to. */
  function Frame(pde: int): int {
    pde / PAGE_4MB * PAGE_4MB
  }

  /** The user page is the running process's frame, and kernel entry lands on its stack. */
  predicate Mapped(k: Tables) {
    Shape(k) && Frame(k.pde) == UserFrame(Running(k)) && k.esp0 == KernelStack(Running(k))
  }

  lemma FrameOf(id: int)
    ensures Frame(Frame(UserFrame(id)) + GLOBAL_USER_PAGE) == UserFrame(id)
    ensures Frame(PAGE_4MB * (id + OFFSET) + USER_PAGE) == UserFrame(id)
  {
    assert UserFrame(id) == PAGE_4MB * (id + 2);
  }

  lemma LaunchMapping(k: Tables)
    requires Sizes(k) && FirstFree(k.ids) != -1
    ensures var k', id := Launch(k, true).0, FirstFree(k.ids);
            Frame(k'.pde) == UserFrame(id) && k'.esp0 == KernelStack(id) && k'.tops == k.tops[k.display - 1 := id]
            && k'.now == k.now
  {
    FrameOf(FirstFree(k.ids));
  }

  /** The process that resumes from a halt is mapped, whatever was before. */
  lemma HaltMaps(k: Tables, cs: seq<seq<nat>>)
    requires InvWith(k, cs) && k.pcbs[Running(k)].parent != Running(k)
    ensures Mapped(HaltNext(k))
  {
    HaltKeepsChains(k, cs);
    var cur := k.pcbs[k.tops[k.now]];
    assert IsChain(k, k.now, cs[k.now]);
    assert k.pcbs[cur.parent].id == cur.parent;
    FrameOf(cur.parent);
  }

  /** So is the next process after a tick, if the terminal changes. */
  lemma TickMaps(k: Tables, cs: seq<seq<nat>>)
    requires InvWith(k, cs) && NextLive(k.tops, k.now) != k.now
    ensures Mapped(TickNext(k))
  {
    var next := NextLive(k.tops, k.now);
    TickKeepsChains(k, cs);
    assert IsChain(k, k.now, cs[k.now]) && IsChain(k, next, cs[next]);
    assert cs[k.now][0] != cs[next][0];
    FrameOf(k.tops[next]);
  }

  lemma StartIsMapped(k: Tables, terminal: nat)
    requires Sizes(k) && 1 <= terminal <= TERMINALS && FirstFree(k.ids) != -1
    ensures var k' := StartShell(k, terminal, true).0;
            Shape(k') ==> Mapped(k')
  {
    LaunchMapping(k.(now := terminal - 1, display := terminal));
  }

  /** A shift that starts a shell. */
  predicate StartsShell(k: Tables, terminal: nat, loadable: bool)
    requires Sizes(k) && 1 <= terminal <= TERMINALS
  {
    terminal != k.display && terminal != 1 && k.tops[terminal - 1] == -1 && loadable && FirstFree(k.ids) != -1
  }

  lemma ShiftMaps(k: Tables, cs: seq<seq<nat>>, terminal: nat, loadable: bool)
    requires InvWith(k, cs) && 1 <= terminal <= TERMINALS
    ensures Mapped(ShiftNext(k, terminal, loadable)) <==> StartsShell(k, terminal, loadable) || Mapped(k)
  {
    ShiftKeepsChains(k, cs, terminal, loadable);
    var k' := ShiftNext(k, terminal, loadable);
    if StartsShell(k, terminal, loadable) {
      StartIsMapped(k, terminal);
    } else {
      assert k' == k.(display := k'.display);
    }
  }

  lemma LaunchMaps(k: Tables, cs: seq<seq<nat>>)
    requires InvWith(k, cs) && FirstFree(k.ids) != -1
    ensures Mapped(Next(k, Execute(true))) <==> k.now == k.display - 1
  {
    LaunchMapping(k);
    LaunchKeepsChains(k, cs, true);
    assert k.ids[Running(k)] != 0;
  }

  /** A launch that succeeds, from a terminal that is not the one shown. */
  predicate LaunchesHidden(k: Tables, e: Event)
    requires Sizes(k)
  {
    e.Execute? && e.loadable && FirstFree(k.ids) != -1 && k.now != k.display - 1
  }

  /** The mapping after every event, whatever it was before: a launch from the displayed terminal, a halt of
      a process that is not a root, a tick to another terminal and the start of a shell put it right, a
      launch from a hidden terminal makes it wrong, and everything else leaves it. */
  lemma MappingAfter(k: Tables, e: Event)
    requires Inv(k) && Allowed(e)
    ensures Mapped(Next(k, e)) <==>
              match e
              case Execute(loadable) =>
                if loadable && FirstFree(k.ids) != -1 then k.now == k.display - 1 else Mapped(k)
              case Halt => k.pcbs[Running(k)].parent != Running(k) || Mapped(k)
              case Tick => NextLive(k.tops, k.now) != k.now || Mapped(k)
              case Shift(terminal, loadable) => StartsShell(k, terminal, loadable) || Mapped(k)
  {
    var cs :| InvWith(k, cs);
    match e
    case Execute(loadable) => if loadable && FirstFree(k.ids) != -1 { LaunchMaps(k, cs); }
    case Halt => if k.pcbs[Running(k)].parent != Running(k) { HaltMaps(k, cs); }
    case Tick => if NextLive(k.tops, k.now) != k.now { TickMaps(k, cs); }
    case Shift(terminal, loadable) => ShiftMaps(k, cs, terminal, loadable);
  }

  /** Which terminal is displayed, and which runs, after every event: a shift brings up its terminal if that
      is live or a shell can be started there; only ticks and such starts change who runs. */
  lemma DisplayAfter(k: Tables, e: Event)
    requires Inv(k) && Allowed(e)
    ensures Next(k, e).display ==
              if e.Shift? && (k.tops[e.terminal - 1] != -1 || StartsShell(k, e.terminal, e.loadable)) then e.terminal
              else k.display
    ensures Next(k, e).now ==
              if e.Tick? then NextLive(k.tops, k.now)
              else if e.Shift? && StartsShell(k, e.terminal, e.loadable) then e.terminal - 1
              else k.now
  {
  }

  /** Three formulas in three functions, one mapping: every step but a launch leaves the running
      process mapped, and a launch does so exactly when the terminal it runs on is the one shown. */
  lemma StepKeepsMapped(k: Tables, e: Event)
    requires Inv(k) && Allowed(e) && Mapped(k)
    ensures Mapped(Next(k, e)) <==> !LaunchesHidden(k, e)
  {
    MappingAfter(k, e);
  }

  /** Kernel stacks and user frames of different processes do not meet, nor do stacks and frames. */
  lemma RegionsApart(a: nat, b: nat)
    requires a < MAX_PROCESS && b < MAX_PROCESS
    ensures a == b || KernelStack(a) + 4 <= KernelStack(b) + 4 - STACK_8KB
            || KernelStack(b) + 4 <= KernelStack(a) + 4 - STACK_8KB
    ensures a != b ==> UserFrame(a) + PAGE_4MB <= UserFrame(b) || UserFrame(b) + PAGE_4MB <= UserFrame(a)
    ensures KernelStack(a) + 4 <= UserFrame(b) && KernelStack(a) + 4 - STACK_8KB >= 0x400000
    ensures UserFrame(b) + PAGE_4MB <= 0x1_0000_0000
  {
  }

  // ----- who is whose parent -----

  /** A launched process's parent is the process that called execute exactly if the caller's terminal is
      shown and parent_array names the caller; and it runs on the caller's terminal exactly if that is shown. */
  lemma CallerIsParent(k: Tables)
    requires Inv(k) && FirstFree(k.ids) != -1
    ensures var k' := Launch(k, true).0;
            && (k'.pcbs[FirstFree(k.ids)].parent == Running(k) <==>
                k.now == k.display - 1 && k.parents[k.now] == Running(k))
            && (k'.tops[k.now] == FirstFree(k.ids) <==> k.now == k.display - 1)
  {
    var cs :| InvWith(k, cs);
    var d := k.display - 1;
    assert IsChain(k, k.now, cs[k.now]) && IsChain(k, d, cs[d]);
    assert cs[k.now][0] == Running(k);
  }

  /** After a halt, the process that resumes is recorded as the next parent exactly if it is a root:
      anything it executes when it is not one is handed over its head to its own parent. */
  lemma HaltForgetsTheCaller(k: Tables)
    requires Inv(k) && k.pcbs[Running(k)].parent != Running(k)
    ensures var k' := HaltNext(k);
            && Shape(k') && Running(k') == k.pcbs[Running(k)].parent
            && (k'.parents[k'.now] == Running(k') <==> k'.pcbs[Running(k')].parent == Running(k'))
  {
    var cs :| InvWith(k, cs);
    HaltKeepsChains(k, cs);
    assert IsChain(k, k.now, cs[k.now]);
  }

  /** `id` is marked busy but stands in no chain. */
  ghost predicate Stranded(k: Tables, id: nat, cs: seq<seq<nat>>)
    requires Sizes(k)
  {
    id < MAX_PROCESS && k.ids[id] != 0 && forall t, j :: 0 <= t < |cs| && 0 <= j < |cs[t]| ==> cs[t][j] != id
  }

  /** A launch takes the process on top of the displayed terminal out of every chain, though it stays
      busy, exactly if parent_array does not name it. */
  lemma LaunchStrandsTheCaller(k: Tables, cs: seq<seq<nat>>)
    requires InvWith(k, cs) && FirstFree(k.ids) != -1
    ensures var k', cs', d := Next(k, Execute(true)), ChainsAfter(k, cs, Execute(true)), k.display - 1;
            InvWith(k', cs') && (Stranded(k', k.tops[d], cs') <==> k.parents[d] != k.tops[d])
  {
    StepKeepsChains(k, cs, Execute(true));
    var cs', d := ChainsAfter(k, cs, Execute(true)), k.display - 1;
    var c := cs[d];
    assert IsChain(k, d, c);
    if k.parents[d] == k.tops[d] {
      assert cs'[d][1] == k.tops[d];
    } else {
      OffTheChains(cs, d, FirstFree(k.ids), cs');
    }
  }

  /** A chain's top that a new process is not put on is on no chain any more. */
  lemma OffTheChains(cs: seq<seq<nat>>, d: nat, id: nat, cs': seq<seq<nat>>)
    requires Apart(cs) && d < |cs| && cs[d] != [] && id != cs[d][0]
    requires cs' == cs[d := [id] + cs[d][1..]]
    ensures forall t, j :: 0 <= t < |cs'| && 0 <= j < |cs'[t]| ==> cs'[t][j] != cs[d][0]
  {
    forall t, j | 0 <= t < |cs'| && 0 <= j < |cs'[t]| ensures cs'[t][j] != cs[d][0] {
      assert t == d && j > 0 ==> cs'[t][j] == cs[d][j];
      assert t != d ==> cs'[t][j] == cs[t][j];
    }
  }

  /** Process 1 has resumed on the displayed terminal, with process 0 for the next parent, and there is a
      free number. */
  ghost predicate Resumed(k: Tables) {
    && Inv(k) && Running(k) == 1 && k.now == k.display - 1 && k.parents[k.now] == 0 && FirstFree(k.ids) != -1
  }

  /** Busy, and in no chain. */
  ghost predicate StrandedAtLast(k: Tables, id: nat) {
    exists cs :: InvWith(k, cs) && Stranded(k, id, cs)
  }

  /** Whatever follows such a launch, the number of the process taken out is lost. */
  lemma LaunchStrandsForGood(k: Tables, top: nat, es: seq<Event>)
    requires Inv(k) && FirstFree(k.ids) != -1 && forall e :: e in es ==> Allowed(e)
    requires k.tops[k.display - 1] == top != k.parents[k.display - 1]
    ensures Inv(Next(k, Execute(true))) && StrandedAtLast(Run(Next(k, Execute(true)), es), top)
  {
    var cs :| InvWith(k, cs);
    LaunchStrandsTheCaller(k, cs);
    var k', cs' := Next(k, Execute(true)), ChainsAfter(k, cs, Execute(true));
    StrandedInEveryRun(k', cs', es, top);
    assert InvWith(Run(k', es), ChainsOfRun(k', cs', es));
  }

  /** Such states are reached: the first shell runs a program that runs another, and that one halts. */
  lemma StrandingIsReached(pcbs: seq<Pcb>)
    requires |pcbs| == MAX_PROCESS
    ensures var k1 := Next(Boot(pcbs), Execute(true));
            && Shape(k1) && Shape(Next(k1, Execute(true)))
            && var k3 := Next(Next(k1, Execute(true)), Halt);
            Resumed(k3)
  {
    BootInv(pcbs);
    BootTables(pcbs);
    SecondShell(Boot(pcbs));
    LaunchAndHalt(Next(Boot(pcbs), Execute(true)));
    FreeAbove(Next(Boot(pcbs), Execute(true)), 1);
    StepKeepsInv(Boot(pcbs), Execute(true));
    StepKeepsInv(Next(Boot(pcbs), Execute(true)), Execute(true));
    StepKeepsInv(Next(Next(Boot(pcbs), Execute(true)), Execute(true)), Halt);
  }

  /** A process with number `id`, and all lower ones, on top of terminal 1, the one shown. */
  predicate OnTopOfOne(k: Tables, id: nat) {
    && Shape(k) && k.now == 0 && k.display == 1 && k.tops == [id as int, -1, -1]
    && id < 2 && k.ids == if id == 0 then [1, 0, 0, 0, 0, 0] else [1, 1, 0, 0, 0, 0]
  }

  lemma FreeAbove(k: Tables, id: nat)
    requires OnTopOfOne(k, id)
    ensures FirstFree(k.ids) == id + 1
  {
    assert FirstFree([1, 0, 0, 0, 0, 0]) == 1 && FirstFree([1, 1, 0, 0, 0, 0]) == 2;
  }

  lemma SecondShell(k: Tables)
    requires OnTopOfOne(k, 0) && k.parents == [0, -1, -1] && k.pcbs[0] == Pcb(0, 0)
    ensures var k' := Next(k, Execute(true));
            OnTopOfOne(k', 1) && k'.parents == [1, -1, -1] && k'.pcbs == k.pcbs[1 := Pcb(1, 0)]
  {
    FreeAbove(k, 0);
    assert Next(k, Execute(true)).ids == [1, 1, 0, 0, 0, 0] && Next(k, Execute(true)).tops == [1, -1, -1];
  }

  lemma LaunchAndHalt(k: Tables)
    requires OnTopOfOne(k, 1) && k.parents == [1, -1, -1] && k.pcbs[1] == Pcb(1, 0)
    ensures Shape(Next(k, Execute(true)))
    ensures var k' := Next(Next(k, Execute(true)), Halt);
            k'.ids == k.ids && k'.tops == k.tops && k'.parents == [0, -1, -1] && k'.now == 0 && k'.display == 1
  {
    FreeAbove(k, 1);
    var k1 := Next(k, Execute(true));
    assert k1.ids == k.ids[2 := 1] && k1.tops == [2, -1, -1] && k1.parents == [2, -1, -1];
    assert k1.pcbs == k.pcbs[2 := Pcb(2, 1)];
    assert k.ids[2 := 1][2 := 0] == k.ids;
  }

  lemma InOnto(c: seq<nat>, parent: int, id: nat, x: nat)
    requires x in [id] + Onto(c, parent)
    ensures x in c || x == id
  {
  }

  /** The chains after a step hold what they held before, or a process just launched. */
  lemma ChainEntries(k: Tables, cs: seq<seq<nat>>, e: Event, t: nat, x: nat)
    requires Shape(k) && |cs| == TERMINALS && Allowed(e) && t < TERMINALS && x in ChainsAfter(k, cs, e)[t]
    ensures x in cs[t] || (x < MAX_PROCESS && k.ids[x] == 0)
  {
    if e.Execute? && t == k.display - 1 && e.loadable && FirstFree(k.ids) != -1 {
      InOnto(cs[t], k.parents[t], FirstFree(k.ids), x);
    } else if e.Halt? && t == k.now && |cs[t]| > 1 {
      InTail(cs[t], x);
    }
  }

  lemma InTail(c: seq<nat>, x: nat)
    requires c != [] && x in c[1..]
    ensures x in c
  {
  }

  lemma StepKeepsBusy(k: Tables, cs: seq<seq<nat>>, e: Event, id: nat)
    requires InvWith(k, cs) && Allowed(e) && id < MAX_PROCESS && k.ids[id] != 0 && id != Running(k)
    ensures Sizes(Next(k, e)) && Next(k, e).ids[id] != 0
  {
  }

  /** And it stays so: its number is never released and never handed out again. */
  lemma StrandedForever(k: Tables, cs: seq<seq<nat>>, e: Event, id: nat)
    requires InvWith(k, cs) && Allowed(e) && Stranded(k, id, cs)
    ensures InvWith(Next(k, e), ChainsAfter(k, cs, e))
    ensures Stranded(Next(k, e), id, ChainsAfter(k, cs, e))
  {
    StepKeepsChains(k, cs, e);
    var cs' := ChainsAfter(k, cs, e);
    assert IsChain(k, k.now, cs[k.now]);
    StepKeepsBusy(k, cs, e, id);
    forall t, j | 0 <= t < |cs'| && 0 <= j < |cs'[t]| ensures cs'[t][j] != id {
      ChainEntries(k, cs, e, t, cs'[t][j]);
    }
  }

  /** The chains at the end of a run. */
  ghost function ChainsOfRun(k: Tables, cs: seq<seq<nat>>, es: seq<Event>): (r: seq<seq<nat>>)
    requires InvWith(k, cs) && forall e :: e in es ==> Allowed(e)
    ensures InvWith(Run(k, es), r)
    decreases |es|
  {
    if es == [] then cs
    else
      var n := |es| - 1;
      var r := ChainsOfRun(k, cs, es[..n]);
      StepKeepsChains(Run(k, es[..n]), r, es[n]);
      ChainsAfter(Run(k, es[..n]), r, es[n])
  }

  lemma {:induction false} StrandedInEveryRun(k: Tables, cs: seq<seq<nat>>, es: seq<Event>, id: nat)
    requires InvWith(k, cs) && (forall e :: e in es ==> Allowed(e)) && Stranded(k, id, cs)
    ensures Stranded(Run(k, es), id, ChainsOfRun(k, cs, es))
    decreases |es|
  {
    if es != [] {
      var n := |es| - 1;
      StrandedInEveryRun(k, cs, es[..n], id);
      StrandedForever(Run(k, es[..n]), ChainsOfRun(k, cs, es[..n]), es[n], id);
    }
  }

  // ----- which events lose a process -----

  /** No process is busy without standing in a chain. */
  ghost predicate NoneLost(k: Tables, cs: seq<seq<nat>>)
    requires Sizes(k)
  {
    forall id: nat :: !Stranded(k, id, cs)
  }

  /** A launch that succeeds while parent_array does not name the process on top of the displayed terminal. */
  predicate Strands(k: Tables, e: Event)
    requires Sizes(k)
  {
    e.Execute? && e.loadable && FirstFree(k.ids) != -1 && k.parents[k.display - 1] != k.tops[k.display - 1]
  }

  lemma StaysUnder(c: seq<nat>, parent: int, id: nat, x: nat)
    requires x in c && c[0] == parent
    ensures x in [id] + Onto(c, parent)
  {
  }

  lemma StaysInTail(c: seq<nat>, x: nat)
    requires x in c && x != c[0]
    ensures x in c[1..]
  {
    var j :| 0 <= j < |c| && c[j] == x;
    assert c[1..][j - 1] == x;
  }

  /** The process that a halt takes off its chain is not busy any more. */
  lemma HaltReleases(k: Tables, cs: seq<seq<nat>>)
    requires InvWith(k, cs) && |cs[k.now]| > 1
    ensures HaltNext(k).ids == k.ids[cs[k.now][0] := 0]
  {
    var c := cs[k.now];
    assert IsChain(k, k.now, c);
    assert forall i :: 1 <= i < |c| ==> c[i] != c[0];
    TailChain(k, c);
  }

  lemma StaysAtLaunch(k: Tables, cs: seq<seq<nat>>, loadable: bool, t: nat, x: nat)
    requires Shape(k) && |cs| == TERMINALS && t < TERMINALS && IsChain(k, t, cs[t]) && x in cs[t]
    requires !Strands(k, Execute(loadable))
    ensures x in ChainsAfter(k, cs, Execute(loadable))[t]
  {
    if loadable && FirstFree(k.ids) != -1 && t == k.display - 1 {
      StaysUnder(cs[t], k.parents[t], FirstFree(k.ids), x);
    }
  }

  lemma StaysAtShift(k: Tables, cs: seq<seq<nat>>, terminal: nat, loadable: bool, t: nat, x: nat)
    requires Shape(k) && |cs| == TERMINALS && t < TERMINALS && IsChain(k, t, cs[t]) && x in cs[t]
    requires 1 <= terminal <= TERMINALS
    ensures x in ChainsAfter(k, cs, Shift(terminal, loadable))[t]
  {
  }

  /** Any other event keeps the busy processes of a chain in it. */
  lemma EntriesStay(k: Tables, cs: seq<seq<nat>>, e: Event, t: nat, x: nat)
    requires InvWith(k, cs) && Allowed(e) && !Strands(k, e) && t < TERMINALS && x in cs[t]
    requires x < MAX_PROCESS && Sizes(Next(k, e)) && Next(k, e).ids[x] != 0
    ensures x in ChainsAfter(k, cs, e)[t]
  {
    match e
    case Execute(loadable) => StaysAtLaunch(k, cs, loadable, t, x);
    case Halt =>
      if t == k.now && |cs[t]| > 1 {
        HaltReleases(k, cs);
        StaysInTail(cs[t], x);
      }
    case Tick =>
    case Shift(terminal, loadable) => StaysAtShift(k, cs, terminal, loadable, t, x);
  }

  /** A process that becomes busy is the one just launched. */
  lemma NewlyBusy(k: Tables, e: Event, id: nat)
    requires Shape(k) && Allowed(e) && id < MAX_PROCESS && k.ids[id] == 0
    requires Sizes(Next(k, e)) && Next(k, e).ids[id] != 0
    ensures id == FirstFree(k.ids)
    ensures (e.Execute? && e.loadable) || (e.Shift? && StartsShell(k, e.terminal, e.loadable))
  {
  }

  /** And it is on top of a chain. */
  lemma NewlyOnTop(k: Tables, cs: seq<seq<nat>>, e: Event, id: nat)
    requires Shape(k) && |cs| == TERMINALS && Allowed(e) && id == FirstFree(k.ids)
    requires (e.Execute? && e.loadable) || (e.Shift? && StartsShell(k, e.terminal, e.loadable))
    ensures exists t :: 0 <= t < TERMINALS && ChainsAfter(k, cs, e)[t] != [] && ChainsAfter(k, cs, e)[t][0] == id
  {
    var t := if e.Shift? then e.terminal - 1 else k.display - 1;
    assert ChainsAfter(k, cs, e)[t][0] == id;
  }

  /** Whoever is lost after any other event was lost before it. */
  lemma LostBefore(k: Tables, cs: seq<seq<nat>>, e: Event, id: nat)
    requires InvWith(k, cs) && Allowed(e) && !Strands(k, e)
    requires Sizes(Next(k, e)) && Stranded(Next(k, e), id, ChainsAfter(k, cs, e))
    ensures Stranded(k, id, cs)
  {
    if k.ids[id] == 0 {
      NewlyBusy(k, e, id);
      NewlyOnTop(k, cs, e, id);
    }
    forall t, j | 0 <= t < |cs| && 0 <= j < |cs[t]| ensures cs[t][j] != id {
      if cs[t][j] == id { EntriesStay(k, cs, e, t, id); }
    }
  }

  /** For every event: no process is lost by it if and only if it is not such a launch. */
  lemma StepLoses(k: Tables, cs: seq<seq<nat>>, e: Event)
    requires InvWith(k, cs) && Allowed(e) && NoneLost(k, cs)
    ensures InvWith(Next(k, e), ChainsAfter(k, cs, e))
    ensures NoneLost(Next(k, e), ChainsAfter(k, cs, e)) <==> !Strands(k, e)
  {
    StepKeepsChains(k, cs, e);
    if Strands(k, e) {
      LaunchStrandsTheCaller(k, cs);
      assert IsChain(k, k.display - 1, cs[k.display - 1]);
    } else {
      forall id: nat ensures !Stranded(Next(k, e), id, ChainsAfter(k, cs, e)) {
        if Stranded(Next(k, e), id, ChainsAfter(k, cs, e)) { LostBefore(k, cs, e, id); }
      }
    }
  }

  /** No event of this run is such a launch. */
  predicate NeverStrands(k: Tables, es: seq<Event>)
    requires Inv(k) && forall e :: e in es ==> Allowed(e)
    decreases |es|
  {
    es == [] ||
    var n := |es| - 1;
    NeverStrands(k, es[..n]) && !Strands(Run(k, es[..n]), es[n])
  }

  /** And for every run: no process is lost at its end if and only if there was no such launch in it. */
  lemma {:induction false} RunLoses(k: Tables, cs: seq<seq<nat>>, es: seq<Event>)
    requires InvWith(k, cs) && NoneLost(k, cs) && forall e :: e in es ==> Allowed(e)
    ensures NoneLost(Run(k, es), ChainsOfRun(k, cs, es)) <==> NeverStrands(k, es)
    decreases |es|
  {
    if es != [] {
      var n := |es| - 1;
      RunLoses(k, cs, es[..n]);
      RunUnfolds(k, es);
      var k', cs' := Run(k, es[..n]), ChainsOfRun(k, cs, es[..n]);
      if NeverStrands(k, es[..n]) {
        StepLoses(k', cs', es[n]);
      } else {
        var id: nat :| Stranded(k', id, cs');
        StrandedForever(k', cs', es[n], id);
      }
    }
  }

  /** From the first shell. */
  lemma LossesFromBoot(pcbs: seq<Pcb>, es: seq<Event>)
    requires |pcbs| == MAX_PROCESS && forall e :: e in es ==> Allowed(e)
    ensures InvWith(Boot(pcbs), [[0], [], []])
    ensures NoneLost(Run(Boot(pcbs), es), ChainsOfRun(Boot(pcbs), [[0], [], []], es)) <==> NeverStrands(Boot(pcbs), es)
  {
    BootInv(pcbs);
    BootTables(pcbs);
    assert [[0], [], []][0][0] == 0;
    RunLoses(Boot(pcbs), [[0], [], []], es);
  }

  // ----- launches from a hidden terminal -----

  /** They are reached: a second terminal is brought up, and the first one's turn comes again. */
  lemma HiddenLaunchIsReached(pcbs: seq<Pcb>)
    requires |pcbs| == MAX_PROCESS
    ensures var k1 := Next(Boot(pcbs), Shift(2, true));
            && Shape(k1)
            && var k2 := Next(k1, Tick);
            && Inv(k2) && Mapped(k2) && LaunchesHidden(k2, Execute(true)) && !Mapped(Next(k2, Execute(true)))
  {
    BootInv(pcbs);
    BootTables(pcbs);
    FreeAbove(Boot(pcbs), 0);
    StepKeepsInv(Boot(pcbs), Shift(2, true));
    TwoTerminals(Boot(pcbs));
    var k1 := Next(Boot(pcbs), Shift(2, true));
    StepKeepsInv(k1, Tick);
    MappingAfter(k1, Tick);
    MappingAfter(Next(k1, Tick), Execute(true));
  }

  lemma TwoTerminals(k: Tables)
    requires OnTopOfOne(k, 0) && FirstFree(k.ids) == 1 && k.parents[1] == -1 && Shape(Next(k, Shift(2, true)))
    ensures var k1 := Next(k, Shift(2, true));
            && NextLive(k1.tops, k1.now) == 0 != k1.now
            && var k2 := Next(k1, Tick);
            k2.now == 0 && k2.display == 2 && FirstFree(k2.ids) == 2
  {
    var k1 := Next(k, Shift(2, true));
    assert k1.ids == [1, 1, 0, 0, 0, 0] && k1.tops == [0, 1, -1] && k1.now == 1 && k1.display == 2;
    assert FirstFree([1, 1, 0, 0, 0, 0]) == 2;
  }

  /** In this run every launch is made from the terminal on display. */
  predicate LaunchesShown(k: Tables, es: seq<Event>)
    requires Inv(k) && forall e :: e in es ==> Allowed(e)
    decreases |es|
  {
    es == [] ||
    var n := |es| - 1;
    LaunchesShown(k, es[..n]) && !LaunchesHidden(Run(k, es[..n]), es[n])
  }

  /** As long as programs are launched from the terminal on display, the mapping follows the running
      process through every run. */
  lemma {:induction false} MappedInEveryRun(k: Tables, es: seq<Event>)
    requires Inv(k) && Mapped(k) && (forall e :: e in es ==> Allowed(e)) && LaunchesShown(k, es)
    ensures Mapped(Run(k, es))
    decreases |es|
  {
    if es != [] {
      var n := |es| - 1;
      MappedInEveryRun(k, es[..n]);
      StepKeepsMapped(Run(k, es[..n]), es[n]);
    }
  }

  // ----- fairness -----

  /** terminal_now after `n` ticks. */
  function NowAfter(tops: seq<int>, now: nat, n: nat): (r: nat)
    requires |tops| == TERMINALS && now < TERMINALS && tops[now] != -1
    ensures r < TERMINALS && tops[r] != -1
  {
    if n == 0 then now else NextLive(tops, NowAfter(tops, now, n - 1))
  }

  predicate Live(tops: seq<int>, t: nat)
    requires |tops| == TERMINALS
  {
    t < TERMINALS && tops[t] != -1
  }

  function LiveCount(tops: seq<int>): nat
    requires |tops| == TERMINALS
  {
    (if Live(tops, 0) then 1 else 0) + (if Live(tops, 1) then 1 else 0) + if Live(tops, 2) then 1 else 0
  }

  lemma FirstTicks(tops: seq<int>, now: nat, a: nat, b: nat)
    requires |tops| == TERMINALS && now < TERMINALS && tops[now] != -1
    requires a == (now + 1) % TERMINALS && b == (now + 2) % TERMINALS
    ensures NowAfter(tops, now, 0) == now
    ensures NowAfter(tops, now, 1) == if tops[a] != -1 then a else if tops[b] != -1 then b else now
    ensures NowAfter(tops, now, 2) == if tops[a] != -1 && tops[b] != -1 then b else now
    ensures tops[a] != -1 && tops[b] != -1 ==> NowAfter(tops, now, 3) == now
  {
    assert (now, a, b) == (0, 1, 2) || (now, a, b) == (1, 2, 0) || (now, a, b) == (2, 0, 1);
    assert NowAfter(tops, now, 1) == NextLive(tops, now);
    assert NowAfter(tops, now, 2) == NextLive(tops, NowAfter(tops, now, 1));
    assert NowAfter(tops, now, 3) == NextLive(tops, NowAfter(tops, now, 2));
  }

  lemma CountFrom(tops: seq<int>, now: nat, a: nat, b: nat)
    requires |tops| == TERMINALS && now < TERMINALS && tops[now] != -1
    requires a == (now + 1) % TERMINALS && b == (now + 2) % TERMINALS
    ensures LiveCount(tops) == 1 + (if tops[a] != -1 then 1 else 0) + (if tops[b] != -1 then 1 else 0)
    ensures forall t :: Live(tops, t) ==> t == now || t == a || t == b
  {
    if now == 0 {
    } else if now == 1 {
    } else {
      assert now == 2;
    }
  }

  lemma OneRound(tops: seq<int>, now: nat)
    requires |tops| == TERMINALS && now < TERMINALS && tops[now] != -1
    ensures NowAfter(tops, now, LiveCount(tops)) == now
    ensures forall t :: Live(tops, t) ==> exists j :: 0 <= j < LiveCount(tops) && NowAfter(tops, now, j) == t
    ensures forall i, j :: 0 <= i < j < LiveCount(tops) ==> NowAfter(tops, now, i) != NowAfter(tops, now, j)
  {
    var a, b, n := (now + 1) % TERMINALS, (now + 2) % TERMINALS, LiveCount(tops);
    FirstTicks(tops, now, a, b);
    CountFrom(tops, now, a, b);
    assert a != now && b != now && a != b;
    forall t | Live(tops, t)
      ensures exists j :: 0 <= j < n && NowAfter(tops, now, j) == t
    {
      var j := if t == now then 0 else if t == a || tops[a] == -1 then 1 else 2;
      assert NowAfter(tops, now, j) == t;
    }
    forall i, j | 0 <= i < j < n
      ensures NowAfter(tops, now, i) != NowAfter(tops, now, j)
    {
      assert (i == 0 && (j == 1 || j == 2)) || (i == 1 && j == 2);
    }
  }

  lemma {:induction false} NowAfterSum(tops: seq<int>, now: nat, m: nat, n: nat)
    requires |tops| == TERMINALS && now < TERMINALS && tops[now] != -1
    ensures NowAfter(tops, now, m + n) == NowAfter(tops, NowAfter(tops, now, m), n)
  {
    if n > 0 { NowAfterSum(tops, now, m, n - 1); }
  }

  /** Round robin: among any LiveCount consecutive ticks every live terminal runs exactly once, so
      that none waits for more than two. */
  lemma RoundRobin(tops: seq<int>, now: nat, m: nat, t: nat)
    requires |tops| == TERMINALS && now < TERMINALS && tops[now] != -1 && Live(tops, t)
    ensures exists j :: m <= j < m + LiveCount(tops) && NowAfter(tops, now, j) == t
    ensures forall i, j :: m <= i < j < m + LiveCount(tops) ==> NowAfter(tops, now, i) != NowAfter(tops, now, j)
    ensures NowAfter(tops, now, m + LiveCount(tops)) == NowAfter(tops, now, m)
    ensures LiveCount(tops) <= 3
  {
    var start := NowAfter(tops, now, m);
    OneRound(tops, start);
    forall i: nat ensures NowAfter(tops, now, m + i) == NowAfter(tops, start, i) { NowAfterSum(tops, now, m, i); }
    var j :| 0 <= j < LiveCount(tops) && NowAfter(tops, start, j) == t;
    assert NowAfter(tops, now, m + j) == t;
    forall i, j | m <= i < j < m + LiveCount(tops)
      ensures NowAfter(tops, now, i) != NowAfter(tops, now, j)
    {
      assert NowAfter(tops, now, m + (i - m)) == NowAfter(tops, start, i - m);
      assert NowAfter(tops, now, m + (j - m)) == NowAfter(tops, start, j - m);
    }
  }

  function Ticks(es: seq<Event>): nat {
    if es == [] then 0 else Ticks(es[..|es| - 1]) + if es[|es| - 1].Tick? then 1 else 0
  }

  ghost predicate SameLive(a: seq<int>, b: seq<int>)
    requires |a| == TERMINALS && |b| == TERMINALS
  {
    forall t :: Live(a, t) <==> Live(b, t)
  }

  lemma NextSameLive(a: seq<int>, b: seq<int>, now: nat)
    requires |a| == TERMINALS && |b| == TERMINALS && SameLive(a, b) && now < TERMINALS && a[now] != -1
    ensures b[now] != -1 && NextLive(a, now) == NextLive(b, now)
  {
    assert Live(a, now) && (Live(a, (now + 1) % TERMINALS) <==> Live(b, (now + 1) % TERMINALS));
    assert Live(a, (now + 2) % TERMINALS) <==> Live(b, (now + 2) % TERMINALS);
  }

  /** A terminal once live stays live, and without a new one only ticks move terminal_now. */
  lemma StepKeepsLive(k: Tables, e: Event)
    requires Shape(k) && Allowed(e)
    ensures Sizes(Next(k, e)) && forall t :: Live(k.tops, t) ==> Live(Next(k, e).tops, t)
  {
  }

  lemma StepMovesNow(k: Tables, e: Event)
    requires Shape(k) && Allowed(e) && Sizes(Next(k, e)) && SameLive(k.tops, Next(k, e).tops)
    ensures Next(k, e).now == if e.Tick? then NextLive(k.tops, k.now) else k.now
  {
    if e.Shift? { assert Live(k.tops, e.terminal - 1) <==> Live(Next(k, e).tops, e.terminal - 1); }
  }

  lemma {:induction false} LiveGrows(k: Tables, es: seq<Event>)
    requires Inv(k) && forall e :: e in es ==> Allowed(e)
    ensures forall t :: Live(k.tops, t) ==> Live(Run(k, es).tops, t)
    decreases |es|
  {
    if es != [] {
      LiveGrows(k, es[..|es| - 1]);
      StepKeepsLive(Run(k, es[..|es| - 1]), es[|es| - 1]);
    }
  }

  lemma Between(a: seq<int>, b: seq<int>, c: seq<int>)
    requires |a| == TERMINALS && |b| == TERMINALS && |c| == TERMINALS && SameLive(a, c)
    requires forall t :: Live(a, t) ==> Live(b, t)
    requires forall t :: Live(b, t) ==> Live(c, t)
    ensures SameLive(a, b) && SameLive(b, c)
  {
  }

  lemma OneDecides(k: Tables, e: Event, tops: seq<int>)
    requires Shape(k) && Allowed(e) && Sizes(Next(k, e)) && |tops| == TERMINALS && SameLive(tops, Next(k, e).tops)
    requires forall t :: Live(tops, t) ==> Live(k.tops, t)
    ensures SameLive(tops, k.tops) && tops[k.now] != -1
    ensures Next(k, e).now == if e.Tick? then NextLive(tops, k.now) else k.now
  {
    StepKeepsLive(k, e);
    Between(tops, k.tops, Next(k, e).tops);
    StepMovesNow(k, e);
    NextSameLive(k.tops, tops, k.now);
  }

  lemma RunUnfolds(k: Tables, es: seq<Event>)
    requires Inv(k) && es != [] && forall e :: e in es ==> Allowed(e)
    ensures Inv(Run(k, es[..|es| - 1])) && Run(k, es) == Next(Run(k, es[..|es| - 1]), es[|es| - 1])
  {
  }

  /** In every run that starts no new terminal, whatever else happens, the running terminal is the
      one that its ticks alone select. */
  lemma {:induction false} TicksDecide(k: Tables, es: seq<Event>)
    requires Inv(k) && (forall e :: e in es ==> Allowed(e)) && SameLive(k.tops, Run(k, es).tops)
    ensures Run(k, es).now == NowAfter(k.tops, k.now, Ticks(es))
    decreases |es|
  {
    if es != [] {
      var n := |es| - 1;
      LiveGrows(k, es[..n]);
      RunUnfolds(k, es);
      OneDecides(Run(k, es[..n]), es[n], k.tops);
      TicksDecide(k, es[..n]);
    }
  }

  // ----- the kernel's variables, updated in place -----

  class Kernel {
    const idArray: array<int>
    const parentArray: array<int>
    const pcbArray: array<int>
    const pcbs: array<Pcb>
    var terminalNow: nat
    var curDisplay: nat
    var userEntry: int
    var esp0: int
    /** The chain of callers of each terminal. */
    ghost var chains: seq<seq<nat>>

    /** The three tables are different arrays. */
    predicate SeparateTables() {
      idArray != parentArray && idArray != pcbArray && parentArray != pcbArray
    }

    ghost function Snapshot(): Tables
      reads this, idArray, parentArray, pcbArray, pcbs
    {
      Tables(idArray[..], parentArray[..], pcbArray[..], pcbs[..], terminalNow, curDisplay, userEntry, esp0)
    }

    ghost predicate Valid()
      reads this, idArray, parentArray, pcbArray, pcbs
    {
      SeparateTables() && InvWith(Snapshot(), chains)
    }

    /** The tables at boot, with the first shell executed. */
    constructor (stale: array<Pcb>)
      requires stale.Length == MAX_PROCESS
      modifies stale
      ensures Valid() && Mapped(Snapshot()) && chains == [[0], [], []]
      ensures Snapshot() == Boot(old(stale[..]))
    {
      idArray := new int[MAX_PROCESS](_ => 0);
      parentArray := new int[TERMINALS](i => if i == 0 then 0 else -1);
      pcbArray := new int[TERMINALS](i => if i == 0 then 0 else -1);
      pcbs := stale;
      terminalNow, curDisplay, userEntry, esp0 := 0, 1, 0, KERNEL_BASE;
      chains := [[0], [], []];
      new;
      BootInv(stale[..]);
      assert idArray[..] == [0, 0, 0, 0, 0, 0] && parentArray[..] == [0, -1, -1] && pcbArray[..] == [0, -1, -1];
      assert FirstFree(idArray[..]) == 0;
      var r := Exec(true);
    }

    /** The search for a free process number. */
    method AllocateId() returns (id: int)
      requires idArray.Length == MAX_PROCESS
      modifies idArray
      ensures id == FirstFree(old(idArray[..]))
      ensures idArray[..] == if id == -1 then old(idArray[..]) else old(idArray[..])[id := 1]
    {
      id := -1;
      ghost var ids := idArray[..];
      var i := 0;
      while i < MAX_PROCESS
        invariant 0 <= i <= MAX_PROCESS && id == -1 && idArray[..] == ids
        invariant forall j :: 0 <= j < i ==> ids[j] != 0
      {
        if idArray[i] == 0 {
          id := i;
          idArray[i] := 1;
          assert ids[i] == 0 && FirstFree(ids) == i;
          break;
        }
        i := i + 1;
      }
    }

    /** execute, once a process number is found: the page, the control block, the tables, the stack. */
    method Install(id: nat)
      requires Sizes(Snapshot()) && SeparateTables() && id < MAX_PROCESS
      modifies this`userEntry, this`esp0, parentArray, pcbArray, pcbs
      ensures
        var k, d := old(Snapshot()), curDisplay - 1;
        var parent := if k.parents[d] == -1 then id else k.parents[d];
        && pcbArray[..] == k.tops[d := id] && parentArray[..] == k.parents[d := id]
            && pcbs[..] == k.pcbs[id := Pcb(id, parent)]
        && userEntry == Frame(UserFrame(id)) + GLOBAL_USER_PAGE && esp0 == KernelStack(id)
    {
      var physical := PROGRAM_START_ADDR + id * PAGE_4MB;
      userEntry := physical / PAGE_4MB * PAGE_4MB + GLOBAL_USER_PAGE;
      var d := curDisplay - 1;
      pcbArray[d] := id;
      var parent := if parentArray[d] == -1 then id else parentArray[d];
      pcbs[id] := Pcb(id, parent);
      parentArray[d] := id;
      esp0 := PROGRAM_START_ADDR - 4 - STACK_8KB * id;
    }

    /** execute */
    method Exec(loadable: bool) returns (code: int)
      requires Sizes(Snapshot()) && SeparateTables()
      modifies this`userEntry, this`esp0, idArray, parentArray, pcbArray, pcbs
      ensures (Snapshot(), code) == Launch(old(Snapshot()), loadable)
    {
      if !loadable { return -1; }
      var id := AllocateId();
      if id == -1 { return -1; }
      Install(id);
      return 0;
    }

    /** The execute system call. */
    method Execute(loadable: bool) returns (code: int)
      requires Valid()
      modifies this`userEntry, this`esp0, this`chains, idArray, parentArray, pcbArray, pcbs
      ensures Valid() && (Snapshot(), code) == Launch(old(Snapshot()), loadable)
      ensures chains == ChainsAfter(old(Snapshot()), old(chains), Event.Execute(loadable))
    {
      LaunchKeepsChains(Snapshot(), chains, loadable);
      chains := ChainsAfter(Snapshot(), chains, Event.Execute(loadable));
      code := Exec(loadable);
    }

    /** halt, on the variables. */
    method HaltVariables()
      requires Shape(Snapshot()) && SeparateTables()
      modifies this`userEntry, this`esp0, idArray, parentArray, pcbArray
      ensures Snapshot() == HaltNext(old(Snapshot()))
    {
      var cur := pcbs[pcbArray[terminalNow]];
      var par := pcbs[cur.parent];
      if cur.id == cur.parent { return; }
      pcbArray[terminalNow] := cur.parent;
      parentArray[terminalNow] := par.parent;
      idArray[cur.id] := 0;
      userEntry := PAGE_4MB * (cur.parent + OFFSET) + USER_PAGE;
      esp0 := KERNEL_BASE - par.id * STACK_8KB - 4;
    }

    /** halt */
    method Halt()
      requires Valid()
      modifies this`userEntry, this`esp0, this`chains, idArray, parentArray, pcbArray
      ensures Valid() && Snapshot() == HaltNext(old(Snapshot()))
      ensures chains == ChainsAfter(old(Snapshot()), old(chains), Event.Halt)
    {
      HaltKeepsChains(Snapshot(), chains);
      chains := ChainsAfter(Snapshot(), chains, Event.Halt);
      HaltVariables();
    }

    /** The loop of pit_handler: skip the terminals that run nothing. */
    method NextTerminal()
      requires pcbArray.Length == TERMINALS && terminalNow < TERMINALS && pcbArray[terminalNow] != -1
      modifies this`terminalNow
      ensures terminalNow == NextLive(pcbArray[..], old(terminalNow))
    {
      ghost var start, skipped := terminalNow, 1;
      terminalNow := (terminalNow + 1) % TERMINALS;
      while pcbArray[terminalNow] == -1
        invariant 1 <= skipped <= TERMINALS && terminalNow == (start + skipped) % TERMINALS
        invariant skipped >= 2 ==> pcbArray[(start + 1) % TERMINALS] == -1
        invariant skipped >= 3 ==> pcbArray[(start + 2) % TERMINALS] == -1
        decreases TERMINALS - skipped
      {
        terminalNow := (terminalNow + 1) % TERMINALS;
        skipped := skipped + 1;
      }
    }

    /** pit_handler */
    method PitHandler()
      requires Valid()
      modifies this`terminalNow, this`userEntry, this`esp0
      ensures Valid() && Snapshot() == TickNext(old(Snapshot()))
    {
      TickKeepsChains(Snapshot(), chains);
      var cur := pcbs[pcbArray[terminalNow]];
      NextTerminal();
      var next := pcbs[pcbArray[terminalNow]];
      if next.id == cur.id { return; }
      var physical := PROGRAM_START_ADDR + next.id * PAGE_4MB;
      userEntry := physical / PAGE_4MB * PAGE_4MB + GLOBAL_USER_PAGE;
      esp0 := PROGRAM_START_ADDR - 4 - STACK_8KB * next.id;
    }

    /** terminal_shift, on the variables. */
    method ShiftVariables(terminal: nat, loadable: bool)
      requires Shape(Snapshot()) && SeparateTables() && 1 <= terminal <= TERMINALS
      modifies this`terminalNow, this`curDisplay, this`userEntry, this`esp0, idArray, parentArray, pcbArray, pcbs
      ensures Snapshot() == ShiftNext(old(Snapshot()), terminal, loadable)
    {
      var last, lastDisplay := terminalNow, curDisplay;
      if terminal == curDisplay { return; }
      curDisplay := terminal;
      if terminal != 1 && pcbArray[terminal - 1] == -1 {
        terminalNow := curDisplay - 1;
        var code := Exec(loadable);
        if code == -1 { terminalNow, curDisplay := last, lastDisplay; }
      }
    }

    /** terminal_shift */
    method TerminalShift(terminal: nat, loadable: bool)
      requires Valid() && 1 <= terminal <= TERMINALS
      modifies this`terminalNow, this`curDisplay, this`userEntry, this`esp0, this`chains, idArray, parentArray,
               pcbArray, pcbs
      ensures Valid() && Snapshot() == ShiftNext(old(Snapshot()), terminal, loadable)
      ensures chains == ChainsAfter(old(Snapshot()), old(chains), Shift(terminal, loadable))
    {
      ShiftKeepsChains(Snapshot(), chains, terminal, loadable);
      chains := ChainsAfter(Snapshot(), chains, Shift(terminal, loadable));
      ShiftVariables(terminal, loadable);
    }
  }
}
