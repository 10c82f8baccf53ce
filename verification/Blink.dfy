/** The blink list of the fish program: a linked list threaded through a pool whose cells are free
    when their location is zero. */
module Blink {
  import opened CLib

  const POOL_SIZE := 2000
  const NULL := -1

  /** struct mp1_blink_struct; `next` is the index of the next cell, or NULL. */
  datatype Cell = Cell(location: u16, onChar: byte, offChar: byte, onLength: u16, offLength: u16,
                       countdown: u16, status: u16, next: int)

  const ZERO := Cell(0, 0, 0, 0, 0, 0, 0, NULL)

  /** What a record holds besides its link. */
  function Record(c: Cell): Cell {
    c.(next := NULL)
  }

  // ----- the list in the pool -----

  /** What entry `k` of a list links to. */
  function Link(list: seq<nat>, k: nat): int
    requires k < |list|
  {
    if k + 1 < |list| then list[k + 1] else NULL
  }

  predicate Lives(pool: seq<Cell>, list: seq<nat>) {
    forall k :: 0 <= k < |list| ==> list[k] < |pool| && pool[list[k]].location != 0
  }

  predicate Covers(pool: seq<Cell>, list: seq<nat>) {
    forall i :: 0 <= i < |pool| && pool[i].location != 0 ==> i in list
  }

  predicate Links(pool: seq<Cell>, head: int, list: seq<nat>)
    requires Lives(pool, list)
  {
    && head == (if list == [] then NULL else list[0])
    && (forall k {:trigger Link(list, k)} :: 0 <= k < |list| ==> pool[list[k]].next == Link(list, k))
  }

  /** `list` are the cells from `head` along the links, each once, and they are exactly the cells with
      a nonzero location. */
  ghost predicate Threads(pool: seq<Cell>, head: int, list: seq<nat>) {
    |pool| == POOL_SIZE && NoDup(list) && Lives(pool, list) && Covers(pool, list) && Links(pool, head, list)
  }

  /** The links from `head` and the free marks agree on some list. */
  ghost predicate Agree(pool: seq<Cell>, head: int) {
    exists list :: Threads(pool, head, list)
  }

  /** The records in list order, most recently added first. */
  function Records(pool: seq<Cell>, list: seq<nat>): (r: seq<Cell>)
    requires forall k :: 0 <= k < |list| ==> list[k] < |pool|
    ensures |r| == |list| && forall k :: 0 <= k < |list| ==> r[k] == Record(pool[list[k]])
  {
    seq(|list|, k requires 0 <= k < |list| => Record(pool[list[k]]))
  }

  // ----- what the operations mean -----

  /** The first record at a location, or -1. */
  function First(rs: seq<Cell>, location: nat): (k: int)
    ensures -1 <= k < |rs|
    ensures k >= 0 ==> rs[k].location == location && forall j :: 0 <= j < k ==> rs[j].location != location
    ensures k == -1 ==> forall j :: 0 <= j < |rs| ==> rs[j].location != location
  {
    if rs == [] then -1
    else if rs[0].location == location then 0
    else
      var k := First(rs[1..], location);
      if k == -1 then -1 else k + 1
  }

  lemma FirstIs(rs: seq<Cell>, location: nat, k: int)
    requires -1 <= k < |rs|
    requires k >= 0 ==> rs[k].location == location
    requires forall j :: 0 <= j < (if k == -1 then |rs| else k) ==> rs[j].location != location
    ensures First(rs, location) == k
  {
  }

  function Without<T>(s: seq<T>, k: int): seq<T>
    requires 0 <= k < |s|
  {
    s[..k] + s[k + 1..]
  }

  /** The record that add enters: shown, and counting down its on time. */
  function Entered(user: Cell): Cell {
    user.(status := 1, countdown := user.onLength, next := NULL)
  }

  function Added(rs: seq<Cell>, user: Cell): (seq<Cell>, int) {
    if user.location >= POOL_SIZE || |rs| == POOL_SIZE then (rs, -1 as int) else ([Entered(user)] + rs, 0)
  }

  function Removed(rs: seq<Cell>, location: nat): (seq<Cell>, int) {
    var k := First(rs, location);
    if k == -1 then (rs, -1 as int) else (Without(rs, k), 0)
  }

  function Synced(rs: seq<Cell>, from: nat, to: nat): (seq<Cell>, int) {
    var i, j := First(rs, from), First(rs, to);
    if i == -1 || j == -1 then (rs, -1 as int)
    else
      (rs[j := rs[j].(onLength := rs[i].onLength, offLength := rs[i].offLength,
                      countdown := rs[i].countdown, status := rs[i].status)], 0)
  }

  /** A 16-bit value as a signed number. */
  function Signed(n: u16): int {
    if n >= 0x8000 then n - 0x10000 else n
  }

  /** One record at one tick: the 16-bit countdown, and the change of face when it is over. */
  function Ticked(c: Cell): Cell {
    var left: u16 := (c.countdown + 0xFFFF) % 0x10000;
    if Signed(left) > 0 then c.(countdown := left)
    else if c.status % 2 == 1 then c.(countdown := c.offLength, status := c.status - 1)
    else c.(countdown := c.onLength, status := c.status + 1)
  }

  /** What a tick draws: the other face, when the countdown is over. */
  function Drawn(c: Cell): seq<(nat, byte)> {
    if Signed((c.countdown + 0xFFFF) % 0x10000) > 0 then []
    else [(2 * c.location, if c.status % 2 == 1 then c.offChar else c.onChar)]
  }

  function DrawnAll(rs: seq<Cell>): seq<(nat, byte)> {
    if rs == [] then [] else DrawnAll(rs[..|rs| - 1]) + Drawn(rs[|rs| - 1])
  }

  lemma TickedNone(rs: seq<Cell>)
    ensures TickedUpTo(rs, 0) == rs && DrawnAll(rs[..0]) == []
  {
  }

  lemma TickedEvery(rs: seq<Cell>, k: nat)
    requires k == |rs|
    ensures TickedUpTo(rs, k) == TickedAll(rs) && DrawnAll(rs[..k]) == DrawnAll(rs)
  {
    assert rs[..k] == rs;
  }

  lemma DrawnNext(rs: seq<Cell>, k: nat)
    requires k < |rs|
    ensures DrawnAll(rs[..k + 1]) == DrawnAll(rs[..k]) + Drawn(rs[k])
  {
    assert rs[..k + 1][..k] == rs[..k];
  }

  lemma TickedKeeps(c: Cell)
    ensures Ticked(c).location == c.location && Ticked(c).next == c.next && Record(Ticked(c)) == Ticked(Record(c))
  {
  }

  function TickedAll(rs: seq<Cell>): (r: seq<Cell>)
    ensures |r| == |rs| && forall k :: 0 <= k < |rs| ==> r[k] == Ticked(rs[k])
  {
    seq(|rs|, k requires 0 <= k < |rs| => Ticked(rs[k]))
  }

  /** The records when the first `k` have had their tick. */
  function TickedUpTo(rs: seq<Cell>, k: nat): (r: seq<Cell>)
    requires k <= |rs|
  {
    TickedAll(rs[..k]) + rs[k..]
  }

  lemma TickedNext(rs: seq<Cell>, k: nat)
    requires k < |rs|
    ensures TickedUpTo(rs, k)[k] == rs[k] && TickedUpTo(rs, k)[k := Ticked(rs[k])] == TickedUpTo(rs, k + 1)
  {
  }

  // ----- laws of the operations -----

  /** Synchronising copies the timing of the first record at `from` to the first at `to`; what that record
      shows and where, and all other records, stay. */
  lemma SyncCopies(rs: seq<Cell>, from: nat, to: nat, k: nat)
    requires First(rs, from) != -1 && First(rs, to) != -1 && k < |rs|
    ensures var (rs', code) := Synced(rs, from, to);
            var source := rs[First(rs, from)];
            && code == 0 && |rs'| == |rs|
            && (k != First(rs, to) ==> rs'[k] == rs[k])
            && (k == First(rs, to) ==>
                  && (rs'[k].onLength, rs'[k].offLength) == (source.onLength, source.offLength)
                  && (rs'[k].countdown, rs'[k].status) == (source.countdown, source.status)
                  && FaceOf(rs'[k]) == FaceOf(rs[k]) && rs'[k].next == rs[k].next)
  {
  }

  /** Nothing is copied if a record is missing. */
  lemma SyncRefuses(rs: seq<Cell>, from: nat, to: nat)
    ensures Synced(rs, from, to).1 == -1 <==> First(rs, from) == -1 || First(rs, to) == -1
    ensures Synced(rs, from, to).1 == -1 ==> Synced(rs, from, to).0 == rs
  {
  }

  /** A tick draws exactly when the face changes, and it draws the face that begins. */
  lemma DrawsTheNewFace(c: Cell)
    ensures Drawn(c) == [] <==> Ticked(c).status == c.status
    ensures Drawn(c) != [] ==> Drawn(c) == [(2 * c.location, if Ticked(c).status % 2 == 1 then c.onChar else c.offChar)]
  {
  }

  /** An add enters its record in front of all others, shown and with its on time to go, or refuses: a location
      beyond the screen, or one record too many. */
  lemma AddIsExact(rs: seq<Cell>, user: Cell)
    requires |rs| <= POOL_SIZE
    ensures var (rs', code) := Added(rs, user);
            if user.location < 2000 && |rs| < 2000 then
              && code == 0 && |rs'| == |rs| + 1 && rs'[1..] == rs
              && rs'[0] == Cell(user.location, user.onChar, user.offChar, user.onLength, user.offLength,
                                user.onLength, 1, NULL)
            else code == -1 && rs' == rs
  {
  }

  /** A remove takes out the first record at its location and no other, or refuses. */
  lemma RemoveIsExact(rs: seq<Cell>, location: nat)
    ensures var (rs', code), k := Removed(rs, location), First(rs, location);
            if k == -1 then code == -1 && rs' == rs
            else
              && code == 0 && |rs'| == |rs| - 1
              && forall j :: 0 <= j < |rs'| ==> rs'[j] == rs[if j < k then j else j + 1]
  {
  }

  /** A record just added is the one found at its location, and removing it takes back the add. */
  lemma AddFindRemove(rs: seq<Cell>, user: Cell)
    requires Added(rs, user).1 == 0
    ensures var rs' := Added(rs, user).0;
            && First(rs', user.location) == 0 && rs'[0] == Entered(user)
            && Removed(rs', user.location) == (rs, 0)
  {
    assert Without(Added(rs, user).0, 0) == rs;
  }

  /** A record added elsewhere hides nothing. */
  lemma AddElsewhere(rs: seq<Cell>, user: Cell, location: nat)
    requires Added(rs, user).1 == 0 && location != user.location
    ensures var rs' := Added(rs, user).0;
            First(rs', location) == if First(rs, location) == -1 then -1 else First(rs, location) + 1
  {
    assert Added(rs, user).0[1..] == rs;
  }

  /** Removing brings the next older record at that location to light. */
  lemma RemoveUncovers(rs: seq<Cell>, location: nat)
    requires First(rs, location) != -1
    ensures var k, rs' := First(rs, location), Removed(rs, location).0;
            First(rs', location) == if First(rs[k + 1..], location) == -1 then -1 else k + First(rs[k + 1..], location)
  {
    var k := First(rs, location);
    var older, rs' := First(rs[k + 1..], location), Without(rs, k);
    assert forall j :: k <= j < |rs'| ==> rs'[j] == rs[k + 1..][j - k];
    FirstIs(rs', location, if older == -1 then -1 else k + older);
  }

  function Times(c: Cell, n: nat): Cell {
    if n == 0 then c else Ticked(Times(c, n - 1))
  }

  /** How many ticks a face lasts whose countdown starts at `n`: the countdown is signed. */
  function FaceTicks(n: u16): nat {
    if 1 <= n <= 0x8000 then n else 1
  }

  /** The other face, from its start. */
  function Turned(c: Cell): Cell {
    if c.status % 2 == 1 then c.(countdown := c.offLength, status := c.status - 1)
    else c.(countdown := c.onLength, status := c.status + 1)
  }

  lemma {:induction false} FaceLasts(c: Cell, n: nat)
    requires n <= FaceTicks(c.countdown)
    ensures n < FaceTicks(c.countdown) && n > 0 ==> Times(c, n) == c.(countdown := c.countdown - n)
    ensures n == FaceTicks(c.countdown) ==> Times(c, n) == Turned(c)
  {
    if n > 0 { FaceLasts(c, n - 1); }
  }

  /** A face lasts as many ticks as its countdown says if and only if that is from 1 to 0x8000. */
  lemma LastsAsSaid(c: Cell)
    ensures (Times(c, c.countdown) == Turned(c) && forall m :: 0 < m < c.countdown ==> Times(c, m).status == c.status)
            <==> 1 <= c.countdown <= 0x8000
  {
    if 1 <= c.countdown <= 0x8000 {
      FaceLasts(c, c.countdown);
      forall m | 0 < m < c.countdown ensures Times(c, m).status == c.status { FaceLasts(c, m); }
    } else {
      FaceLasts(c, 1);
      assert Turned(c).status != c.status;
      assert Times(c, 0) == c;
    }
  }

  lemma {:induction false} TimesSum(c: Cell, m: nat, n: nat)
    ensures Times(c, m + n) == Times(Times(c, m), n)
  {
    if n > 0 { TimesSum(c, m, n - 1); }
  }

  /** A record repeats itself, whatever its lengths: shown for as long as the first lasts, then hidden
      for as long as the second does. */
  lemma BlinkPeriod(user: Cell)
    ensures Times(Entered(user), FaceTicks(user.onLength)).status == 0
    ensures Times(Entered(user), FaceTicks(user.onLength) + FaceTicks(user.offLength)) == Entered(user)
  {
    var c := Entered(user);
    FaceLasts(c, FaceTicks(user.onLength));
    FaceLasts(Turned(c), FaceTicks(user.offLength));
    TimesSum(c, FaceTicks(user.onLength), FaceTicks(user.offLength));
  }

  // ----- whole runs -----

  datatype Op = Add(user: Cell) | Remove(location: u16) | Sync(from: u16, to: u16) | Tick

  function Do(rs: seq<Cell>, op: Op): (seq<Cell>, int) {
    match op
    case Add(user) => Added(rs, user)
    case Remove(location) => Removed(rs, location)
    case Sync(from, to) => Synced(rs, from, to)
    case Tick => (TickedAll(rs), 0)
  }

  function DoAll(rs: seq<Cell>, ops: seq<Op>): seq<Cell>
    decreases |ops|
  {
    if ops == [] then rs else Do(DoAll(rs, ops[..|ops| - 1]), ops[|ops| - 1]).0
  }

  /** A record entered at location 0, which the pool takes for a free mark. */
  predicate Breaks(rs: seq<Cell>, op: Op) {
    op.Add? && op.user.location == 0 && Added(rs, op.user).1 == 0
  }

  /** Two locations in one argument. */
  lemma Packed(from: u16, to: u16)
    ensures (from * 0x10000 + to) / 0x10000 % 0x10000 == from && (from * 0x10000 + to) % 0x10000 == to
  {
  }

  /** A run that enters no such record. */
  predicate Unbroken(rs: seq<Cell>, ops: seq<Op>)
    decreases |ops|
  {
    ops == [] ||
    var n := |ops| - 1;
    Unbroken(rs, ops[..n]) && !Breaks(DoAll(rs, ops[..n]), ops[n])
  }

  lemma {:induction false} UnbrokenTo(rs: seq<Cell>, ops: seq<Op>, n: nat)
    requires Unbroken(rs, ops) && n <= |ops|
    ensures Unbroken(rs, ops[..n])
    decreases |ops|
  {
    if n < |ops| {
      UnbrokenTo(rs, ops[..|ops| - 1], n);
      assert ops[..|ops| - 1][..n] == ops[..n];
    } else {
      assert ops[..n] == ops;
    }
  }

  /** What stays of a record as long as it is on the list: synchronising and ticking change its timing only. */
  datatype Face = Face(location: u16, onChar: byte, offChar: byte)

  function FaceOf(c: Cell): Face {
    Face(c.location, c.onChar, c.offChar)
  }

  /** The records at one location, in list order. */
  function FacesAt(rs: seq<Cell>, location: nat): seq<Face> {
    if rs == [] then []
    else (if rs[0].location == location then [FaceOf(rs[0])] else []) + FacesAt(rs[1..], location)
  }

  /** A stack for that location: an add there that succeeds pushes, a remove there pops. */
  function Stacked(st: seq<Face>, op: Op, code: int, location: nat): seq<Face> {
    match op
    case Add(user) => if user.location == location && code == 0 then [FaceOf(user)] + st else st
    case Remove(l) => if l == location && st != [] then st[1..] else st
    case _ => st
  }

  function Stack(rs: seq<Cell>, ops: seq<Op>, location: nat): seq<Face>
    decreases |ops|
  {
    if ops == [] then FacesAt(rs, location)
    else
      var before, op := ops[..|ops| - 1], ops[|ops| - 1];
      Stacked(Stack(rs, before, location), op, Do(DoAll(rs, before), op).1, location)
  }

  lemma {:induction false} FacesAppend(a: seq<Cell>, b: seq<Cell>, location: nat)
    ensures FacesAt(a + b, location) == FacesAt(a, location) + FacesAt(b, location)
    decreases |a|
  {
    if a == [] {
      assert a + b == b;
    } else {
      assert (a + b)[1..] == a[1..] + b;
      FacesAppend(a[1..], b, location);
      var front := if a[0].location == location then [FaceOf(a[0])] else [];
      assert FacesAt(a + b, location) == front + FacesAt((a + b)[1..], location);
      Associates(front, FacesAt(a[1..], location), FacesAt(b, location));
    }
  }

  lemma {:induction false} FacesNone(rs: seq<Cell>, location: nat)
    requires forall k :: 0 <= k < |rs| ==> rs[k].location != location
    ensures FacesAt(rs, location) == []
    decreases |rs|
  {
    if rs != [] { FacesNone(rs[1..], location); }
  }

  /** The records at a location before, at and behind entry `k`. */
  lemma FacesSplit(rs: seq<Cell>, k: nat, location: nat)
    requires k < |rs|
    ensures FacesAt(rs, location) == FacesAt(rs[..k], location)
              + (if rs[k].location == location then [FaceOf(rs[k])] else []) + FacesAt(rs[k + 1..], location)
  {
    assert rs == rs[..k] + rs[k..] && rs[k..][1..] == rs[k + 1..];
    FacesAppend(rs[..k], rs[k..], location);
  }

  /** The first record at a location is the top of what is there. */
  lemma FacesTop(rs: seq<Cell>, location: nat)
    ensures var k, st := First(rs, location), FacesAt(rs, location);
            if k == -1 then st == [] else st == [FaceOf(rs[k])] + FacesAt(rs[k + 1..], location)
  {
    var k := First(rs, location);
    if k == -1 {
      FacesNone(rs, location);
    } else {
      FacesSplit(rs, k, location);
      FacesNone(rs[..k], location);
    }
  }

  /** Entry `k` taken out. */
  lemma FacesWithout(rs: seq<Cell>, k: nat, location: nat)
    requires k < |rs|
    ensures FacesAt(Without(rs, k), location) == FacesAt(rs[..k], location) + FacesAt(rs[k + 1..], location)
    ensures rs[k].location != location ==> FacesAt(Without(rs, k), location) == FacesAt(rs, location)
  {
    FacesAppend(rs[..k], rs[k + 1..], location);
    FacesSplit(rs, k, location);
  }

  lemma FacesOfRemoved(rs: seq<Cell>, l: u16, location: nat)
    ensures FacesAt(Removed(rs, l).0, location) == Stacked(FacesAt(rs, location), Remove(l), 0, location)
  {
    var k := First(rs, l);
    if k != -1 { FacesWithout(rs, k, location); }
    if l == location {
      FacesTop(rs, location);
      if k != -1 { FacesNone(rs[..k], location); }
    }
  }

  /** Records changed in place, each of them keeping its face. */
  lemma {:induction false} FacesOfChanged(rs: seq<Cell>, rs': seq<Cell>, location: nat)
    requires |rs'| == |rs| && forall k :: 0 <= k < |rs| ==> FaceOf(rs'[k]) == FaceOf(rs[k])
    ensures FacesAt(rs', location) == FacesAt(rs, location)
    decreases |rs|
  {
    if rs != [] {
      assert FaceOf(rs'[0]) == FaceOf(rs[0]);
      FacesOfChanged(rs[1..], rs'[1..], location);
    }
  }

  lemma FacesStep(rs: seq<Cell>, op: Op, location: nat)
    ensures FacesAt(Do(rs, op).0, location) == Stacked(FacesAt(rs, location), op, Do(rs, op).1, location)
  {
    match op
    case Add(user) => if Added(rs, user).1 == 0 { assert ([Entered(user)] + rs)[1..] == rs; }
    case Remove(l) => FacesOfRemoved(rs, l, location);
    case Sync(from, to) => FacesOfChanged(rs, Synced(rs, from, to).0, location);
    case Tick => FacesOfChanged(rs, TickedAll(rs), location);
  }

  /** Over every run that enters no record for location 0, the records at one location are a stack of the
      adds there not yet removed: a find shows the top, and finds nothing, as a remove does, exactly when
      it is empty. */
  lemma {:induction false} LocationsAreStacks(rs: seq<Cell>, ops: seq<Op>, location: nat)
    requires Unbroken(rs, ops)
    ensures FacesAt(DoAll(rs, ops), location) == Stack(rs, ops, location)
    ensures var k := First(DoAll(rs, ops), location);
            if Stack(rs, ops, location) == [] then k == -1 && Removed(DoAll(rs, ops), location).1 == -1
            else k != -1 && FaceOf(DoAll(rs, ops)[k]) == Stack(rs, ops, location)[0]
    decreases |ops|
  {
    if ops != [] {
      var n := |ops| - 1;
      LocationsAreStacks(rs, ops[..n], location);
      FacesStep(DoAll(rs, ops[..n]), ops[n], location);
    }
    FacesTop(DoAll(rs, ops), location);
  }

  lemma AllAreStacks(rs: seq<Cell>, ops: seq<Op>)
    requires Unbroken(rs, ops)
    ensures forall location: nat :: FacesAt(DoAll(rs, ops), location) == Stack(rs, ops, location)
  {
    forall location: nat ensures FacesAt(DoAll(rs, ops), location) == Stack(rs, ops, location) {
      LocationsAreStacks(rs, ops, location);
    }
  }

  lemma DoNext(rs: seq<Cell>, ops: seq<Op>, i: nat)
    requires Unbroken(rs, ops) && i < |ops|
    ensures DoAll(rs, ops[..i + 1]) == Do(DoAll(rs, ops[..i]), ops[i]).0 && !Breaks(DoAll(rs, ops[..i]), ops[i])
  {
    UnbrokenTo(rs, ops, i + 1);
    assert ops[..i + 1][..i] == ops[..i];
  }

  // ----- how the pool keeps the list -----

  /** Where the entries of a list went when entry `k` was taken out. */
  lemma WithoutAt(list: seq<nat>, k: nat)
    requires NoDup(list) && k < |list|
    ensures NoDup(Without(list, k))
    ensures forall j :: 0 <= j < |list| - 1 ==> Without(list, k)[j] == list[if j < k then j else j + 1] != list[k]
    ensures forall i :: i in Without(list, k) <==> i in list && i != list[k]
  {
    var list' := Without(list, k);
    forall i | i in list && i != list[k] ensures i in list' {
      var j :| 0 <= j < |list| && list[j] == i;
      assert list'[if j < k then j else j - 1] == i;
    }
  }

  lemma {:induction false} DistinctCount(list: seq<nat>, n: nat)
    requires NoDup(list) && forall k :: 0 <= k < |list| ==> list[k] < n
    ensures |list| <= n
    ensures |list| == n <==> forall i :: 0 <= i < n ==> i in list
    decreases n
  {
    if list == [] {
      assert 0 !in list;
    } else if n - 1 in list {
      var k :| 0 <= k < |list| && list[k] == n - 1;
      WithoutAt(list, k);
      DistinctCount(Without(list, k), n - 1);
    } else {
      assert 0 <= list[0] < n;
      assert forall k :: 0 <= k < |list| ==> list[k] in list;
      DistinctCount(list, n - 1);
    }
  }

  /** The pool is full exactly when the list has 2000 records. */
  lemma FullPool(pool: seq<Cell>, head: int, list: seq<nat>)
    requires Threads(pool, head, list)
    ensures |list| <= POOL_SIZE
    ensures |list| == POOL_SIZE <==> forall i :: 0 <= i < POOL_SIZE ==> pool[i].location != 0
  {
    DistinctCount(list, POOL_SIZE);
    assert forall i :: i in list ==> pool[i].location != 0;
  }

  /** The entries of the old list, one place further on in the new one, and their cells. */
  lemma AddCells(pool: seq<Cell>, list: seq<nat>, i: nat, c: Cell, k: nat)
    requires Lives(pool, list) && i < |pool| && pool[i].location == 0 && 1 <= k <= |list|
    ensures var list' := [i] + list;
            && list'[k] == list[k - 1] != i && list'[k] < |pool| && pool[i := c][list'[k]] == pool[list[k - 1]]
            && Link(list', k) == Link(list, k - 1)
  {
  }

  lemma AddLinks(pool: seq<Cell>, head: int, list: seq<nat>, i: nat, c: Cell)
    requires NoDup(list) && Lives(pool, list) && Links(pool, head, list)
    requires i < |pool| && pool[i].location == 0 && c.next == head && c.location != 0
    ensures NoDup([i] + list) && Lives(pool[i := c], [i] + list) && Links(pool[i := c], i, [i] + list)
  {
    forall k | 1 <= k <= |list|
      ensures ([i] + list)[k] == list[k - 1] != i && pool[i := c][list[k - 1]] == pool[list[k - 1]]
      ensures Link([i] + list, k) == Link(list, k - 1)
    {
      AddCells(pool, list, i, c, k);
    }
  }

  lemma AddRecords(pool: seq<Cell>, list: seq<nat>, i: nat, c: Cell)
    requires Lives(pool, list) && i < |pool| && pool[i].location == 0
    requires Lives(pool[i := c], [i] + list)
    ensures Records(pool[i := c], [i] + list) == [Record(c)] + Records(pool, list)
  {
    var rs' := Records(pool[i := c], [i] + list);
    forall k | 1 <= k < |rs'| ensures rs'[k] == Records(pool, list)[k - 1] {
      AddCells(pool, list, i, c, k);
    }
  }

  lemma AddThreads(pool: seq<Cell>, head: int, list: seq<nat>, i: nat, c: Cell)
    requires Threads(pool, head, list) && i < POOL_SIZE && pool[i].location == 0 && c.next == head && c.location != 0
    ensures Threads(pool[i := c], i, [i] + list)
    ensures Records(pool[i := c], [i] + list) == [Record(c)] + Records(pool, list)
  {
    AddLinks(pool, head, list, i, c);
    AddRecords(pool, list, i, c);
  }

  /** Location 0 is what the pool takes for a free mark: a record entered there breaks the list, and
      only such a record does. */
  lemma AddBreaksAtZero(pool: seq<Cell>, head: int, list: seq<nat>, i: nat, user: Cell)
    requires Threads(pool, head, list) && i < POOL_SIZE && pool[i].location == 0
    ensures Agree(pool[i := Entered(user).(next := head)], i) <==> user.location != 0
  {
    var c := Entered(user).(next := head);
    if user.location != 0 { AddThreads(pool, head, list, i, c); }
  }

  /** What comes of such a record: its cell is still the first free one, so the next record is put into it
      and linked to itself, and no list ends any more. */
  lemma ZeroIsReused(pool: seq<Cell>, head: int, i: nat, zero: Cell, user: Cell)
    requires |pool| == POOL_SIZE && i < POOL_SIZE && FirstFree(pool, i) && zero.location == 0
    ensures var pool1 := pool[i := Entered(zero).(next := head)];
            var pool2 := pool1[i := Entered(user).(next := i)];
            FirstFree(pool1, i) && pool2[i].next == i && !Agree(pool2, i)
  {
    var pool2 := pool[i := Entered(zero).(next := head)][i := Entered(user).(next := i)];
    forall list ensures !Threads(pool2, i, list) { SelfLinked(pool2, i, list); }
  }

  lemma SelfLinked(pool: seq<Cell>, i: nat, list: seq<nat>)
    requires i < |pool| && pool[i].next == i
    ensures !Threads(pool, i, list)
  {
    var second := if list == [] then NULL else Link(list, 0);
  }

  /** The cell that mp1_malloc hands out. */
  predicate FirstFree(pool: seq<Cell>, i: nat) {
    i < |pool| && pool[i].location == 0 && forall j :: 0 <= j < i ==> pool[j].location != 0
  }

  /** Unlink entry `k` of the list and clear its cell. */
  function Unlinked(pool: seq<Cell>, list: seq<nat>, k: nat): seq<Cell>
    requires k < |list| && forall j :: 0 <= j < |list| ==> list[j] < |pool|
  {
    var linked := if k == 0 then pool else pool[list[k - 1] := pool[list[k - 1]].(next := pool[list[k]].next)];
    linked[list[k] := ZERO]
  }

  /** The cells that stay keep their contents; only the one before the gap changes its link. */
  lemma RemoveCells(pool: seq<Cell>, head: int, list: seq<nat>, k: nat, j: nat)
    requires NoDup(list) && Lives(pool, list) && Links(pool, head, list) && k < |list| && j < |list| && j != k
    ensures var pool' := Unlinked(pool, list, k);
            && |pool'| == |pool|
            && pool'[list[j]] == pool[list[j]].(next := if j == k - 1 then Link(list, k) else Link(list, j))
  {
    assert pool[list[k]].next == Link(list, k) && pool[list[j]].next == Link(list, j);
  }

  /** `pool'` is the pool with entry `k` bypassed. */
  ghost predicate Bypassed(pool: seq<Cell>, pool': seq<Cell>, list: seq<nat>, k: nat)
    requires Lives(pool, list)
  {
    && |pool'| == |pool| && k < |list|
    && forall j {:trigger pool'[list[j]]} :: 0 <= j < |list| && j != k ==>
         pool'[list[j]] == pool[list[j]].(next := if j == k - 1 then Link(list, k) else Link(list, j))
  }

  lemma RemoveLinks(pool: seq<Cell>, pool': seq<Cell>, head: int, list: seq<nat>, k: nat, list': seq<nat>)
    requires NoDup(list) && Lives(pool, list) && Links(pool, head, list)
    requires Bypassed(pool, pool', list, k) && list' == Without(list, k)
    ensures Lives(pool', list') && Links(pool', if k == 0 then pool[list[0]].next else head, list')
  {
    WithoutAt(list, k);
    forall j | 0 <= j < |list'|
      ensures list'[j] < |pool'| && pool'[list'[j]].location != 0 && pool'[list'[j]].next == Link(list', j)
    {
      assert list'[j] == list[if j < k then j else j + 1];
    }
    assert pool[list[0]].next == Link(list, 0);
  }

  lemma RemoveRecords(pool: seq<Cell>, pool': seq<Cell>, list: seq<nat>, k: nat, list': seq<nat>)
    requires NoDup(list) && Lives(pool, list) && Bypassed(pool, pool', list, k) && list' == Without(list, k)
    requires Lives(pool', list')
    ensures Records(pool', list') == Without(Records(pool, list), k)
  {
    WithoutAt(list, k);
    var rs, rs' := Records(pool, list), Records(pool', list');
    forall j | 0 <= j < |list'| ensures rs'[j] == Without(rs, k)[j] {
      var i := if j < k then j else j + 1;
      assert list'[j] == list[i] && Without(rs, k)[j] == rs[i];
      assert rs'[j] == Record(pool'[list[i]]) == Record(pool[list[i]]) == rs[i];
    }
  }

  lemma RemoveCovers(pool: seq<Cell>, list: seq<nat>, k: nat)
    requires NoDup(list) && Lives(pool, list) && Covers(pool, list) && k < |list|
    ensures Covers(Unlinked(pool, list, k), Without(list, k))
  {
    WithoutAt(list, k);
    var pool' := Unlinked(pool, list, k);
    forall i | 0 <= i < |pool'| && pool'[i].location != 0 ensures i in Without(list, k) {
      assert i != list[k] && pool[i].location != 0;
    }
  }

  lemma RemoveThreads(pool: seq<Cell>, head: int, list: seq<nat>, k: nat)
    requires Threads(pool, head, list) && k < |list|
    ensures Threads(Unlinked(pool, list, k), if k == 0 then pool[list[0]].next else head, Without(list, k))
    ensures Records(Unlinked(pool, list, k), Without(list, k)) == Without(Records(pool, list), k)
  {
    var pool' := Unlinked(pool, list, k);
    forall j | 0 <= j < |list| && j != k
      ensures pool'[list[j]] == pool[list[j]].(next := if j == k - 1 then Link(list, k) else Link(list, j))
    {
      RemoveCells(pool, head, list, k, j);
    }
    RemoveLinks(pool, pool', head, list, k, Without(list, k));
    RemoveRecords(pool, pool', list, k, Without(list, k));
    RemoveCovers(pool, list, k);
    WithoutAt(list, k);
  }

  /** Changing a record in place keeps the list, as long as its location and link stand. */
  lemma UpdateThreads(pool: seq<Cell>, head: int, list: seq<nat>, k: nat, c: Cell)
    requires Threads(pool, head, list) && k < |list|
    requires c.location == pool[list[k]].location && c.next == pool[list[k]].next
    ensures Threads(pool[list[k] := c], head, list)
    ensures Records(pool[list[k] := c], list) == Records(pool, list)[k := Record(c)]
  {
    assert forall j :: 0 <= j < |list| && j != k ==> list[j] != list[k];
  }

  // ----- the program's variables, updated in place -----

  class BlinkList {
    const pool: array<Cell>
    var head: int
    ghost var list: seq<nat>

    ghost predicate Valid()
      reads this, pool
    {
      Threads(pool[..], head, list)
    }

    ghost function Content(): seq<Cell>
      reads this, pool
      requires Valid()
    {
      Records(pool[..], list)
    }

    /** The cleared pool and the empty list. */
    constructor ()
      ensures Valid() && Content() == [] && fresh(pool)
    {
      pool := new Cell[POOL_SIZE](_ => ZERO);
      head, list := NULL, [];
    }

    /** mp1_malloc: the first free cell, or NULL. */
    method Malloc() returns (i: int)
      requires pool.Length == POOL_SIZE
      ensures -1 <= i < POOL_SIZE && (i >= 0 ==> FirstFree(pool[..], i))
      ensures i >= 0 ==> pool[i].location == 0 && forall j :: 0 <= j < i ==> pool[j].location != 0
      ensures i == NULL ==> forall j :: 0 <= j < POOL_SIZE ==> pool[j].location != 0
    {
      i := 0;
      while i < POOL_SIZE
        invariant 0 <= i <= POOL_SIZE && forall j :: 0 <= j < i ==> pool[j].location != 0
      {
        if pool[i].location == 0 { return; }
        i := i + 1;
      }
      return NULL;
    }

    /** Copy an entry into a free cell and put it at the front of the list. */
    method Insert(i: nat, entry: Cell)
      requires i < pool.Length
      modifies this, pool
      ensures pool[..] == old(pool[..])[i := entry.(next := old(head))] && head == i && list == [i] + old(list)
    {
      pool[i] := entry;
      pool[i] := pool[i].(next := head);
      head := i;
      list := [i] + list;
    }

    /** mp1_ioctl_add. The list survives unless a record for location 0 is entered. */
    method Add(user: Cell) returns (code: int, pokes: seq<(nat, byte)>)
      requires Valid()
      modifies this, pool
      ensures code == Added(old(Content()), user).1
      ensures Valid() <==> code == -1 || user.location != 0
      ensures Valid() ==> Content() == Added(old(Content()), user).0
      ensures pokes == if code == 0 then [(2 * user.location, user.onChar)] else []
    {
      ghost var p, h, l := pool[..], head, list;
      FullPool(p, h, l);
      pokes := [];
      if user.location >= POOL_SIZE { return -1, pokes; }
      var entry := user.(status := 1, countdown := user.onLength);
      var i := Malloc();
      if i == NULL {
        assert forall j :: 0 <= j < POOL_SIZE ==> p[j].location != 0;
        return -1, pokes;
      }
      assert p[i].location == 0;
      Insert(i, entry);
      pokes := [(2 * pool[i].location, pool[i].onChar)];
      if user.location != 0 {
        AddThreads(p, h, l, i, Entered(user).(next := h));
      } else {
        assert list[0] == i && pool[..][i].location == 0;
      }
      return 0, pokes;
    }

    /** mp1_find_helper: the first cell on the list at a location, or NULL. */
    method FindHelper(location: nat) returns (i: int, ghost k: int)
      requires Valid()
      ensures k == First(Content(), location)
      ensures i == if First(Content(), location) == -1 then NULL else list[First(Content(), location)]
    {
      i, k := head, 0;
      while i != NULL
        invariant 0 <= k <= |list| && i == (if k < |list| then list[k] else NULL)
        invariant forall j :: 0 <= j < k ==> Content()[j].location != location
        decreases |list| - k
      {
        if pool[i].location == location {
          FirstIs(Content(), location, k);
          return;
        }
        assert pool[..][list[k]].next == Link(list, k);
        i, k := pool[i].next, k + 1;
      }
      FirstIs(Content(), location, -1);
      k := -1;
    }

    method NextOf(i: nat, ghost k: nat) returns (n: int)
      requires Valid() && k < |list| && i == list[k]
      ensures n == Link(list, k)
    {
      assert pool[..][list[k]].next == Link(list, k);
      n := pool[i].next;
    }

    /** The walk of mp1_ioctl_remove to the link that leads to cell `i`; NULL stands for the head. */
    method FindPrev(i: nat, ghost k: nat) returns (prev: int)
      requires Valid() && k < |list| && list[k] == i
      ensures prev == if k == 0 then NULL else list[k - 1]
    {
      prev := NULL;
      var target := head;
      ghost var n: nat := 0;
      while target != i
        invariant n <= k && target == list[n] && prev == (if n == 0 then NULL else list[n - 1])
        decreases k - n
      {
        prev := target;
        target := NextOf(target, n);
        n := n + 1;
      }
      assert list[n] == list[k];
    }

    /** Take a cell out of the list and clear it. */
    method Unlink(i: nat, prev: int, ghost k: nat)
      requires Valid() && k < |list| && list[k] == i && prev == if k == 0 then NULL else list[k - 1]
      modifies this, pool
      ensures pool[..] == Unlinked(old(pool[..]), old(list), k) && list == Without(old(list), k)
      ensures head == if k == 0 then old(pool[list[0]].next) else old(head)
    {
      if prev == NULL { head := pool[i].next; } else { pool[prev] := pool[prev].(next := pool[i].next); }
      pool[i] := ZERO;
      list := Without(list, k);
    }

    /** mp1_ioctl_remove; the location is the low half of the argument. */
    method Remove(arg: nat) returns (code: int)
      requires Valid()
      modifies this, pool
      ensures Valid() && (Content(), code) == Removed(old(Content()), arg % 0x10000)
    {
      ghost var k;
      var i;
      i, k := FindHelper(arg % 0x10000);
      if i == NULL { return -1; }
      var prev := FindPrev(i, k);
      RemoveThreads(pool[..], head, list, k);
      Unlink(i, prev, k);
      return 0;
    }

    /** mp1_ioctl_find; the record is copied out. */
    method Find(location: nat) returns (code: int, record: Cell)
      requires Valid()
      ensures var k := First(Content(), location % 0x10000);
              if k == -1 then code == -1 else code == 0 && Record(record) == Content()[k]
    {
      ghost var k;
      var i;
      i, k := FindHelper(location % 0x10000);
      if i == NULL { return -1, ZERO; }
      return 0, pool[i];
    }

    /** mp1_ioctl_sync; it draws the off face of the target whatever its status. */
    method Sync(arg: nat) returns (code: int, pokes: seq<(nat, byte)>)
      requires Valid()
      modifies pool
      ensures Valid() && list == old(list)
      ensures (Content(), code) == Synced(old(Content()), arg / 0x10000 % 0x10000, arg % 0x10000)
      ensures code == 0 ==>
                var t := Content()[First(old(Content()), arg % 0x10000)];
                pokes == [(2 * t.location, t.offChar)]
    {
      ghost var p := pool[..];
      ghost var k, j;
      var from, to;
      from, k := FindHelper(arg / 0x10000 % 0x10000);
      if from == NULL { return -1, []; }
      to, j := FindHelper(arg % 0x10000);
      if to == NULL { return -1, []; }
      var s := pool[from];
      var t := pool[to].(onLength := s.onLength, offLength := s.offLength, countdown := s.countdown,
          status := s.status);
      UpdateThreads(p, head, list, j, t);
      pool[to] := t;
      assert pool[..] == p[list[j] := t];
      return 0, [(2 * t.location, t.offChar)];
    }

    /** The tasklet's work on one cell's contents. */
    static method Count(cell: Cell) returns (c: Cell, pokes: seq<(nat, byte)>)
      ensures c == Ticked(cell) && pokes == Drawn(cell)
    {
      c := cell.(countdown := (cell.countdown + 0xFFFF) % 0x10000);
      pokes := [];
      if Signed(c.countdown) <= 0 {
        if c.status % 2 == 1 {
          pokes := [(2 * c.location, c.offChar)];
          c := c.(countdown := c.offLength, status := c.status - 1);
        } else {
          pokes := [(2 * c.location, c.onChar)];
          c := c.(countdown := c.onLength, status := c.status + 1);
        }
      }
    }

    /** The tasklet's work on the cell of entry `k`. */
    method TickCell(i: nat, ghost k: nat) returns (pokes: seq<(nat, byte)>)
      requires Valid() && k < |list| && i == list[k]
      modifies pool
      ensures Valid() && Content() == old(Content())[k := Ticked(old(Content())[k])]
      ensures pokes == Drawn(old(Content())[k])
    {
      ghost var p := pool[..];
      var c;
      c, pokes := Count(pool[i]);
      TickedKeeps(p[i]);
      UpdateThreads(p, head, list, k, c);
      pool[i] := c;
      assert pool[..] == p[list[k] := c];
    }

    /** Where the tasklet is: the first `k` of the records `rs` have had their tick and been drawn. */
    ghost predicate TickedSoFar(rs: seq<Cell>, k: nat, pokes: seq<(nat, byte)>)
      reads this, pool
    {
      Valid() && k <= |rs| == |list| && Content() == TickedUpTo(rs, k) && pokes == DrawnAll(rs[..k])
    }

    /** `i` is entry `k` of the list, or NULL at its end. */
    ghost predicate At(i: int, k: nat)
      reads this
    {
      if i == NULL then k == |list| else k < |list| && i == list[k]
    }

    /** One turn of the tasklet. */
    method TickNext(i: nat, ghost k: nat, ghost rs: seq<Cell>, drawn: seq<(nat, byte)>)
      returns (next: int, pokes: seq<(nat, byte)>)
      requires TickedSoFar(rs, k, drawn) && At(i, k)
      modifies pool
      ensures TickedSoFar(rs, k + 1, pokes)
      ensures At(next, k + 1)
    {
      TickedNext(rs, k);
      DrawnNext(rs, k);
      var now := TickCell(i, k);
      pokes := drawn + now;
      next := NextOf(i, k);
    }

    /** mp1_rtc_tasklet: one tick for every record, and the faces that change. */
    method Tasklet() returns (pokes: seq<(nat, byte)>)
      requires Valid()
      modifies pool
      ensures Valid() && Content() == TickedAll(old(Content())) && pokes == DrawnAll(old(Content()))
    {
      ghost var rs := Content();
      var i := head;
      ghost var k: nat := 0;
      pokes := [];
      TickedNone(rs);
      while i != NULL
        invariant TickedSoFar(rs, k, pokes) && At(i, k)
        decreases |list| - k
      {
        i, pokes := TickNext(i, k, rs, pokes);
        k := k + 1;
      }
      TickedEvery(rs, k);
    }

    method PerformRemove(location: u16, ghost rs: seq<Cell>) returns (code: int)
      requires Valid() && Content() == rs
      modifies this, pool
      ensures Valid() && Content() == Removed(rs, location).0 && code == Removed(rs, location).1
    {
      ghost var arg := location % 0x10000;
      assert arg == location;
      code := Remove(location);
      assert (Content(), code) == Removed(rs, arg);
    }

    method PerformSync(from: u16, to: u16, ghost rs: seq<Cell>) returns (code: int, pokes: seq<(nat, byte)>)
      requires Valid() && Content() == rs
      modifies this, pool
      ensures Valid() && Content() == Synced(rs, from, to).0 && code == Synced(rs, from, to).1
    {
      Packed(from, to);
      code, pokes := Sync(from * 0x10000 + to);
    }

    method PerformTick(ghost rs: seq<Cell>) returns (pokes: seq<(nat, byte)>)
      requires Valid() && Content() == rs
      modifies this, pool
      ensures Valid() && Content() == TickedAll(rs)
    {
      pokes := Tasklet();
    }

    method PerformAdd(user: Cell, ghost rs: seq<Cell>) returns (code: int, pokes: seq<(nat, byte)>)
      requires Valid() && Content() == rs
      modifies this, pool
      ensures code == Added(rs, user).1
      ensures Valid() <==> !Breaks(rs, Op.Add(user))
      ensures Valid() ==> Content() == Added(rs, user).0
    {
      code, pokes := Add(user);
    }

    /** Any operation. Only a record entered at location 0 breaks the list. */
    method Perform(op: Op) returns (code: int, pokes: seq<(nat, byte)>)
      requires Valid()
      modifies this, pool
      ensures code == Do(old(Content()), op).1
      ensures Valid() <==> !Breaks(old(Content()), op)
      ensures Valid() ==> Content() == Do(old(Content()), op).0
    {
      code, pokes := 0, [];
      match op
      case Add(user) => code, pokes := PerformAdd(user, Content());
      case Remove(location) => code := PerformRemove(location, Content());
      case Sync(from, to) => code, pokes := PerformSync(from, to, Content());
      case Tick => pokes := PerformTick(Content());
    }

    /** Any run of operations that enters no such record: list and pool agree at its end, and every location
        is a stack. */
    method PerformAll(ops: seq<Op>)
      requires Valid() && Unbroken(Content(), ops)
      modifies this, pool
      ensures Valid() && Content() == DoAll(old(Content()), ops)
      ensures forall location: nat :: FacesAt(Content(), location) == Stack(old(Content()), ops, location)
    {
      ghost var rs := Content();
      for i := 0 to |ops|
        invariant Valid() && Content() == DoAll(rs, ops[..i])
      {
        DoNext(rs, ops, i);
        var _, _ := Perform(ops[i]);
      }
      assert ops[..|ops|] == ops;
      AllAreStacks(rs, ops);
    }
  }
}
