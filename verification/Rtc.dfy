/** The virtual real-time clock: accepting a frequency, and dividing the hardware ticks. */
module Rtc {
  import opened CLib

  const RTC_FREQ_INITI := 1024
  const RTC_FREQ_ACTU := 2

  // ----- which frequencies are accepted -----

  /** Not above 1024, as a signed number. */
  predicate InRange(freq: bv32) {
    freq <= 1024 || freq >= 0x8000_0000
  }

  /** The test that freq & (freq - 1) is zero. */
  predicate OneBit(freq: bv32) {
    freq & (freq - 1) == 0
  }

  /** rtc_write's tests on its 32-bit argument. */
  predicate Accepted(freq: bv32) {
    InRange(freq) && OneBit(freq)
  }

  /** The signed value of the argument. */
  function Signed(freq: bv32): int {
    if freq >= 0x8000_0000 then (freq as int) - 0x1_0000_0000 else freq as int
  }

  predicate PowerOfTwo(n: int)
    decreases n
  {
    n == 1 || (n > 1 && n % 2 == 0 && PowerOfTwo(n / 2))
  }

  lemma AcceptedBits(freq: bv32)
    ensures Accepted(freq) <==>
              freq == 0 || freq == 0x8000_0000 || freq == 1 || freq == 2 || freq == 4 || freq == 8 || freq == 16
              || freq == 32 || freq == 64 || freq == 128 || freq == 256 || freq == 512 || freq == 1024
  {
  }

  lemma SmallPowers(n: int)
    requires 0 < n <= 1024
    ensures PowerOfTwo(n) <==> n in {1, 2, 4, 8, 16, 32, 64, 128, 256, 512, 1024}
  {
    assert PowerOfTwo(1) && PowerOfTwo(2) && PowerOfTwo(4) && PowerOfTwo(8) && PowerOfTwo(16) && PowerOfTwo(32);
    assert PowerOfTwo(64) && PowerOfTwo(128) && PowerOfTwo(256) && PowerOfTwo(512) && PowerOfTwo(1024);
  }

  lemma SignedValues(freq: bv32)
    ensures freq < 0x8000_0000 ==> Signed(freq) == freq as int
    ensures Signed(freq) == 0 <==> freq == 0
    ensures Signed(freq) == -0x8000_0000 <==> freq == 0x8000_0000
    ensures InRange(freq) <==> Signed(freq) <= RTC_FREQ_INITI
  {
  }

  /** The bit trick accepts the powers of two up to 1024, and besides them only zero and the most
      negative number. */
  lemma AcceptedFrequencies(freq: bv32)
    ensures Accepted(freq) <==>
              Signed(freq) == 0 || Signed(freq) == -0x8000_0000
                  || (0 < Signed(freq) <= 1024 && PowerOfTwo(Signed(freq)))
  {
    AcceptedBits(freq);
    SignedValues(freq);
    if 0 < Signed(freq) <= 1024 { SmallPowers(Signed(freq)); }
  }

  /** The divider set for an accepted frequency is exact precisely if that frequency is positive; zero
      makes the division fault. */
  lemma ExactDivider(freq: bv32)
    requires Accepted(freq) && freq != 0
    ensures CDivide(RTC_FREQ_INITI, Signed(freq)) * Signed(freq) == RTC_FREQ_INITI <==> Signed(freq) > 0
    ensures CDivide(RTC_FREQ_INITI, Signed(freq)) >= 0
    ensures Signed(freq) < 0 ==> CDivide(RTC_FREQ_INITI, Signed(freq)) == 0
  {
    AcceptedFrequencies(freq);
    if Signed(freq) > 0 { SmallPowers(Signed(freq)); }
  }

  /** Division of a positive number by a nonzero one, toward zero. */
  function CDivide(a: nat, b: int): int
    requires b != 0
  {
    if b > 0 then a / b else -(a / -b)
  }

  // ----- ticks -----

  datatype Divider = Divider(counter: nat, flag: nat, ct: nat)

  /** rtc_handler: a 32-bit countdown that raises the flag and starts again. */
  function Tick(d: Divider): Divider {
    var left := (d.counter + 0xFFFF_FFFF) % 0x1_0000_0000;
    if left == 0 then d.(counter := d.ct, flag := 1) else d.(counter := left)
  }

  function Ticks(d: Divider, n: nat): Divider {
    if n == 0 then d else Tick(Ticks(d, n - 1))
  }

  /** A tick raises the flag if it finds it lowered and leaves it up. */
  predicate Raised(d: Divider) {
    Tick(d.(flag := 0)).flag == 1
  }

  /** How many of `n` ticks raise the flag. */
  function Raises(d: Divider, n: nat): nat {
    if n == 0 then 0 else Raises(d, n - 1) + if Raised(Ticks(d, n - 1)) then 1 else 0
  }

  const WORD := 0x1_0000_0000

  /** A 32-bit count of ticks: zero stands for all 2^32 of them. */
  function Full(count: nat): nat {
    if count == 0 then WORD else count
  }

  lemma OneTick(d: Divider)
    requires d.counter < WORD && d.ct < WORD
    ensures Raised(d) <==> Full(d.counter) == 1
    ensures Tick(d).ct == d.ct && Tick(d).counter < WORD
    ensures Full(Tick(d).counter) == if Full(d.counter) == 1 then Full(d.ct) else Full(d.counter) - 1
  {
    if d.counter > 0 {
      assert (d.counter + 0xFFFF_FFFF) % WORD == d.counter - 1;
    }
  }

  /** A tick raises the flag when the counter runs out, and never lowers it. */
  lemma FlagOnlyRises(d: Divider)
    requires d.counter < WORD && d.ct < WORD
    ensures Tick(d).flag == if Full(d.counter) == 1 then 1 else d.flag
  {
    OneTick(d);
  }

  lemma OneMore(q: int, b: int)
    ensures (q + 1) * b == q * b + b
  {
  }

  /** Where the counter is after `n` ticks, and what that says of the raises so far. */
  lemma {:induction false} TicksAccount(d: Divider, n: nat)
    requires d.counter < WORD && d.ct < WORD
    ensures var c, p, left := Full(d.counter), Full(d.ct), Full(Ticks(d, n).counter);
            && Ticks(d, n).ct == d.ct && Ticks(d, n).counter < WORD
            && (n < c ==> Raises(d, n) == 0 && left == c - n)
            && (n >= c ==> Raises(d, n) > 0 && 1 <= left <= p && n - c == (Raises(d, n) - 1) * p + (p - left))
  {
    if n > 0 {
      TicksAccount(d, n - 1);
      OneTick(Ticks(d, n - 1));
      OneMore(Raises(d, n - 1) - 1, Full(d.ct));
    }
  }

  /** The virtual clock from every state, one in which the divider has just been made smaller than the
      counter included: the flag is raised first when the counter runs out, and then once every rtc_ct ticks. */
  lemma RaisesExactly(d: Divider, n: nat)
    requires d.counter < WORD && d.ct < WORD
    ensures Raises(d, n) == if n < Full(d.counter) then 0 else 1 + (n - Full(d.counter)) / Full(d.ct)
  {
    TicksAccount(d, n);
    if n >= Full(d.counter) {
      DivideOut(Raises(d, n) - 1, Full(d.ct), Full(d.ct) - Full(Ticks(d, n).counter));
    }
  }

  /** So in one second of 1024 hardware ticks from a reload, an accepted positive frequency raises it
      exactly that many times. */
  lemma FrequencyDelivered(freq: bv32, flag: nat)
    requires Accepted(freq) && Signed(freq) > 0
    ensures var ct := RTC_FREQ_INITI / Signed(freq);
            Raises(Divider(ct, flag, ct), RTC_FREQ_INITI) == Signed(freq)
  {
    AcceptedFrequencies(freq);
    SmallPowers(Signed(freq));
    ExactQuotient(Signed(freq));
    var ct := RTC_FREQ_INITI / Signed(freq);
    RaisesExactly(Divider(ct, flag, ct), RTC_FREQ_INITI);
  }

  lemma ExactQuotient(f: int)
    requires f in {1, 2, 4, 8, 16, 32, 64, 128, 256, 512, 1024}
    ensures var ct := RTC_FREQ_INITI / f;
            0 < ct <= RTC_FREQ_INITI && 1 + (RTC_FREQ_INITI - ct) / ct == f
  {
  }

  // ----- the kernel's variables, updated in place -----

  /** What a call comes to: a return value, or the fault of a division by zero. */
  datatype Outcome = Returned(code: int) | DivideError

  class Clock {
    var counter: nat
    var rtcFlag: nat
    var rtcCt: nat

    ghost function Snapshot(): Divider
      reads this
    {
      Divider(counter, rtcFlag, rtcCt)
    }

    /** rtc_init's settings. */
    constructor ()
      ensures Snapshot() == Divider(512, 0, 512)
    {
      counter := RTC_FREQ_INITI / RTC_FREQ_ACTU;
      rtcFlag := 0;
      rtcCt := RTC_FREQ_INITI / RTC_FREQ_ACTU;
    }

    /** rtc_handler */
    method Handler()
      modifies this
      ensures Snapshot() == Tick(old(Snapshot()))
    {
      counter := (counter + 0xFFFF_FFFF) % 0x1_0000_0000;
      if counter == 0 {
        counter := rtcCt;
        rtcFlag := 1;
      }
    }

    /** rtc_open */
    method Open()
      modifies this`rtcCt
      ensures rtcCt == 512
    {
      rtcCt := RTC_FREQ_INITI / RTC_FREQ_ACTU;
    }

    /** rtc_write; the argument is None for a null buffer. */
    method Write(buf: Option<bv32>, length: int) returns (r: Outcome)
      modifies this`rtcCt
      ensures buf.None? || length != 4 || !Accepted(buf.value) ==> r == Returned(-1) && rtcCt == old(rtcCt)
      ensures buf.Some? && length == 4 && Accepted(buf.value) ==>
                if buf.value == 0 then r == DivideError && rtcCt == old(rtcCt)
                else r == Returned(0) && rtcCt == CDivide(RTC_FREQ_INITI, Signed(buf.value))
    {
      if buf.None? { return Returned(-1); }
      if length != 4 { return Returned(-1); }
      var freq := buf.value;
      if !InRange(freq) { return Returned(-1); }
      if !OneBit(freq) { return Returned(-1); }
      if freq == 0 { return DivideError; }
      ExactDivider(freq);
      rtcCt := CDivide(RTC_FREQ_INITI, Signed(freq));
      return Returned(0);
    }
  }
}
