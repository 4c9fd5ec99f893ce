/**
 The adaptive sleep interval of the poller, with the C arithmetic written out, and the
 switch between event-based and time-based polling.
 */
module SleepController {
  const SLEEP_MIN: int := 5
  const SLEEP_MAX: int := 150
  const SLEEP_DELTA_MAX: int := 72  // (SLEEP_MAX - SLEEP_MIN) >> 1
  const IOPS_HIGH: nat := 120000
  const INT_SPAN: int := 0x1_0000_0000
  const INT_SIGN: int := 0x8000_0000

  function Abs(x: int): nat { if x < 0 then -x else x }

  function Quotient(m: nat, n: nat): (q: nat)
    requires n > 0
    ensures 0 <= m - q * n < n
  {
    m / n
  }

  // Division of C rounds towards zero.
  function CDiv(a: int, b: int): (q: int)
    requires b != 0
    ensures var remainder := Abs(a) - Abs(q) * Abs(b); 0 <= remainder < Abs(b)
    ensures q != 0 ==> (q > 0 <==> (a < 0 <==> b < 0))
  {
    var q: int := Quotient(Abs(a), Abs(b));
    if (a < 0) == (b < 0) then q else -q
  }

  // An unsigned value converted to int.
  function ToInt(x: int): (r: int)
    ensures -INT_SIGN <= r < INT_SIGN
  {
    var u := x % INT_SPAN;
    if u < INT_SIGN then u else u - INT_SPAN
  }

  datatype Control = Control(sleep: int, delta: int)

  // The shift of the code stays within an int.
  predicate InRange(old_: nat, new_: nat) {
    old_ < INT_SPAN && new_ < INT_SPAN && -0x40_0000 < new_ - old_ < 0x40_0000
  }

  // How strongly the interval reacts to the change, before the direction is applied.
  function Reaction(old_: nat, new_: nat): int
    requires InRange(old_, new_) && old_ > 0
  {
    var d := CDiv(ToInt(new_ - old_) * 512, ToInt(old_));
    if d != 0 then d else if new_ >= old_ then 1 else -1
  }

  function Clamp(x: int, lo: int, hi: int): int
    requires lo <= hi
  {
    if x < lo then lo else if x > hi then hi else x
  }

  function Next(c: Control, old_: nat, new_: nat): Control
    requires InRange(old_, new_)
  {
    if old_ == 0 || new_ == 0 then c
    else
      var d := Clamp(Reaction(old_, new_) * (if c.delta >= 0 then 1 else -1), -SLEEP_DELTA_MAX, SLEEP_DELTA_MAX);
      Control(Clamp(c.sleep + d, SLEEP_MIN, SLEEP_MAX), d)
  }

  predicate Ok(c: Control) {
    SLEEP_MIN <= c.sleep <= SLEEP_MAX && c.delta != 0 && -SLEEP_DELTA_MAX <= c.delta <= SLEEP_DELTA_MAX
  }

  lemma SmallToInt(x: int)
    ensures -INT_SIGN <= x < INT_SIGN ==> ToInt(x) == x
    ensures INT_SIGN <= x < INT_SPAN ==> ToInt(x) == x - INT_SPAN
  {
  }

  // The quotient is the largest number of times that b goes into a.
  lemma QuotientIs(a: int, b: int, k: nat)
    requires b != 0
    ensures k <= Abs(CDiv(a, b)) <==> k * Abs(b) <= Abs(a)
  {
    var q: int, n: int := Abs(CDiv(a, b)), Abs(b);
    var d: int := q - k;
    assert q * n == k * n + d * n;
    if d >= 0 { assert d * n >= 0; } else { assert d * n <= -n by { assert (d + 1) * n <= 0; } }
  }

  // What the code divides by: the previous count, as an int.
  function Divisor(old_: nat): (b: nat)
    requires 0 < old_ < INT_SPAN
    ensures b > 0
  {
    if old_ < INT_SIGN then old_ else INT_SPAN - old_
  }

  // The interval changes by one millisecond for every 512th of the previous count by which the
  // count has changed, at least by one and at most by 72; only the bounds stop it.
  lemma AmountOfChange(c: Control, old_: nat, new_: nat, k: nat)
    requires Ok(c) && InRange(old_, new_) && old_ > 0 && new_ > 0 && 1 < k <= SLEEP_DELTA_MAX
    ensures var e := Next(c, old_, new_);
            && 1 <= Abs(e.delta) <= SLEEP_DELTA_MAX
            && (k <= Abs(e.delta) <==> k * Divisor(old_) <= Abs(new_ - old_) * 512)
            && (SLEEP_MIN < e.sleep < SLEEP_MAX ==> e.sleep - c.sleep == e.delta)
            && (e.sleep == SLEEP_MIN ==> c.sleep + e.delta <= SLEEP_MIN)
            && (e.sleep == SLEEP_MAX ==> c.sleep + e.delta >= SLEEP_MAX)
  {
    var a, b := (new_ - old_) * 512, ToInt(old_);
    SmallToInt(new_ - old_);
    SmallToInt(old_);
    assert Abs(a) == Abs(new_ - old_) * 512 && Abs(b) == Divisor(old_);
    QuotientIs(a, b, k);
  }

  // Without a count to compare with nothing changes.
  lemma NoCountNoChange(c: Control, old_: nat, new_: nat)
    requires InRange(old_, new_) && (old_ == 0 || new_ == 0)
    ensures Next(c, old_, new_) == c
  {
  }

  // The direction of the interval is reversed exactly when the IOPS fell, unless the previous
  // count reads as a negative int and the change is not small: then it is the other way round.
  lemma DirectionFollowsIops(c: Control, old_: nat, new_: nat)
    requires Ok(c) && InRange(old_, new_) && old_ > 0 && new_ > 0
    ensures var reversed := (Next(c, old_, new_).delta > 0) != (c.delta > 0);
            (reversed <==> new_ < old_) <==> old_ < INT_SIGN || Abs(new_ - old_) * 512 < INT_SPAN - old_
  {
    var a, b := (new_ - old_) * 512, ToInt(old_);
    SmallToInt(new_ - old_);
    SmallToInt(old_);
    QuotientIs(a, b, 1);
    assert Abs(a) == Abs(new_ - old_) * 512;
  }

  lemma NextOk(c: Control, old_: nat, new_: nat)
    requires Ok(c) && InRange(old_, new_)
    ensures var e := Next(c, old_, new_);
            Ok(e) && 5 <= e.sleep <= 150 && e.delta != 0 && -72 <= e.delta <= 72
  {
  }

  // The exception is real: IOPS rise and the direction is reversed nevertheless.
  lemma RisingIopsReversed()
    ensures var c, old_, new_ := Control(77, 72), 0xffff_f000, 0xffff_ff00;
            Ok(c) && InRange(old_, new_) && new_ > old_ && Next(c, old_, new_).delta < 0
  {
    SmallToInt(0xf00);
    assert ToInt(0xffff_f000) == -0x1000;
    assert CDiv(0xf00 * 512, -0x1000) == -480;
  }

  // -------------------------------------------------------------------------
  // Sequences of evaluations
  // -------------------------------------------------------------------------

  predicate Readings(iops: seq<nat>) {
    && (forall i :: 0 <= i < |iops| ==> 0 < iops[i] < INT_SIGN)
    && (forall i :: 0 < i < |iops| ==> InRange(iops[i - 1], iops[i]))
  }

  // The state after evaluating each reading against the one before it.
  function Evaluate(c: Control, iops: seq<nat>): Control
    requires Readings(iops)
    decreases |iops|
  {
    if |iops| < 2 then c
    else Next(Evaluate(c, iops[..|iops| - 1]), iops[|iops| - 2], iops[|iops| - 1])
  }

  lemma {:induction false} EvaluateOk(c: Control, iops: seq<nat>)
    requires Ok(c) && Readings(iops)
    ensures Ok(Evaluate(c, iops))
    decreases |iops|
  {
    if |iops| >= 2 {
      EvaluateOk(c, iops[..|iops| - 1]);
      NextOk(Evaluate(c, iops[..|iops| - 1]), iops[|iops| - 2], iops[|iops| - 1]);
    }
  }

  function Bound(c: Control): int { if c.delta > 0 then SLEEP_MAX else SLEEP_MIN }

  // While the IOPS do not fall, the interval keeps its direction and moves at least one
  // millisecond per evaluation.
  lemma {:induction false} NonFallingMoves(c: Control, iops: seq<nat>)
    requires Ok(c) && Readings(iops) && |iops| > 0 && forall i :: 0 < i < |iops| ==> iops[i - 1] <= iops[i]
    ensures var e := Evaluate(c, iops);
            && Ok(e) && (e.delta > 0 <==> c.delta > 0)
            && (e.sleep == Bound(c) || Abs(Bound(c) - e.sleep) <= Abs(Bound(c) - c.sleep) - (|iops| - 1))
    decreases |iops|
  {
    EvaluateOk(c, iops);
    if |iops| >= 2 {
      var front := iops[..|iops| - 1];
      NonFallingMoves(c, front);
      EvaluateOk(c, front);
      DirectionFollowsIops(Evaluate(c, front), iops[|iops| - 2], iops[|iops| - 1]);
    }
  }

  // 145 consecutive non-falling evaluations reach the bound from anywhere.
  lemma ReachesBound(c: Control, iops: seq<nat>)
    requires Ok(c) && Readings(iops) && forall i :: 0 < i < |iops| ==> iops[i - 1] <= iops[i]
    requires |iops| > 145
    ensures Evaluate(c, iops).sleep == Bound(c)
  {
    NonFallingMoves(c, iops);
  }

  // -------------------------------------------------------------------------
  // The poller
  // -------------------------------------------------------------------------

  // VRING_AVAIL_F_NO_INTERRUPT is the lowest bit of the 16-bit flags.
  predicate NoInterrupt(flags: nat) { flags % 2 == 1 }

  function SetNoInterrupt(flags: nat): (r: nat)
    ensures NoInterrupt(r) && r / 2 == flags / 2
  {
    flags - flags % 2 + 1
  }

  function ClearNoInterrupt(flags: nat): (r: nat)
    ensures !NoInterrupt(r) && r / 2 == flags / 2
  {
    flags - flags % 2
  }

  class Poller {
    var iops: nat
    var sleepyPoll: bool
    var sleep: int
    var sleepDelta: int
    var flags: nat  // avail->flags of the ring

    ghost predicate Valid()
      reads this
    {
      && Ok(Control(sleep, sleepDelta)) && iops < INT_SPAN
      && (sleepyPoll <==> NoInterrupt(flags))
    }

    constructor ()
      ensures Valid() && !sleepyPoll && sleep == 77 && sleepDelta == SLEEP_DELTA_MAX
    {
      iops, sleepyPoll, flags := 0, false, 0;
      sleep := (SLEEP_MIN + SLEEP_MAX) / 2;
      sleepDelta := SLEEP_DELTA_MAX;
    }

    method EvalPerformance(iopsOld: nat, iopsNew: nat)
      requires Valid() && InRange(iopsOld, iopsNew)
      modifies this`sleep, this`sleepDelta
      ensures Valid()
      ensures Control(sleep, sleepDelta) == Next(old(Control(sleep, sleepDelta)), iopsOld, iopsNew)
    {
      NextOk(Control(sleep, sleepDelta), iopsOld, iopsNew);
      var deltaSign := if sleepDelta >= 0 then 1 else -1;
      if iopsOld == 0 || iopsNew == 0 { return; }
      SmallToInt(iopsNew - iopsOld);
      var newDelta := CDiv(ToInt(iopsNew - iopsOld) * 512, ToInt(iopsOld));
      if newDelta == 0 {
        if iopsNew >= iopsOld {
          newDelta := 1;
        } else {
          newDelta := -1;
        }
      }
      newDelta := newDelta * deltaSign;
      if newDelta > SLEEP_DELTA_MAX { newDelta := SLEEP_DELTA_MAX; }
      if newDelta < -SLEEP_DELTA_MAX { newDelta := -SLEEP_DELTA_MAX; }
      sleep := sleep + newDelta;
      sleepDelta := newDelta;
      if sleep < SLEEP_MIN { sleep := SLEEP_MIN; }
      if sleep > SLEEP_MAX { sleep := SLEEP_MAX; }
    }

    // Choose the way of polling.  At exactly IOPS_HIGH nothing changes.
    method SwitchMode()
      requires sleepyPoll <==> NoInterrupt(flags)
      modifies this`sleepyPoll, this`flags
      ensures sleepyPoll <==> NoInterrupt(flags)
      ensures sleepyPoll == if iops > 120000 then true else if iops < 120000 then false else old(sleepyPoll)
      ensures flags / 2 == old(flags) / 2
    {
      if !sleepyPoll && iops > IOPS_HIGH {
        sleepyPoll := true;
        flags := SetNoInterrupt(flags);
      } else if sleepyPoll && iops < IOPS_HIGH {
        sleepyPoll := false;
        flags := ClearNoInterrupt(flags);
      }
    }

    // Once a second: adapt the interval, then choose the way of polling.  The device is told
    // not to interrupt exactly in time-based mode.
    method EverySecond(count: nat)
      requires Valid() && (sleepyPoll ==> InRange(iops, count)) && count < INT_SPAN
      modifies this
      ensures Valid() && iops == count
      ensures sleepyPoll == if count > 120000 then true else if count < 120000 then false else old(sleepyPoll)
      ensures Control(sleep, sleepDelta) ==
        if old(sleepyPoll) then Next(old(Control(sleep, sleepDelta)), old(iops), count) else old(Control(sleep, sleepDelta))
      ensures flags / 2 == old(flags) / 2
    {
      if sleepyPoll {
        EvalPerformance(iops, count);
      }
      iops := count;
      SwitchMode();
    }
  }
}
