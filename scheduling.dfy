/** The review scheduler: a simplified SuperMemo-2 step that maps a card's
    schedule state, the grade the user gave and the current day to the card's
    next schedule state.

    Units: days are integer day numbers, and the ease factor is kept in exact
    hundredths (250 is an ease of 2.5, 130 is the floor of 1.3). */
module Scheduling {
  import opened Common

  /** The ease floor, 1.3. */
  const MinEase: int := 130

  /** A card's schedule after a grading. */
  datatype Schedule = Schedule(intervalDays: int, easeHundredths: int, repetitions: int, nextDue: int)

  function Max(a: int, b: int): int {
    if a >= b then a else b
  }

  /** The per-grade ease adjustment in hundredths; a token outside the table gets 0. */
  function EaseDelta(grade: string): int {
    if grade == "again" then -20
    else if grade == "hard" then -15
    else if grade == "good" then 0
    else if grade == "easy" then 15
    else 0
  }

  /** Python's `round(num / den)` on the exact quotient: the nearest integer,
      and on a tie the even one. */
  function RoundHalfEven(num: int, den: int): (r: int)
    requires den > 0
    ensures -den <= 2 * (num - r * den) <= den
    ensures 2 * (num - r * den) == den || 2 * (num - r * den) == -den ==> r % 2 == 0
  {
    var q, m := num / den, num % den;
    assert num - q * den == m;
    if 2 * m < den then q
    else if 2 * m > den then
      assert num - (q + 1) * den == m - den;
      q + 1
    else if q % 2 == 0 then q
    else
      assert num - (q + 1) * den == m - den;
      q + 1
  }

  /** A product with a positive factor keeps the sign of the other one. */
  lemma MulSign(d: int, den: int)
    requires den > 0
    ensures d >= 1 ==> d * den >= den
    ensures d <= -1 ==> d * den <= -den
  {
    if d >= 1 {
      assert d * den == (d - 1) * den + den;
      assert (d - 1) * den >= 0;
    } else if d <= -1 {
      assert d * den == (d + 1) * den - den;
      assert (d + 1) * den <= 0;
    }
  }

  /** The two conditions of `RoundHalfEven` pick exactly one integer. */
  lemma RoundHalfEvenUnique(num: int, den: int, r': int)
    requires den > 0
    requires -den <= 2 * (num - r' * den) <= den
    requires 2 * (num - r' * den) == den || 2 * (num - r' * den) == -den ==> r' % 2 == 0
    ensures r' == RoundHalfEven(num, den)
  {
    var r := RoundHalfEven(num, den);
    var d := r' - r;
    MulDistributes(r, d, den);
    var a, b := num - r * den, num - r' * den;
    // A different r' would be a neighbour of r with both at a tie, so both
    // even, which neighbours never are.
    NearestAreNeighbours(a, b, d, d * den, den);
  }

  lemma MulDistributes(r: int, d: int, den: int)
    ensures (r + d) * den == r * den + d * den
  {
  }

  /** Two remainders within half a step of zero whose difference is the
      multiple `x == d * den` differ by at most one step, and only on ties. */
  lemma NearestAreNeighbours(a: int, b: int, d: int, x: int, den: int)
    requires den > 0 && x == d * den && a - b == x
    requires -den <= 2 * a <= den && -den <= 2 * b <= den
    ensures -1 <= d <= 1
    ensures d != 0 ==> (2 * a == den || 2 * a == -den) && (2 * b == den || 2 * b == -den)
  {
    MulSign(d, den);
    MulSign(d - 1, den);
    MulSign(d + 1, den);
    assert (d - 1) * den == x - den;
    assert (d + 1) * den == x + den;
  }

  /** A quotient at least `k` never rounds below `k`. */
  lemma RoundHalfEvenAtLeast(num: int, den: int, k: int)
    requires den > 0 && num >= k * den
    ensures RoundHalfEven(num, den) >= k
  {
    var r := RoundHalfEven(num, den);
    assert k * den == r * den + (k - r) * den;
    MulSign(k - r, den);
  }

  /** One grading. `today` is the optional reference day; when it is absent the
      clock's day `clock` is used. Nothing is clamped on entry: the state is
      taken as stored. */
  function CalculateSchedule(intervalDays: int, easeHundredths: int, repetitions: int,
                             grade: string, today: Option<int>, clock: int): (r: Schedule)
    // "again" resets the card, whatever its state
    ensures grade == "again" ==> r.repetitions == 0 && r.intervalDays == 1
    // every other token counts one more successful repetition
    ensures grade != "again" ==> r.repetitions == repetitions + 1
    ensures grade != "again" && repetitions == 0 ==> r.intervalDays == 1
    ensures grade != "again" && repetitions == 1 ==> r.intervalDays == 6
    // from the third success on, the interval grows by the ease from BEFORE this grading
    ensures grade != "again" && repetitions != 0 && repetitions != 1 ==>
              r.intervalDays == Max(1, RoundHalfEven(intervalDays * easeHundredths, 100))
    // floors
    ensures r.intervalDays >= 1
    ensures r.easeHundredths >= MinEase
    // the next due day
    ensures r.nextDue == today.GetOr(clock) + r.intervalDays
  {
    var day := today.GetOr(clock);
    var reps := if grade == "again" then 0 else repetitions + 1;
    var interval :=
      if grade == "again" then 1
      else if reps == 1 then 1
      else if reps == 2 then 6
      else Max(1, RoundHalfEven(intervalDays * easeHundredths, 100));
    var ease := Max(MinEase, easeHundredths + EaseDelta(grade));
    Schedule(interval, ease, reps, day + interval)
  }

  /** The four ease adjustments: again -0.20, hard -0.15, good 0, easy +0.15,
      each floored at 1.3. */
  lemma {:induction false} EaseAdjustments(i: int, e: int, n: int, t: Option<int>, c: int)
    ensures CalculateSchedule(i, e, n, "again", t, c).easeHundredths == Max(MinEase, e - 20)
    ensures CalculateSchedule(i, e, n, "hard", t, c).easeHundredths == Max(MinEase, e - 15)
    ensures CalculateSchedule(i, e, n, "good", t, c).easeHundredths == Max(MinEase, e)
    ensures CalculateSchedule(i, e, n, "easy", t, c).easeHundredths == Max(MinEase, e + 15)
  {
    assert "again" != "hard" && "again" != "good" && "again" != "easy";
    assert "hard" != "good" && "hard" != "easy" && "good" != "easy";
  }

  /** A grade token outside again/hard/good/easy behaves exactly like "good". */
  lemma UnknownGradeIsGood(grade: string, i: int, e: int, n: int, t: Option<int>, c: int)
    requires grade != "again" && grade != "hard" && grade != "good" && grade != "easy"
    ensures CalculateSchedule(i, e, n, grade, t, c) == CalculateSchedule(i, e, n, "good", t, c)
  {
    assert "good" != "again";
  }

  /** A better grade never leaves a smaller ease: again <= hard <= good <= easy. */
  lemma EaseMonotoneInGrade(i: int, e: int, n: int, t: Option<int>, c: int)
    ensures CalculateSchedule(i, e, n, "again", t, c).easeHundredths
         <= CalculateSchedule(i, e, n, "hard", t, c).easeHundredths
         <= CalculateSchedule(i, e, n, "good", t, c).easeHundredths
         <= CalculateSchedule(i, e, n, "easy", t, c).easeHundredths
  {
    EaseAdjustments(i, e, n, t, c);
  }

  /** With a stored interval of at least one day and an ease at or above the
      floor, a mature success never shortens the interval. */
  lemma MatureIntervalNeverShrinks(i: int, e: int, n: int, grade: string, t: Option<int>, c: int)
    requires i >= 1 && e >= MinEase && n >= 2 && grade != "again"
    ensures CalculateSchedule(i, e, n, grade, t, c).intervalDays >= i
  {
    assert i * e >= i * 100;
    RoundHalfEvenAtLeast(i * e, 100, i);
  }

  /** The half-to-even tie is observable: a one-day interval at ease 2.5 becomes
      two days, not three. */
  lemma MatureTieRoundsToEven(d: int)
    ensures CalculateSchedule(1, 250, 2, "good", Some(d), d).intervalDays == 2
    ensures CalculateSchedule(3, 250, 2, "good", Some(d), d).intervalDays == 8
  {
    RoundHalfEvenUnique(250, 100, 2);
    RoundHalfEvenUnique(750, 100, 8);
  }

  /** A fresh card graded good, good, again on days d, d+1 and d+7. */
  lemma WorkedTrace(d: int, clock: int)
    ensures CalculateSchedule(1, 250, 0, "good", Some(d), clock) == Schedule(1, 250, 1, d + 1)
    ensures CalculateSchedule(1, 250, 1, "good", Some(d + 1), clock) == Schedule(6, 250, 2, d + 7)
    ensures CalculateSchedule(6, 250, 2, "again", Some(d + 7), clock) == Schedule(1, 230, 0, d + 8)
  {
  }
}
