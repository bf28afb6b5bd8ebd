/**
  The total number of pizzas for a workshop evening.

  The calculator weighs participants, staff and the number of weeks since the
  start of the semester (attendance drops as the semester goes on), divides by
  the number of people one pizza feeds, and truncates toward zero. The caller
  then replaces a result of zero or less by one pizza.

  The source computes with binary floating point; the model uses the exact
  rationals its decimal constants denote.
 */
module Totals {
  import opened Truncation

  /** Pizza shares per participant, per staff member and lost per week, and
      the number of shares one pizza covers, as written in the calculator. */
  const PizzaPerParticipant: real := 0.8
  const PizzaPerStaff: real := 1.0
  const ReductionPerWeek: real := 0.4
  const DivisionFactor: real := 3.5

  /** The calculator's quotient before truncation, in exact arithmetic. */
  function ExactQuotient(participants: int, staff: int, weeks: int): real
  {
    (participants as real * PizzaPerParticipant
     + staff as real * PizzaPerStaff
     - weeks as real * ReductionPerWeek) / DivisionFactor
  }

  /** The quotient scaled to integers: ten times the numerator over ten times
      the divisor, that is `(8P + 10S - 4W) / 35`. */
  function ScaledNumerator(participants: int, staff: int, weeks: int): int
  {
    8 * participants + 10 * staff - 4 * weeks
  }

  const ScaledDivisor: int := 35

  /** The total pizza formula: the exact quotient truncated toward zero (not
      floored, so a slightly negative quotient gives 0, not -1). Defined for
      every integer input; the clamp to one pizza is the caller's business. */
  function TotalPizzas(participants: int, staff: int, weeks: int): (r: int)
    ensures var x := ExactQuotient(participants, staff, weeks);
            0.0 <= x ==> r as real <= x < (r + 1) as real
    ensures var x := ExactQuotient(participants, staff, weeks);
            x < 0.0 ==> (r - 1) as real < x <= r as real
  {
    var n := ScaledNumerator(participants, staff, weeks);
    var r := TruncDiv(n, ScaledDivisor);
    TruncDivBounds(n, ScaledDivisor);
    assert ExactQuotient(participants, staff, weeks) == n as real / 35.0;
    r
  }

  /** The formula on integers: the scaled numerator divided by 35, with the
      quotient of the magnitudes carrying the numerator's sign. */
  lemma TotalPizzasFromScaled(participants: int, staff: int, weeks: int)
    ensures var n := ScaledNumerator(participants, staff, weeks);
            TotalPizzas(participants, staff, weeks) == if n >= 0 then n / 35 else -((-n) / 35)
  {
    var n := ScaledNumerator(participants, staff, weeks);
    if n >= 0 {
      TruncDivVersusFloor(n, ScaledDivisor);
    } else {
      TruncDivVersusFloor(-n, ScaledDivisor);
    }
  }

  /** The caller's policy: a computed total of zero or less becomes one pizza;
      a positive total is passed on unchanged. */
  function ClampTotal(t: int): (r: int)
    ensures r >= 1
    ensures r == 1 <==> t <= 1
    ensures 1 < r ==> r == t
  {
    if t <= 0 then 1 else t
  }

  /** The total the order starts from, before the user may adjust it: at least
      one pizza, exactly one whenever the exact quotient is below one, and the
      whole part of the quotient otherwise. */
  function CalculatedTotal(participants: int, staff: int, weeks: int): (r: int)
    ensures r >= 1
    ensures ExactQuotient(participants, staff, weeks) < 1.0 ==> r == 1
    ensures var x := ExactQuotient(participants, staff, weeks);
            1.0 <= x ==> r as real <= x < (r + 1) as real
  {
    ClampTotal(TotalPizzas(participants, staff, weeks))
  }

  /** More participants or staff never lower the total, and more weeks never
      raise it. */
  lemma TotalPizzasMonotone(p: int, s: int, w: int, p': int, s': int, w': int)
    requires p <= p' && s <= s' && w' <= w
    ensures TotalPizzas(p, s, w) <= TotalPizzas(p', s', w')
  {
    TruncDivMonotone(ScaledNumerator(p, s, w), ScaledNumerator(p', s', w'), ScaledDivisor);
  }

  /** The worked example: 50 participants, 5 staff, week 2 gives
      (40 + 5 - 0.8) / 3.5 = 12.63, hence 12 pizzas. */
  lemma FiftyParticipantsExample()
    ensures ExactQuotient(50, 5, 2) == 44.2 / 3.5
    ensures TotalPizzas(50, 5, 2) == 12
    ensures CalculatedTotal(50, 5, 2) == 12
  {
  }

  /** Truncation, not flooring: one participant in week 3 gives the quotient
      (0.8 - 1.2) / 3.5, which is negative but above -1, so the formula yields
      0 where a floor would yield -1; the clamp then orders one pizza. */
  lemma SmallNegativeQuotientTruncatesToZero()
    ensures -1.0 < ExactQuotient(1, 0, 3) < 0.0
    ensures ScaledNumerator(1, 0, 3) / ScaledDivisor == -1
    ensures TotalPizzas(1, 0, 3) == 0
    ensures CalculatedTotal(1, 0, 3) == 1
  {
  }
}
