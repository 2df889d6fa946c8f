/**
 * The credit-tier score: a course's grade coefficient times its credit times
 * the multiplier of the tier its credit falls in.
 */
module Gpa {

  /** The three injected CourseGpa beans: low (credit up to 2), medium (3), high (otherwise). */
  datatype Tier = Low | Medium | High

  function TierOf(credit: int): (t: Tier)
    ensures t == Low <==> credit <= 2
    ensures t == Medium <==> credit == 3
    ensures t == High <==> credit >= 4
  {
    if credit <= 2 then Low else if credit == 3 then Medium else High
  }

  /** The getGpa() values of the three beans. Their classes are not part of this model, so any ints. */
  datatype Multipliers = Multipliers(low: int, medium: int, high: int)
  {
    function For(t: Tier): int
    {
      match t
      case Low => low
      case Medium => medium
      case High => high
    }
  }

  /** The if/else score computation, written as the controller writes it in add and in update. */
  function TotalGpa(m: Multipliers, coefficient: int, credit: int): int
  {
    if credit <= 2 then coefficient * credit * m.low
    else if credit == 3 then coefficient * credit * m.medium
    else coefficient * credit * m.high
  }

  /** The inline if/else is the tier policy: coefficient * credit * multiplier of the credit's tier. */
  lemma TotalGpaByTier(m: Multipliers, coefficient: int, credit: int)
    ensures TotalGpa(m, coefficient, credit) == coefficient * credit * m.For(TierOf(credit))
  {
  }

  /** On the credits the validator admits, the multiplier is this table: low, low, low, medium, high. */
  lemma MultiplierTable(m: Multipliers, coefficient: int, credit: int)
    requires 0 <= credit <= 4
    ensures m.For(TierOf(credit)) == [m.low, m.low, m.low, m.medium, m.high][credit]
    ensures TotalGpa(m, 0, credit) == 0 && TotalGpa(m, coefficient, 0) == 0
  {
  }
}
