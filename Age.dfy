/**
 * calculateAge of dash.js: the age in years from a birthdate to today.
 * Dates are (year, month, day) triples as Date's getFullYear, getMonth and
 * getDate return them; today's date is a parameter instead of `new Date()`.
 */
module Age {

  datatype Date = Date(year: int, month: int, day: int)

  /** `a` falls on or before `b` in the (year, month, day) order. */
  predicate NotAfter(a: Date, b: Date) {
    a.year < b.year
    || (a.year == b.year && (a.month < b.month || (a.month == b.month && a.day <= b.day)))
  }

  /** The date `k` years after `d`: same month and day. */
  function AddYears(d: Date, k: int): Date {
    Date(d.year + k, d.month, d.day)
  }

  /** (month, day) of `a` comes before that of `b`. */
  predicate BirthdayAhead(today: Date, birth: Date) {
    today.month < birth.month || (today.month == birth.month && today.day < birth.day)
  }

  /**
   * calculateAge (dash.js:1268-1279): the difference of the years, less one
   * when this year's birthday is still ahead.  The result is the number of
   * whole years lived: the anniversary that many years on has been reached
   * by today and the next one has not.
   */
  function CalculateAge(today: Date, birth: Date): (age: int)
    ensures age == today.year - birth.year || age == today.year - birth.year - 1
    ensures age == today.year - birth.year - 1 <==> BirthdayAhead(today, birth)
    ensures NotAfter(AddYears(birth, age), today)
    ensures !NotAfter(AddYears(birth, age + 1), today)
  {
    var age := today.year - birth.year;
    var monthDiff := today.month - birth.month;
    if monthDiff < 0 || (monthDiff == 0 && today.day < birth.day) then age - 1 else age
  }

  /** The whole-years property pins the age down: no other count of years has it. */
  lemma AgeIsUnique(today: Date, birth: Date, k: int)
    requires NotAfter(AddYears(birth, k), today) && !NotAfter(AddYears(birth, k + 1), today)
    ensures k == CalculateAge(today, birth)
  {
  }

  /** Someone not yet born has a negative age; anyone born by today has age at least 0. */
  lemma AgeSign(today: Date, birth: Date)
    ensures NotAfter(birth, today) <==> CalculateAge(today, birth) >= 0
  {
  }

  /** A later today never gives a smaller age. */
  lemma AgeMonotone(today1: Date, today2: Date, birth: Date)
    requires NotAfter(today1, today2)
    ensures CalculateAge(today1, birth) <= CalculateAge(today2, birth)
  {
  }

  /** On the birthday itself the age goes up by exactly one. */
  lemma AgeOnBirthday(birth: Date, k: int)
    ensures CalculateAge(AddYears(birth, k), birth) == k
    ensures CalculateAge(Date(birth.year + k, birth.month, birth.day - 1), birth) == k - 1
  {
  }
}
