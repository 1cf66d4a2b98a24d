/**
 * The AGE formula function (AgePlugin in src/Spreadsheet.jsx): whole years
 * between a birth date and a reference date, the reference defaulting to the
 * current date.
 */
module AgePlugin {
  import opened Wrappers

  const InvalidDate: string := "Invalid date"
  const InvalidInput: string := "Invalid input"

  /** A calendar date as the `Date` getters report it: `getFullYear`,
      `getMonth` and `getDate`. Only comparisons of these numbers matter. */
  datatype Date = Date(year: int, month: int, day: int)

  /** The outcome of `new Date(arg)`: a date, an invalid date (its time is
      NaN), or a thrown exception. */
  datatype DateArg = Parsed(date: Date) | Unparseable | Throws

  /** What the evaluation body returns: a number of years, or an error text. */
  datatype AgeResult = Years(years: int) | Message(text: string)

  /** `a` falls on or before `b` in calendar order. */
  predicate OnOrBefore(a: Date, b: Date) {
    a.year < b.year || (a.year == b.year && (a.month < b.month || (a.month == b.month && a.day <= b.day)))
  }

  /** The `n`-th anniversary of `birth`: same month and day, `n` years later. */
  function Anniversary(birth: Date, n: int): Date {
    Date(birth.year + n, birth.month, birth.day)
  }

  /** The number of whole years from `birth` to `reference`: the year
      difference, less one when the reference's month and day come before the
      birth's. It is the last anniversary reached by the reference date. */
  function CompletedYears(birth: Date, reference: Date): (n: int)
    ensures OnOrBefore(Anniversary(birth, n), reference)
    ensures !OnOrBefore(Anniversary(birth, n + 1), reference)
    ensures n == reference.year - birth.year || n == reference.year - birth.year - 1
  {
    var monthDiff := reference.month - birth.month;
    if monthDiff < 0 || (monthDiff == 0 && reference.day < birth.day)
    then reference.year - birth.year - 1
    else reference.year - birth.year
  }

  /** The AGE evaluation body as the source writes it, with the clock reading
      `now` passed in for the omitted reference date. Exceptions while
      building either date are reported first, then invalid dates. */
  method Age(birthDate: DateArg, referenceDate: Option<DateArg>, now: Date) returns (r: AgeResult)
    ensures var reference := referenceDate.GetOr(Parsed(now));
      && (r == Message(InvalidInput) <==> birthDate.Throws? || reference.Throws?)
      && (r == Message(InvalidDate) <==>
            !birthDate.Throws? && !reference.Throws? && (birthDate.Unparseable? || reference.Unparseable?))
      && (r.Years? <==> birthDate.Parsed? && reference.Parsed?)
      && (r.Years? ==> r.years == CompletedYears(birthDate.date, reference.date))
  {
    var reference := if referenceDate.Some? then referenceDate.value else Parsed(now);
    if birthDate.Throws? || reference.Throws? {
      return Message(InvalidInput);
    }
    if birthDate.Unparseable? || reference.Unparseable? {
      return Message(InvalidDate);
    }
    var birth, ref := birthDate.date, reference.date;
    var age := ref.year - birth.year;
    var monthDiff := ref.month - birth.month;
    if monthDiff < 0 || (monthDiff == 0 && ref.day < birth.day) {
      age := age - 1;
    }
    return Years(age);
  }

  /** The anniversary property determines the age: any number of years whose
      anniversary is reached while the next one is not is the computed age. */
  lemma CompletedYearsUnique(birth: Date, reference: Date, n: int)
    requires OnOrBefore(Anniversary(birth, n), reference)
    requires !OnOrBefore(Anniversary(birth, n + 1), reference)
    ensures n == CompletedYears(birth, reference)
  {
    var m := CompletedYears(birth, reference);
    if n < m {
      AnniversaryMonotone(birth, n + 1, m, reference);
    } else if n > m {
      AnniversaryMonotone(birth, m + 1, n, reference);
    }
  }

  /** A later anniversary reached implies every earlier one was reached. */
  lemma AnniversaryMonotone(birth: Date, i: int, j: int, reference: Date)
    requires i <= j && OnOrBefore(Anniversary(birth, j), reference)
    ensures OnOrBefore(Anniversary(birth, i), reference)
  {
  }

  /** The age never decreases as the reference date moves forward. */
  lemma CompletedYearsMonotone(birth: Date, r1: Date, r2: Date)
    requires OnOrBefore(r1, r2)
    ensures CompletedYears(birth, r1) <= CompletedYears(birth, r2)
  {
    var n1 := CompletedYears(birth, r1);
    assert OnOrBefore(Anniversary(birth, n1), r2);
    if CompletedYears(birth, r2) < n1 {
      AnniversaryMonotone(birth, CompletedYears(birth, r2) + 1, n1, r2);
    }
  }

  /** On the birth date itself the age is zero, and on each anniversary it is
      the number of years elapsed. */
  lemma CompletedYearsOnAnniversary(birth: Date, n: int)
    ensures CompletedYears(birth, birth) == 0
    ensures CompletedYears(birth, Anniversary(birth, n)) == n
  {
  }

  /** Worked examples: the day before the twentieth birthday and the day itself. */
  lemma AgeExamples()
    ensures CompletedYears(Date(2000, 6, 15), Date(2020, 6, 14)) == 19
    ensures CompletedYears(Date(2000, 6, 15), Date(2020, 6, 15)) == 20
  {
  }
}
