/** The validity date of a proposal: the reference day plus the term `prazo`
    in days, rendered as `toLocaleDateString("pt-BR")` renders it. */
module Validity {
  import opened Optional
  import opened Decimal
  import opened CivilDate

  /** Time values are limited to 8.64e15 ms either side of the epoch
      (TimeClip, section 21.4.1.31 of ECMA-262): 100,000,000 days. */
  const MaxDayNumber: int := 100_000_000

  /** What a date whose time value was clipped to NaN renders as. */
  const InvalidDate: string := "Invalid Date"

  /** Day number of 0001-01-01, the first day of the common era. */
  const FirstCommonEraDay: int := -719162

  predicate InTimeRange(n: int) {
    -MaxDayNumber <= n <= MaxDayNumber
  }

  /** pt-BR short date: two-digit day, two-digit month, then the year without padding. */
  function Format(d: Date): (s: string)
    requires Valid(d) && d.year >= 1
    ensures |s| >= 7 && s[2] == '/' && s[5] == '/'
    ensures 1000 <= d.year <= 9999 ==> |s| == 10
  {
    ShowFourDigits(d.year);
    Pad2(d.day) + "/" + Pad2(d.month) + "/" + Show(d.year)
  }

  /** Reads a `DD/MM/Y…` string back into its day, month and year. */
  function ParseDate(s: string): Option<Date> {
    if |s| >= 7 && s[2] == '/' && s[5] == '/'
       && AllDigits(s[..2]) && AllDigits(s[3..5]) && AllDigits(s[6..])
    then Some(Date(ParseDigits(s[6..]), ParseDigits(s[3..5]), ParseDigits(s[..2])))
    else None
  }

  /** Day, month and year are read back from the rendering unchanged. */
  lemma ParseFormat(d: Date)
    requires Valid(d) && d.year >= 1
    ensures ParseDate(Format(d)) == Some(d)
  {
    var s := Format(d);
    assert s[..2] == Pad2(d.day);
    assert s[3..5] == Pad2(d.month);
    assert s[6..] == Show(d.year);
    ParseShow(d.year);
  }

  /** Different dates render differently. */
  lemma FormatInjective(a: Date, b: Date)
    requires Valid(a) && a.year >= 1
    requires Valid(b) && b.year >= 1
    ensures Format(a) == Format(b) ==> a == b
  {
    ParseFormat(a);
    ParseFormat(b);
  }

  /** Day numbers from 0001-01-01 on fall in years of the common era. */
  lemma CommonEraYears(n: int)
    requires n >= FirstCommonEraDay
    ensures FromDayNumber(n).year >= 1
  {
    var y := FromDayNumber(n).year;
    DayFromYearIsEcma(1);
    if y < 1 {
      YearStep(y);
      if y < 0 {
        YearsBelow(y, 1);
      }
    }
  }

  /** The inputs for which the rendering is modelled: a real reference day, and a
      validity that is either clipped or falls in the common era. */
  predicate Renderable(today: Date, prazo: int) {
    && Valid(today)
    && InTimeRange(DayNumber(today))
    && (InTimeRange(DayNumber(today) + prazo) ==> DayNumber(today) + prazo >= FirstCommonEraDay)
  }

  /** `validadeFormatada`: the date `prazo` days after `today`, or "Invalid Date"
      when that date lies outside the range of time values. */
  function ValidityText(today: Date, prazo: int): (s: string)
    requires Renderable(today, prazo)
    ensures ParseDate(s).Some? <==> InTimeRange(DayNumber(today) + prazo)
    ensures ParseDate(s).Some? ==>
              Valid(ParseDate(s).value) && DayNumber(ParseDate(s).value) == DayNumber(today) + prazo
    ensures !InTimeRange(DayNumber(today) + prazo) ==> s == InvalidDate
  {
    if InTimeRange(DayNumber(today) + prazo) then
      var d := AddDays(today, prazo);
      CommonEraYears(DayNumber(today) + prazo);
      ParseFormat(d);
      Format(d)
    else
      InvalidDate
  }
}
