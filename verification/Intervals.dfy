/** The lengths of the intervals, as kline_utils.cpp knows them and as their names spell them out. */
module Intervals {

  function IntervalMs(interval: string): (r: int)
    ensures r > 0
  {
    if interval == "1s" then 1000
    else if interval == "1m" then 60 * 1000
    else if interval == "5m" then 5 * 60 * 1000
    else if interval == "15m" then 15 * 60 * 1000
    else if interval == "30m" then 30 * 60 * 1000
    else if interval == "1H" || interval == "1h" then 60 * 60 * 1000
    else if interval == "4H" || interval == "4h" then 4 * 60 * 60 * 1000
    else if interval == "1D" || interval == "1d" then 24 * 60 * 60 * 1000
    else 60 * 1000
  }

  /** The length that an interval's name spells out: a number and a unit. */
  function NamedMs(interval: string): int
    requires interval != ""
  {
    Number(interval[..|interval| - 1]) * UnitMs(interval[|interval| - 1])
  }

  function Number(digits: string): int {
    if digits == "" then 0
    else Number(digits[..|digits| - 1]) * 10 + (digits[|digits| - 1] as int - '0' as int)
  }

  function UnitMs(unit: char): int {
    match unit
    case 's' => 1000
    case 'm' => 60 * 1000
    case 'h' | 'H' => 60 * 60 * 1000
    case _ => 24 * 60 * 60 * 1000
  }

  lemma DigitValue(d: char)
    ensures Number([d]) == d as int - '0' as int
  {
    assert [d][..0] == "";
    assert Number("") == 0;
  }

  lemma OneDigit(d: char, unit: char)
    ensures NamedMs([d, unit]) == (d as int - '0' as int) * UnitMs(unit)
  {
    DigitValue(d);
    assert [d, unit][..1] == [d];
  }

  lemma TwoDigits(d: char, e: char, unit: char)
    ensures NamedMs([d, e, unit]) == ((d as int - '0' as int) * 10 + (e as int - '0' as int)) * UnitMs(unit)
  {
    DigitValue(d);
    assert [d, e][..1] == [d];
    assert Number([d, e]) == Number([d]) * 10 + (e as int - '0' as int);
    assert [d, e, unit][..2] == [d, e];
  }

  /** The names in use: those of the table of lengths, and "8h", which is not in it. */
  predicate IsInterval(name: string) {
    || name == "1s" || name == "1m" || name == "5m" || name == "15m" || name == "30m" || name == "1h" || name == "1H"
    || name == "4h" || name == "4H" || name == "8h" || name == "1d" || name == "1D"
  }

  /** The table of lengths says what the names say; "8h", like every other name, falls through to one minute. */
  lemma IntervalTable(interval: string)
    ensures IsInterval(interval) && interval != "8h" ==> IntervalMs(interval) == NamedMs(interval)
    ensures !IsInterval(interval) || interval == "8h" ==> IntervalMs(interval) == 60_000
    ensures interval == "8h" ==> NamedMs(interval) == 8 * 60 * 60_000
  {
    if IsInterval(interval) {
      if |interval| == 2 {
        OneDigit(interval[0], interval[1]);
      } else {
        TwoDigits(interval[0], interval[1], interval[2]);
        assert interval == "15m" || interval == "30m";
      }
    }
  }
}
