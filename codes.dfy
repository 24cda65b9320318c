/** The fixed code lists `download` validates against: month names, supported
    years and two-digit day codes, and the zero-padding of a requested day. */
module Codes {
  import opened JsText

  predicate IsUpper(c: char) { 'A' <= c <= 'Z' }

  /** Three upper-case letters, the shape of every month name. */
  predicate MonthShaped(m: string) { |m| == 3 && forall k :: 0 <= k < 3 ==> IsUpper(m[k]) }

  /** `__monthsCode`: the twelve upper-case three-letter month names, in calendar order. */
  function MonthsCode(): (months: seq<string>)
    ensures |months| == 12
    ensures forall i :: 0 <= i < 12 ==> MonthShaped(months[i])
    ensures forall i, j :: 0 <= i < j < 12 ==> months[i] != months[j]
  {
    ["JAN", "FEB", "MAR", "APR", "MAY", "JUN", "JUL", "AUG", "SEP", "OCT", "NOV", "DEC"]
  }

  /** `__yearsCode`: the years the exchange archive is fetched for. */
  function YearsCode(): (years: seq<int>)
    ensures forall y :: y in years <==> 2016 <= y <= 2018
  {
    [2016, 2017, 2018]
  }

  /** The entry `__daysCode` pushes for day `k`: the string `"0" + k` below ten, the number
      `k` itself from ten on. */
  function DayCode(k: nat): JsValue
    requires 1 <= k <= 31
  {
    if k < 10 then Str("0" + IntText(k)) else Num(k)
  }

  /** The text a day code contributes to a file name: two digits denoting the day. */
  lemma DayCodeText(k: nat)
    requires 1 <= k <= 31
    ensures var t := ToText(DayCode(k)); |t| == 2 && AllDigits(t) && DecimalValue(t) == k
  {
    DecimalValueOfNatText(k);
    if k >= 10 {
      assert NatText(k) == NatText(k / 10) + [DigitChar(k % 10)];
    }
  }

  /** The list `__daysCode` returns: the strings "01".."09", then the numbers 10..31; as text,
      the i-th (from 0) is the two-digit numeral of day i + 1, and no entry repeats. */
  function AllDayCodes(): (codes: seq<JsValue>)
    ensures |codes| == 31
    ensures forall i :: 0 <= i < 9 ==> codes[i].Str?
    ensures forall i :: 9 <= i < 31 ==> codes[i] == Num(i + 1)
    ensures forall i :: 0 <= i < 31 ==>
              var t := ToText(codes[i]); |t| == 2 && AllDigits(t) && DecimalValue(t) == i + 1
    ensures forall i, j :: 0 <= i < j < 31 ==> codes[i] != codes[j]
  {
    var codes := seq(31, i requires 0 <= i < 31 => DayCode(i + 1));
    forall i | 0 <= i < 31
      ensures var t := ToText(codes[i]); |t| == 2 && AllDigits(t) && DecimalValue(t) == i + 1
    {
      DayCodeText(i + 1);
    }
    codes
  }

  /** `__daysCode`: fills the list day by day. */
  method DaysCode() returns (days: seq<JsValue>)
    ensures days == AllDayCodes()
  {
    days := [];
    for i := 1 to 32
      invariant |days| == i - 1
      invariant forall k :: 0 <= k < i - 1 ==> days[k] == DayCode(k + 1)
    {
      var day;
      if i < 10 {
        day := Str("0" + IntText(i));
      } else {
        day := Num(i);
      }
      days := days + [day];
    }
  }

  /** `__appendZeroToDay` on a parsed day: the string "0" + day below ten, else the number
      itself; NaN is not below ten and comes back unchanged. */
  function AppendZeroToDay(day: Parsed): JsValue
  {
    match day
    case NaN => NaNValue
    case Int(d) => if d < 10 then Str("0" + IntText(d)) else Num(d)
  }

  /** A parsed day is found among the day codes exactly when it is an integer in 1..31;
      then its padded form is that day's code. */
  lemma {:induction false} AppendZeroToDayAccepted(day: Parsed)
    ensures AppendZeroToDay(day) in AllDayCodes() <==> day.Int? && 1 <= day.value <= 31
    ensures day.Int? && 1 <= day.value <= 31 ==> AppendZeroToDay(day) == DayCode(day.value)
  {
    var codes := AllDayCodes();
    var padded := AppendZeroToDay(day);
    if day.Int? && 1 <= day.value <= 31 {
      assert padded == codes[day.value - 1];
    } else {
      forall k | 0 <= k < 31
        ensures padded != codes[k]
      {
        if day.Int? && day.value < 10 && k < 9 {
          var d := day.value;
          var code := "0" + NatText(k + 1);
          assert codes[k] == Str(code) && code[1] == NatText(k + 1)[0] != '0';
          if d < 0 {
            assert padded.s[1] == '-';
          } else {
            assert d == 0 && padded.s == "00";
          }
        }
      }
    }
  }
}
