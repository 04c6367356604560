/** The integer Fahrenheit accessor. The arithmetic it performs, `* 10 / 18`,
    scales by 5/9, which is the Fahrenheit-to-Celsius factor without the
    32-degree shift; a conversion to hundredths of a degree Fahrenheit
    scales by 9/5 and adds 3200. Both are given here. */
module Units {
  import opened CInt

  /** getFahrenheit as written: the current temperature times 10, divided
      by 18 with truncation, narrowed to int16. The result is never larger
      in magnitude than the input. */
  function FahrenheitAsWritten(centi: int16): (r: int16)
    ensures Abs(r) <= Abs(centi)
    ensures (centi >= 0 ==> r >= 0) && (centi <= 0 ==> r <= 0)
  {
    TruncDivBounds(centi * 10, 18);
    Wrap16(TruncDiv(centi * 10, 18))
  }

  /** Hundredths of a degree Celsius to hundredths of a degree Fahrenheit,
      rounding toward zero. */
  function Fahrenheit(centi: int16): (f: int)
    ensures Abs(f - 3200) * 10 <= Abs(centi * 18) < (Abs(f - 3200) + 1) * 10
    ensures (centi >= 0 ==> f >= 3200) && (centi <= 0 ==> f <= 3200)
  {
    TruncDivBounds(centi * 18, 10);
    TruncDiv(centi * 18, 10) + 3200
  }

  /** Water freezes at 32 and boils at 212 degrees Fahrenheit, and every
      whole degree Celsius step is 1.8 degrees Fahrenheit exactly. */
  lemma FahrenheitFixedPoints(centi: int16)
    requires centi % 100 == 0 && -32700 <= centi <= 32700
    ensures Fahrenheit(0) == 3200 && Fahrenheit(10000) == 21200
    ensures Fahrenheit(centi) * 5 == centi * 9 + 16000
  {
    assert (centi * 18) % 10 == 0;
  }

  /** The written arithmetic misses both fixed points: it reads 0 degrees
      Celsius as 0 rather than 32 degrees Fahrenheit, and 100 degrees as
      55.55 rather than 212. */
  lemma FahrenheitAsWrittenMisses()
    ensures FahrenheitAsWritten(0) == 0 != Fahrenheit(0)
    ensures FahrenheitAsWritten(10000) == 5555 != Fahrenheit(10000)
  {
  }
}
