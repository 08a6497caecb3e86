/** Conversions between degrees Celsius and degrees Fahrenheit, over the reals. */
module Units {

  /** c * 1.8 + 32: the Fahrenheit reading goes up 1.8 degrees per Celsius degree
      and the freezing point of water, 0 degrees Celsius, is 32 degrees Fahrenheit. */
  function ConvertCtoF(c: real): (f: real)
    ensures f - 32.0 == 1.8 * c
    ensures c == 0.0 ==> f == 32.0
    ensures c == 100.0 ==> f == 212.0
  {
    c * 1.8 + 32.0
  }

  /** (f - 32) / 1.8, the inverse of ConvertCtoF. */
  function ConvertFtoC(f: real): (c: real)
    ensures ConvertCtoF(c) == f
    ensures f == 212.0 ==> c == 100.0
  {
    (f - 32.0) / 1.8
  }

  /** Converting to Fahrenheit and back gives the Celsius value unchanged. */
  lemma CelsiusRoundTrip(c: real)
    ensures ConvertFtoC(ConvertCtoF(c)) == c
  {
  }

  /** Both conversions preserve the order of temperatures. */
  lemma ConversionsMonotone(x: real, y: real)
    requires x < y
    ensures ConvertCtoF(x) < ConvertCtoF(y)
    ensures ConvertFtoC(x) < ConvertFtoC(y)
  {
  }
}
