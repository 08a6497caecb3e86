/** The slim pressure conversion: one table of "units per Pascal" factors, and a
    conversion that goes through Pascal, value * factor[to] / factor[from].
    The table as written has seven entries for eight units (Pascal has no slot) and
    is indexed by the unit's enum value, so every unit reads its neighbour's factor
    and inch of mercury reads past the end; its PSI factor is also 10^4 too large.
    Both are modelled as written and then corrected. */
module Pressure {
  import opened Wrappers

  datatype PressureUnit = Pascal | Bar | At | Atm | TorrMmHg | PSI | MBar | InHg

  /** The enum value of a unit: unit_Pascal = 0 up to unit_inHg = 7. */
  function Ordinal(u: PressureUnit): (n: nat)
    ensures n < MaxPressureUnits
    ensures u == Pascal <==> n == 0
    ensures u == InHg <==> n == MaxPressureUnits - 1
  {
    match u
    case Pascal => 0
    case Bar => 1
    case At => 2
    case Atm => 3
    case TorrMmHg => 4
    case PSI => 5
    case MBar => 6
    case InHg => 7
  }

  /** maxPressureUnits, declared after the last unit. */
  const MaxPressureUnits: nat := 8

  /** pressureUnitFromPascal[maxPressureUnits - 1] as written: bar, at, atm, mmHg,
      PSI, mbar, inHg per Pascal. */
  const PressureUnitFromPascalAsWritten: seq<real> :=
    [0.00001, 0.000010197, 0.0000098692, 0.0075006, 1.450377, 0.01, 0.000296]

  /** convertPressure as written: indexes the seven-entry table by the enum values of
      both units.  A read past the end of the table is undefined behaviour in the
      source; the model answers None there. */
  function ConvertPressureAsWritten(value: real, to: PressureUnit, from: PressureUnit): (r: Option<real>)
    ensures r.None? <==> to == InHg || from == InHg
  {
    var t := PressureUnitFromPascalAsWritten;
    if Ordinal(to) < |t| && Ordinal(from) < |t| then
      Some(value * t[Ordinal(to)] / t[Ordinal(from)])
    else
      None
  }

  /** Inch of mercury, the last unit, indexes one past the end of the table. */
  lemma AsWrittenInHgOutOfRange(value: real, u: PressureUnit)
    ensures Ordinal(InHg) == |PressureUnitFromPascalAsWritten|
    ensures ConvertPressureAsWritten(value, InHg, u) == None
    ensures ConvertPressureAsWritten(value, u, InHg) == None
  {
  }

  /** As written, 100000 Pa (one bar) converts to 101970 "bar": the bar slot is read
      for Pascal and the technical-atmosphere slot for bar. */
  lemma AsWrittenPascalToBar()
    ensures ConvertPressureAsWritten(100000.0, Bar, Pascal) == Some(101970.0)
    ensures ConvertPressure(100000.0, Bar, Pascal) == 1.0
  {
  }

  /** The PSI slot as written: one PSI is 6894.8 Pa (the row for PSI in the
      conversion matrix), so the PSI-per-Pascal factor should be about 1/6894.8,
      but the written factor times 6894.8 is about 10000. */
  lemma AsWrittenPsiFactorTooLarge()
    ensures PressureUnitFromPascalAsWritten[Ordinal(PSI) - 1] * 6894.8 > 9999.0
    ensures 0.999 < FromPascal(PSI) * 6894.8 < 1.001
  {
  }

  /** How many of unit u make one Pascal, with Pascal itself at 1 and the PSI
      factor at 1.450377e-4. */
  function FromPascal(u: PressureUnit): (f: real)
    ensures f > 0.0
    ensures u == Pascal <==> f == 1.0
  {
    match u
    case Pascal => 1.0
    case Bar => 0.00001
    case At => 0.000010197
    case Atm => 0.0000098692
    case TorrMmHg => 0.0075006
    case PSI => 0.0001450377
    case MBar => 0.01
    case InHg => 0.000296
  }

  /** The corrected table reads the written factors one slot down, except for PSI. */
  lemma CorrectedTableShiftsWritten(u: PressureUnit)
    requires u != Pascal && u != PSI
    ensures FromPascal(u) == PressureUnitFromPascalAsWritten[Ordinal(u) - 1]
  {
  }

  /** A pressure in unit u, expressed in Pascal. */
  function InPascal(value: real, u: PressureUnit): real {
    value / FromPascal(u)
  }

  /** Converts value from unit `from` to unit `to`: the result is the same pressure. */
  function ConvertPressure(value: real, to: PressureUnit, from: PressureUnit): (r: real)
    ensures InPascal(r, to) == InPascal(value, from)
    ensures to == from ==> r == value
  {
    ScaleCancels(value, FromPascal(to), FromPascal(from));
    value * FromPascal(to) / FromPascal(from)
  }

  lemma ScaleCancels(v: real, ft: real, ff: real)
    requires ft > 0.0 && ff > 0.0
    ensures (v * ft / ff) / ft == v / ff
  {
    var r := v * ft / ff;
    assert r * ff == v * ft;
  }

  /** Two values naming the same pressure in one unit are equal. */
  lemma SamePressureSameValue(x: real, y: real, u: PressureUnit)
    requires InPascal(x, u) == InPascal(y, u)
    ensures x == y
  {
    var f := FromPascal(u);
    assert x == InPascal(x, u) * f;
    assert y == InPascal(y, u) * f;
  }

  /** Converting there and back gives the original value. */
  lemma ConvertRoundTrip(value: real, a: PressureUnit, b: PressureUnit)
    ensures ConvertPressure(ConvertPressure(value, b, a), a, b) == value
  {
    SamePressureSameValue(ConvertPressure(ConvertPressure(value, b, a), a, b), value, a);
  }

  /** Converting through an intermediate unit is the same as converting directly. */
  lemma ConvertThrough(value: real, from: PressureUnit, via: PressureUnit, to: PressureUnit)
    ensures ConvertPressure(ConvertPressure(value, via, from), to, via) == ConvertPressure(value, to, from)
  {
    SamePressureSameValue(ConvertPressure(ConvertPressure(value, via, from), to, via),
                          ConvertPressure(value, to, from), to);
  }
}
