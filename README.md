# libComfort comfort-profile model

A Dafny model of the comfort-profile core of libComfort, a small C++ library for sensor nodes. The library judges thermal comfort from temperature and relative-humidity readings.

A comfort profile describes an envelope in the humidity/temperature plane, bounded by two piecewise-linear boundaries:

- the "too hot" boundary, `hotPoints` and `hotLines`;
- the "too cold" boundary, `coldPoints` and `coldLines`.

Each boundary has `COMFORT_CTRL_POINTS` = 5 control points, held in a fixed array. Line `i` of a boundary is the line `a*x + b*y + c = 0` joining control point `i` to control point `i+1`. It is computed by the formula the header gives: `a = y2-y1`, `b = x1-x2`, `c = x2*y1 - x1*y2`. The profile also stores the dry and humid humidity borders and the latest sensor measurement. The `Comfort` facade owns one profile and the latest temperature and humidity.

Both headers, `comfort.h` and `thermo.h`, declare the same `ComfortPoint`, `ComfortLine`, `ComfortProfile`, `ComfortState` and `Comfort`. `thermo.h` is the older copy. The two also share the include guard `_LIB_THERMO_H_`, so a unit that includes both sees only the first one. The model covers both at once. Neither header defines a body for any profile or facade method. The model therefore implements only what the line formula, the array layout and the doc-comments fix. Where they leave a choice open, the model makes one and says so below.

Modules:

- `Geometry` (geometry.dfy) holds points, lines, the line through two points, the temperature of a line at a humidity, and polylines. It also has the refresh of the lines incident to one point, the segment chosen for a humidity, and the control point closest to a humidity.
- `Profiles` (profile.dfy) holds the class `ComfortProfile`, which keeps the four fixed arrays and updates them in place. It also holds the class `Comfort`, and the value-level specification (`Envelope`, `AverageTemperature`, `Adapt`) that the methods are proved against.
- `ComfortStates` (comfort_state.dfy) holds the `ComfortState` bit flags and how they combine and split.
- `Units` (units.dfy) holds the Celsius/Fahrenheit conversions.
- `Pressure` (pressure.dfy) holds the slim pressure conversion, both as written and corrected (see Findings).
- `Wrappers` (wrappers.dfy) holds the `Option` type shared by `ComfortStates` and `Pressure`.

Where the source leaves a choice open, the model decides as follows:

- Segment for a humidity: the first segment whose right end reaches the humidity; otherwise the last segment. Outside the control-point range, the end segments are extrapolated.
- Hot or cold side in `setUserTemperature`: the hot boundary if the user temperature is at or above the average profile temperature at the current humidity; the cold boundary otherwise.
- Closest control point: nearest in humidity to the last measurement. On a tie, the lowest index wins.
- A move that would put the hot point at or below the cold point of the same index is refused, and nothing changes.
- `Comfort::onNewTempAndHumidity` records the reading in the facade's own `m_t` and `m_h` only; it does not forward to the profile's `onNewTemperature`/`onNewHumidity` (comfort.h:234-238, 288-291 say nothing either way). The profile's last measurement, which `setUserTemperature` adapts at, therefore changes only through `getComfortProfile().onNewTemperature`/`onNewHumidity`.
- `refreshComfortLine(k)` recomputes the lines incident to point `k` in both boundaries, because the index does not say which boundary moved. An index of 5 or more has no incident line and changes nothing.

Values are `real`, not `float`.

## Model

| member | source | states |
|---|---|---|
| Geometry.LineThrough | comfort.h:199-205 | the line built by a = y2-y1, b = x1-x2, c = x2*y1-x1*y2 passes through both points; it is degenerate (a = b = 0) exactly when the points coincide, and has b = 0 exactly when they share a humidity |
| Geometry.LineY | comfort.h:199-201 | the temperature a line gives at a humidity is a point of that line |
| Geometry.LineYUnique | comfort.h:199-201 | a non-vertical line meets each humidity at exactly one temperature |
| Geometry.LineYAtEndpoints | thermo.h:74-76 | the line through two points of distinct humidity gives back each point's temperature at its humidity |
| Geometry.LineYInterpolates | thermo.h:74-80 | between its endpoints the line is the humidity-weighted mean of the two endpoint temperatures |
| Geometry.Polyline | comfort.h:256-262 | a boundary of N control points has N-1 lines |
| Geometry.PolylineJoins | thermo.h:131-137 | line i of a boundary passes through control points i and i+1, and is not vertical when humidities increase |
| Geometry.PolylineLocal | thermo.h:96-98 | a line depends only on its own two control points |
| Geometry.Refreshed | comfort.h:221-223 | refreshing for point k keeps every line not incident to k and puts lines k-1 and k through their endpoints |
| Geometry.RefreshAfterMove | comfort.h:221-223 | moving one control point and refreshing only its incident lines yields exactly the fully recomputed boundary |
| Geometry.RefreshUnmoved | thermo.h:96-98 | refreshing a boundary whose points did not move changes no line |
| Geometry.SegmentFor | comfort.h:225-227 | the chosen segment is the first whose right end reaches the humidity, or the last one |
| Geometry.SegmentBrackets | comfort.h:225-227 | with increasing humidities the chosen segment brackets the humidity, except below the first or above the last control point |
| Geometry.BoundaryInterpolates | comfort.h:256-262 | each boundary passes through every one of its control points |
| Geometry.ClosestIndex | comfort.h:229-232 | the chosen control point is at least as close in humidity as every other, and strictly closer than every lower index |
| Profiles.HotAboveCold | comfort.h:256-262 | within the control range, an aligned envelope whose hot points lie above its cold points has the hot boundary above the cold boundary at every humidity |
| Profiles.AverageBetweenBoundaries | comfort.h:225-227 | the average profile temperature lies strictly between the cold and the hot boundary |
| Profiles.AverageAtControlPoint | thermo.h:100-102 | at a control humidity shared by both boundaries the average is the midpoint of the hot and cold temperatures of that point |
| Profiles.MovePoint | thermo.h:104-107 | moving a control point changes its temperature only; every other point and every humidity stays, so the humidity order is kept |
| Profiles.Adapt | comfort.h:229-232 | the adaptation changes at most one control point, the closest one on the hot side (user temperature at or above the average) or the cold side (below it), gives it the user temperature, never makes the envelope inverted or unordered, and refuses only a move that would cross the opposite boundary |
| Profiles.ComfortProfile.constructor | comfort.h:207-210 | a new profile holds the given control points and borders, with every line computed |
| Profiles.ComfortProfile.InitComfortLines | comfort.h:218-219 | afterwards every hot and cold line is the line joining its two control points; points are untouched |
| Profiles.ComfortProfile.RefreshComfortLine | comfort.h:221-223 | only the lines incident to the modified point are recomputed; if every other line was current before, all lines are current after |
| Profiles.ComfortProfile.GetAverageProfileTemperature | comfort.h:225-227 | returns the mean of the hot and cold boundary temperatures at the humidity, read from the stored lines; at a shared control humidity that is the midpoint of the two control temperatures; within the range it lies between the boundaries |
| Profiles.ComfortProfile.SetUserTemperature | comfort.h:229-232 | the control points become Adapt of the old ones at the last measured humidity; all lines stay current; every line whose two endpoints did not move keeps its coefficients |
| Profiles.ComfortProfile.OnNewTemperature | comfort.h:234-235 | records the new temperature as the last measurement and keeps its humidity; nothing else changes |
| Profiles.ComfortProfile.OnNewHumidity | comfort.h:237-238 | records the new humidity as the last measurement and keeps its temperature; nothing else changes |
| Profiles.Comfort.constructor | comfort.h:283-286 | a new facade owns a fresh profile, with fresh arrays, holding the given envelope, borders and last measurement with every line current, and has recorded no reading |
| Profiles.Comfort.OnNewTempAndHumidity | comfort.h:288-291 | records the temperature and humidity in the facade; by the modelling choice above, the profile is not touched |
| Profiles.Comfort.GetComfortProfile | comfort.h:320-324 | returns the profile the facade owns |
| ComfortStates.Combine | comfort.h:186-189 | combining a temperature flag and a humidity flag with OR leaves each readable by masking, gives Comfort_OK only for OK/OK, and always yields one of the nine named values |
| ComfortStates.Split | comfort.h:178-190 | a state splits into a temperature and a humidity flag exactly when it is one of the named values, and they combine back to it |
| ComfortStates.SplitCombine | thermo.h:61-64 | composites decompose uniquely: splitting a combination gives back its two parts |
| ComfortStates.CombineInjective | comfort.h:186-189 | different flag pairs never produce the same state |
| ComfortStates.SingleFlagsArePowersOfTwo | comfort.h:180-184 | the four single flags are non-zero powers of two on pairwise disjoint bits |
| ComfortStates.CompositesCombine | thermo.h:53-65 | each named composite equals the combination of its two parts |
| Units.ConvertCtoF | comfort.h:173 | Fahrenheit minus 32 is 1.8 times Celsius; 0 C is 32 F and 100 C is 212 F |
| Units.ConvertFtoC | comfort.h:174 | the inverse of ConvertCtoF; 212 F is 100 C |
| Units.CelsiusRoundTrip | thermo.h:47-48 | converting Celsius to Fahrenheit and back gives the same value |
| Units.ConversionsMonotone | thermo.h:47-48 | both conversions preserve the order of temperatures |
| Pressure.Ordinal | comfort.h:110-122 | unit_Pascal is 0 and unit_inHg is maxPressureUnits - 1 = 7 |
| Pressure.ConvertPressureAsWritten | comfort.h:143-148 | the as-written conversion reads outside the table exactly when either unit is inch of mercury |
| Pressure.AsWrittenInHgOutOfRange | comfort.h:119-121 | unit_inHg indexes one past the end of the seven-entry table |
| Pressure.AsWrittenPascalToBar | comfort.h:143-148 | as written, 100000 Pa converts to 101970 bar, where the corrected conversion gives 1 bar |
| Pressure.AsWrittenPsiFactorTooLarge | comfort.h:145 | the written PSI factor times 6894.8 Pa per psi is about 10000 instead of 1 |
| Pressure.FromPascal | comfort.h:143-145 | every unit has a positive factor, and Pascal alone has factor 1 |
| Pressure.CorrectedTableShiftsWritten | comfort.h:143-145 | the corrected factors are the written ones one slot down, PSI apart |
| Pressure.ConvertPressure | comfort.h:147-148 | the converted value names the same pressure in Pascal; converting to the same unit is the identity |
| Pressure.ConvertRoundTrip | comfort.h:147-148 | converting there and back gives the original value |
| Pressure.ConvertThrough | comfort.h:147-148 | converting through an intermediate unit equals converting directly |

## Findings

| source | as written | input that shows it | evidently intended | confidence | as-written member | corrected member |
|---|---|---|---|---|---|---|
| comfort.h:143-148 | the table has `maxPressureUnits-1` = 7 slots and is indexed by the unit's enum value | `convertPressure(v, unit_inHg, u)` reads slot 7 of 7 (out of bounds) | Pascal with factor 1 outside the table, slot `unit-1` for every other unit | high; not executed | Pressure.AsWrittenInHgOutOfRange | Pressure.ConvertPressure |
| comfort.h:143-148 | every unit reads its neighbour's slot, since Pascal has none | `convertPressure(100000, unit_Bar, unit_Pascal)` gives 101970 instead of 1 | 1 bar | high; not executed | Pressure.AsWrittenPascalToBar | Pressure.ConvertPressure |
| comfort.h:145 | PSI per Pascal is written 1.450377 | 6894.8 Pa, one psi by the PSI row at comfort.h:133, gives about 10000 psi | 1.450377e-4 | medium; not executed | Pressure.AsWrittenPsiFactorTooLarge | Pressure.FromPascal |

## Left out

- `load`/`save` (comfort.h:212-216) are left out because the source fixes no byte layout.
- `getComfort` and `isTooHot`/`isTooCold`/`isTooDry`/`isTooHumid` (comfort.h:240-248) are left out because they have no bodies, and the headers define neither the distances behind the classification nor the scale of `getComfort`'s percent.
- `getComfortTemperature` (comfort.h:250-252) is left out because it is declared `void` although its comment promises a return value. `GetAverageProfileTemperature` covers what the comment describes.
- `getDewPoint`, `getHeatIndexUS` and `getHumindexCanada` (comfort.h:298-318) are left out because they are bodiless transcendental floating-point formulas.
- `onNewPressure` (comfort.h:293-296) is left out because `Comfort` has no field that could hold a pressure.
- The gas-exposure tables and lookups, the heat-index levels and description, `recomMinIndoorTempSummer`/`recomMaxIndoorTempSummer`, and the constants `HUMAN_*`/`HEALTHY_RH_*` are left out. They are static data or one-line float fits with no body to model. Some do not even compile (comfort.h:89, 101, 104, 162).
- The FAST pressure matrix (comfort.h:124-139) is left out because the switch at comfort.h:23 compiles it out.
- The reversed typedefs and the missing semicolons after the structs are compile defects. The model follows the evident intent.
- Profiles.ComfortProfile.constructor: the source has no factory-default envelope. The constructor takes the initial control points, borders and last measurement as parameters.
- Profiles.ComfortProfile.SetUserTemperature: the comment's "updates the current temperature" refers to the commented-out field `currentUserSetTemperature` (comfort.h:271-272), so that part is not modelled. The hot/cold choice and the refusal rule are modelling choices, described above.
- Profiles.ComfortProfile.GetAverageProfileTemperature: it requires strictly increasing control humidities and current lines. With two equal humidities `b` is 0, and the float division would give inf or NaN, which is not modelled.
- Units.ConvertCtoF: the round trip is exact over the reals only. In `float`, `1.8f` is not exact, and the rounding is not modelled.
- Pressure.ConvertPressure: reals replace `float`, so rounding is not modelled.
- Profiles.Comfort.constructor: `m_t`/`m_h` start uninitialised in the source. The model records with a ghost flag that no reading has been made yet, and leaves the initial values unspecified.
