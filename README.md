# GibbsIT in Dafny

`GibbsIT` records one ion-transport process across a biological membrane.
It holds a name, an ion label, the origin and destination concentrations
(M), the ion charge z, the membrane potential (V) and the temperature (K).
It computes the Gibbs free energy change

    dG = R * T * ln(C2 / C1) + z * F * Vm      (kJ/mol, R = 8.314e-3, F = 96.5)

Records are compared and added by their dG. The model is a value type:
`GibbsIt.GibbsIT` is an immutable datatype, `GibbsIt.Valid` is the
invariant that construction establishes, and every operation is a
function. Arithmetic is over `real`.

Files:
- `outcomes.dfy` (module `Outcomes`): `Option`, `Result` (a value, or the
  reason a `ValueError` is raised) and `Reply` (`Done(value)` or
  `NotImplemented`, the sentinel a Python special method returns for an
  operand type it does not handle).
- `pytext.dfy` (module `PyText`): the string operations the temperature
  parser uses. These are `str.isspace` (CPython's whitespace code points),
  `strip`, `upper` and `endswith`.
- `gibbs_it.dfy` (module `GibbsIt`): the record and its two constructors,
  dG, equality, the ordering and addition, and their properties.

Abstractions:
- `Ln` (for `math.log`) is an unconstrained constant of type
  `LogFunction`. The only property the model assumes is ln 1 = 0.
- `ParseFloat` (for `float(str)`) is an unconstrained partial parser of
  type `NumberParser`. The only property the model assumes is that it
  refuses the empty string.
- A Python operand is a `PyObject`: a record, a number (`int`, `float` or
  `bool`), or any other object (`Foreign`).

Behaviour of the code that the model makes explicit:
- `record + number` raises `TypeError`. `GibbsIT.__add__` returns
  NotImplemented for a non-record operand, and `float.__radd__` refuses a
  record. Only `number + record` works (`GibbsIt.PlusWithNumbers`).
- `<` and `==` are not a trichotomy. `==` is tolerant and `<` is strict,
  so both can hold at once (`GibbsIt.LtAndEqOverlap`). Tolerant equality
  is also not transitive (`GibbsIt.EqNotTransitive`).
- `"abc"` is not refused for its suffix. It ends in `c`, so it is read as
  degrees Celsius with the number text `"AB"`. It fails only because that
  text does not parse (`GibbsIt.TemperatureAbc`).

## Model

| member | source | states |
|---|---|---|
| `GibbsIt.New` | gibbs_it.py:78-100 | construction succeeds exactly when the record satisfies `Valid` (c1 > 0, c2 > 0, -0.3 <= Vm <= 0.3, T > 0), stores the fields exactly as given, and otherwise names the first failed check in the code's order: concentrations, then potential, then temperature |
| `GibbsIt.NewRebuilds` | gibbs_it.py:78-100 | rebuilding a valid record from its own fields gives it back; an invalid field set is always refused |
| `GibbsIt.Shifted` | gibbs_it.py:133-135 | `float(text) + offset` succeeds exactly when the text parses, and then exceeds the parsed number by the offset; otherwise it is the parse error |
| `GibbsIt.Dispatch` | gibbs_it.py:132-137 | on a normalised string, the suffix error is raised exactly when it ends in neither C nor K; any other failure is the parse error |
| `GibbsIt.TemperatureK` | gibbs_it.py:130-139 | a non-string temperature is used directly as kelvin; a string can fail only with a suffix error or a number-parse error |
| `GibbsIt.NormalizeSuffixed` | gibbs_it.py:131-132 | after `strip()` and `upper()`, a string ending in C or K is its number text (leading blanks dropped, upper-cased) followed by that suffix |
| `GibbsIt.DispatchSuffixed` | gibbs_it.py:132-135 | on a normalised string, suffix C adds 273.15 to the parsed number and suffix K adds nothing |
| `GibbsIt.TemperatureSuffixed` | gibbs_it.py:130-135 | the temperature of "<s>C" or "<s>K" is the parsed number text of `s`, shifted by 273.15 for C |
| `GibbsIt.TemperatureKelvinSuffix` | gibbs_it.py:134-135 | "<s>K" gives exactly the parsed number, or the parse failure |
| `GibbsIt.TemperatureCelsiusSuffix` | gibbs_it.py:132-135 | "<s>C" gives 273.15 more than "<s>K", and the two fail alike when the number does not parse |
| `GibbsIt.TemperaturePadding` | gibbs_it.py:131 | whitespace before and after the temperature string never changes the result |
| `GibbsIt.TemperatureCaseInsensitive` | gibbs_it.py:131 | a lower-cased temperature string gives the same result as the original |
| `GibbsIt.TemperatureSuffixRefused` | gibbs_it.py:132-137 | the suffix error is raised exactly when the trimmed string is empty or ends in none of c, C, k, K |
| `GibbsIt.TemperatureSpellings` | gibbs_it.py:130-133 | "37c", " 37C " and "37C" give the same temperature |
| `GibbsIt.TemperatureNoSuffix` | gibbs_it.py:136-137 | "37" is refused for its suffix |
| `GibbsIt.TemperatureAbc` | gibbs_it.py:131-133 | "abc" is read as Celsius with number text "AB" |
| `GibbsIt.TemperatureMissingNumber` | gibbs_it.py:132-133 | "C" is refused because the empty number text does not parse |
| `GibbsIt.FromMillimolar` | gibbs_it.py:102-149 | a temperature error comes first; otherwise the result is accepted exactly when both mM values are > 0, -300 <= mV <= 300 and the kelvin value is > 0; an accepted record holds mM / 1000, mV / 1000 and that kelvin value |
| `GibbsIt.FromMillimolarCelsius` | gibbs_it.py:130-149 | the convenience constructor with "<n>C" builds what the primary constructor builds from molar, volts and n + 273.15 K |
| `GibbsIt.FromMillimolarKelvin` | gibbs_it.py:138-149 | with a numeric temperature, the convenience constructor is the primary constructor applied to the converted values |
| `GibbsIt.DeltaG` | gibbs_it.py:222-231 | with equal concentrations, dG reduces to the electrical term z * F * Vm |
| `GibbsIt.DeltaGConcentrationScale` | gibbs_it.py:229-231 | scaling both concentrations by the same positive factor leaves dG unchanged |
| `GibbsIt.FromMillimolarDeltaG` | gibbs_it.py:141-149 | a record built from mM has the dG of the mM ratio; the unit conversion changes only the volts in the electrical term |
| `GibbsIt.IsCloseMeaning` | gibbs_it.py:173-178 | `math.isclose` with rel_tol = abs_tol = 1e-9 holds exactly when abs(a - b) <= max(1e-9 * max(abs(a), abs(b)), 1e-9) |
| `GibbsIt.Eq` | gibbs_it.py:161-178 | `__eq__` answers exactly for record operands, and answers True exactly when the two dG values are within the tolerance; any other operand gets NotImplemented |
| `GibbsIt.Ne` | gibbs_it.py:161-178 | `!=` answers when `==` answers, with the opposite value |
| `GibbsIt.EqReflexive` | gibbs_it.py:173-178 | every record equals itself |
| `GibbsIt.EqSymmetric` | gibbs_it.py:173-178 | a == b and b == a always agree |
| `GibbsIt.EqOfEqualEnergies` | gibbs_it.py:173-178 | records with the same dG are equal, whatever their fields |
| `GibbsIt.EqNotTransitive` | gibbs_it.py:173-178 | there are three records with a == b and b == c but not a == c |
| `GibbsIt.Lt` | gibbs_it.py:180-192 | `__lt__` answers exactly for record operands, and answers True exactly when dG(a) < dG(b) |
| `GibbsIt.Le` | gibbs_it.py:31 | `<=` from `total_ordering` answers for records only, and is True exactly when a < b or a == b |
| `GibbsIt.Gt` | gibbs_it.py:31 | `>` from `total_ordering` answers for records only, and is True exactly when a < b is False and a != b is True |
| `GibbsIt.Ge` | gibbs_it.py:31 | `>=` from `total_ordering` answers for records only, and is True exactly when a < b is False |
| `GibbsIt.LtIrreflexive` | gibbs_it.py:192 | no record is less than itself |
| `GibbsIt.LtTransitive` | gibbs_it.py:192 | a < b and b < c give a < c |
| `GibbsIt.LtAsymmetric` | gibbs_it.py:192 | a < b rules out b < a |
| `GibbsIt.DerivedOrdering` | gibbs_it.py:31 | `>=` is dG(a) >= dG(b); `>` is the negation of `<=` and implies b < a; `<=` and `>=` are reflexive; `>` is irreflexive |
| `GibbsIt.ForeignIncomparable` | gibbs_it.py:171-191 | every comparison with a non-record operand is NotImplemented, never False |
| `GibbsIt.LtAndEqOverlap` | gibbs_it.py:173-192 | two records can satisfy both a < b and a == b, so trichotomy fails |
| `GibbsIt.Add` | gibbs_it.py:194-206 | `__add__` answers exactly for record operands, with dG(a) + dG(b) |
| `GibbsIt.RAdd` | gibbs_it.py:208-220 | `__radd__` answers exactly for numeric operands, with number + dG(a) |
| `GibbsIt.AddCommutative` | gibbs_it.py:204-206 | a + b == b + a for records |
| `GibbsIt.Plus` | gibbs_it.py:194-220 | Python's `x + y` on records and numbers fails exactly for record + number, and otherwise gives a number |
| `GibbsIt.PlusWithNumbers` | gibbs_it.py:204-220 | number + a is number + dG(a); a + number is a TypeError; a + b is symmetric and is dG(a) + dG(b) |
| `GibbsIt.Sum` | gibbs_it.py:208-219 | `sum(xs, start)` over records never fails from a number or record start; with no records it is `start` itself, and after at least one record it is a number |
| `GibbsIt.SumFromNumber` | gibbs_it.py:208-219 | `sum(xs, s)` is s plus the total dG of the records |
| `GibbsIt.SumFromRecord` | gibbs_it.py:194-219 | `sum(xs, a)` with a non-empty `xs` is dG(a) plus the total dG of `xs` |
| `GibbsIt.SumOfPair` | gibbs_it.py:210-219 | `sum([a, b], 0.0)` equals dG(a) + dG(b), which is also the value of a + b |
| `PyText.LStripSpec` | gibbs_it.py:131 | `lstrip` removes exactly the leading whitespace |
| `PyText.RStripSpec` | gibbs_it.py:131 | `rstrip` removes exactly the trailing whitespace |
| `PyText.StripSpec` | gibbs_it.py:131 | `strip` leaves no whitespace at either end, and is empty exactly for an all-whitespace string |
| `PyText.StripPadded` | gibbs_it.py:131 | whitespace padding on either side does not change `strip` |
| `PyText.UpperStripLower` | gibbs_it.py:131 | lower-casing before `strip().upper()` changes nothing |

## Left out

- IEEE-754 arithmetic: dG, unit conversion and sums are exact over `real`. Rounding, overflow, infinities and NaN are not modelled. Because of this, the model omits acceptances in the code: `float("nan")` passes the concentration and temperature checks, and `float("inf")` passes the concentration and temperature checks (also through the convenience constructor, since inf / 1000 is still inf).
- `math.log` is the abstract `Ln`; only ln 1 = 0 is used. The numeric scenarios (for example dG of about -12.6 kJ/mol for Na influx in test_gibbs_it.py) are floating-point results and are not stated.
- `float(str)` is the abstract `ParseFloat`; its grammar (exponents, underscores, "inf", "nan", inner whitespace) is not modelled.
- `str.upper()` is modelled on ASCII letters only. No other character upper-cases to C or K, so the suffix decision is exact. Only the text handed to the abstract parser can differ for non-ASCII letters.
- `__repr__` (two-decimal float formatting) is not modelled.
- Default arguments (`T_K = 310.0`, `T = 310`) are not parameters with defaults; callers pass `DefaultKelvin` or `Kelvin(DefaultKelvin)`.
- Python's full `==` protocol is not modelled: after both sides answer NotImplemented, it falls back to identity and yields False. Only the special methods' replies are modelled.
- `Plus`: does not model operands of other types (`Foreign`), because the outcome depends on that object's own `__add__`/`__radd__`, which is not visible here.
- `Sum`: models only number or record start values and record items; Python's refusal of a string start value is not modelled.
- Type errors from non-numeric concentrations or potentials (Python comparisons raising `TypeError`) are not modelled; the record's numeric fields are `real` and `int`.
- A temperature `T` that is neither a number nor a string is not modelled: `Temperature` is `Kelvin(real)` or `Text(string)`. `float(T)` raises `TypeError` for such a `T` (for example `None`) and parses a `bytes` value.
