/** One ion-transport process across a membrane (`GibbsIT`): its validated
    inputs, its Gibbs free energy change
        dG = R * T * ln(C2 / C1) + z * F * Vm     (kJ/mol)
    and the comparison and addition operators derived from dG.
    Arithmetic is over `real`; the natural logarithm and Python's `float(str)`
    are left abstract. */
module GibbsIt {
  import opened Outcomes
  import opened PyText

  /** Gas constant, kJ/(mol K). */
  const R: real := 0.008314
  /** Faraday constant, kJ/(V mol). */
  const F: real := 96.5
  /** Largest magnitude of membrane potential accepted, in volts. */
  const MaxPotential: real := 0.3
  /** Kelvin at zero degrees Celsius. */
  const CelsiusOffset: real := 273.15
  /** Milli-units per unit (mM per M, mV per V). */
  const Milli: real := 1000.0
  /** Relative and absolute tolerance of equality. */
  const Tolerance: real := 0.000000001
  /** Temperature used when the caller gives none, in kelvin. */
  const DefaultKelvin: real := 310.0

  /** A natural logarithm: all the model uses of it is that ln 1 = 0. */
  type LogFunction = f: real -> real | f(1.0) == 0.0 witness (x: real) => 0.0

  /** `math.log`, otherwise uninterpreted. */
  const Ln: LogFunction

  /** A partial number parser that refuses the empty string. */
  type NumberParser = f: string -> Option<real> | f("") == None witness (s: string) => None

  /** Python's `float(str)`, otherwise uninterpreted. */
  const ParseFloat: NumberParser

  /** One transport process; fields hold SI units (M, V, K). */
  datatype GibbsIT = GibbsIT(name: string, ion: string, c1: real, c2: real, z: int, vm: real, t: real)

  /** The invariant every constructed record satisfies. */
  predicate Valid(g: GibbsIT) {
    g.c1 > 0.0 && g.c2 > 0.0 && -MaxPotential <= g.vm <= MaxPotential && g.t > 0.0
  }

  /** The reasons a `ValueError` is raised during construction. */
  datatype Error =
    | ConcentrationNotPositive
    | PotentialOutOfRange
    | TemperatureNotPositive
    | TemperatureSuffix
    | TemperatureNotANumber

  /** Temperature argument of the convenience constructor: a number of
      kelvin, or a string such as "37C" or "310K". */
  datatype Temperature = Kelvin(k: real) | Text(s: string)

  /** Any other Python object a record can be combined with. */
  datatype PyObject = Record(g: GibbsIT) | Number(x: real) | Foreign

  predicate WellFormed(o: PyObject) {
    o.Record? ==> Valid(o.g)
  }

  function Abs(x: real): real { if x < 0.0 then -x else x }

  function Max(x: real, y: real): real { if x < y then y else x }

  // ---------------------------------------------------------------------
  // Construction

  /** The primary constructor with its validation: checks concentrations,
      then the potential, then the temperature, and stores the fields as given. */
  function New(name: string, ion: string, c1: real, c2: real, z: int, vm: real, tK: real): (r: Result<GibbsIT, Error>)
    ensures r.Ok? <==> Valid(GibbsIT(name, ion, c1, c2, z, vm, tK))
    ensures r.Ok? ==> r.value == GibbsIT(name, ion, c1, c2, z, vm, tK)
    ensures r == Err(ConcentrationNotPositive) <==> c1 <= 0.0 || c2 <= 0.0
    ensures r == Err(PotentialOutOfRange) <==> c1 > 0.0 && c2 > 0.0 && (vm < -MaxPotential || vm > MaxPotential)
    ensures r == Err(TemperatureNotPositive) <==> c1 > 0.0 && c2 > 0.0 && -MaxPotential <= vm <= MaxPotential && tK <= 0.0
  {
    if c1 <= 0.0 || c2 <= 0.0 then Err(ConcentrationNotPositive)
    else if !(-MaxPotential <= vm <= MaxPotential) then Err(PotentialOutOfRange)
    else if tK <= 0.0 then Err(TemperatureNotPositive)
    else Ok(GibbsIT(name, ion, c1, c2, z, vm, tK))
  }

  /** Rebuilding a valid record from its own fields gives that record back,
      and the constructor never yields an invalid one. */
  lemma NewRebuilds(g: GibbsIT)
    ensures Valid(g) ==> New(g.name, g.ion, g.c1, g.c2, g.z, g.vm, g.t) == Ok(g)
    ensures !Valid(g) ==> New(g.name, g.ion, g.c1, g.c2, g.z, g.vm, g.t).Err?
  {
  }

  /** The temperature string after `strip()` and `upper()`. */
  function Normalize(s: string): string {
    Upper(Strip(s))
  }

  /** `float(text) + offset`, or the parse failure. */
  function Shifted(text: string, offset: real): (r: Result<real, Error>)
    ensures r.Ok? <==> ParseFloat(text).Some?
    ensures r.Ok? ==> r.value - offset == ParseFloat(text).value
    ensures r.Err? ==> r.error == TemperatureNotANumber
  {
    match ParseFloat(text)
    case Some(n) => Ok(n + offset)
    case None => Err(TemperatureNotANumber)
  }

  /** The suffix dispatch on an already normalised temperature string. */
  function Dispatch(u: string): (r: Result<real, Error>)
    ensures r.Err? ==> r.error == TemperatureSuffix || r.error == TemperatureNotANumber
    ensures r == Err(TemperatureSuffix) <==> !EndsWith(u, 'C') && !EndsWith(u, 'K')
  {
    if EndsWith(u, 'C') then Shifted(u[..|u| - 1], CelsiusOffset)
    else if EndsWith(u, 'K') then Shifted(u[..|u| - 1], 0.0)
    else Err(TemperatureSuffix)
  }

  /** The kelvin value of the convenience constructor's temperature argument. */
  function TemperatureK(t: Temperature): (r: Result<real, Error>)
    ensures t.Kelvin? ==> r == Ok(t.k)
    ensures r.Err? ==> r.error == TemperatureSuffix || r.error == TemperatureNotANumber
  {
    match t
    case Kelvin(k) => Ok(k)
    case Text(s) => Dispatch(Normalize(s))
  }

  /** A string ending in `C` or `K` normalises to its upper-cased number
      text, leading blanks dropped, followed by that suffix. */
  lemma NormalizeSuffixed(s: string, c: char)
    requires c == 'C' || c == 'K'
    ensures Normalize(s + [c]) == Upper(LStrip(s)) + [c]
  {
    StripEndingIn(s, c);
    UpperSnoc(LStrip(s), c);
  }

  /** A suffix `C` adds 273.15 to the number in front of it; a suffix `K`
      adds nothing. */
  lemma DispatchSuffixed(u: string, c: char)
    requires c == 'C' || c == 'K'
    ensures Dispatch(u + [c]) == Shifted(u, if c == 'C' then CelsiusOffset else 0.0)
  {
    assert (u + [c])[..|u|] == u;
  }

  /** The temperature string "<s>C" or "<s>K" reads the number in `s`. */
  lemma TemperatureSuffixed(s: string, c: char)
    requires c == 'C' || c == 'K'
    ensures TemperatureK(Text(s + [c])) == Shifted(Upper(LStrip(s)), if c == 'C' then CelsiusOffset else 0.0)
  {
    NormalizeSuffixed(s, c);
    DispatchSuffixed(Upper(LStrip(s)), c);
  }

  /** With suffix `K` the temperature is the number in front of it (leading
      blanks dropped, upper-cased as the code does before parsing). */
  lemma TemperatureKelvinSuffix(s: string)
    ensures TemperatureK(Text(s + ['K'])) ==
      match ParseFloat(Upper(LStrip(s)))
      case Some(n) => Ok(n)
      case None => Err(TemperatureNotANumber)
  {
    TemperatureSuffixed(s, 'K');
  }

  /** With suffix `C` the temperature is the same number plus 273.15, and a
      number that does not parse fails in the same way under both suffixes. */
  lemma TemperatureCelsiusSuffix(s: string)
    ensures TemperatureK(Text(s + ['C'])) ==
      match TemperatureK(Text(s + ['K']))
      case Ok(k) => Ok(k + CelsiusOffset)
      case Err(e) => Err(e)
  {
    TemperatureSuffixed(s, 'C');
    TemperatureSuffixed(s, 'K');
  }

  /** Whitespace around the temperature string is ignored. */
  lemma TemperaturePadding(w1: string, s: string, w2: string)
    requires AllSpace(w1) && AllSpace(w2)
    ensures TemperatureK(Text(w1 + s + w2)) == TemperatureK(Text(s))
  {
    StripPadded(w1, s, w2);
  }

  /** The temperature string is read without regard to letter case. */
  lemma TemperatureCaseInsensitive(s: string)
    ensures TemperatureK(Text(Lower(s))) == TemperatureK(Text(s))
  {
    UpperStripLower(s);
  }

  /** A string is refused for its suffix exactly when, after trimming, it is
      empty or its last character is none of c, C, k, K. */
  lemma TemperatureSuffixRefused(s: string)
    ensures TemperatureK(Text(s)) == Err(TemperatureSuffix) <==>
      var t := Strip(s);
      t == [] || t[|t| - 1] !in {'c', 'C', 'k', 'K'}
  {
    var t := Strip(s);
    if t != [] {
      UpperAt(t, |t| - 1);
    }
  }

  /** "37c", " 37C " and "37C" give one temperature. */
  lemma TemperatureSpellings()
    ensures TemperatureK(Text("37c")) == TemperatureK(Text("37C"))
    ensures TemperatureK(Text(" 37C ")) == TemperatureK(Text("37C"))
  {
    assert Lower("37C") == "37c";
    TemperatureCaseInsensitive("37C");
    assert AllSpace(" ");
    assert " 37C " == " " + "37C" + " ";
    TemperaturePadding(" ", "37C", " ");
  }

  /** "37" is refused for its missing suffix. */
  lemma TemperatureNoSuffix()
    ensures TemperatureK(Text("37")) == Err(TemperatureSuffix)
  {
    assert LStrip("37") == "37" && RStrip("37") == "37";
    UpperAt("37", 1);
    assert Normalize("37")[1] == '7';
  }

  /** "abc" ends in `c`, so it is read as degrees Celsius with the number
      text "AB"; it is refused only when that text does not parse. */
  lemma TemperatureAbc()
    ensures TemperatureK(Text("abc")) == Shifted("AB", CelsiusOffset)
  {
    assert Lower("ABC") == "abc";
    TemperatureCaseInsensitive("ABC");
    assert "ABC" == "AB" + ['C'];
    TemperatureSuffixed("AB", 'C');
    assert LStrip("AB") == "AB";
    assert Upper("AB") == "AB";
  }

  /** "C" is refused because nothing in front of the suffix parses. */
  lemma TemperatureMissingNumber()
    ensures TemperatureK(Text("C")) == Err(TemperatureNotANumber)
  {
    assert "C" == [] + ['C'];
    TemperatureSuffixed([], 'C');
  }

  /** The convenience constructor: mM and mV are divided by 1000, the
      temperature is read, then the primary constructor validates. */
  function FromMillimolar(name: string, ion: string, c1mM: real, c2mM: real, z: int, vmMilli: real, t: Temperature): (r: Result<GibbsIT, Error>)
    ensures TemperatureK(t).Err? ==> r == Err(TemperatureK(t).error)
    ensures r.Ok? <==>
      && c1mM > 0.0 && c2mM > 0.0
      && -300.0 <= vmMilli <= 300.0
      && TemperatureK(t).Ok? && TemperatureK(t).value > 0.0
    ensures r.Ok? ==> Valid(r.value)
    ensures r.Ok? ==> r.value == GibbsIT(name, ion, c1mM / 1000.0, c2mM / 1000.0, z, vmMilli / 1000.0, TemperatureK(t).value)
  {
    match TemperatureK(t)
    case Err(e) => Err(e)
    case Ok(k) => New(name, ion, c1mM / Milli, c2mM / Milli, z, vmMilli / Milli, k)
  }

  /** Both constructors agree: the convenience one with "<n>C" builds what
      the primary one builds from molar, volts and n + 273.15 kelvin. */
  lemma FromMillimolarCelsius(name: string, ion: string, c1mM: real, c2mM: real, z: int, vmMilli: real, s: string, n: real)
    requires ParseFloat(Upper(LStrip(s))) == Some(n)
    ensures FromMillimolar(name, ion, c1mM, c2mM, z, vmMilli, Text(s + ['C']))
         == New(name, ion, c1mM / 1000.0, c2mM / 1000.0, z, vmMilli / 1000.0, n + 273.15)
  {
    TemperatureSuffixed(s, 'C');
    assert TemperatureK(Text(s + ['C'])) == Ok(n + CelsiusOffset);
  }

  /** A numeric temperature is used directly as kelvin. */
  lemma FromMillimolarKelvin(name: string, ion: string, c1mM: real, c2mM: real, z: int, vmMilli: real, k: real)
    ensures FromMillimolar(name, ion, c1mM, c2mM, z, vmMilli, Kelvin(k))
         == New(name, ion, c1mM / 1000.0, c2mM / 1000.0, z, vmMilli / 1000.0, k)
  {
  }

  // ---------------------------------------------------------------------
  // Gibbs free energy change

  /** dG in kJ/mol; with equal concentrations only the electrical term remains. */
  function DeltaG(g: GibbsIT): (r: real)
    requires Valid(g)
    ensures g.c1 == g.c2 ==> r == (g.z as real) * F * g.vm
  {
    assert g.c1 == g.c2 ==> g.c2 / g.c1 == 1.0;
    R * g.t * Ln(g.c2 / g.c1) + (g.z as real) * F * g.vm
  }

  /** dG depends on the concentrations only through their ratio. */
  lemma DeltaGConcentrationScale(g: GibbsIT, k: real)
    requires Valid(g) && k > 0.0
    ensures Valid(g.(c1 := k * g.c1, c2 := k * g.c2))
    ensures DeltaG(g.(c1 := k * g.c1, c2 := k * g.c2)) == DeltaG(g)
  {
    var h := g.(c1 := k * g.c1, c2 := k * g.c2);
    assert h.c2 / h.c1 == g.c2 / g.c1 by {
      assert h.c2 / h.c1 * (k * g.c1) == k * g.c2;
      assert g.c2 / g.c1 * g.c1 == g.c2;
    }
  }

  /** A record built from mM values has the dG computed from the mM ratio:
      the unit conversion affects only the electrical term's volts. */
  lemma FromMillimolarDeltaG(name: string, ion: string, c1mM: real, c2mM: real, z: int, vmMilli: real, t: Temperature)
    requires FromMillimolar(name, ion, c1mM, c2mM, z, vmMilli, t).Ok?
    ensures DeltaG(FromMillimolar(name, ion, c1mM, c2mM, z, vmMilli, t).value)
         == R * TemperatureK(t).value * Ln(c2mM / c1mM) + (z as real) * F * (vmMilli / 1000.0)
  {
    var g := FromMillimolar(name, ion, c1mM, c2mM, z, vmMilli, t).value;
    DeltaGConcentrationScale(g, 1000.0);
    assert g.(c1 := 1000.0 * g.c1, c2 := 1000.0 * g.c2).c1 == c1mM;
    assert g.(c1 := 1000.0 * g.c1, c2 := 1000.0 * g.c2).c2 == c2mM;
  }

  // ---------------------------------------------------------------------
  // Equality

  /** `math.isclose(a, b, rel_tol=1e-9, abs_tol=1e-9)` as CPython evaluates it. */
  function IsClose(a: real, b: real): bool {
    var diff := Abs(b - a);
    a == b || diff <= Abs(Tolerance * b) || diff <= Abs(Tolerance * a) || diff <= Tolerance
  }

  /** The documented tolerance formula |a - b| <= max(rel * max(|a|, |b|), abs). */
  lemma IsCloseMeaning(a: real, b: real)
    ensures IsClose(a, b) <==> Abs(a - b) <= Max(Tolerance * Max(Abs(a), Abs(b)), Tolerance)
  {
  }

  /** `__eq__`: closeness of the two dG values; any non-record operand gets
      NotImplemented rather than False. */
  function Eq(a: GibbsIT, other: PyObject): (r: Reply<bool>)
    requires Valid(a) && WellFormed(other)
    ensures r.Done? <==> other.Record?
    ensures r == Done(true) <==>
      other.Record? && Abs(DeltaG(a) - DeltaG(other.g)) <= Max(Tolerance * Max(Abs(DeltaG(a)), Abs(DeltaG(other.g))), Tolerance)
  {
    IsCloseMeaning(DeltaG(a), if other.Record? then DeltaG(other.g) else 0.0);
    if other.Record? then Done(IsClose(DeltaG(a), DeltaG(other.g))) else NotImplemented
  }

  /** Python's default `__ne__`: the negation of `__eq__`, NotImplemented passed on. */
  function Ne(a: GibbsIT, other: PyObject): (r: Reply<bool>)
    requires Valid(a) && WellFormed(other)
    ensures r.Done? <==> Eq(a, other).Done?
    ensures r.Done? ==> r.value != Eq(a, other).value
  {
    match Eq(a, other)
    case Done(b) => Done(!b)
    case NotImplemented => NotImplemented
  }

  lemma EqReflexive(a: GibbsIT)
    requires Valid(a)
    ensures Eq(a, Record(a)) == Done(true)
  {
  }

  lemma EqSymmetric(a: GibbsIT, b: GibbsIT)
    requires Valid(a) && Valid(b)
    ensures Eq(a, Record(b)) == Eq(b, Record(a))
  {
  }

  /** Equal dG values are always equal records, whatever their fields. */
  lemma EqOfEqualEnergies(a: GibbsIT, b: GibbsIT)
    requires Valid(a) && Valid(b) && DeltaG(a) == DeltaG(b)
    ensures Eq(a, Record(b)) == Done(true)
  {
  }

  // ---------------------------------------------------------------------
  // Ordering: `__lt__` and what `functools.total_ordering` derives from it

  /** `__lt__`: strict comparison of dG values. */
  function Lt(a: GibbsIT, other: PyObject): (r: Reply<bool>)
    requires Valid(a) && WellFormed(other)
    ensures r.Done? <==> other.Record?
    ensures r == Done(true) <==> other.Record? && DeltaG(a) < DeltaG(other.g)
  {
    if other.Record? then Done(DeltaG(a) < DeltaG(other.g)) else NotImplemented
  }

  /** `__le__` from `total_ordering`: `a < b or a == b`. */
  function Le(a: GibbsIT, other: PyObject): (r: Reply<bool>)
    requires Valid(a) && WellFormed(other)
    ensures r.Done? <==> other.Record?
    ensures r == Done(true) <==> Lt(a, other) == Done(true) || Eq(a, other) == Done(true)
  {
    match Lt(a, other)
    case NotImplemented => NotImplemented
    case Done(lt) => Done(lt || Eq(a, other).value)
  }

  /** `__gt__` from `total_ordering`: `not a < b and a != b`. */
  function Gt(a: GibbsIT, other: PyObject): (r: Reply<bool>)
    requires Valid(a) && WellFormed(other)
    ensures r.Done? <==> other.Record?
    ensures r == Done(true) <==> Lt(a, other) == Done(false) && Ne(a, other) == Done(true)
  {
    match Lt(a, other)
    case NotImplemented => NotImplemented
    case Done(lt) => Done(!lt && Ne(a, other).value)
  }

  /** `__ge__` from `total_ordering`: `not a < b`. */
  function Ge(a: GibbsIT, other: PyObject): (r: Reply<bool>)
    requires Valid(a) && WellFormed(other)
    ensures r.Done? <==> other.Record?
    ensures r == Done(true) <==> Lt(a, other) == Done(false)
  {
    match Lt(a, other)
    case NotImplemented => NotImplemented
    case Done(lt) => Done(!lt)
  }

  lemma LtIrreflexive(a: GibbsIT)
    requires Valid(a)
    ensures Lt(a, Record(a)) == Done(false)
  {
  }

  lemma LtTransitive(a: GibbsIT, b: GibbsIT, c: GibbsIT)
    requires Valid(a) && Valid(b) && Valid(c)
    requires Lt(a, Record(b)) == Done(true) && Lt(b, Record(c)) == Done(true)
    ensures Lt(a, Record(c)) == Done(true)
  {
  }

  lemma LtAsymmetric(a: GibbsIT, b: GibbsIT)
    requires Valid(a) && Valid(b) && Lt(a, Record(b)) == Done(true)
    ensures Lt(b, Record(a)) == Done(false)
  {
  }

  /** The derived relations in terms of dG: `>=` is exactly dG(a) >= dG(b),
      `>` is the negation of `<=`, `>` implies the reversed `<`, and `<=`
      and `>=` are reflexive. */
  lemma DerivedOrdering(a: GibbsIT, b: GibbsIT)
    requires Valid(a) && Valid(b)
    ensures Ge(a, Record(b)) == Done(DeltaG(a) >= DeltaG(b))
    ensures Gt(a, Record(b)).value == !Le(a, Record(b)).value
    ensures Gt(a, Record(b)) == Done(true) ==> Lt(b, Record(a)) == Done(true)
    ensures Le(a, Record(a)) == Done(true) && Ge(a, Record(a)) == Done(true)
    ensures Gt(a, Record(a)) == Done(false)
  {
  }

  /** Every relation answers NotImplemented, never False, for an operand that
      is not a record. */
  lemma ForeignIncomparable(a: GibbsIT, other: PyObject)
    requires Valid(a) && WellFormed(other) && !other.Record?
    ensures Eq(a, other) == NotImplemented && Ne(a, other) == NotImplemented
    ensures Lt(a, other) == NotImplemented && Le(a, other) == NotImplemented
    ensures Gt(a, other) == NotImplemented && Ge(a, other) == NotImplemented
    ensures Eq(a, other) != Done(false) && Lt(a, other) != Done(false)
  {
  }

  /** A record whose dG is 96.5 * vm kJ/mol (equal concentrations, z = 1). */
  function Probe(vm: real): (g: GibbsIT)
    requires -MaxPotential <= vm <= MaxPotential
    ensures Valid(g) && DeltaG(g) == F * vm
  {
    GibbsIT("probe", "X+", 1.0, 1.0, 1, vm, DefaultKelvin)
  }

  /** Trichotomy does not hold: `a < b` and `a == b` can both be true. */
  lemma LtAndEqOverlap()
    ensures Lt(Probe(0.0), Record(Probe(0.00000000001))) == Done(true)
    ensures Eq(Probe(0.0), Record(Probe(0.00000000001))) == Done(true)
  {
    var b := Probe(0.00000000001);
    assert DeltaG(b) == 0.000000000965;
  }

  /** Tolerant equality is not transitive. */
  lemma EqNotTransitive()
    ensures Eq(Probe(0.0), Record(Probe(0.00000000001))) == Done(true)
    ensures Eq(Probe(0.00000000001), Record(Probe(0.00000000002))) == Done(true)
    ensures Eq(Probe(0.0), Record(Probe(0.00000000002))) == Done(false)
  {
    assert DeltaG(Probe(0.00000000001)) == 0.000000000965;
    assert DeltaG(Probe(0.00000000002)) == 0.00000000193;
  }

  // ---------------------------------------------------------------------
  // Addition

  /** `__add__`: the sum of the two dG values, for a record operand only. */
  function Add(a: GibbsIT, other: PyObject): (r: Reply<real>)
    requires Valid(a) && WellFormed(other)
    ensures r.Done? <==> other.Record?
    ensures r.Done? ==> r.value - DeltaG(a) == DeltaG(other.g)
  {
    if other.Record? then Done(DeltaG(a) + DeltaG(other.g)) else NotImplemented
  }

  /** `__radd__`: number + dG, for a numeric operand only. */
  function RAdd(a: GibbsIT, other: PyObject): (r: Reply<real>)
    requires Valid(a) && WellFormed(other)
    ensures r.Done? <==> other.Number?
    ensures r.Done? ==> r.value - other.x == DeltaG(a)
  {
    if other.Number? then Done(other.x + DeltaG(a)) else NotImplemented
  }

  lemma AddCommutative(a: GibbsIT, b: GibbsIT)
    requires Valid(a) && Valid(b)
    ensures Add(a, Record(b)) == Add(b, Record(a))
  {
  }

  /** The outcome of Python's `x + y` for records and numbers: the left
      operand's `__add__`, then the right operand's `__radd__`; `None` is the
      TypeError raised when both answer NotImplemented. A float has no
      `__add__` or `__radd__` for records. */
  function Plus(x: PyObject, y: PyObject): (r: Option<PyObject>)
    requires WellFormed(x) && WellFormed(y) && !x.Foreign? && !y.Foreign?
    ensures r.Some? <==> !(x.Record? && y.Number?)
    ensures r.Some? ==> r.value.Number?
  {
    match x
    case Number(m) =>
      if y.Number? then Some(Number(m + y.x))
      else Some(Number(RAdd(y.g, x).value))
    case Record(a) =>
      match Add(a, y)
      case Done(v) => Some(Number(v))
      case NotImplemented => None
  }

  /** `number + record` works but `record + number` is a TypeError;
      `record + record` is symmetric. */
  lemma PlusWithNumbers(a: GibbsIT, b: GibbsIT, x: real)
    requires Valid(a) && Valid(b)
    ensures Plus(Number(x), Record(a)) == Some(Number(x + DeltaG(a)))
    ensures Plus(Record(a), Number(x)) == None
    ensures Plus(Record(a), Record(b)) == Plus(Record(b), Record(a)) == Some(Number(DeltaG(a) + DeltaG(b)))
  {
  }

  predicate AllValid(xs: seq<GibbsIT>) {
    forall i :: 0 <= i < |xs| ==> Valid(xs[i])
  }

  /** Python's `sum(xs, start)`: `start + xs[0] + xs[1] + ...`, left to right. */
  function Sum(xs: seq<GibbsIT>, start: PyObject): (r: Option<PyObject>)
    requires AllValid(xs) && WellFormed(start) && !start.Foreign?
    ensures r.Some?
    ensures WellFormed(r.value) && !r.value.Foreign?
    ensures xs == [] ==> r.value == start
    ensures xs != [] ==> r.value.Number?
    decreases |xs|
  {
    if xs == [] then Some(start)
    else
      match Sum(xs[..|xs| - 1], start)
      case None => None
      case Some(acc) => Plus(acc, Record(xs[|xs| - 1]))
  }

  /** The total dG of a list of records. */
  function TotalDeltaG(xs: seq<GibbsIT>): real
    requires AllValid(xs)
  {
    if xs == [] then 0.0 else DeltaG(xs[0]) + TotalDeltaG(xs[1..])
  }

  lemma {:induction false} TotalDeltaGSnoc(xs: seq<GibbsIT>)
    requires AllValid(xs) && xs != []
    ensures TotalDeltaG(xs) == TotalDeltaG(xs[..|xs| - 1]) + DeltaG(xs[|xs| - 1])
  {
    if |xs| > 1 {
      assert xs[1..][..|xs| - 2] == xs[..|xs| - 1][1..];
      TotalDeltaGSnoc(xs[1..]);
    }
  }

  /** Summing records from a number adds up their dG values. */
  lemma {:induction false} SumFromNumber(xs: seq<GibbsIT>, s: real)
    requires AllValid(xs)
    ensures Sum(xs, Number(s)) == Some(Number(s + TotalDeltaG(xs)))
  {
    if xs != [] {
      SumFromNumber(xs[..|xs| - 1], s);
      TotalDeltaGSnoc(xs);
    }
  }

  /** Summing from a record starts from that record's dG. */
  lemma {:induction false} SumFromRecord(xs: seq<GibbsIT>, a: GibbsIT)
    requires AllValid(xs) && Valid(a) && xs != []
    ensures Sum(xs, Record(a)) == Some(Number(DeltaG(a) + TotalDeltaG(xs)))
  {
    if |xs| > 1 {
      SumFromRecord(xs[..|xs| - 1], a);
    } else {
      assert xs[..0] == [];
    }
    TotalDeltaGSnoc(xs);
  }

  /** `sum([a, b], 0.0)` is dG(a) + dG(b), the same value as `a + b`. */
  lemma SumOfPair(a: GibbsIT, b: GibbsIT)
    requires Valid(a) && Valid(b)
    ensures Sum([a, b], Number(0.0)) == Some(Number(DeltaG(a) + DeltaG(b)))
    ensures Sum([a, b], Number(0.0)) == Some(Number(Add(a, Record(b)).value))
  {
    SumFromNumber([a, b], 0.0);
    assert [a, b][1..] == [b];
    assert [b][1..] == [];
    assert TotalDeltaG([b]) == DeltaG(b) + TotalDeltaG([]);
    assert TotalDeltaG([a, b]) == DeltaG(a) + TotalDeltaG([b]);
  }
}
