/** The department colour resolver: a fixed table, then a case-insensitive
    match against it, then a hue derived from a 32-bit string hash. */
module DepartmentColors {
  import opened Wrappers
  import opened JsString
  import opened Int32

  datatype Mapping = Mapping(department: Str, color: Str)

  /** `departmentColorMap`, in insertion order (the order `Object.keys` reports). */
  const ColorTable: seq<Mapping> := [
    Mapping(Lit("Research and Development"), Lit("#FF6D00")),
    Mapping(Lit("Finance"), Lit("#4CAF50")),
    Mapping(Lit("Human Resources"), Lit("#FF4081")),
    Mapping(Lit("Marketing"), Lit("#2196F3"))
  ]

  /** The neutral grey for an absent or empty department. */
  const DefaultColor: Str := Lit("#e5e7eb")

  /** Position of the first table entry whose department satisfies `matches`
      (`Object.keys(...).find`). */
  function FirstWhere(t: seq<Mapping>, matches: Str -> bool): (r: Option<nat>)
    ensures r.Some? ==> r.value < |t| && matches(t[r.value].department)
    ensures r.Some? ==> forall j :: 0 <= j < r.value ==> !matches(t[j].department)
    ensures r.None? ==> forall j :: 0 <= j < |t| ==> !matches(t[j].department)
  {
    if t == [] then None
    else if matches(t[0].department) then Some(0)
    else match FirstWhere(t[1..], matches)
      case None => None
      case Some(k) => Some(k + 1)
  }

  /** No two table keys agree once lowercased, so the case-insensitive match
      can find at most one entry. */
  lemma LowerKeysDistinct()
    ensures forall i, j :: 0 <= i < |ColorTable| && 0 <= j < |ColorTable| && i != j ==>
              ToLower(ColorTable[i].department) != ToLower(ColorTable[j].department)
  {
    forall i, j | 0 <= i < |ColorTable| && 0 <= j < |ColorTable| && i != j
      ensures ToLower(ColorTable[i].department) != ToLower(ColorTable[j].department)
    {
      assert |ColorTable[i].department| != |ColorTable[j].department|;
    }
  }

  // ---------------------------------------------------------------------------
  // The fallback hash
  // ---------------------------------------------------------------------------

  /** One step of the reducer, as written: `((acc << 5) - acc) + code | 0`. */
  function HashStep(acc: int, code: CodeUnit): (r: int)
    requires IsInt32(acc)
    ensures IsInt32(r)
  {
    ToInt32((ShiftLeft5(acc) - acc) + code)
  }

  /** The shift-and-subtract step is `31 * acc + code` reduced to a signed
      32-bit value. */
  lemma HashStepIsPolynomialStep(acc: int, code: CodeUnit)
    requires IsInt32(acc)
    ensures HashStep(acc, code) == ToInt32(31 * acc + code)
  {
    var x := (ShiftLeft5(acc) - acc) + code;
    assert x - (31 * acc + code) == ShiftLeft5(acc) - 32 * acc;
    ToInt32Congruent(x, 31 * acc + code);
  }

  /** `s.split('').reduce(step, acc)`. */
  function HashFrom(acc: int, s: Str): (r: int)
    requires IsInt32(acc)
    ensures IsInt32(r)
    decreases |s|
  {
    if s == [] then acc else HashFrom(HashStep(acc, s[0]), s[1..])
  }

  /** The department hash: the reducer started at 0. */
  function Hash(s: Str): (r: int)
    ensures IsInt32(r)
  {
    HashFrom(0, s)
  }

  function Pow31(n: nat): nat {
    if n == 0 then 1 else 31 * Pow31(n - 1)
  }

  /** The polynomial sum c0*31^(n-1) + ... + c(n-1)*31^0 over the code units. */
  function Polynomial(s: Str): int {
    if s == [] then 0 else s[0] * Pow31(|s| - 1) + Polynomial(s[1..])
  }

  lemma PolynomialStepAlgebra(acc: int, c: int, p: int, rest: int)
    ensures (31 * acc + c) * p + rest == acc * (31 * p) + (c * p + rest)
  {
  }

  /** One step of the induction below: replacing the wrapped accumulator by
      the exact one does not change the int32 result. */
  lemma PolynomialStep(acc: int, c: int, next: int, p: int, rest: int)
    requires next == ToInt32(31 * acc + c)
    ensures ToInt32(next * p + rest) == ToInt32(acc * (31 * p) + (c * p + rest))
  {
    var exact := 31 * acc + c;
    assert (next - exact) % Two32 == 0;
    ToInt32MulAdd(next, exact, p, rest);
    PolynomialStepAlgebra(acc, c, p, rest);
  }

  lemma {:induction false} HashFromPolynomial(acc: int, s: Str)
    requires IsInt32(acc)
    ensures HashFrom(acc, s) == ToInt32(acc * Pow31(|s|) + Polynomial(s))
    decreases |s|
  {
    if s == [] {
      ToInt32Identity(acc);
    } else {
      var t := s[1..];
      var p := Pow31(|t|);
      var next := HashStep(acc, s[0]);
      var exact := 31 * acc + s[0];
      HashStepIsPolynomialStep(acc, s[0]);
      assert next == ToInt32(exact);
      HashFromPolynomial(next, t);
      assert HashFrom(acc, s) == HashFrom(next, t);
      assert Pow31(|s|) == 31 * p;
      assert Polynomial(s) == s[0] * p + Polynomial(t);
      PolynomialStep(acc, s[0], next, p, Polynomial(t));
    }
  }

  /** The department hash is the polynomial hash with base 31, read as a
      signed 32-bit integer: the wrap-around at every step loses nothing. */
  lemma HashIsPolynomial(s: Str)
    ensures Hash(s) == ToInt32(Polynomial(s))
  {
    HashFromPolynomial(0, s);
  }

  function Abs(x: int): nat {
    if x < 0 then -x else x
  }

  /** `Math.abs(hash) % 360`. */
  function Hue(hash: int): (r: nat)
    requires IsInt32(hash)
    ensures r < 360
    ensures (r - Abs(hash)) % 360 == 0
  {
    Abs(hash) % 360
  }

  /** The most negative hash has no 32-bit absolute value, but JavaScript
      numbers hold 2^31 exactly, so the hue is still in range. */
  lemma HueOfMinInt32()
    ensures Hue(-Two31) == 128
  {
  }

  /** `hsl(${hue}, 80%, 65%)`. */
  function Hsl(hue: nat): Str {
    Lit("hsl(") + DecimalString(hue) + Lit(", 80%, 65%)")
  }

  /** An `hsl(...)` colour reads back as its hue: fixed text around the
      decimal digits of `hue`. */
  lemma HslRoundTrip(hue: nat)
    ensures var s := Hsl(hue);
      && |s| > 15
      && s[..4] == Lit("hsl(")
      && s[|s| - 11..] == Lit(", 80%, 65%)")
      && (forall i :: 4 <= i < |s| - 11 ==> IsDigit(s[i]))
      && DecimalValue(s[4..|s| - 11]) == hue
  {
    var d := DecimalString(hue);
    var s := Hsl(hue);
    assert s[4..|s| - 11] == d;
    DecimalRoundTrip(hue);
  }

  lemma HslDistinct(h1: nat, h2: nat)
    requires h1 != h2
    ensures Hsl(h1) != Hsl(h2)
  {
    if Hsl(h1) == Hsl(h2) {
      HslInjective(h1, h2);
    }
  }

  lemma HslInjective(h1: nat, h2: nat)
    requires Hsl(h1) == Hsl(h2)
    ensures h1 == h2
  {
    HslRoundTrip(h1);
    HslRoundTrip(h2);
  }

  // ---------------------------------------------------------------------------
  // The resolver
  // ---------------------------------------------------------------------------

  /** A value the resolver may produce: the default grey, a table colour, or
      an `hsl(...)` colour with a hue in [0, 360). */
  ghost predicate IsCssColor(c: Str) {
    || c == DefaultColor
    || (exists i :: 0 <= i < |ColorTable| && c == ColorTable[i].color)
    || (exists hue :: 0 <= hue < 360 && c == Hsl(hue))
  }

  /** The steps after the exact lookup: case-insensitive match, else the
      hash-derived hue of `department` as given (casing kept). */
  function CaseInsensitiveOrHashed(department: Str): (r: Str)
    ensures forall i :: 0 <= i < |ColorTable| && ToLower(ColorTable[i].department) == ToLower(department) ==>
              r == ColorTable[i].color
    ensures (forall i :: 0 <= i < |ColorTable| ==> ToLower(ColorTable[i].department) != ToLower(department)) ==>
              r == Hsl(Hue(Hash(department)))
    ensures IsCssColor(r)
  {
    var lower := ToLower(department);
    match FirstWhere(ColorTable, key => ToLower(key) == lower)
    case Some(i) =>
      LowerKeysDistinct();
      ColorTable[i].color
    case None =>
      var hue := Hue(Hash(department));
      assert 0 <= hue < 360 && Hsl(hue) == Hsl(hue);
      Hsl(hue)
  }

  /** `getDepartmentColor`, with the exact lookup restricted to the table's
      own keys (see `DepartmentColorAsWritten` for the lookup as written). */
  function DepartmentColor(department: Option<Str>): (r: Str)
    ensures department.None? || department == Some([]) ==> r == DefaultColor
    ensures department.Some? && department.value != [] ==>
              forall i :: 0 <= i < |ColorTable| && ToLower(ColorTable[i].department) == ToLower(department.value) ==>
                r == ColorTable[i].color
    ensures department.Some? && department.value != [] &&
            (forall i :: 0 <= i < |ColorTable| ==> ToLower(ColorTable[i].department) != ToLower(department.value)) ==>
              r == Hsl(Hue(Hash(department.value)))
    ensures IsCssColor(r)
  {
    match department
    case None => DefaultColor
    case Some(d) =>
      if d == [] then DefaultColor
      else match FirstWhere(ColorTable, key => key == d)
        case Some(i) =>
          LowerKeysDistinct();
          ColorTable[i].color
        case None => CaseInsensitiveOrHashed(d)
  }

  /** Every key of the table resolves to its own colour. */
  lemma ExactKeysResolve()
    ensures forall i :: 0 <= i < |ColorTable| ==>
              DepartmentColor(Some(ColorTable[i].department)) == ColorTable[i].color
  {
    forall i | 0 <= i < |ColorTable|
      ensures DepartmentColor(Some(ColorTable[i].department)) == ColorTable[i].color
    {
      assert ColorTable[i].department != [];
    }
  }

  /** "Finance" in any casing gets the Finance colour. */
  lemma FinanceInAnyCase()
    ensures DepartmentColor(Some(Lit("Finance"))) == Lit("#4CAF50")
    ensures DepartmentColor(Some(Lit("finance"))) == Lit("#4CAF50")
    ensures DepartmentColor(Some(Lit("FINANCE"))) == Lit("#4CAF50")
  {
    assert ToLower(Lit("finance")) == ToLower(ColorTable[1].department);
    assert ToLower(Lit("FINANCE")) == ToLower(ColorTable[1].department);
    assert Lit("Finance") == ColorTable[1].department;
  }

  /** A one-unit department hashes to its code unit. */
  lemma HashOfOneUnit(c: CodeUnit)
    ensures Hash([c]) == c
  {
    assert HashFrom(0, [c]) == HashFrom(HashStep(0, c), []);
    assert ShiftLeft5(0) == 0;
  }

  /** A one-unit department that is no table key falls back to the hue of its
      code unit. */
  lemma OneUnitFallback(c: CodeUnit)
    ensures DepartmentColor(Some([c])) == Hsl(c % 360)
  {
    HashOfOneUnit(c);
    assert forall i :: 0 <= i < |ColorTable| ==> |ToLower(ColorTable[i].department)| > 1;
    assert |ToLower([c])| == 1;
  }

  /** The fallback hashes the department as given, so spellings that differ
      only in case can get different colours: every one-letter department
      does. */
  lemma FallbackKeepsCase(c: CodeUnit)
    requires IsLowerAscii(c)
    ensures ToLower([c]) == ToLower([UpperUnit(c)])
    ensures DepartmentColor(Some([c])) != DepartmentColor(Some([UpperUnit(c)]))
  {
    OneLetterLowersAlike(c);
    OneLetterColorsDiffer(c);
  }

  /** A lowercase letter and its uppercase form lowercase alike. */
  lemma OneLetterLowersAlike(c: CodeUnit)
    requires IsLowerAscii(c)
    ensures ToLower([c]) == ToLower([UpperUnit(c)])
  {
    assert LowerUnit(UpperUnit(c)) == c == LowerUnit(c);
  }

  /** A lowercase letter and its uppercase form get different fallback hues. */
  lemma OneLetterColorsDiffer(c: CodeUnit)
    requires IsLowerAscii(c)
    ensures DepartmentColor(Some([c])) != DepartmentColor(Some([UpperUnit(c)]))
  {
    OneUnitFallback(c);
    OneUnitFallback(UpperUnit(c));
    LetterHuesDiffer(c);
  }

  /** A lowercase letter and its uppercase form are distinct hues below 360. */
  lemma LetterHuesDiffer(c: CodeUnit)
    requires IsLowerAscii(c)
    ensures Hsl(c % 360) != Hsl(UpperUnit(c) % 360)
  {
    var u := UpperUnit(c);
    assert c % 360 == c && u % 360 == u;
    HslDistinct(c, u);
  }

  // ---------------------------------------------------------------------------
  // The exact lookup as written
  // ---------------------------------------------------------------------------

  /** The members every object literal inherits from `Object.prototype`
      (section 20.1.3 of ECMA-262 and Annex B.2.2); all of them are truthy. */
  const PrototypeMembers: set<Str> := {
    Lit("constructor"), Lit("hasOwnProperty"), Lit("isPrototypeOf"),
    Lit("propertyIsEnumerable"), Lit("toLocaleString"), Lit("toString"),
    Lit("valueOf"), Lit("__proto__"), Lit("__defineGetter__"),
    Lit("__defineSetter__"), Lit("__lookupGetter__"), Lit("__lookupSetter__")
  }

  /** What `getDepartmentColor` hands back: a colour string, or an inherited
      prototype member (a function, or the prototype object itself). */
  datatype ColorValue = CssText(text: Str) | PrototypeMember(name: Str)

  /** `getDepartmentColor` as written: `departmentColorMap[department]` is a
      plain property read, so a department named after an inherited member
      finds that (truthy) member and returns it. */
  function DepartmentColorAsWritten(department: Option<Str>): (r: ColorValue)
    ensures r.PrototypeMember? ==> department.Some? && department.value in PrototypeMembers
  {
    match department
    case None => CssText(DefaultColor)
    case Some(d) =>
      if d == [] then CssText(DefaultColor)
      else match FirstWhere(ColorTable, key => key == d)
        case Some(i) => CssText(ColorTable[i].color)
        case None =>
          if d in PrototypeMembers then PrototypeMember(d)
          else CssText(CaseInsensitiveOrHashed(d))
  }

  lemma OwnKeysAreNotPrototypeMembers()
    ensures forall i :: 0 <= i < |ColorTable| ==> ColorTable[i].department !in PrototypeMembers
  {
    assert Lit("valueOf")[0] != Lit("Finance")[0];
    assert Lit("__proto__")[0] != Lit("Marketing")[0];
  }

  /** A department called "constructor" gets `Object` back instead of a colour. */
  lemma ConstructorIsNotAColor()
    ensures DepartmentColorAsWritten(Some(Lit("constructor"))) == PrototypeMember(Lit("constructor"))
  {
    assert forall i :: 0 <= i < |ColorTable| ==> |ColorTable[i].department| != 11;
  }

  /** The code as written returns something other than a colour exactly for
      the inherited member names; on every other input it agrees with the
      own-key resolver. */
  lemma AsWrittenDiffersOnlyOnPrototypeMembers(d: Str)
    ensures DepartmentColorAsWritten(Some(d)).PrototypeMember? <==> d in PrototypeMembers
    ensures d !in PrototypeMembers ==> DepartmentColorAsWritten(Some(d)) == CssText(DepartmentColor(Some(d)))
  {
    OwnKeysAreNotPrototypeMembers();
    if d in PrototypeMembers {
      assert d != [];
    }
  }
}
