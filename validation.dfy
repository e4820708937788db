/**
 * The submit-time validator of the vehicle form (the zod `formSchema` of
 * src/components/formVeiculos.tsx): required fields, the year range and the
 * licence-plate pattern with upper-case normalisation. The current calendar
 * year is a parameter instead of a clock reading.
 */
module Validation {
  import opened Wrappers
  import opened ParseInt

  /** The values the form submits: every field of a vehicle record except its `id`. */
  datatype FormValues = FormValues(
    tipo: string,
    marcaId: string,
    marca: string,
    modelo: string,
    ano: string,
    placa: string,
    cor: string,
    status: string)

  /** The fields that carry a rule; `marca` has none. */
  datatype Field = Tipo | MarcaId | Modelo | Ano | Placa | Cor | Status

  /** The outcome of parsing the form: the normalised values, or the fields whose rules failed. */
  datatype Verdict = Accepted(values: FormValues) | Rejected(fields: set<Field>)

  // ---------------------------------------------------------------- characters

  predicate IsAsciiLower(c: char) {
    'a' <= c <= 'z'
  }

  predicate IsAsciiUpper(c: char) {
    'A' <= c <= 'Z'
  }

  predicate IsAsciiLetter(c: char) {
    IsAsciiLower(c) || IsAsciiUpper(c)
  }

  /** `[A-Z0-9]` */
  predicate IsUpperOrDigit(c: char) {
    IsAsciiUpper(c) || IsDigit(c)
  }

  function UpperChar(c: char): (u: char)
    ensures IsAsciiLower(c) ==> IsAsciiUpper(u) && u as int == c as int - 32
    ensures !IsAsciiLower(c) ==> u == c
  {
    if IsAsciiLower(c) then (c as int - 32) as char else c
  }

  /** `String.prototype.toUpperCase` on ASCII: each lower-case letter becomes its capital, every other character stays. */
  function ToUpper(s: string): (u: string)
    ensures |u| == |s|
    ensures forall i :: 0 <= i < |s| ==> !IsAsciiLower(u[i])
    ensures forall i :: 0 <= i < |s| ==> u[i] == UpperChar(s[i])
  {
    if s == [] then [] else [UpperChar(s[0])] + ToUpper(s[1..])
  }

  /** Upper-casing twice is upper-casing once. */
  lemma {:induction false} ToUpperIdempotent(s: string)
    ensures ToUpper(ToUpper(s)) == ToUpper(s)
  {
    if s != [] {
      ToUpperIdempotent(s[1..]);
      assert ToUpper(s)[1..] == ToUpper(s[1..]);
    }
  }

  // ---------------------------------------------------------------- plate

  /** `[A-Z]{3}` */
  predicate ThreeLetters(s: string) {
    |s| == 3 && IsAsciiUpper(s[0]) && IsAsciiUpper(s[1]) && IsAsciiUpper(s[2])
  }

  /** The Mercosul suffix, as in ABC1D23: a digit, a capital or a digit, then two digits. */
  predicate MercosulSuffix(t: string) {
    |t| == 4 && IsDigit(t[0]) && IsUpperOrDigit(t[1]) && IsDigit(t[2]) && IsDigit(t[3])
  }

  /** The older suffix, as in ABC1234: four digits. */
  predicate LegacySuffix(t: string) {
    |t| == 4 && AllDigits(t)
  }

  /**
   * The anchored regular expression `^[A-Z]{3}(\d[A-Z0-9]\d{2}|\d{4})$`.
   * `[A-Z]{3}` has a fixed width, so the only split is after three characters;
   * without the `m` flag `$` matches only at the very end.
   */
  predicate PlatePattern(s: string)
    ensures PlatePattern(s) ==> |s| == 7 && forall i :: 0 <= i < |s| ==> IsUpperOrDigit(s[i])
    ensures PlatePattern(s) ==> forall i :: 0 <= i < 3 ==> IsAsciiUpper(s[i])
  {
    |s| >= 3 && ThreeLetters(s[..3]) && (MercosulSuffix(s[3..]) || LegacySuffix(s[3..]))
  }

  /** The second alternative adds nothing: four digits already match `\d[A-Z0-9]\d{2}`. */
  lemma LegacySuffixIsMercosul(t: string)
    requires LegacySuffix(t)
    ensures MercosulSuffix(t)
  {
    assert IsDigit(t[1]);
  }

  /**
   * What the plate rule accepts, stated on the raw input: exactly seven
   * characters, three letters of either case, a digit, a letter of either case
   * or a digit, and two digits.
   */
  ghost predicate PlateShape(raw: string) {
    && |raw| == 7
    && IsAsciiLetter(raw[0]) && IsAsciiLetter(raw[1]) && IsAsciiLetter(raw[2])
    && IsDigit(raw[3]) && (IsAsciiLetter(raw[4]) || IsDigit(raw[4]))
    && IsDigit(raw[5]) && IsDigit(raw[6])
  }

  /** The `placa` rule: length 1 to 7, then upper-cased, then the pattern. The accepted value is the upper-cased input. */
  function ValidatePlate(raw: string): (r: Option<string>)
    ensures r.Some? <==> PlateShape(raw)
    ensures r.Some? ==> r.value == ToUpper(raw) && PlatePattern(r.value)
  {
    var u := ToUpper(raw);
    assert PlatePattern(u) ==> LegacySuffix(u[3..]) ==> MercosulSuffix(u[3..]);
    if 1 <= |raw| <= 7 && PlatePattern(u) then Some(u) else None
  }

  /** Re-validating an accepted plate returns it unchanged. */
  lemma ValidatePlateIdempotent(raw: string)
    requires ValidatePlate(raw).Some?
    ensures ValidatePlate(ValidatePlate(raw).value) == ValidatePlate(raw)
  {
    ToUpperIdempotent(raw);
  }

  /** The Mercosul shape, typed in lower case, is accepted and stored in upper case. */
  lemma MercosulPlateExample()
    ensures ValidatePlate("abc1d23") == Some("ABC1D23")
  {
    assert ToUpper("abc1d23") == "ABC1D23";
  }

  lemma LegacyPlateExamples()
    ensures ValidatePlate("ABC1234") == Some("ABC1234")
    ensures ValidatePlate("aBc1234") == Some("ABC1234")
  {
    assert ToUpper("aBc1234") == "ABC1234";
    assert ToUpper("ABC1234") == "ABC1234";
  }

  lemma RejectedPlateExamples()
    ensures ValidatePlate("ABCD123") == None
    ensures ValidatePlate("AB1C234") == None
    ensures ValidatePlate("ABC1D2E") == None
    ensures ValidatePlate("ABC12345") == None
    ensures ValidatePlate("ABC123") == None
    ensures ValidatePlate("") == None
  {
    assert !PlateShape("ABCD123");
    assert !PlateShape("AB1C234");
    assert !PlateShape("ABC1D2E");
  }

  // ---------------------------------------------------------------- year

  /** The `ano` rule: non-empty, and `parseInt(ano, 10)` lies in [1900, currentYear]; NaN compares false. */
  function ValidateYear(ano: string, currentYear: int): (ok: bool)
    ensures ok ==> 1900 <= currentYear
    ensures (forall i :: 0 <= i < |ano| ==> !IsDigit(ano[i])) ==> !ok
  {
    |ano| >= 1 &&
    match ParseInt10(ano)
    case None => false
    case Some(year) => 1900 <= year <= currentYear
  }

  /** On the decimal numeral of a year the rule is exactly the range check, in both directions. */
  lemma YearOfDecimal(year: nat, currentYear: int)
    ensures ValidateYear(Decimal(year), currentYear) <==> 1900 <= year <= currentYear
  {
    ParseDecimal(year);
  }

  /**
   * The year rule read off the raw text: white space up to `a`, an optional
   * '+' up to `b`, a numeral worth 1900 to `currentYear` up to `c`, then the
   * end or a character that is not a digit.
   */
  ghost predicate YearSplit(ano: string, a: int, b: int, c: int, currentYear: int) {
    && 0 <= a <= b < c <= |ano|
    && (forall i :: 0 <= i < a ==> IsStrWhiteSpace(ano[i]))
    && (b == a || (b == a + 1 && ano[a] == '+'))
    && AllDigits(ano[b..c])
    && (c == |ano| || !IsDigit(ano[c]))
    && 1900 <= NumeralValue(ano[b..c]) <= currentYear
  }

  /** A year passes iff its text splits as white space, an optional '+', an in-range numeral and a non-digit tail. */
  lemma YearAcceptedIff(ano: string, currentYear: int)
    ensures ValidateYear(ano, currentYear) <==> exists a, b, c :: YearSplit(ano, a, b, c, currentYear)
  {
    if ValidateYear(ano, currentYear) {
      var a, b, c := SplitOfAcceptedYear(ano, currentYear);
    }
    if exists a, b, c :: YearSplit(ano, a, b, c, currentYear) {
      var a, b, c :| YearSplit(ano, a, b, c, currentYear);
      ParseAt(ano, a, b, c);
    }
  }

  /** Where the white space, the sign and the numeral of an accepted year end. */
  lemma SplitOfAcceptedYear(ano: string, currentYear: int) returns (a: int, b: int, c: int)
    requires ValidateYear(ano, currentYear)
    ensures YearSplit(ano, a, b, c, currentYear)
  {
    a, b, c := SplitOfPositiveParse(ano);
  }

  lemma Pow10Small(k: nat)
    requires k <= 3
    ensures Pow10(k) <= 1000
  {
    if k > 0 { Pow10Small(k - 1); }
  }

  /** A year that passes has at least four characters: a numeral worth 1900 or more has four digits. */
  lemma AcceptedYearHasFourDigits(ano: string, currentYear: int)
    requires ValidateYear(ano, currentYear)
    ensures |ano| >= 4
  {
    var t := TrimStart(ano);
    var d := LeadingDigits(Unsigned(t));
    assert d != [];
    assert |d| <= |ano|;
    if |d| <= 3 {
      NumeralValueBound(d);
    }
  }

  lemma NumeralValueBound(d: string)
    requires d != [] && AllDigits(d)
    requires |d| <= 3
    ensures NumeralValue(d) < 1000
  {
    Pow10Small(|d|);
  }

  /** A year accepted now stays accepted in any later year. */
  lemma YearStaysValid(ano: string, currentYear: int, laterYear: int)
    requires ValidateYear(ano, currentYear) && currentYear <= laterYear
    ensures ValidateYear(ano, laterYear)
  {
  }

  lemma YearRangeExamples(currentYear: int)
    requires 1900 <= currentYear < 2999
    ensures !ValidateYear("1899", currentYear)
    ensures !ValidateYear("2999", currentYear)
    ensures ValidateYear("1900", currentYear)
  {
    assert "1899" == Decimal(1899);
    assert "2999" == Decimal(2999);
    assert "1900" == Decimal(1900);
    YearOfDecimal(1899, currentYear);
    YearOfDecimal(2999, currentYear);
    YearOfDecimal(1900, currentYear);
  }

  /** The current year itself, written in decimal, is accepted. */
  lemma CurrentYearAccepted(currentYear: nat)
    requires 1900 <= currentYear
    ensures ValidateYear(Decimal(currentYear), currentYear)
  {
    YearOfDecimal(currentYear, currentYear);
  }

  /** The year after the current one, written in decimal, is refused. */
  lemma NextYearRefused(currentYear: nat)
    ensures !ValidateYear(Decimal(currentYear + 1), currentYear)
  {
    var next := currentYear + 1;
    YearOfDecimal(next, currentYear);
    assert !(next <= currentYear);
  }

  /** "2020" passes the year rule in 2025. */
  lemma ExampleYear()
    ensures ValidateYear("2020", 2025)
  {
    assert Decimal(2020) == "2020";
    YearOfDecimal(2020, 2025);
  }

  lemma NumeralValue2020()
    ensures NumeralValue("2020") == 2020
  {
    assert Decimal(2020) == "2020";
    NumeralValueOfDecimal(2020);
  }

  /** `parseInt` stops at the first non-digit. */
  lemma YearWithTrailingText(currentYear: int)
    requires 2020 <= currentYear
    ensures ValidateYear("2020abc", currentYear)
  {
    assert "2020abc" == "2020" + "abc";
    ParseIgnoresTrailing("2020", "abc");
    NumeralValue2020();
  }

  /** `parseInt` reads past leading white space, so white space in front of a year never changes the verdict. */
  lemma YearIgnoresLeadingWhiteSpace(w: string, ano: string, currentYear: int)
    requires forall i :: 0 <= i < |w| ==> IsStrWhiteSpace(w[i])
    ensures ValidateYear(w + ano, currentYear) == ValidateYear(ano, currentYear)
  {
    ParseSkipsWhiteSpace(w, ano);
    if ano == [] {
      assert w + ano == w;
    }
  }

  /** `parseInt` keeps a minus sign, so a negative year is out of range. */
  lemma NegativeYear(currentYear: int)
    ensures !ValidateYear("-2020", currentYear)
  {
    assert "-2020" == ['-'] + "2020";
    ParseNegative("2020");
  }

  // ---------------------------------------------------------------- whole form

  /** Whether the rule attached to field `f` holds of `v`. */
  predicate FieldOk(v: FormValues, f: Field, currentYear: int) {
    match f
    case Tipo => v.tipo != []
    case MarcaId => v.marcaId != []
    case Modelo => v.modelo != []
    case Ano => ValidateYear(v.ano, currentYear)
    case Placa => ValidatePlate(v.placa).Some?
    case Cor => v.cor != []
    case Status => v.status != []
  }

  /**
   * The fields whose rules fail; zod checks every field and reports each of
   * them. The plate and the year are stated on the raw text, through
   * `PlateShape` and `YearSplit`.
   */
  function FailingFields(v: FormValues, currentYear: int): (fs: set<Field>)
    ensures forall f :: f in fs <==> !FieldOk(v, f, currentYear)
    ensures Tipo in fs <==> v.tipo == []
    ensures MarcaId in fs <==> v.marcaId == []
    ensures Modelo in fs <==> v.modelo == []
    ensures Cor in fs <==> v.cor == []
    ensures Status in fs <==> v.status == []
    ensures Placa in fs <==> !PlateShape(v.placa)
    ensures Ano in fs <==> !exists a, b, c :: YearSplit(v.ano, a, b, c, currentYear)
  {
    YearAcceptedIff(v.ano, currentYear);
    set f: Field | f in {Tipo, MarcaId, Modelo, Ano, Placa, Cor, Status} && !FieldOk(v, f, currentYear)
  }

  /** What the form's resolver does on submit: accept with the plate upper-cased, or reject naming every failing field. */
  function Validate(v: FormValues, currentYear: int): (r: Verdict)
    ensures r.Accepted? <==>
      && v.tipo != [] && v.marcaId != [] && v.modelo != [] && v.cor != [] && v.status != []
      && ValidateYear(v.ano, currentYear) && PlateShape(v.placa)
    ensures r.Accepted? ==> r.values == v.(placa := ToUpper(v.placa))
    ensures r.Rejected? ==> r.fields != {} && forall f :: f in r.fields <==> !FieldOk(v, f, currentYear)
  {
    var fs := FailingFields(v, currentYear);
    assert fs == {} <==> forall f :: FieldOk(v, f, currentYear);
    assert (forall f :: FieldOk(v, f, currentYear)) <==>
      FieldOk(v, Tipo, currentYear) && FieldOk(v, MarcaId, currentYear) && FieldOk(v, Modelo, currentYear)
      && FieldOk(v, Ano, currentYear) && FieldOk(v, Placa, currentYear) && FieldOk(v, Cor, currentYear)
      && FieldOk(v, Status, currentYear);
    if fs == {} then Accepted(v.(placa := ValidatePlate(v.placa).value)) else Rejected(fs)
  }

  /** Parsing already-parsed values changes nothing. */
  lemma ValidateIdempotent(v: FormValues, currentYear: int)
    requires Validate(v, currentYear).Accepted?
    ensures Validate(Validate(v, currentYear).values, currentYear) == Validate(v, currentYear)
  {
    ValidatePlateIdempotent(v.placa);
    ToUpperIdempotent(v.placa);
  }

  /** `marca` carries no rule: changing it never changes the verdict. */
  lemma MarcaUnconstrained(v: FormValues, marca: string, currentYear: int)
    ensures Validate(v.(marca := marca), currentYear).Accepted? == Validate(v, currentYear).Accepted?
  {
  }

  /** A sample submission: a car, brand token "21", year "2020", plate "abc1d23". */
  lemma ExampleFormAccepted()
    ensures Validate(FormValues("carros", "21", "", "Gol", "2020", "abc1d23", "Branco", "disponivel"), 2025)
         == Accepted(FormValues("carros", "21", "", "Gol", "2020", "ABC1D23", "Branco", "disponivel"))
  {
    var v := FormValues("carros", "21", "", "Gol", "2020", "abc1d23", "Branco", "disponivel");
    ExampleYear();
    MercosulPlateExample();
    assert PlateShape(v.placa) && ToUpper(v.placa) == "ABC1D23";
    var r := Validate(v, 2025);
    assert r.Accepted?;
    assert r.values == v.(placa := "ABC1D23");
  }
}
