/**
 * Spreadsheet cell values and their display text (`to_str`), and the
 * file-name sanitiser (`safe_filename`).
 */
module Cells {
  import opened Text

  /**
   * A cell value as pandas hands it over. Floats are not modelled bit by
   * bit: an integral float carries its integer value, any other float the
   * text Python's `str` gives it.
   */
  datatype CellValue =
    | Missing                      // None, NaN or NaT: `pd.isna` holds
    | Timestamp(day: Day, month: Month, year: Year)
    | IntegralFloat(n: int)        // a float for which `is_integer()` holds
    | FractionalFloat(repr: string)
    | Integer(n: int)
    | Boolean(b: bool)             // a `bool` is an `int` in Python
    | Str(s: string)

  /** Calendar fields of a date read from Excel, whose date system runs from 1900 to 9999. */
  type Day = n: nat | 1 <= n <= 31 witness 1
  type Month = n: nat | 1 <= n <= 12 witness 1
  type Year = n: nat | 1000 <= n <= 9999 witness 2000

  /** The ASCII digit for `0 <= d < 10`. */
  function DigitChar(d: nat): (c: char)
    requires d < 10
    ensures '0' <= c <= '9' && c as int - '0' as int == d
  {
    ('0' as int + d) as char
  }

  predicate IsAsciiDigit(c: char) {
    '0' <= c <= '9'
  }

  /** The decimal digits of a natural number, without leading zeros. */
  function NatString(n: nat): (r: string)
    ensures r != []
    ensures forall i | 0 <= i < |r| :: IsAsciiDigit(r[i])
    ensures r[0] == '0' ==> n == 0
  {
    if n < 10 then [DigitChar(n)] else NatString(n / 10) + [DigitChar(n % 10)]
  }

  /**
   * The text has no superfluous leading zero: a leading `0` is the whole
   * text, and a sign is followed by a non-zero digit.
   */
  predicate NoLeadingZero(r: string) {
    r != [] && (r[0] == '0' ==> r == "0") && (r[0] == '-' ==> |r| > 1 && r[1] != '0')
  }

  /** Python's `str(n)` for an `int`: a sign only for negatives, and no leading zero. */
  function DecimalString(n: int): (r: string)
    ensures NoLeadingZero(r)
    ensures r[0] == '-' <==> n < 0
  {
    if n < 0 then "-" + NatString(-n) else NatString(n)
  }

  /** The value of one ASCII digit. */
  function DigitValue(c: char): nat
    requires IsAsciiDigit(c)
  {
    c as int - '0' as int
  }

  /** The value of a string of ASCII digits. */
  function DigitsValue(s: string): nat
    requires forall i | 0 <= i < |s| :: IsAsciiDigit(s[i])
  {
    if s == [] then 0
    else 10 * DigitsValue(s[..|s| - 1]) + DigitValue(s[|s| - 1])
  }

  /** Python's `int(s)` on an optionally signed run of ASCII digits. */
  function ParseDecimal(s: string): Option<int>
  {
    if s != [] && s[0] == '-' && |s| > 1 && forall i | 1 <= i < |s| :: IsAsciiDigit(s[i]) then
      var v: int := DigitsValue(s[1..]);
      Some(-v)
    else if s != [] && forall i | 0 <= i < |s| :: IsAsciiDigit(s[i]) then
      Some(DigitsValue(s))
    else
      None
  }

  datatype Option<T> = None | Some(value: T)

  lemma {:induction false} NatStringValue(n: nat)
    ensures DigitsValue(NatString(n)) == n
  {
    var r := NatString(n);
    if n >= 10 {
      NatStringValue(n / 10);
      assert r[..|r| - 1] == NatString(n / 10);
    }
  }

  /** Reading back the decimal text of an integer gives the integer. */
  lemma DecimalRoundTrip(n: int)
    ensures ParseDecimal(DecimalString(n)) == Some(n)
  {
    if n < 0 {
      NatStringValue(-n);
      assert DecimalString(n)[1..] == NatString(-n);
    } else {
      NatStringValue(n);
    }
  }

  /** Two-digit zero-padded rendering, as `%d` and `%m` print. */
  function Pad2(n: nat): string
    requires n < 100
  {
    [DigitChar(n / 10), DigitChar(n % 10)]
  }

  lemma Pad2Value(n: nat)
    requires n < 100
    ensures DigitsValue(Pad2(n)) == n
  {
    var p := Pad2(n);
    assert p[..1] == [DigitChar(n / 10)];
    assert p[..1][..0] == [];
    assert DigitsValue(p[..1]) == n / 10;
    assert DigitsValue(p) == 10 * DigitsValue(p[..1]) + DigitValue(p[1]);
  }

  /** `strftime("%d/%m/%Y")`. */
  function FormatDate(day: Day, month: Month, year: Year): string
  {
    Pad2(day) + "/" + Pad2(month) + "/" + NatString(year)
  }

  /**
   * The `DD/MM/YYYY` text of a valid date is ten characters long with the
   * slashes in place, and the day, month and year read back from it.
   */
  lemma FormatDateRoundTrip(day: Day, month: Month, year: Year)
    ensures var r := FormatDate(day, month, year);
            |r| == 10 && r[2] == '/' && r[5] == '/'
            && DigitsValue(r[..2]) == day && DigitsValue(r[3..5]) == month
            && DigitsValue(r[6..]) == year
  {
    var r := FormatDate(day, month, year);
    NatStringValue(year);
    FourDigitYear(year);
    assert r[..2] == Pad2(day);
    assert r[3..5] == Pad2(month);
    assert r[6..] == NatString(year);
    Pad2Value(day);
    Pad2Value(month);
  }

  /** A year of the `Year` range prints with four digits. */
  lemma FourDigitYear(year: Year)
    ensures |NatString(year)| == 4
  {
    var y: nat := year;
    assert NatString(y) == NatString(y / 10) + [DigitChar(y % 10)];
    assert NatString(y / 10) == NatString(y / 100) + [DigitChar((y / 10) % 10)];
    assert NatString(y / 100) == NatString(y / 1000) + [DigitChar((y / 100) % 10)];
    assert 1 <= y / 1000 < 10;
  }

  /** Python's `str.isdigit()` (ASCII, Arabic-Indic and extended Arabic-Indic digits). */
  predicate IsDigitChar(c: char) {
    IsAsciiDigit(c) || ('\U{0660}' <= c <= '\U{0669}') || ('\U{06F0}' <= c <= '\U{06F9}')
  }

  /** `s.isdigit()`: non-empty and all digits. */
  predicate IsDigits(s: string) {
    s != [] && forall i | 0 <= i < |s| :: IsDigitChar(s[i])
  }

  predicate EndsWith(s: string, suffix: string) {
    |suffix| <= |s| && s[|s| - |suffix|..] == suffix
  }

  /**
   * `to_str`: the display text of a cell. Missing values give `""`, dates
   * `DD/MM/YYYY`, integral numbers their decimal digits, and strings are
   * trimmed and lose a trailing `.0` when what remains after deleting
   * every `.0` is all digits.
   */
  function ToStr(x: CellValue): (r: string)
    ensures x.Missing? ==> r == []
    ensures x.Integer? || x.IntegralFloat? ==> ParseDecimal(r) == Some(x.n) && '.' !in r && NoLeadingZero(r)
    ensures x.Str? ==> IsStripped(r)
    ensures x.Str? ==> r == Strip(x.s) || r + ".0" == Strip(x.s)
    ensures x.Str? ==>
              (r != Strip(x.s) <==> EndsWith(Strip(x.s), ".0") && IsDigits(Replace(Strip(x.s), ".0", "")))
    ensures x.Timestamp? ==>
              r == FormatDate(x.day, x.month, x.year)
              && |r| == 10 && r[2] == '/' && r[5] == '/'
              && DigitsValue(r[..2]) == x.day && DigitsValue(r[3..5]) == x.month
              && DigitsValue(r[6..]) == x.year
  {
    match x
    case Missing => []
    case Timestamp(d, m, y) => FormatDateRoundTrip(d, m, y); FormatDate(d, m, y)
    case IntegralFloat(n) => DecimalRoundTrip(n); DecimalString(n)
    case FractionalFloat(repr) => repr
    case Integer(n) => DecimalRoundTrip(n); DecimalString(n)
    case Boolean(b) => if b then "True" else "False"
    case Str(s) => CleanString(s)
  }

  /** The string branch of `to_str`. */
  function CleanString(s: string): (r: string)
    ensures IsStripped(r)
    ensures r == Strip(s) || r + ".0" == Strip(s)
    ensures r != Strip(s) <==> EndsWith(Strip(s), ".0") && IsDigits(Replace(Strip(s), ".0", ""))
  {
    var t := Strip(s);
    var r := DropPointZero(t);
    if EndsWith(t, ".0") && IsDigits(Replace(t, ".0", "")) then
      DropPointZeroStripped(t);
      assert r + ".0" == t;
      r
    else
      r
  }

  /** The `.0` rule on stripped text: drop a final `.0` when what is left after deleting every `.0` is all digits. */
  function DropPointZero(t: string): string
  {
    if EndsWith(t, ".0") && IsDigits(Replace(t, ".0", "")) then t[..|t| - 2] else t
  }

  /**
   * Dropping the `.0` never exposes white space: the character before it
   * survives the deletion of every `.0`, so it is a digit.
   */
  lemma DropPointZeroStripped(t: string)
    requires IsStripped(t) && EndsWith(t, ".0") && IsDigits(Replace(t, ".0", ""))
    ensures IsStripped(t[..|t| - 2])
  {
    var r := t[..|t| - 2];
    if r != [] {
      assert r[0] == t[0];
      var last := |t| - 3;
      if t[last] !in ".0" {
        ReplaceKeepsForeignChars(t, ".0", "", last);
        var u := Replace(t, ".0", "");
        var k :| 0 <= k < |u| && u[k] == t[last];
        assert IsDigitChar(u[k]);
      }
    }
  }

  /** On text that is already stripped, `to_str` only applies the `.0` rule. */
  lemma CleanStripped(t: string)
    requires IsStripped(t)
    ensures ToStr(Str(t)) == DropPointZero(t)
  {
    StripFixedPoint(t);
  }

  /** Deleting every `.0` from `.0` leaves nothing. */
  lemma PointZeroDeleted()
    ensures Replace(".0", ".0", "") == []
  {
    ReplaceAtFront(".0", "", "");
    assert ".0" + "" == ".0";
  }

  /** A number that arrived as text with a `.0` loses it: `"12.0"` reads `"12"`. */
  lemma PointZeroDropped(d: string)
    requires d != [] && forall i | 0 <= i < |d| :: IsAsciiDigit(d[i])
    ensures ToStr(Str(d + ".0")) == d
  {
    var t := d + ".0";
    CleanStripped(t);
    assert '.' !in d;
    ReplaceAfterPrefix(d, ".0", ".0", "");
    PointZeroDeleted();
    assert Replace(t, ".0", "") == d;
    assert t[..|t| - 2] == d;
  }

  /** Deleting every `.0` from `1.0.0` leaves `1`. */
  lemma VersionPointZerosDeleted()
    ensures Replace("1.0.0", ".0", "") == "1"
  {
    PointZeroDeleted();
    assert Replace(".0.0", ".0", "") == "" by {
      assert ".0.0" == ".0" + ".0";
      ReplaceAtFront(".0", ".0", "");
    }
    assert "1.0.0" == ['1'] + ".0.0";
    assert !(".0" <= "1.0.0");
    ReplaceSkipsFront('1', ".0.0", ".0", "");
  }

  /**
   * The digit test runs on the text with every `.0` deleted, not only the
   * last one, so a version-like `1.0.0` loses its final `.0`.
   */
  lemma VersionLosesLastPointZero()
    ensures ToStr(Str("1.0.0")) == "1.0"
  {
    CleanStripped("1.0.0");
    VersionRule();
  }

  /** The `.0` rule turns `1.0.0` into `1.0`. */
  lemma VersionRule()
    ensures DropPointZero("1.0.0") == "1.0"
  {
    var t := "1.0.0";
    VersionPointZerosDeleted();
    assert IsDigits("1");
    assert EndsWith(t, ".0");
    assert t[..|t| - 2] == "1.0";
  }

  /** `.0` alone is kept: nothing is left after deleting it, and `isdigit` is false on "". */
  lemma BarePointZeroKept()
    ensures ToStr(Str(".0")) == ".0"
  {
    CleanStripped(".0");
    PointZeroDeleted();
    assert !IsDigits([]);
  }

  /** The forbidden file-name characters, in the order `safe_filename` treats them. */
  const Forbidden: string := "/\\:*?\"<>|"

  /**
   * The text `safe_filename` starts from: the name stripped, or `contract`
   * for an empty name (which stripping leaves alone, see FilenameBaseStrips).
   */
  function FilenameBase(s: string): string
  {
    if s == [] then "contract" else Strip(s)
  }

  /**
   * `r` is `t` after the first `k` forbidden characters have been replaced
   * by `-`.
   */
  predicate SanitisedUpTo(t: string, r: string, k: nat)
    requires k <= |Forbidden|
  {
    |r| == |t| && forall i | 0 <= i < |r| :: r[i] == if t[i] in Forbidden[..k] then '-' else t[i]
  }

  /** One more round of the replacement loop treats one more forbidden character. */
  lemma SanitiseStep(t: string, r: string, k: nat)
    requires k < |Forbidden| && SanitisedUpTo(t, r, k)
    ensures SanitisedUpTo(t, Replace(r, [Forbidden[k]], "-"), k + 1)
  {
    var c := Forbidden[k];
    ReplaceCharPointwise(r, c, '-');
    assert '-' != c;
    assert Forbidden[..k + 1] == Forbidden[..k] + [c];
  }

  /** After the whole loop no forbidden character is left. */
  lemma SanitisedFully(t: string, r: string)
    requires SanitisedUpTo(t, r, |Forbidden|)
    ensures forall i | 0 <= i < |r| :: r[i] !in Forbidden
    ensures forall i | 0 <= i < |r| :: r[i] == if t[i] in Forbidden then '-' else t[i]
  {
    assert Forbidden[..|Forbidden|] == Forbidden;
    assert '-' !in Forbidden;
  }

  /** A name of lower-case ASCII letters passes through the loop unchanged. */
  lemma SanitisedLetters(t: string, r: string)
    requires SanitisedUpTo(t, r, |Forbidden|)
    requires forall i | 0 <= i < |t| :: 'a' <= t[i] <= 'z'
    ensures r == t
  {
    SanitisedFully(t, r);
    assert forall j | 0 <= j < |Forbidden| :: !('a' <= Forbidden[j] <= 'z');
  }

  /** The fallback name `contract` has no forbidden character to replace. */
  lemma SanitisedContract(r: string)
    requires SanitisedUpTo("contract", r, |Forbidden|)
    ensures r == "contract"
  {
    var t := "contract";
    assert forall i | 0 <= i < |t| :: 'a' <= t[i] <= 'z';
    SanitisedLetters(t, r);
  }

  /** The base name is `(s or "contract").strip()`. */
  lemma FilenameBaseStrips(s: string)
    ensures FilenameBase(s) == Strip(if s == [] then "contract" else s)
  {
    if s == [] {
      ContractStripped();
    }
  }

  /** The fallback name has no white space to strip. */
  lemma ContractStripped()
    ensures Strip("contract") == "contract"
  {
    var t := "contract";
    assert !IsSpace(t[0]) && !IsSpace(t[|t| - 1]);
    assert TrimStart(t) == t;
    assert TrimEnd(t) == t;
  }

  /**
   * `safe_filename`: falls back to `contract` for an empty name, strips it,
   * and replaces each forbidden character by `-`, one character at a time.
   */
  method SafeFilename(s: string) returns (r: string)
    ensures |r| == |FilenameBase(s)|
    ensures forall i | 0 <= i < |r| :: r[i] !in Forbidden
    ensures forall i | 0 <= i < |r| ::
              r[i] == if FilenameBase(s)[i] in Forbidden then '-' else FilenameBase(s)[i]
    ensures s == [] ==> r == "contract"
    ensures s != [] && (forall i | 0 <= i < |s| :: IsSpace(s[i])) ==> r == []
  {
    var t := FilenameBase(s);
    r := t;
    for k := 0 to |Forbidden|
      invariant SanitisedUpTo(t, r, k)
    {
      SanitiseStep(t, r, k);
      r := Replace(r, [Forbidden[k]], "-");
    }
    SanitisedFully(t, r);
    if s == [] {
      SanitisedContract(r);
    }
    if s != [] && (forall i | 0 <= i < |s| :: IsSpace(s[i])) {
      StripEmptyIff(s);
    }
  }
}
