/** The page size of `GetAnalysisHistory` (function_app.py:109-118): Python's
    `int()` on the `limit` parameter, a fallback of 10 and a clamp to [1, 50]. */
module HistoryLimit {
  import opened Wrappers
  import opened Chars
  import CharRuns
  import Splitting

  const DefaultLimitText := "10"
  const FallbackLimit := 10
  const MinLimit := 1
  const MaxLimit := 50

  /** The interpreter's default `sys.get_int_max_str_digits()`: `int()` refuses
      a decimal literal with more digits than this. */
  const MaxStrDigits := 4300

  /** `req.params.get("limit", "10")`. */
  function LimitText(param: Option<string>): string {
    param.GetOr(DefaultLimitText)
  }

  /** ASCII digits with single underscores between them: the body of a base-10
      literal that `int()` accepts after its sign. */
  predicate WellFormedDigits(s: string) {
    && s != []
    && IsDigit(s[0])
    && IsDigit(s[|s| - 1])
    && (forall i :: 0 <= i < |s| ==> IsDigit(s[i]) || s[i] == '_')
    && (forall i :: 0 <= i < |s| - 1 ==> s[i] == '_' ==> s[i + 1] != '_')
  }

  function DigitValue(c: char): nat
    requires IsDigit(c)
  {
    c as int - '0' as int
  }

  function Digit(d: nat): (c: char)
    requires d < 10
    ensures IsDigit(c) && DigitValue(c) == d
  {
    ('0' as int + d) as char
  }

  /** The number the digits of `s` denote, underscores ignored. */
  function DigitsValue(s: string): nat
    requires forall i :: 0 <= i < |s| ==> IsDigit(s[i]) || s[i] == '_'
  {
    if s == [] then 0
    else if s[|s| - 1] == '_' then DigitsValue(s[..|s| - 1])
    else 10 * DigitsValue(s[..|s| - 1]) + DigitValue(s[|s| - 1])
  }

  /** `int(s)` for a string `s`, with `None` where Python raises `ValueError`:
      the whitespace `int()` skips around the number is ignored. */
  function ParseInt(s: string): Option<int> {
    ParseLiteral(Splitting.StripBy(s, IsIntSpace))
  }

  /** The number of decimal digits of `s`, underscores and sign not counted. */
  function DigitCount(s: string): nat {
    |CharRuns.Filter(s, IsDigit)|
  }

  /** An optional sign followed by well-formed digits, at most `MaxStrDigits`
      of them. */
  function ParseLiteral(t: string): (r: Option<int>)
    ensures r.Some? ==> DigitCount(t) <= MaxStrDigits
  {
    if t != [] && (t[0] == '-' || t[0] == '+') then
      var digits := t[1..];
      if WellFormedDigits(digits) && DigitCount(digits) <= MaxStrDigits then
        assert t == [t[0]] + digits;
        CharRuns.FilterAppend([t[0]], digits, IsDigit);
        var magnitude: int := DigitsValue(digits);
        Some(if t[0] == '-' then -magnitude else magnitude)
      else None
    else if WellFormedDigits(t) && DigitCount(t) <= MaxStrDigits then Some(DigitsValue(t))
    else None
  }

  /** `str(n)` for `n >= 0`. */
  function ShowNat(n: nat): (s: string)
    ensures s != [] && forall i :: 0 <= i < |s| ==> IsDigit(s[i])
  {
    if n < 10 then [Digit(n)] else ShowNat(n / 10) + [Digit(n % 10)]
  }

  /** `str(n)`. */
  function Show(n: int): string {
    if n < 0 then "-" + ShowNat(-n) else ShowNat(n)
  }

  lemma {:induction false} ShowNatValue(n: nat)
    ensures WellFormedDigits(ShowNat(n))
    ensures DigitsValue(ShowNat(n)) == n
  {
    if n >= 10 {
      ShowNatValue(n / 10);
      var s := ShowNat(n);
      assert s[..|s| - 1] == ShowNat(n / 10);
    }
  }

  /** `int(str(n)) == n`: the parser reads back every decimal rendering that
      is within the interpreter's digit limit. */
  lemma ParseShow(n: int)
    requires |ShowNat(if n < 0 then -n else n)| <= MaxStrDigits
    ensures ParseInt(Show(n)) == Some(n)
  {
    var s := Show(n);
    ShowLiteral(n);
    Splitting.StripNoOp(s, IsIntSpace);
  }

  /** `str(n)` is a literal read back as `n` that begins and ends with a
      character `int()` does not skip. */
  lemma ShowLiteral(n: int)
    requires |ShowNat(if n < 0 then -n else n)| <= MaxStrDigits
    ensures ParseLiteral(Show(n)) == Some(n)
    ensures Show(n) != [] && !IsIntSpace(Show(n)[0]) && !IsIntSpace(Show(n)[|Show(n)| - 1])
  {
    var m := if n < 0 then -n else n;
    var digits := ShowNat(m);
    ShowNatLiteral(m);
    if n < 0 {
      assert Show(n) == "-" + digits;
      ParseNegative(digits);
    }
  }

  /** The decimal rendering of `m` is a literal `int()` reads as `m`, when it is
      within the digit limit. */
  lemma ShowNatLiteral(m: nat)
    requires |ShowNat(m)| <= MaxStrDigits
    ensures ParseLiteral(ShowNat(m)) == Some(m)
    ensures WellFormedDigits(ShowNat(m)) && DigitCount(ShowNat(m)) == |ShowNat(m)|
  {
    var digits := ShowNat(m);
    ShowNatValue(m);
    CharRuns.FilterKeepsAll(digits, IsDigit);
    assert IsDigit(digits[0]);
  }

  /** A minus sign in front of well-formed digits negates their value. */
  lemma ParseNegative(digits: string)
    requires WellFormedDigits(digits)
    ensures ParseLiteral("-" + digits) ==
              if DigitCount(digits) <= MaxStrDigits then Some(-(DigitsValue(digits) as int)) else None
  {
    assert ("-" + digits)[1..] == digits;
  }

  /** A literal with more digits than the limit is refused, however well
      formed, with or without a minus sign. */
  lemma ParseTooManyDigits(digits: string)
    requires WellFormedDigits(digits)
    requires DigitCount(digits) > MaxStrDigits
    ensures ParseInt(digits) == None
    ensures ParseInt("-" + digits) == None
  {
    var negative := "-" + digits;
    assert IsDigit(digits[0]) && IsDigit(digits[|digits| - 1]);
    Splitting.StripNoOp(digits, IsIntSpace);
    ParseNegative(digits);
    assert negative[0] == '-' && negative[|negative| - 1] == digits[|digits| - 1];
    Splitting.StripNoOp(negative, IsIntSpace);
  }

  /** Restrict `v` to [MinLimit, MaxLimit]. */
  function Clamp(v: int): int {
    if v < MinLimit then MinLimit else if v > MaxLimit then MaxLimit else v
  }

  /** The clamp is the identity exactly on the range, lands in the range,
      keeps the order of its arguments and changes nothing the second time. */
  lemma ClampSpec(v: int, w: int)
    ensures MinLimit <= Clamp(v) <= MaxLimit
    ensures Clamp(v) == v <==> MinLimit <= v <= MaxLimit
    ensures v <= w ==> Clamp(v) <= Clamp(w)
    ensures Clamp(Clamp(v)) == Clamp(v)
  {
  }

  /** The page size the history query uses for the given `limit` text. */
  function EffectiveLimit(limitText: string): (n: int)
    ensures MinLimit <= n <= MaxLimit
  {
    match ParseInt(limitText)
    case None => FallbackLimit
    case Some(v) => Clamp(v)
  }

  /** A parse failure gives 10; a parsed value in [1, 50] is kept; below 1
      gives 1; above 50 gives 50. */
  lemma EffectiveLimitCases(limitText: string)
    ensures ParseInt(limitText).None? ==> EffectiveLimit(limitText) == FallbackLimit
    ensures ParseInt(limitText).Some? ==>
              var v := ParseInt(limitText).value;
              && (MinLimit <= v <= MaxLimit ==> EffectiveLimit(limitText) == v)
              && (v < MinLimit ==> EffectiveLimit(limitText) == MinLimit)
              && (v > MaxLimit ==> EffectiveLimit(limitText) == MaxLimit)
  {
  }

  /** An integer written in decimal is read back and clamped. */
  lemma EffectiveLimitOfNumber(n: int)
    requires |ShowNat(if n < 0 then -n else n)| <= MaxStrDigits
    ensures EffectiveLimit(Show(n)) == Clamp(n)
  {
    ParseShow(n);
  }

  /** Without a `limit` parameter the page size is 10. */
  lemma EffectiveLimitDefault()
    ensures EffectiveLimit(LimitText(None)) == 10
  {
    EffectiveLimitOfNumber(10);
    assert ShowNat(1) == "1";
    assert ShowNat(10) == "10";
  }

  /** `-5` gives 1. */
  lemma EffectiveLimitNegative(limitText: string)
    requires limitText == "-5"
    ensures EffectiveLimit(limitText) == 1
  {
    EffectiveLimitOfNumber(-5);
    assert ShowNat(5) == "5";
    assert Show(-5) == limitText;
  }

  /** `1000` gives 50. */
  lemma EffectiveLimitTooLarge(limitText: string)
    requires limitText == "1000"
    ensures EffectiveLimit(limitText) == 50
  {
    EffectiveLimitOfNumber(1000);
    assert ShowNat(1) == "1";
    assert ShowNat(10) == "10";
    assert ShowNat(100) == "100";
    assert ShowNat(1000) == limitText;
  }

  /** `abc` is not a number, so it gives 10. */
  lemma EffectiveLimitNotANumber(limitText: string)
    requires limitText == "abc"
    ensures EffectiveLimit(limitText) == 10
  {
    Splitting.StripNoOp(limitText, IsIntSpace);
    assert !IsDigit(limitText[0]) && limitText[0] != '-' && limitText[0] != '+';
    assert ParseLiteral(limitText) == None;
  }

  /** Surrounding spaces and newlines are skipped: ` 7\n` gives 7. */
  lemma EffectiveLimitPadded(limitText: string)
    requires limitText == " 7\n"
    ensures EffectiveLimit(limitText) == 7
  {
    assert Splitting.TrimStart(limitText, IsIntSpace) == "7\n";
    assert Splitting.StripBy(limitText, IsIntSpace) == "7";
    assert ShowNat(7) == "7";
    ParseShow(7);
  }

  /** The file separator U+001C is whitespace to `str.split()` but not to
      `int()`: a leading one makes the parse fail, so the page size is 10. */
  lemma EffectiveLimitFileSeparator(limitText: string)
    requires limitText == "\U{1C}5"
    ensures IsWhitespace(limitText[0])
    ensures EffectiveLimit(limitText) == FallbackLimit
  {
    Splitting.StripNoOp(limitText, IsIntSpace);
    assert ParseLiteral(limitText) == None;
  }

  /** The handler's own steps: read the parameter, parse it with a fallback,
      then raise values below 1 and lower values above 50. */
  method ResolveLimit(param: Option<string>) returns (limit: int)
    ensures MinLimit <= limit <= MaxLimit
    ensures limit == EffectiveLimit(LimitText(param))
  {
    var limitText := LimitText(param);
    match ParseInt(limitText) {
      case Some(v) => limit := v;
      case None => limit := FallbackLimit;
    }
    if limit < MinLimit {
      limit := MinLimit;
    }
    if limit > MaxLimit {
      limit := MaxLimit;
    }
  }
}
