/**
 * The two pieces of JavaScript string handling the rule engine relies on:
 * `String.prototype.trim` and the string-to-number conversion `Number(s)`.
 */
module JsText {
  import opened Wrappers

  /** JavaScript's WhiteSpace and LineTerminator characters (also what the regex class `\s` matches). */
  predicate IsSpace(c: char) {
    ('\t' <= c <= '\r') || c == ' ' || c == '\U{00A0}' || c == '\U{1680}' ||
    ('\U{2000}' <= c <= '\U{200A}') || c == '\U{2028}' || c == '\U{2029}' ||
    c == '\U{202F}' || c == '\U{205F}' || c == '\U{3000}' || c == '\U{FEFF}'
  }

  predicate AllSpace(s: string) {
    forall i :: 0 <= i < |s| ==> IsSpace(s[i])
  }

  function TrimStart(s: string): (r: string)
    ensures |r| <= |s| && r == s[|s| - |r|..]
    ensures AllSpace(s[..|s| - |r|])
    ensures r == [] || !IsSpace(r[0])
  {
    if s != [] && IsSpace(s[0]) then TrimStart(s[1..]) else s
  }

  function TrimEnd(s: string): (r: string)
    ensures |r| <= |s| && r == s[..|r|]
    ensures AllSpace(s[|r|..])
    ensures r == [] || !IsSpace(r[|r| - 1])
  {
    if s != [] && IsSpace(s[|s| - 1]) then
      var r := TrimEnd(s[..|s| - 1]);
      assert s[|r|..] == s[..|s| - 1][|r|..] + [s[|s| - 1]];
      r
    else s
  }

  /** `s.trim()`: `s` without its leading and trailing white space. */
  function Trim(s: string): string {
    TrimEnd(TrimStart(s))
  }

  /** `Trim(s)` is a middle slice of `s` framed by white space only. */
  lemma TrimSlice(s: string)
    ensures exists i, j :: 0 <= i <= j <= |s| && Trim(s) == s[i..j]
                        && AllSpace(s[..i]) && AllSpace(s[j..])
  {
    var a := TrimStart(s);
    var i := |s| - |a|;
    var j := i + |TrimEnd(a)|;
    assert s[j..] == a[|TrimEnd(a)|..];
    assert Trim(s) == s[i..j];
  }

  /** `Trim(s)` neither begins nor ends with white space, so trimming twice changes nothing. */
  lemma TrimEnds(s: string)
    ensures Trim(s) == [] || (!IsSpace(Trim(s)[0]) && !IsSpace(Trim(s)[|Trim(s)| - 1]))
    ensures Trim(Trim(s)) == Trim(s)
  {
    var t := Trim(s);
    if t != [] {
      assert t[0] == TrimStart(s)[0];
    }
    NoSpaceTrim(t);
  }

  /** A string of white space only trims to the empty string. */
  lemma {:induction false} TrimBlank(s: string)
    requires AllSpace(s)
    ensures TrimStart(s) == [] && Trim(s) == []
  {
    if s != [] {
      TrimBlank(s[1..]);
    }
  }

  /** A string that neither begins nor ends with white space trims to itself. */
  lemma NoSpaceTrim(t: string)
    requires t == [] || (!IsSpace(t[0]) && !IsSpace(t[|t| - 1]))
    ensures Trim(t) == t
  {
  }

  predicate IsDigit(c: char) { '0' <= c <= '9' }

  predicate IsSign(c: char) { c == '+' || c == '-' }

  predicate AllDigits(s: string) {
    forall i :: 0 <= i < |s| ==> IsDigit(s[i])
  }

  /** The value of a string of decimal digits, most significant first. */
  function DigitsValue(s: string): nat
    requires AllDigits(s)
  {
    if s == [] then 0 else DigitsValue(s[..|s| - 1]) * 10 + (s[|s| - 1] - '0') as nat
  }

  function Pow10(n: nat): (r: nat)
    ensures r >= 1
  {
    if n == 0 then 1 else 10 * Pow10(n - 1)
  }

  /** Index of the first character of `s` in `cs`, or `|s|` when there is none. */
  function Find(s: string, cs: set<char>): (k: nat)
    ensures k <= |s|
    ensures forall i :: 0 <= i < k ==> s[i] !in cs
    ensures k < |s| ==> s[k] in cs
  {
    if s == [] then 0 else if s[0] in cs then 0 else 1 + Find(s[1..], cs)
  }

  /** The value of the digits `whole.frac`. */
  function DecimalValue(whole: string, frac: string): real
    requires AllDigits(whole) && AllDigits(frac)
  {
    DigitsValue(whole) as real + DigitsValue(frac) as real / Pow10(|frac|) as real
  }

  /** A mantissa `digits [. digits]` with at least one digit, e.g. `12`, `12.`, `.5`, `1.25`. */
  function Mantissa(m: string): Option<real> {
    var k := Find(m, {'.'});
    var whole, frac := m[..k], if k < |m| then m[k + 1..] else [];
    if AllDigits(whole) && AllDigits(frac) && |whole| + |frac| >= 1 then
      Some(DecimalValue(whole, frac))
    else None
  }

  /** An exponent `[+|-] digits` with at least one digit. */
  function Exponent(x: string): Option<int> {
    var neg := x != [] && x[0] == '-';
    var ds := if x != [] && IsSign(x[0]) then x[1..] else x;
    if ds != [] && AllDigits(ds) then
      Some(if neg then -(DigitsValue(ds) as int) else DigitsValue(ds) as int)
    else None
  }

  /** `v * 10^e` for an integer `e` of either sign. */
  function Scale10(v: real, e: int): real {
    if e >= 0 then v * Pow10(e) as real else v / Pow10(-e) as real
  }

  /** An unsigned decimal literal: a mantissa, optionally followed by `e`/`E` and an exponent. */
  function UnsignedDecimal(u: string): Option<real> {
    var k := Find(u, {'e', 'E'});
    if k == |u| then Mantissa(u)
    else
      match (Mantissa(u[..k]), Exponent(u[k + 1..]))
      case (Some(v), Some(e)) => Some(Scale10(v, e))
      case _ => None
  }

  /** Unary minus on a reading that may be `NaN`. */
  function Negated(v: Option<real>): Option<real> {
    match v
    case Some(x) => Some(-x)
    case None => None
  }

  /**
   * JavaScript's `Number(s)` on a string, with `None` for `NaN`: white space
   * is trimmed, the empty string is 0, otherwise an optionally signed decimal
   * literal with an optional exponent.
   */
  function JsNumber(s: string): (r: Option<real>)
    ensures AllSpace(s) ==> r == Some(0.0)
  {
    var t := Trim(s);
    if t == [] then Some(0.0)
    else if t[0] == '+' then UnsignedDecimal(t[1..])
    else if t[0] == '-' then Negated(UnsignedDecimal(t[1..]))
    else UnsignedDecimal(t)
  }

  /** The decimal numeral of `k`, without sign or leading zeros. */
  function NatToString(k: nat): (s: string)
    ensures s != [] && AllDigits(s)
  {
    if k < 10 then ['0' + k as char] else NatToString(k / 10) + ['0' + (k % 10) as char]
  }

  lemma {:induction false} NatToStringValue(k: nat)
    ensures DigitsValue(NatToString(k)) == k
  {
    var s := NatToString(k);
    if k >= 10 {
      NatToStringValue(k / 10);
      assert s[..|s| - 1] == NatToString(k / 10);
    }
  }

  lemma FindAbsent(s: string, cs: set<char>)
    requires forall i :: 0 <= i < |s| ==> s[i] !in cs
    ensures Find(s, cs) == |s|
  {
  }

  lemma NumeralCharNotSpace(c: char)
    requires IsDigit(c) || IsSign(c) || c == '.'
    ensures !IsSpace(c)
  {
  }

  lemma FindAt(s: string, cs: set<char>, k: nat)
    requires k < |s| && s[k] in cs
    requires forall i :: 0 <= i < k ==> s[i] !in cs
    ensures Find(s, cs) == k
  {
  }

  /** An unsigned run of digits reads as its value. */
  lemma DigitsConvert(u: string)
    requires u != [] && AllDigits(u)
    ensures UnsignedDecimal(u) == Some(DigitsValue(u) as real)
  {
    FindAbsent(u, {'e', 'E'});
    FindAbsent(u, {'.'});
    assert u[..|u|] == u;
  }

  /** Reading back the numeral of a natural number gives that number. */
  lemma {:induction false} JsNumberOfNumeral(k: nat)
    ensures JsNumber(NatToString(k)) == Some(k as real)
  {
    var s := NatToString(k);
    assert IsDigit(s[0]) && IsDigit(s[|s| - 1]);
    NoSpaceTrim(s);
    NatToStringValue(k);
    DigitsConvert(s);
  }

  /** Text with no white space at its ends and no sign in front reads as an unsigned literal. */
  lemma UnsignedJsNumber(n: string)
    requires n != [] && !IsSpace(n[0]) && !IsSign(n[0]) && !IsSpace(n[|n| - 1])
    ensures JsNumber(n) == UnsignedDecimal(n)
  {
    NoSpaceTrim(n);
  }

  /** A `+` in front of text that does not end in white space reads that text as an unsigned literal. */
  lemma PlusJsNumber(u: string)
    requires u != [] && !IsSpace(u[|u| - 1])
    ensures JsNumber(['+'] + u) == UnsignedDecimal(u)
  {
    var p := ['+'] + u;
    assert p[1..] == u && p[|p| - 1] == u[|u| - 1];
    NoSpaceTrim(p);
  }

  /** A `-` in front of text that does not end in white space negates its unsigned reading. */
  lemma MinusJsNumber(u: string)
    requires u != [] && !IsSpace(u[|u| - 1])
    ensures JsNumber(['-'] + u) == Negated(UnsignedDecimal(u))
  {
    var m := ['-'] + u;
    assert m[1..] == u && m[|m| - 1] == u[|u| - 1];
    NoSpaceTrim(m);
  }

  /** The mantissa `w.f` is its whole part plus its fraction. */
  lemma MantissaValue(w: string, f: string)
    requires AllDigits(w) && AllDigits(f) && f != []
    ensures Mantissa(w + ['.'] + f) == Some(DecimalValue(w, f))
  {
    var n := w + ['.'] + f;
    var k := |w|;
    assert n[k] == '.' && n[..k] == w && n[k + 1..] == f;
    forall i | 0 <= i < k ensures n[i] !in {'.'} {
      assert n[i] == w[i] && IsDigit(w[i]);
    }
    FindAt(n, {'.'}, k);
    assert Find(n, {'.'}) == k;
  }

  lemma DecimalNoExponent(w: string, f: string)
    requires AllDigits(w) && AllDigits(f)
    ensures UnsignedDecimal(w + ['.'] + f) == Mantissa(w + ['.'] + f)
  {
    var n := w + ['.'] + f;
    var k := |w|;
    forall i | 0 <= i < |n| ensures n[i] !in {'e', 'E'} {
      if i < k { assert n[i] == w[i] && IsDigit(w[i]); }
      else if i > k { assert n[i] == f[i - k - 1] && IsDigit(f[i - k - 1]); }
    }
    FindAbsent(n, {'e', 'E'});
  }

  /** A decimal numeral `w.f` reads as its whole part plus its fraction. */
  lemma DecimalNumeralValue(w: string, f: string)
    requires AllDigits(w) && AllDigits(f) && f != []
    ensures JsNumber(w + ['.'] + f) == Some(DecimalValue(w, f))
  {
    var n := w + ['.'] + f;
    assert n[0] == (if |w| > 0 then w[0] else '.') && n[|n| - 1] == f[|f| - 1];
    NumeralCharNotSpace(n[0]);
    NumeralCharNotSpace(n[|n| - 1]);
    UnsignedJsNumber(n);
    DecimalNoExponent(w, f);
    MantissaValue(w, f);
  }

  /** A `+` in front of an unsigned numeral changes nothing; a `-` negates it. */
  lemma SignPrefix(u: string)
    requires u != [] && (IsDigit(u[0]) || u[0] == '.') && IsDigit(u[|u| - 1])
    ensures JsNumber(['+'] + u) == JsNumber(u)
    ensures JsNumber(['-'] + u) == Negated(JsNumber(u))
  {
    NumeralCharNotSpace(u[0]);
    NumeralCharNotSpace(u[|u| - 1]);
    UnsignedJsNumber(u);
    PlusJsNumber(u);
    MinusJsNumber(u);
  }

  /** A numeral matched by the regular expression `[-+]?\d*\.?\d+`. */
  predicate IsSignedNumeral(s: string) {
    var u := if s != [] && IsSign(s[0]) then s[1..] else s;
    u != [] && IsDigit(u[|u| - 1]) &&
    (AllDigits(u) ||
     (exists k :: 0 <= k < |u| - 1 && u[k] == '.' && AllDigits(u[..k]) && AllDigits(u[k + 1..])))
  }

  /** The unsigned part of such a numeral is a mantissa without exponent. */
  lemma UnsignedNumeralConverts(u: string)
    requires u != [] && IsDigit(u[|u| - 1])
    requires AllDigits(u) ||
      (exists k :: 0 <= k < |u| - 1 && u[k] == '.' && AllDigits(u[..k]) && AllDigits(u[k + 1..]))
    ensures UnsignedDecimal(u).Some?
  {
    if AllDigits(u) {
      DigitsConvert(u);
    } else {
      var k :| 0 <= k < |u| - 1 && u[k] == '.' && AllDigits(u[..k]) && AllDigits(u[k + 1..]);
      var w, f := u[..k], u[k + 1..];
      assert AllDigits(w) && AllDigits(f);
      forall i | 0 <= i < |u| ensures u[i] !in {'e', 'E'} {
        if i < k { assert u[i] == w[i] && IsDigit(w[i]); }
        else if i > k { assert u[i] == f[i - k - 1] && IsDigit(f[i - k - 1]); }
      }
      FindAbsent(u, {'e', 'E'});
      forall i | 0 <= i < k ensures u[i] !in {'.'} {
        assert u[i] == w[i] && IsDigit(w[i]);
      }
      FindAt(u, {'.'}, k);
    }
  }

  /** Every numeral of that shape converts to a number (`Number` never yields `NaN` on it). */
  lemma SignedNumeralConverts(s: string)
    requires IsSignedNumeral(s)
    ensures JsNumber(s).Some?
  {
    var u := if s != [] && IsSign(s[0]) then s[1..] else s;
    assert u[|u| - 1] == s[|s| - 1];
    NumeralCharNotSpace(s[|s| - 1]);
    if !IsSign(s[0]) {
      assert s[0] == u[0];
      if AllDigits(u) {
        assert IsDigit(u[0]);
      } else {
        var k :| 0 <= k < |u| - 1 && u[k] == '.' && AllDigits(u[..k]) && AllDigits(u[k + 1..]);
        if k > 0 {
          var w := u[..k];
          assert AllDigits(w) && u[0] == w[0] && IsDigit(w[0]);
        }
      }
    }
    NumeralCharNotSpace(s[0]);
    NoSpaceTrim(s);
    UnsignedNumeralConverts(u);
  }
}
