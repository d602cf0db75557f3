/**
 * The two "by" operations of a change rule: `applyBy`, which moves the
 * previous value of a variable, and `applyByIndependent`, which computes a
 * value from a row of the master table.  Both accept a numeric shorthand
 * (`+10`, `*1.1`, `col / 2`) and otherwise hand the text to the evaluator.
 */
module RuleEngine {
  import opened Wrappers
  import opened JsText
  import opened Expressions

  /** The operator characters of the numeric shorthand, `[+\-*\/^]`. */
  predicate IsShorthandOp(c: char) {
    c == '+' || c == '-' || c == '*' || c == '/' || c == '^'
  }

  /** `base <op> num` as both shorthand paths compute it: division by 0 gives 0. */
  function ApplyShorthand(h: Host, op: char, base: real, num: real): (r: Value)
    requires IsShorthandOp(op)
    ensures op == '/' && num == 0.0 ==> r == Num(0.0)
    ensures op != '^' ==> r.Num?
    ensures !r.Bool?
    ensures op == '^' && num == 0.0 ==> r == Num(1.0)
  {
    if op == '+' then Num(base + num)
    else if op == '-' then Num(base - num)
    else if op == '*' then Num(base * num)
    else if op == '/' then (if num == 0.0 then Num(0.0) else Num(base / num))
    else Power(h, Num(base), Num(num))
  }

  /** Undoing a shorthand step: `-n` after `+n`, and `/n` after `*n` for `n != 0`, give back the base. */
  lemma ShorthandInverse(h: Host, base: real, num: real)
    ensures ApplyShorthand(h, '-', ApplyShorthand(h, '+', base, num).x, num) == Num(base)
    ensures num != 0.0 ==> ApplyShorthand(h, '/', ApplyShorthand(h, '*', base, num).x, num) == Num(base)
  {
    if num != 0.0 {
      assert ApplyShorthand(h, '*', base, num).x == base * num;
      assert base * num / num == base;
    }
  }

  /**
   * `applyBy(prev, byExpr, vars)`: a blank expression keeps `prev`; an
   * operator followed by something `Number` accepts is the shorthand, left
   * untruncated; any other expression starting with an operator is
   * evaluated as `prev` followed by it; the rest is evaluated as written.
   */
  function ApplyBy(h: Host, prev: real, byExpr: string, vars: map<string, real>): (r: Value)
    ensures !r.Bool?
    ensures r.NonFinite? ==> Trim(byExpr) != [] && Trim(byExpr)[0] == '^'
  {
    var expr := Trim(byExpr);
    if expr == [] then Num(prev)
    else
      var prefixed := IsShorthandOp(expr[0]);
      var n := if prefixed then JsNumber(expr[1..]) else None;
      if n.Some? then ApplyShorthand(h, expr[0], prev, n.value)
      else Num(SafeEval(h, if prefixed then "prev" + expr else expr, Some(prev), vars))
  }

  lemma OperatorNotSpace(op: char)
    requires IsShorthandOp(op)
    ensures !IsSpace(op)
  {
  }

  /** A blank or white-space-only expression leaves the value unchanged. */
  lemma ApplyByBlank(h: Host, prev: real, byExpr: string, vars: map<string, real>)
    requires AllSpace(byExpr)
    ensures ApplyBy(h, prev, byExpr, vars) == Num(prev)
  {
    TrimBlank(byExpr);
  }

  /**
   * An operator followed by any text `s` that `Number` reads as `x` (a
   * decimal such as `1.1`, a signed or exponent literal, surrounding white
   * space) applies the shorthand with `x`, untruncated.
   */
  lemma ApplyByNumeral(h: Host, prev: real, byExpr: string, op: char, s: string, x: real,
                       vars: map<string, real>)
    requires IsShorthandOp(op) && Trim(byExpr) == [op] + s && JsNumber(s) == Some(x)
    ensures ApplyBy(h, prev, byExpr, vars) == ApplyShorthand(h, op, prev, x)
  {
    assert Trim(byExpr)[1..] == s;
  }

  /** `op` followed by the decimal numeral `w.f` applies the shorthand with `w + f / 10^|f|`. */
  lemma ApplyByDecimal(h: Host, prev: real, op: char, w: string, f: string, vars: map<string, real>)
    requires IsShorthandOp(op) && AllDigits(w) && AllDigits(f) && f != []
    ensures ApplyBy(h, prev, [op] + (w + ['.'] + f), vars) == ApplyShorthand(h, op, prev, DecimalValue(w, f))
  {
    var n := w + ['.'] + f;
    var t := [op] + n;
    DecimalNumeralValue(w, f);
    assert t[|t| - 1] == f[|f| - 1];
    NumeralCharNotSpace(f[|f| - 1]);
    OperatorNotSpace(op);
    NoSpaceTrim(t);
    ApplyByNumeral(h, prev, t, op, n, DecimalValue(w, f), vars);
  }

  /**
   * Outside the shorthand `applyBy` fails closed: text that does not parse,
   * or refers to an unknown name, leaves `prev`; text that evaluates yields
   * a whole number of hundredths.
   */
  lemma ApplyByGeneral(h: Host, prev: real, byExpr: string, vars: map<string, real>)
    requires Trim(byExpr) != []
    requires !(IsShorthandOp(Trim(byExpr)[0]) && JsNumber(Trim(byExpr)[1..]).Some?)
    ensures var t := Trim(byExpr);
      var text := if IsShorthandOp(t[0]) then "prev" + t else t;
      var r := ApplyBy(h, prev, byExpr, vars);
      var sc := Scope(Some(prev), vars);
      r.Num? &&
      (h.parse(text).None? ==> r.x == prev) &&
      (h.parse(text).Some? && !Resolves(sc, h.parse(text).value) ==> r.x == prev) &&
      (h.parse(text).Some? && Resolves(sc, h.parse(text).value) ==> IsHundredths(r.x)) &&
      (h.parse(text).Some? && Resolves(sc, h.parse(text).value) && EvalNumber(h, text, sc).None? ==> r.x == 0.0) &&
      (EvalNumber(h, text, sc).Some? ==> TruncatedFrom(r.x, EvalNumber(h, text, sc).value))
  {
    var t := Trim(byExpr);
    var text := if IsShorthandOp(t[0]) then "prev" + t else t;
    SafeEvalOutcome(h, text, Some(prev), vars);
  }

  /** The expression `Round(prev/3, 2)`, as the parser reads it. */
  const RoundThird := Call(Round, [Bin(Div, Ref("prev"), Lit(3.0)), Lit(2.0)])

  /** `Round(prev/3, 2)` with `prev` 100 evaluates to 33.33. */
  lemma EvalRoundThird(h: Host, vars: map<string, real>)
    requires "prev" !in vars && "round" !in vars
    ensures Eval(h, Scope(Some(100.0), vars), RoundThird) == Success(Num(33.33))
  {
    var sc := Scope(Some(100.0), vars);
    var q := Bin(Div, Ref("prev"), Lit(3.0));
    assert Eval(h, sc, Ref("prev")) == Success(Num(100.0));
    assert Eval(h, sc, q) == Success(Num(100.0 / 3.0));
    assert [Lit(2.0)][1..] == [];
    assert Eval(h, sc, Lit(2.0)) == Success(Num(2.0));
    assert EvalArgs(h, sc, []) == Success([]);
    assert [Num(2.0)] + [] == [Num(2.0)];
    assert EvalArgs(h, sc, [Lit(2.0)]) == Success([Num(2.0)]);
    assert [q, Lit(2.0)][1..] == [Lit(2.0)];
    assert [Num(100.0 / 3.0)] + [Num(2.0)] == [Num(100.0 / 3.0), Num(2.0)];
    assert EvalArgs(h, sc, [q, Lit(2.0)]) == Success([Num(100.0 / 3.0), Num(2.0)]);
    DecimalScale(h, 2);
    assert IntPow(10.0, 2) == 100.0;
    assert JsMath.Round(100.0 / 3.0 * 100.0) == 3333;
    assert CallHelper(h, Round, [Num(100.0 / 3.0), Num(2.0)]) == Num(33.33);
  }

  /**
   * The worked example of rounding against the previous value: a rule whose
   * text parses to `Round(prev/3, 2)` turns 100 into 33.33.
   */
  lemma ApplyByRoundExample(h: Host, text: string, vars: map<string, real>)
    requires Trim(text) != [] && !IsShorthandOp(Trim(text)[0])
    requires h.parse(Trim(text)) == Some(RoundThird)
    requires "prev" !in vars && "round" !in vars
    ensures ApplyBy(h, 100.0, text, vars) == Num(33.33)
  {
    EvalRoundThird(h, vars);
    assert JsMath.Trunc(33.33 * 100.0) == 3333;
    assert TruncHundredths(33.33) == 33.33;
  }

  predicate IsWordChar(c: char) {
    'A' <= c <= 'Z' || 'a' <= c <= 'z' || '0' <= c <= '9' || c == '_'
  }

  /** A column name as the pattern `[A-Za-z_]\w*` accepts it. */
  predicate IsIdentifier(s: string) {
    s != [] && !IsDigit(s[0]) && forall i :: 0 <= i < |s| ==> IsWordChar(s[i])
  }

  /** The length of the longest prefix of `s` whose characters all satisfy `IsWordChar`. */
  function WordPrefix(s: string): (k: nat)
    ensures k <= |s|
    ensures forall i :: 0 <= i < k ==> IsWordChar(s[i])
    ensures k < |s| ==> !IsWordChar(s[k])
  {
    if s == [] || !IsWordChar(s[0]) then 0 else 1 + WordPrefix(s[1..])
  }

  /** The length of the longest prefix of `s` that is white space. */
  function SpacePrefix(s: string): (k: nat)
    ensures k <= |s|
    ensures AllSpace(s[..k])
    ensures k < |s| ==> !IsSpace(s[k])
  {
    if s == [] || !IsSpace(s[0]) then 0
    else
      var k := 1 + SpacePrefix(s[1..]);
      assert s[..k] == [s[0]] + s[1..][..k - 1];
      k
  }

  /** A successful match: the column, and the operator and numeral when present. */
  datatype ColumnForm = ColumnForm(col: string, tail: Option<(char, string)>)

  /**
   * The optional group `(?:\s*([+\-*\/^])\s*([-+]?\d*\.?\d+))?` followed by
   * `$`, matched against what follows the column name: `Some(None)` when
   * nothing follows, `Some(Some((op, numeral)))` for an operator and a
   * numeral, `None` when the pattern fails.
   */
  function MatchTail(rest: string): (m: Option<Option<(char, string)>>)
    ensures m == Some(None) <==> rest == []
    ensures m.Some? && m.value.Some? ==>
      var (op, num) := m.value.value;
      IsShorthandOp(op) && IsSignedNumeral(num)
  {
    if rest == [] then Some(None)
    else
      var i := SpacePrefix(rest);
      if i < |rest| && IsShorthandOp(rest[i]) then
        var after := rest[i + 1..];
        var num := after[SpacePrefix(after)..];
        if IsSignedNumeral(num) then Some(Some((rest[i], num))) else None
      else None
  }

  /**
   * The match of the regular expression
   * `^([A-Za-z_]\w*)(?:\s*([+\-*\/^])\s*([-+]?\d*\.?\d+))?$` against `t`.
   * The greedy `\w*` can only stop where the next character is not a word
   * character, so the column is the longest word prefix.
   */
  function MatchColumnForm(t: string): (m: Option<ColumnForm>)
    ensures m.Some? ==> IsIdentifier(m.value.col) && |m.value.col| <= |t| && t[..|m.value.col|] == m.value.col
    ensures m.Some? && m.value.tail.None? ==> t == m.value.col
    ensures m.Some? && m.value.tail.Some? ==>
      IsShorthandOp(m.value.tail.value.0) && IsSignedNumeral(m.value.tail.value.1)
  {
    var k := WordPrefix(t);
    if k == 0 || IsDigit(t[0]) then None
    else
      match MatchTail(t[k..])
      case Some(tail) => Some(ColumnForm(t[..k], tail))
      case None => None
  }

  /** White space, an operator, white space and a numeral match as that operator and numeral. */
  lemma MatchTailRoundTrip(s1: string, op: char, s2: string, num: string)
    requires AllSpace(s1) && AllSpace(s2) && IsShorthandOp(op) && IsSignedNumeral(num)
    ensures MatchTail(s1 + [op] + s2 + num) == Some(Some((op, num)))
  {
    var tail2 := s2 + num;
    var tail1 := [op] + tail2;
    var rest := s1 + tail1;
    AppendAssoc(s1, [op], s2);
    AppendAssoc(s1 + [op], s2, num);
    AppendAssoc(s1, [op] + s2, num);
    AppendAssoc([op], s2, num);
    assert SpacePrefix(rest) == |s1| by {
      OperatorNotSpace(op);
      SpacePrefixOf(s1, tail1);
    }
    assert rest[|s1|] == op && rest[|s1| + 1..] == tail2;
    assert tail2[SpacePrefix(tail2)..] == num by {
      NumeralNotSpaceFirst(num);
      SpacePrefixOf(s2, num);
    }
  }

  /** After a column name, the match is decided by what follows it. */
  lemma MatchColumnFormSplit(col: string, rest: string)
    requires IsIdentifier(col) && (rest == [] || !IsWordChar(rest[0]))
    ensures MatchTail(rest).Some? ==>
      MatchColumnForm(col + rest) == Some(ColumnForm(col, MatchTail(rest).value))
  {
    var t := col + rest;
    WordPrefixOf(col, rest);
    assert t[..|col|] == col && t[|col|..] == rest && t[0] == col[0];
  }

  /**
   * The pattern accepts a column name followed by white space, an operator,
   * white space and a numeral, and gives back exactly those parts.
   */
  lemma MatchColumnFormRoundTrip(col: string, s1: string, op: char, s2: string, num: string)
    requires IsIdentifier(col) && AllSpace(s1) && AllSpace(s2)
    requires IsShorthandOp(op) && IsSignedNumeral(num)
    ensures MatchColumnForm(col + s1 + [op] + s2 + num) == Some(ColumnForm(col, Some((op, num))))
  {
    var rest := s1 + [op] + s2 + num;
    MatchTailRoundTrip(s1, op, s2, num);
    TailStartsOutsideWord(s1, op, s2 + num);
    MatchColumnFormSplit(col, rest);
    AppendAssoc(col, s1, [op]);
    AppendAssoc(col, s1 + [op], s2);
    AppendAssoc(col, s1 + [op] + s2, num);
  }

  /** What `MatchTail` accepts is white space, the operator, white space and the numeral. */
  lemma MatchTailShape(rest: string, op: char, num: string) returns (s1: string, s2: string)
    requires MatchTail(rest) == Some(Some((op, num)))
    ensures AllSpace(s1) && AllSpace(s2) && rest == s1 + [op] + s2 + num
  {
    var i := SpacePrefix(rest);
    var after := rest[i + 1..];
    var j := SpacePrefix(after);
    assert op == rest[i] && num == after[j..];
    s1, s2 := rest[..i], after[..j];
    SplitAround(rest, i);
    SplitAround(after, j);
    AppendAssoc(s1 + [op], s2, num);
  }

  /** `s` is the parts before `i`, at and after it. */
  lemma SplitAround(s: string, i: nat)
    requires i <= |s|
    ensures s == s[..i] + s[i..]
    ensures i < |s| ==> s == s[..i] + [s[i]] + s[i + 1..]
  {
    if i < |s| {
      assert s[i..] == [s[i]] + s[i + 1..];
    }
  }

  /**
   * Conversely, whatever the pattern accepts is a column name alone, or a
   * column name, white space, an operator, white space and a numeral.
   */
  lemma MatchColumnFormShape(t: string)
    ensures var m := MatchColumnForm(t);
      m.Some? && m.value.tail.None? ==> IsIdentifier(t) && t == m.value.col
    ensures var m := MatchColumnForm(t);
      m.Some? && m.value.tail.Some? ==>
        var (col, op, num) := (m.value.col, m.value.tail.value.0, m.value.tail.value.1);
        IsIdentifier(col) && IsShorthandOp(op) && IsSignedNumeral(num) &&
        exists s1, s2 :: AllSpace(s1) && AllSpace(s2) && t == col + s1 + [op] + s2 + num
  {
    var m := MatchColumnForm(t);
    if m.Some? && m.value.tail.Some? {
      var k := WordPrefix(t);
      var rest := t[k..];
      var (op, num) := m.value.tail.value;
      assert MatchTail(rest) == Some(Some((op, num)));
      var s1, s2 := MatchTailShape(rest, op, num);
      var col := t[..k];
      assert t == col + rest;
      AppendAssoc(col, s1 + [op] + s2, num);
      AppendAssoc(col, s1 + [op], s2);
      AppendAssoc(col, s1, [op]);
      assert t == col + s1 + [op] + s2 + num;
    }
  }

  /** The pattern accepts a column name alone, with no operator and numeral. */
  lemma MatchColumnAlone(col: string)
    requires IsIdentifier(col)
    ensures MatchColumnForm(col) == Some(ColumnForm(col, None))
  {
    MatchColumnFormSplit(col, []);
    assert col + [] == col;
  }

  lemma TailStartsOutsideWord(s1: string, op: char, tail: string)
    requires AllSpace(s1) && IsShorthandOp(op)
    ensures var rest := s1 + [op] + tail; rest != [] && !IsWordChar(rest[0])
  {
    var rest := s1 + [op] + tail;
    assert rest[0] == if s1 == [] then op else s1[0];
    NotWordChar(rest[0]);
  }

  lemma NotWordChar(c: char)
    requires IsSpace(c) || IsShorthandOp(c)
    ensures !IsWordChar(c)
  {
  }

  /** A signed numeral starts with a sign, a digit or a point, none of them white space. */
  lemma NumeralNotSpaceFirst(num: string)
    requires IsSignedNumeral(num)
    ensures num != [] && !IsSpace(num[0])
  {
    var u := if IsSign(num[0]) then num[1..] else num;
    if IsSign(num[0]) {
    } else if AllDigits(u) {
      assert IsDigit(u[0]);
    } else {
      var k :| 0 <= k < |u| - 1 && u[k] == '.' && AllDigits(u[..k]) && AllDigits(u[k + 1..]);
      if k > 0 {
        var w := u[..k];
        assert AllDigits(w) && w[0] == num[0];
      }
    }
    NumeralCharNotSpace(num[0]);
  }

  lemma {:induction false} WordPrefixOf(w: string, rest: string)
    requires forall i :: 0 <= i < |w| ==> IsWordChar(w[i])
    requires rest == [] || !IsWordChar(rest[0])
    ensures WordPrefix(w + rest) == |w|
  {
    if w == [] {
      assert w + rest == rest;
    } else {
      assert (w + rest)[0] == w[0];
      assert (w + rest)[1..] == w[1..] + rest;
      WordPrefixOf(w[1..], rest);
    }
  }

  lemma {:induction false} SpacePrefixOf(s: string, rest: string)
    requires AllSpace(s)
    requires rest != [] && !IsSpace(rest[0])
    ensures SpacePrefix(s + rest) == |s|
  {
    if s == [] {
      assert s + rest == rest;
    } else {
      assert (s + rest)[0] == s[0];
      assert (s + rest)[1..] == s[1..] + rest;
      SpacePrefixOf(s[1..], rest);
    }
  }

  /**
   * `applyByIndependent(row, expr)`: a blank expression throws; a column name,
   * optionally followed by an operator and a numeral, reads the column
   * (throwing when the row has no such column) and applies the shorthand;
   * any other expression is evaluated over the row's columns, with no `prev`.
   */
  function ApplyByIndependent(h: Host, row: map<string, real>, expr: string): (r: Result<Value>)
    ensures r.Failure? <==>
      (Trim(expr) == [] ||
       (MatchColumnForm(Trim(expr)).Some? && MatchColumnForm(Trim(expr)).value.col !in row))
  {
    var t := Trim(expr);
    if t == [] then Failure("Empty BY expression")
    else
      match MatchColumnForm(t)
      case Some(ColumnForm(col, tail)) =>
        if col !in row then Failure("Column \"" + col + "\" not found in master row")
        else
          (match tail
           case None => Success(Num(row[col]))
           case Some((op, num)) =>
             SignedNumeralConverts(num);
             Success(ApplyShorthand(h, op, row[col], JsNumber(num).value)))
      case None => Success(Num(SafeEval(h, t, None, row)))
  }

  /** A blank expression throws. */
  lemma IndependentBlank(h: Host, row: map<string, real>, expr: string)
    requires AllSpace(expr)
    ensures ApplyByIndependent(h, row, expr).Failure?
  {
    TrimBlank(expr);
  }

  /** A column name alone reads the column, and throws when the row has none. */
  lemma IndependentColumn(h: Host, row: map<string, real>, col: string)
    requires IsIdentifier(col)
    ensures col in row ==> ApplyByIndependent(h, row, col) == Success(Num(row[col]))
    ensures col !in row ==> ApplyByIndependent(h, row, col).Failure?
  {
    assert IsWordChar(col[0]) && IsWordChar(col[|col| - 1]);
    NoSpaceTrim(col);
    MatchColumnAlone(col);
  }

  /** A numeral the pattern accepts ends in a digit. */
  lemma NumeralEndsInDigit(num: string)
    requires IsSignedNumeral(num)
    ensures num != [] && IsDigit(num[|num| - 1])
  {
    var u := if num != [] && IsSign(num[0]) then num[1..] else num;
    assert u[|u| - 1] == num[|num| - 1];
  }

  /** `col op num` neither begins nor ends with white space. */
  lemma ColumnShorthandTrimmed(col: string, s1: string, op: char, s2: string, num: string)
    requires IsIdentifier(col) && IsSignedNumeral(num)
    ensures Trim(col + s1 + [op] + s2 + num) == col + s1 + [op] + s2 + num
  {
    var t := col + s1 + [op] + s2 + num;
    NumeralEndsInDigit(num);
    assert t[0] == col[0] && IsWordChar(col[0]);
    assert t[|t| - 1] == num[|num| - 1];
    NumeralCharNotSpace(num[|num| - 1]);
    NoSpaceTrim(t);
  }

  /**
   * `col op num`, with any white space around the operator and any numeral
   * the pattern accepts, reads the column and applies the shorthand with the
   * number `Number(num)`; it throws when the row has no such column.
   */
  lemma IndependentShorthand(h: Host, row: map<string, real>, col: string, s1: string, op: char,
                             s2: string, num: string, x: real)
    requires IsIdentifier(col) && AllSpace(s1) && AllSpace(s2) && IsShorthandOp(op)
    requires IsSignedNumeral(num) && JsNumber(num) == Some(x)
    ensures col in row ==>
      ApplyByIndependent(h, row, col + s1 + [op] + s2 + num) == Success(ApplyShorthand(h, op, row[col], x))
    ensures col !in row ==> ApplyByIndependent(h, row, col + s1 + [op] + s2 + num).Failure?
  {
    ColumnShorthandMatches(col, s1, op, s2, num);
    IndependentMatched(h, row, col + s1 + [op] + s2 + num, col, op, num, x);
  }

  lemma ColumnShorthandMatches(col: string, s1: string, op: char, s2: string, num: string)
    requires IsIdentifier(col) && AllSpace(s1) && AllSpace(s2) && IsShorthandOp(op) && IsSignedNumeral(num)
    ensures var t := col + s1 + [op] + s2 + num;
      t != [] && Trim(t) == t && MatchColumnForm(t) == Some(ColumnForm(col, Some((op, num))))
  {
    MatchColumnFormRoundTrip(col, s1, op, s2, num);
    ColumnShorthandTrimmed(col, s1, op, s2, num);
  }

  /** Once the text is known to match as `col op num`, the result follows the column and the number. */
  lemma IndependentMatched(h: Host, row: map<string, real>, t: string, col: string, op: char,
                           num: string, x: real)
    requires t != [] && Trim(t) == t && IsShorthandOp(op)
    requires MatchColumnForm(t) == Some(ColumnForm(col, Some((op, num))))
    requires JsNumber(num) == Some(x)
    ensures col in row ==> ApplyByIndependent(h, row, t) == Success(ApplyShorthand(h, op, row[col], x))
    ensures col !in row ==> ApplyByIndependent(h, row, t).Failure?
  {
  }

  /**
   * Outside the column shorthand `applyByIndependent` never throws and always
   * yields a whole number of hundredths: with no previous value, a failed
   * evaluation falls back to 0.
   */
  lemma IndependentGeneral(h: Host, row: map<string, real>, expr: string)
    requires Trim(expr) != [] && MatchColumnForm(Trim(expr)).None?
    ensures ApplyByIndependent(h, row, expr).Success?
    ensures var r := ApplyByIndependent(h, row, expr).value; r.Num? && IsHundredths(r.x)
    ensures h.parse(Trim(expr)).None? ==> ApplyByIndependent(h, row, expr) == Success(Num(0.0))
    ensures EvalNumber(h, Trim(expr), Scope(None, row)).None? ==> ApplyByIndependent(h, row, expr) == Success(Num(0.0))
    ensures var x := EvalNumber(h, Trim(expr), Scope(None, row));
      x.Some? ==> TruncatedFrom(ApplyByIndependent(h, row, expr).value.x, x.value)
  {
    var t := Trim(expr);
    SafeEvalOutcome(h, t, None, row);
    assert IsHundredths(0.0);
  }
}
