/**
 * The expression language of the rule engine and its fail-closed evaluator
 * (`_safeEval`).  An expression is a JavaScript arithmetic expression over
 * numbers, the previous value `prev`, variables, and the helpers `rem`,
 * `trunc`, `round`, `roundUp`, `roundDown`, `Math.abs`, `AND`, `OR`, `NOT`
 * and `IF`.  Turning text into an `Expr` (the regex normaliser followed by
 * the JavaScript parser) is a parameter of the model: `Host.parse`.
 */
module Expressions {
  import opened Wrappers
  import JsMath

  /**
   * A JavaScript value an expression produces.  `NonFinite` stands for every
   * number-like value that `isFinite` rejects: `NaN`, the infinities and
   * `undefined`.  `Obj(name)` is the function or object the evaluator binds
   * to the parameter `name`: a helper, `Math` or `vars`.
   */
  datatype Value = Num(x: real) | Bool(b: bool) | NonFinite | Obj(name: string)

  datatype Op = Add | Sub | Mul | Div | Mod | Pow | Eq | Ne | Lt | Gt | Le | Ge

  datatype Helper = Rem | Trunc | Round | RoundUp | RoundDown | Abs | And | Or | Not | If

  datatype Expr =
    | Lit(value: real)
    | Ref(name: string)
    | Neg(operand: Expr)
    | Bin(op: Op, left: Expr, right: Expr)
    | Call(helper: Helper, args: seq<Expr>)

  /**
   * What the model does not define itself: the parser (`None` for a syntax
   * error) and `Math.pow` at a fractional exponent (`None` for `NaN`).
   */
  datatype Host = Host(parse: string -> Option<Expr>, pow: (real, real) -> Option<real>)

  /** The names an expression sees: `prev` (absent means `undefined`) and the variables. */
  datatype Scope = Scope(prev: Option<real>, vars: map<string, real>)

  /** The identifier through which each helper is reached (`ABS(` becomes `Math.abs(`). */
  function HelperName(f: Helper): string {
    match f
    case Rem => "rem"
    case Trunc => "trunc"
    case Round => "round"
    case RoundUp => "roundUp"
    case RoundDown => "roundDown"
    case Abs => "Math"
    case And => "AND"
    case Or => "OR"
    case Not => "NOT"
    case If => "IF"
  }

  /** `Number(v)`, with `None` for `NaN`. */
  function ToNumber(v: Value): (r: Option<real>)
    ensures r.None? <==> v.NonFinite? || v.Obj?
  {
    match v
    case Num(x) => Some(x)
    case Bool(b) => Some(if b then 1.0 else 0.0)
    case NonFinite => None
    case Obj(_) => None
  }

  function OfNumber(r: Option<real>): (v: Value)
    ensures ToNumber(v) == r
  {
    match r
    case Some(x) => Num(x)
    case None => NonFinite
  }

  /** `Boolean(v)`. */
  predicate Truthy(v: Value) {
    match v
    case Num(x) => x != 0.0
    case Bool(b) => b
    case NonFinite => false
    case Obj(_) => true
  }

  predicate IsInteger(x: real) {
    x.Floor as real == x
  }

  function IntPow(x: real, n: nat): real {
    if n == 0 then 1.0 else x * IntPow(x, n - 1)
  }

  lemma IntPowNonZero(x: real, n: nat)
    requires x != 0.0
    ensures IntPow(x, n) != 0.0
  {
  }

  /** `a ** b` (and `Math.pow`): exact at integer exponents, the host's otherwise. */
  function Power(h: Host, a: Value, b: Value): (r: Value)
    ensures ToNumber(b) == Some(0.0) ==> r == Num(1.0)
    ensures ToNumber(b) != Some(0.0) && (a.NonFinite? || b.NonFinite?) ==> r == NonFinite
    ensures !r.Bool?
  {
    var x, y := ToNumber(a), ToNumber(b);
    if y == Some(0.0) then Num(1.0)
    else if x.None? || y.None? then NonFinite
    else if IsInteger(y.value) then
      var n := y.value.Floor;
      if n >= 0 then Num(IntPow(x.value, n))
      else if x.value == 0.0 then NonFinite
      else IntPowNonZero(x.value, -n); Num(1.0 / IntPow(x.value, -n))
    else OfNumber(h.pow(x.value, y.value))
  }

  /** The arithmetic operators on two numbers; division and `%` by zero are not finite. */
  function Arith(op: Op, x: real, y: real): (r: Value)
    requires op in {Add, Sub, Mul, Div, Mod}
    ensures op in {Div, Mod} ==> (r.NonFinite? <==> y == 0.0)
  {
    if op == Add then Num(x + y)
    else if op == Sub then Num(x - y)
    else if op == Mul then Num(x * y)
    else if y == 0.0 then NonFinite
    else if op == Div then Num(x / y)
    else Num(JsMath.Remainder(x, y))
  }

  /** Both operands are numbers (after `Number`) related as `op` says. */
  predicate Compare(op: Op, a: Value, b: Value)
    requires op in {Eq, Lt, Gt, Le, Ge}
  {
    var x, y := ToNumber(a), ToNumber(b);
    x.Some? && y.Some? &&
    match op
    case Eq => x.value == y.value
    case Lt => x.value < y.value
    case Gt => x.value > y.value
    case Le => x.value <= y.value
    case _ => x.value >= y.value
  }

  /**
   * `a == b`: a function or object equals only itself; otherwise both sides
   * are compared as numbers.
   */
  predicate LooseEqual(a: Value, b: Value) {
    if a.Obj? || b.Obj? then a == b else Compare(Eq, a, b)
  }

  /** A binary operator applied to two values, with JavaScript's coercions. */
  function Binary(h: Host, op: Op, a: Value, b: Value): (r: Value)
    ensures op in {Eq, Ne, Lt, Gt, Le, Ge} ==> r.Bool?
    ensures op in {Add, Sub, Mul, Div, Mod} && (a.NonFinite? || b.NonFinite?) ==> r == NonFinite
  {
    match op
    case Pow => Power(h, a, b)
    case Ne => Bool(!LooseEqual(a, b))
    case Eq => Bool(LooseEqual(a, b))
    case Lt => Bool(Compare(op, a, b))
    case Gt => Bool(Compare(op, a, b))
    case Le => Bool(Compare(op, a, b))
    case Ge => Bool(Compare(op, a, b))
    case _ =>
      match (ToNumber(a), ToNumber(b))
      case (Some(x), Some(y)) => Arith(op, x, y)
      case _ => NonFinite
  }

  /** The `i`-th argument of a call; a missing one is `undefined`. */
  function Arg(vs: seq<Value>, i: nat): Value {
    if i < |vs| then vs[i] else NonFinite
  }

  /** The `i`-th argument of a call, or the parameter's default when it is missing. */
  function ArgOr(vs: seq<Value>, i: nat, default: real): Value {
    if i < |vs| then vs[i] else Num(default)
  }

  datatype Rounding = TowardZero | Nearest | Up | Down

  /** `Math.trunc`, `Math.round`, `Math.ceil`, `Math.floor`. */
  function RoundTo(mode: Rounding, x: real): (n: int)
    ensures x - 1.0 < n as real < x + 1.0
  {
    match mode
    case TowardZero => JsMath.Trunc(x)
    case Nearest => JsMath.Round(x)
    case Up => JsMath.Ceil(x)
    case Down => JsMath.Floor(x)
  }

  /** `Math.<mode>(v * 10 ** d) / 10 ** d`: the shape shared by `trunc` and the three `round` helpers. */
  function Scaled(h: Host, mode: Rounding, v: Value, d: Value): (r: Value)
    ensures !r.Bool?
  {
    match (ToNumber(v), ToNumber(Power(h, Num(10.0), d)))
    case (Some(x), Some(f)) => if f == 0.0 then NonFinite else Num(Rescale(mode, x, f))
    case _ => NonFinite
  }

  function Rescale(mode: Rounding, x: real, f: real): real
    requires f != 0.0
  {
    RoundTo(mode, x * f) as real / f
  }

  /** `rem(a, b)`: 0 when `b === 0`, otherwise `a - Math.trunc(a / b) * b`. */
  function RemHelper(a: Value, b: Value): (r: Value)
    ensures b == Num(0.0) ==> r == Num(0.0)
    ensures !r.Bool?
  {
    if b == Num(0.0) then Num(0.0)
    else
      match (ToNumber(a), ToNumber(b))
      case (Some(x), Some(y)) => if y == 0.0 then NonFinite else Num(JsMath.Remainder(x, y))
      case _ => NonFinite
  }

  /** A helper applied to the values of its arguments. */
  function CallHelper(h: Host, f: Helper, vs: seq<Value>): Value {
    match f
    case Rem => RemHelper(Arg(vs, 0), Arg(vs, 1))
    case Trunc => Scaled(h, TowardZero, Arg(vs, 0), ArgOr(vs, 1, 2.0))
    case Round => Scaled(h, Nearest, Arg(vs, 0), ArgOr(vs, 1, 0.0))
    case RoundUp => Scaled(h, Up, Arg(vs, 0), ArgOr(vs, 1, 0.0))
    case RoundDown => Scaled(h, Down, Arg(vs, 0), ArgOr(vs, 1, 0.0))
    case Abs => OfAbs(ToNumber(Arg(vs, 0)))
    case And => Bool(forall i | 0 <= i < |vs| :: Truthy(vs[i]))
    case Or => Bool(exists i | 0 <= i < |vs| :: Truthy(vs[i]))
    case Not => Bool(!Truthy(Arg(vs, 0)))
    case If => if Truthy(Arg(vs, 0)) then Arg(vs, 1) else Arg(vs, 2)
  }

  function OfAbs(x: Option<real>): Value {
    match x
    case Some(v) => Num(JsMath.Abs(v))
    case None => NonFinite
  }

  /** The parameters of the evaluated function other than `prev`: the helpers, `Math` and `vars`. */
  const ParamNames: set<string> :=
    {"rem", "trunc", "round", "roundUp", "roundDown", "AND", "OR", "NOT", "IF", "Math", "vars"}

  /**
   * Name resolution inside `with(vars) { ... }`: the variables first, then
   * the function's parameters, then the globals that name non-finite values.
   */
  function Lookup(sc: Scope, name: string): Result<Value> {
    if name in sc.vars then Success(Num(sc.vars[name]))
    else if name == "prev" then Success(OfNumber(sc.prev))
    else if name in ParamNames then Success(Obj(name))
    else if name in {"NaN", "Infinity", "undefined"} then Success(NonFinite)
    else Failure(name + " is not defined")
  }

  function Negate(v: Value): Value {
    OfNumber(match ToNumber(v) case Some(x) => Some(-x) case None => None)
  }

  /**
   * Evaluate `e`, left to right, all arguments of a call before the call
   * (so `IF` evaluates both branches).  A failure is the `ReferenceError`
   * of an unknown name, or the `TypeError` of calling a helper that a
   * variable of the same name hides.
   */
  function Eval(h: Host, sc: Scope, e: Expr): Result<Value>
    decreases e
  {
    match e
    case Lit(x) => Success(Num(x))
    case Ref(name) => Lookup(sc, name)
    case Neg(a) =>
      (match Eval(h, sc, a)
       case Success(v) => Success(Negate(v))
       case Failure(m) => Failure(m))
    case Bin(op, a, b) =>
      (match Eval(h, sc, a)
       case Failure(m) => Failure(m)
       case Success(x) =>
         match Eval(h, sc, b)
         case Failure(m) => Failure(m)
         case Success(y) => Success(Binary(h, op, x, y)))
    case Call(f, args) =>
      if HelperName(f) in sc.vars then Failure(HelperName(f) + " is not a function")
      else
        match EvalArgs(h, sc, args)
        case Failure(m) => Failure(m)
        case Success(vs) => Success(CallHelper(h, f, vs))
  }

  function EvalArgs(h: Host, sc: Scope, args: seq<Expr>): (r: Result<seq<Value>>)
    ensures r.Success? ==> |r.value| == |args|
    decreases args
  {
    if args == [] then Success([])
    else
      match Eval(h, sc, args[0])
      case Failure(m) => Failure(m)
      case Success(v) =>
        match EvalArgs(h, sc, args[1..])
        case Failure(m) => Failure(m)
        case Success(vs) => Success([v] + vs)
  }

  /** The names `e` reads as values. */
  function RefNames(e: Expr): set<string>
    decreases e
  {
    match e
    case Lit(_) => {}
    case Ref(name) => {name}
    case Neg(a) => RefNames(a)
    case Bin(_, a, b) => RefNames(a) + RefNames(b)
    case Call(_, args) => ArgsRefNames(args)
  }

  function ArgsRefNames(args: seq<Expr>): set<string>
    decreases args
  {
    if args == [] then {} else RefNames(args[0]) + ArgsRefNames(args[1..])
  }

  /** The names `e` calls as helpers. */
  function CalledNames(e: Expr): set<string>
    decreases e
  {
    match e
    case Lit(_) => {}
    case Ref(_) => {}
    case Neg(a) => CalledNames(a)
    case Bin(_, a, b) => CalledNames(a) + CalledNames(b)
    case Call(f, args) => {HelperName(f)} + ArgsCalledNames(args)
  }

  function ArgsCalledNames(args: seq<Expr>): set<string>
    decreases args
  {
    if args == [] then {} else CalledNames(args[0]) + ArgsCalledNames(args[1..])
  }

  /** A name that evaluates without throwing. */
  predicate Bound(sc: Scope, name: string) {
    name in sc.vars || name in ParamNames || name in {"prev", "NaN", "Infinity", "undefined"}
  }

  /** Every name `e` reads is bound, and no helper it calls is hidden by a variable. */
  predicate Resolves(sc: Scope, e: Expr) {
    (forall n | n in RefNames(e) :: Bound(sc, n)) &&
    (forall n | n in CalledNames(e) :: n !in sc.vars)
  }

  predicate ArgsResolve(sc: Scope, args: seq<Expr>) {
    (forall n | n in ArgsRefNames(args) :: Bound(sc, n)) &&
    (forall n | n in ArgsCalledNames(args) :: n !in sc.vars)
  }

  /** Evaluation throws exactly when a name is unbound or a helper is hidden. */
  lemma {:induction false} EvalSucceeds(h: Host, sc: Scope, e: Expr)
    ensures Eval(h, sc, e).Success? <==> Resolves(sc, e)
    decreases e
  {
    match e
    case Lit(_) =>
    case Ref(name) =>
      assert RefNames(e) == {name} && CalledNames(e) == {};
    case Neg(a) =>
      EvalSucceeds(h, sc, a);
    case Bin(_, a, b) =>
      EvalSucceeds(h, sc, a);
      EvalSucceeds(h, sc, b);
    case Call(f, args) =>
      EvalArgsSucceed(h, sc, args);
  }

  lemma {:induction false} EvalArgsSucceed(h: Host, sc: Scope, args: seq<Expr>)
    ensures EvalArgs(h, sc, args).Success? <==> ArgsResolve(sc, args)
    decreases args
  {
    if args != [] {
      EvalSucceeds(h, sc, args[0]);
      EvalArgsSucceed(h, sc, args[1..]);
    }
  }

  /** `trunc(x, 2)`: `x` cut toward zero to whole hundredths. */
  function TruncHundredths(x: real): real {
    JsMath.Trunc(x * 100.0) as real / 100.0
  }

  /** A whole number of hundredths. */
  predicate IsHundredths(x: real) {
    IsInteger(x * 100.0)
  }

  /**
   * `trunc(x, 2)` is a whole number of hundredths, lies between 0 and `x`,
   * is less than a hundredth away from `x`, and is left unchanged by a
   * second truncation.
   */
  lemma TruncHundredthsSpec(x: real)
    ensures IsHundredths(TruncHundredths(x))
    ensures x >= 0.0 ==> 0.0 <= TruncHundredths(x) <= x
    ensures x <= 0.0 ==> x <= TruncHundredths(x) <= 0.0
    ensures x - 0.01 < TruncHundredths(x) < x + 0.01
    ensures TruncHundredths(TruncHundredths(x)) == TruncHundredths(x)
  {
    var t := JsMath.Trunc(x * 100.0);
    assert TruncHundredths(x) * 100.0 == t as real;
    assert JsMath.Trunc(t as real) == t;
  }

  /** The `trunc` helper at its default of two decimals is `TruncHundredths`. */
  lemma TruncHelperDefault(h: Host, x: real)
    ensures CallHelper(h, Trunc, [Num(x)]) == Num(TruncHundredths(x))
    ensures CallHelper(h, Trunc, [Num(x), Num(2.0)]) == Num(TruncHundredths(x))
  {
    assert IntPow(10.0, 2) == 100.0;
  }

  /**
   * `_safeEval(text, { prev, vars })`: evaluate, map a non-finite result to
   * 0 and truncate to two decimals; a syntax or runtime error yields
   * `prev ?? 0` instead, untruncated.
   */
  function SafeEval(h: Host, text: string, prev: Option<real>, vars: map<string, real>): real {
    match h.parse(text)
    case None => prev.GetOr(0.0)
    case Some(e) =>
      match Eval(h, Scope(prev, vars), e)
      case Failure(_) => prev.GetOr(0.0)
      case Success(v) => TruncHundredths(ToNumber(v).GetOr(0.0))
  }

  /** The number `text` evaluates to: it parses, evaluates without throwing, and is a number. */
  function EvalNumber(h: Host, text: string, sc: Scope): Option<real> {
    match h.parse(text)
    case None => None
    case Some(e) =>
      match Eval(h, sc, e)
      case Failure(_) => None
      case Success(v) => ToNumber(v)
  }

  /**
   * `r` is `x` cut toward zero to whole hundredths: a whole number of
   * hundredths less than a hundredth from `x`, on `x`'s side of zero and no
   * larger than `x` in magnitude.
   */
  predicate TruncatedFrom(r: real, x: real) {
    IsHundredths(r) && JsMath.Abs(r) <= JsMath.Abs(x) && x - 0.01 < r < x + 0.01 &&
    (x >= 0.0 ==> r >= 0.0) && (x <= 0.0 ==> r <= 0.0)
  }

  /** At most one value is `x` cut to hundredths. */
  lemma TruncatedFromUnique(r: real, r': real, x: real)
    requires TruncatedFrom(r, x) && TruncatedFrom(r', x)
    ensures r == r'
  {
    var n, n' := (r * 100.0).Floor, (r' * 100.0).Floor;
    assert r * 100.0 == n as real && r' * 100.0 == n' as real;
    assert -1.0 < (r - r') * 100.0 < 1.0;
    assert -1 < n - n' < 1;
  }

  /**
   * The evaluator fails closed: it returns `prev ?? 0` when the text does not
   * parse or evaluation throws, 0 when the result is not a finite number, and
   * otherwise the result cut toward zero to whole hundredths.
   */
  lemma SafeEvalOutcome(h: Host, text: string, prev: Option<real>, vars: map<string, real>)
    ensures h.parse(text).None? ==> SafeEval(h, text, prev, vars) == prev.GetOr(0.0)
    ensures h.parse(text).Some? && !Resolves(Scope(prev, vars), h.parse(text).value) ==>
      SafeEval(h, text, prev, vars) == prev.GetOr(0.0)
    ensures h.parse(text).Some? && Resolves(Scope(prev, vars), h.parse(text).value) &&
            EvalNumber(h, text, Scope(prev, vars)).None? ==>
      SafeEval(h, text, prev, vars) == 0.0
    ensures EvalNumber(h, text, Scope(prev, vars)).Some? ==>
      TruncatedFrom(SafeEval(h, text, prev, vars), EvalNumber(h, text, Scope(prev, vars)).value)
    ensures h.parse(text).Some? && Resolves(Scope(prev, vars), h.parse(text).value) ==>
      IsHundredths(SafeEval(h, text, prev, vars))
  {
    match h.parse(text)
    case None =>
    case Some(e) =>
      EvalSucceeds(h, Scope(prev, vars), e);
      match Eval(h, Scope(prev, vars), e)
      case Failure(_) =>
      case Success(v) =>
        TruncHundredthsSpec(ToNumber(v).GetOr(0.0));
        assert TruncHundredths(0.0) == 0.0;
  }

  /**
   * For `b != 0`, `rem(a, b)` differs from `a` by a whole multiple of `b`:
   * with `RemMatchesMod`'s bounds this pins it as the remainder of division
   * rounded toward zero.
   */
  lemma RemDivision(h: Host, a: real, b: real)
    requires b != 0.0
    ensures CallHelper(h, Rem, [Num(a), Num(b)]).Num?
    ensures IsInteger((a - CallHelper(h, Rem, [Num(a), Num(b)]).x) / b)
  {
    var q := JsMath.Trunc(a / b);
    assert CallHelper(h, Rem, [Num(a), Num(b)]) == Num(JsMath.Remainder(a, b));
    JsMath.RemainderQuotient(a, b);
    assert (q as real).Floor == q;
  }

  /** On numbers with a non-zero divisor `rem` and `%` agree: smaller than the divisor, with the dividend's sign. */
  lemma RemMatchesMod(h: Host, x: real, y: real)
    requires y != 0.0
    ensures CallHelper(h, Rem, [Num(x), Num(y)]) == Binary(h, Mod, Num(x), Num(y))
    ensures var r := CallHelper(h, Rem, [Num(x), Num(y)]).x;
      JsMath.Abs(r) < JsMath.Abs(y) && (x >= 0.0 ==> r >= 0.0) && (x <= 0.0 ==> r <= 0.0)
  {
  }

  lemma PowerWhole(h: Host, x: real, n: nat)
    ensures Power(h, Num(x), Num(n as real)) == Num(IntPow(x, n))
  {
    assert (n as real).Floor == n;
  }

  lemma {:induction false} IntPowAdd(x: real, m: nat, n: nat)
    ensures IntPow(x, m + n) == IntPow(x, m) * IntPow(x, n)
  {
    if m > 0 {
      IntPowAdd(x, m - 1, n);
    }
  }

  /**
   * At whole exponents `x ** (m + n)` is `x ** m * x ** n`, whatever the
   * host does at fractional ones, and `x ** 1` is `x`.
   */
  lemma PowerAdd(h: Host, x: real, m: nat, n: nat)
    ensures Power(h, Num(x), Num((m + n) as real)).Num?
    ensures Power(h, Num(x), Num((m + n) as real)).x ==
      Power(h, Num(x), Num(m as real)).x * Power(h, Num(x), Num(n as real)).x
    ensures Power(h, Num(x), Num(1.0)) == Num(x)
  {
    PowerWhole(h, x, m);
    PowerWhole(h, x, n);
    PowerWhole(h, x, m + n);
    PowerWhole(h, x, 1);
    IntPowAdd(x, m, n);
  }

  /** At a whole number of decimals `d`, the helpers scale by exactly `10^d`. */
  lemma DecimalScale(h: Host, d: nat)
    ensures IntPow(10.0, d) > 0.0
    ensures Power(h, Num(10.0), Num(d as real)) == Num(IntPow(10.0, d))
  {
    IntPowPositive(10.0, d);
    PowerWhole(h, 10.0, d);
  }

  /**
   * `roundDown(x, d)` at a whole number of decimals `d >= 0` is at most `x`
   * and less than `10^-d` below it (a multiple of `10^-d` by `RescaleExact`).
   */
  lemma RoundDownSpec(h: Host, x: real, d: nat)
    ensures IntPow(10.0, d) > 0.0
    ensures var f, r := IntPow(10.0, d), CallHelper(h, RoundDown, [Num(x), Num(d as real)]);
      r == Num(Rescale(Down, x, f)) && r.x <= x < r.x + 1.0 / f
  {
    var f := IntPow(10.0, d);
    DecimalScale(h, d);
    assert CallHelper(h, RoundDown, [Num(x), Num(d as real)]) == Num(Rescale(Down, x, f));
    ScaledDown(x, f);
  }

  /**
   * `roundUp(x, d)` at a whole number of decimals `d >= 0` is at least `x`
   * and less than `10^-d` above it (a multiple of `10^-d` by `RescaleExact`).
   */
  lemma RoundUpSpec(h: Host, x: real, d: nat)
    ensures IntPow(10.0, d) > 0.0
    ensures var f, r := IntPow(10.0, d), CallHelper(h, RoundUp, [Num(x), Num(d as real)]);
      r == Num(Rescale(Up, x, f)) && r.x - 1.0 / f < x <= r.x
  {
    var f := IntPow(10.0, d);
    DecimalScale(h, d);
    assert CallHelper(h, RoundUp, [Num(x), Num(d as real)]) == Num(Rescale(Up, x, f));
    ScaledUp(x, f);
  }

  /**
   * `round(x, d)` at a whole number of decimals `d >= 0` is within half of
   * `10^-d` of `x`, a half going up (a multiple of `10^-d` by `RescaleExact`).
   */
  lemma RoundSpec(h: Host, x: real, d: nat)
    ensures IntPow(10.0, d) > 0.0
    ensures var f, r := IntPow(10.0, d), CallHelper(h, Round, [Num(x), Num(d as real)]);
      r == Num(Rescale(Nearest, x, f)) && x - 0.5 / f < r.x <= x + 0.5 / f
  {
    var f := IntPow(10.0, d);
    DecimalScale(h, d);
    assert CallHelper(h, Round, [Num(x), Num(d as real)]) == Num(Rescale(Nearest, x, f));
    ScaledNearest(x, f);
  }

  lemma IntPowPositive(x: real, n: nat)
    requires x > 0.0
    ensures IntPow(x, n) > 0.0
  {
  }

  /** `Rescale` undoes the scaling: the result times `f` is the rounded integer. */
  lemma RescaleExact(mode: Rounding, x: real, f: real)
    requires f > 0.0
    ensures Rescale(mode, x, f) * f == RoundTo(mode, x * f) as real
    ensures IsInteger(Rescale(mode, x, f) * f)
  {
    var n := RoundTo(mode, x * f);
    assert (n as real / f) * f == n as real;
    assert (n as real).Floor == n;
  }

  lemma ScaledDown(x: real, f: real)
    requires f > 0.0
    ensures var r := Rescale(Down, x, f); r <= x < r + 1.0 / f
  {
    var n := JsMath.Floor(x * f);
    assert RoundTo(Down, x * f) == n;
    assert Rescale(Down, x, f) == n as real / f;
    DivideBounds(n as real, x * f, f);
    DivideBounds(x * f, n as real + 1.0, f);
    assert (x * f) / f == x;
    assert (n as real + 1.0) / f == n as real / f + 1.0 / f;
  }

  lemma ScaledUp(x: real, f: real)
    requires f > 0.0
    ensures var r := Rescale(Up, x, f); r - 1.0 / f < x <= r
  {
    var n := JsMath.Ceil(x * f);
    assert RoundTo(Up, x * f) == n;
    assert Rescale(Up, x, f) == n as real / f;
    DivideBounds(x * f, n as real, f);
    DivideBounds(n as real - 1.0, x * f, f);
    assert (x * f) / f == x;
    assert (n as real - 1.0) / f == n as real / f - 1.0 / f;
  }

  lemma ScaledNearest(x: real, f: real)
    requires f > 0.0
    ensures var r := Rescale(Nearest, x, f); x - 0.5 / f < r <= x + 0.5 / f
  {
    var n := JsMath.Round(x * f);
    assert RoundTo(Nearest, x * f) == n;
    assert Rescale(Nearest, x, f) == n as real / f;
    DivideBounds(x * f - 0.5, n as real, f);
    DivideBounds(n as real, x * f + 0.5, f);
    assert (x * f) / f == x;
    assert (x * f - 0.5) / f == x - 0.5 / f;
    assert (x * f + 0.5) / f == x + 0.5 / f;
  }

  /** Dividing by a positive number keeps the order. */
  lemma DivideBounds(a: real, b: real, f: real)
    requires f > 0.0 && a <= b
    ensures a / f <= b / f
    ensures a < b ==> a / f < b / f
  {
  }

  /** `AND`, `OR` and `NOT` follow Boolean logic on the truthiness of their arguments. */
  lemma LogicHelpers(h: Host, vs: seq<Value>)
    ensures CallHelper(h, Not, [CallHelper(h, And, vs)]) ==
            Bool(exists i | 0 <= i < |vs| :: !Truthy(vs[i]))
    ensures CallHelper(h, Or, vs) == CallHelper(h, Not, [Bool(forall i | 0 <= i < |vs| :: !Truthy(vs[i]))])
    ensures CallHelper(h, And, []) == Bool(true) && CallHelper(h, Or, []) == Bool(false)
  {
  }

  /**
   * Negating the condition of `IF` swaps its branches, and an `IF` whose
   * branches agree is that branch whatever the condition.
   */
  lemma IfNegated(h: Host, c: Value, t: Value, f: Value)
    ensures CallHelper(h, If, [CallHelper(h, Not, [c]), f, t]) == CallHelper(h, If, [c, t, f])
    ensures CallHelper(h, If, [c, t, t]) == t
  {
  }
}
