/**
 * `ConfigParser._evaluate` and `ConfigParser._evaluate_expression`: a
 * scalar is a quoted string, a number, a constant or an `@{op arg ...}`
 * prefix expression, tried in that order.
 */
module Scalars {
  import opened Wrappers
  import opened Text
  import opened Values

  /** The constants seen so far, by name. */
  type Constants = map<string, Value>

  predicate AllScalar(cs: Constants) {
    forall k | k in cs :: cs[k].IsScalar()
  }

  predicate IsDigit(c: char) {
    '0' <= c <= '9'
  }

  /** `\d+` over the whole of `s` (ASCII digits). */
  predicate IsDigits(s: string) {
    |s| > 0 && forall i | 0 <= i < |s| :: IsDigit(s[i])
  }

  /** `\d+(\.\d+)?` over the whole of `s`. */
  predicate IsUnsignedNumeral(s: string) {
    || IsDigits(s)
    || exists k | 0 < k < |s| - 1 :: s[k] == '.' && IsDigits(s[..k]) && IsDigits(s[k + 1..])
  }

  /** `-?\d+(\.\d+)?` over the whole of `s`. */
  predicate IsNumeral(s: string) {
    || IsUnsignedNumeral(s)
    || (|s| > 0 && s[0] == '-' && IsUnsignedNumeral(s[1..]))
  }

  /**
   * `re.match(r"^-?\d+(\.\d+)?$", e)`: Python's `$` also matches just
   * before one final line feed.
   */
  predicate NumberMatch(e: string) {
    || IsNumeral(e)
    || (|e| > 0 && e[|e| - 1] == '\n' && IsNumeral(e[..|e| - 1]))
  }

  /** The value of a run of decimal digits. */
  function DigitsValue(s: string): nat
  {
    if s == [] then 0
    else
      var d := s[|s| - 1] as int - '0' as int;
      DigitsValue(s[..|s| - 1]) * 10 + (if 0 <= d then d else 0)
  }

  /** Python's `int(...)` on an integer numeral. */
  function IntValue(s: string): int
  {
    if |s| > 0 && s[0] == '-' then 0 - DigitsValue(s[1..]) else DigitsValue(s)
  }

  /**
   * CPython's default `int_max_str_digits`: `int(...)` of a string with more
   * digits than this raises ValueError (from 3.11, and in the 3.7-3.10
   * security releases). `float(...)` has no such limit.
   */
  const IntMaxStrDigits: nat := 4300

  /**
   * A numeral becomes a float exactly when it has a decimal point; an
   * integer numeral with more than `IntMaxStrDigits` digits is refused.
   */
  function NumberValue(e: string): Parsed<Value>
    requires NumberMatch(e)
  {
    var text := if IsNumeral(e) then e else e[..|e| - 1];
    if '.' in e then Success(Float(Literal(text)))
    else if |Mantissa(e)| > IntMaxStrDigits then Failure(OperandError)
    else Success(Int(IntValue(text)))
  }

  /**
   * The integers `float(n)` accepts. CPython rounds to 53 bits, ties to
   * even, and raises OverflowError when the rounded magnitude reaches
   * 2**1024, which it does from 2**1024 - 2**970 upward (`FloatLimit`).
   */
  const FloatLimit: nat := 0xffff_ffff_ffff_fc00_0000_0000_0000_0000_0000_0000_0000_0000_0000_0000_0000_0000_0000_0000_0000_0000_0000_0000_0000_0000_0000_0000_0000_0000_0000_0000_0000_0000_0000_0000_0000_0000_0000_0000_0000_0000_0000_0000_0000_0000_0000_0000_0000_0000_0000_0000_0000_0000_0000_0000_0000_0000_0000_0000_0000_0000_0000_0000_0000_0000

  predicate FitsFloat(n: int) {
    -(FloatLimit as int) < n < FloatLimit
  }

  /** The index of the first float, or the count of values when there is none. */
  function FirstFloat(args: seq<Value>): (k: nat)
    ensures k <= |args|
    ensures forall j | 0 <= j < k :: !args[j].Float?
    ensures k < |args| ==> args[k].Float?
  {
    if args == [] || args[0].Float? then 0 else 1 + FirstFloat(args[1..])
  }

  /**
   * `sum` adds from the left, starting at the integer 0. The integers before
   * the first float are added exactly; that integer total is then converted
   * to a float, and so is every integer after the first float. A conversion
   * that overflows raises OverflowError.
   */
  predicate SumOverflows(args: seq<Value>)
    requires forall a | a in args :: a.IsNumber()
  {
    var k := FirstFloat(args);
    && k < |args|
    && (|| !FitsFloat(IntSum(IntPrefix(args, k)))
        || exists j | k < j < |args| :: args[j].Int? && !FitsFloat(args[j].i))
  }

  /** The numbers before the first float, which are all integers. */
  function IntPrefix(args: seq<Value>, k: nat): (p: seq<Value>)
    requires forall a | a in args :: a.IsNumber()
    requires k == FirstFloat(args)
    ensures p == args[..k] && forall a | a in p :: a.Int?
  {
    IntegersBeforeFloat(args, k);
    args[..k]
  }

  lemma IntegersBeforeFloat(args: seq<Value>, k: nat)
    requires forall a | a in args :: a.IsNumber()
    requires k == FirstFloat(args)
    ensures forall a | a in args[..k] :: a.Int?
  {
    forall a | a in args[..k] ensures a.Int? {
      var j :| 0 <= j < k && args[..k][j] == a;
      assert args[j] in args;
    }
  }

  /**
   * Python's `sum(args)`: integers add exactly into an integer; with a
   * float among them the total is a float; anything else is a TypeError.
   */
  function Sum(args: seq<Value>): (r: Parsed<Value>)
    ensures (forall a | a in args :: a.Int?) ==> r == Success(Int(IntSum(args)))
    ensures r.Success? ==> forall a | a in args :: a.IsNumber()
    ensures r.Success? ==> (r.value.Int? <==> forall a | a in args :: a.Int?)
    ensures r.Failure? ==> r.error == OperandError
  {
    if forall a | a in args :: a.Int? then Success(Int(IntSum(args)))
    else if !(forall a | a in args :: a.IsNumber()) then Failure(OperandError)
    else if SumOverflows(args) then Failure(OperandError)
    else Success(Float(SumOf(args)))
  }

  function IntSum(args: seq<Value>): int
    requires forall a | a in args :: a.Int?
  {
    if args == [] then 0 else args[0].i + IntSum(args[1..])
  }

  /**
   * 2**1075. A negative decimal whose magnitude is at most 2**-1075, half
   * the least subnormal double, rounds to -0.0.
   */
  const Underflow: nat := 0x8_0000_0000_0000_0000_0000_0000_0000_0000_0000_0000_0000_0000_0000_0000_0000_0000_0000_0000_0000_0000_0000_0000_0000_0000_0000_0000_0000_0000_0000_0000_0000_0000_0000_0000_0000_0000_0000_0000_0000_0000_0000_0000_0000_0000_0000_0000_0000_0000_0000_0000_0000_0000_0000_0000_0000_0000_0000_0000_0000_0000_0000_0000_0000_0000_0000_0000_0000

  /** The digits of a numeral, with its sign and its point left out. */
  function Mantissa(s: string): (m: string)
    ensures |m| <= |s|
  {
    if s == [] then [] else (if IsDigit(s[0]) then [s[0]] else []) + Mantissa(s[1..])
  }

  /** How many characters follow the point of a numeral (0 without one). */
  function Scale(s: string): nat {
    if s == [] then 0 else if s[0] == '.' then |s| - 1 else Scale(s[1..])
  }

  function Pow10(n: nat): (p: nat)
    ensures p >= 1
  {
    if n == 0 then 1 else 10 * Pow10(n - 1)
  }

  /**
   * `float(t)` of a decimal literal is below zero: `t` has a minus sign and
   * a magnitude `Mantissa(t) / 10**Scale(t)` above 2**-1075, so it does not
   * round to -0.0.
   */
  predicate BelowZero(t: string) {
    |t| > 0 && t[0] == '-' && DigitsValue(Mantissa(t)) * Underflow > Pow10(Scale(t))
  }

  /**
   * Python's `math.sqrt`. It converts its argument to a float, which fails
   * for an integer out of `FloatLimit`. It raises ValueError below zero and
   * TypeError on anything but a number.
   */
  function SquareRoot(a: Value): (r: Parsed<Value>)
    ensures r.Success? ==> r.value.Float?
    ensures r.Failure? ==> r.error == OperandError
    ensures !a.IsNumber() ==> r.Failure?
    ensures a.Int? ==> (r.Success? <==> 0 <= a.i < FloatLimit)
    ensures a.Float? && a.d.Literal? ==> (r.Success? <==> !BelowZero(a.d.text))
    ensures a.Float? && (a.d.SqrtOf? || a.d.AbsOf?) ==> r.Success?
  {
    match a
    case Int(n) => if 0 <= n < FloatLimit then Success(Float(SqrtOf(a))) else Failure(OperandError)
    case Float(d) => if d.Literal? && BelowZero(d.text) then Failure(OperandError) else Success(Float(SqrtOf(a)))
    case _ => Failure(OperandError)
  }

  /** Python's `abs`. */
  function Absolute(a: Value): (r: Parsed<Value>)
    ensures a.Int? ==> r == Success(Int(if a.i < 0 then -a.i else a.i))
    ensures r.Success? <==> a.IsNumber()
    ensures r.Success? && r.value.Int? ==> r.value.i >= 0
  {
    match a
    case Int(n) => Success(Int(if n < 0 then -n else n))
    case Float(_) => Success(Float(AbsOf(a)))
    case _ => Failure(OperandError)
  }

  /**
   * The operator dispatch of `_evaluate_expression`, once the arguments are
   * evaluated: only `+`, `sqrt` and `abs` are known, and the last two take
   * exactly one argument.
   */
  function Apply(op: string, args: seq<Value>): (r: Parsed<Value>)
    ensures r.Success? ==> r.value.IsNumber()
    ensures op != "+" && op != "sqrt" && op != "abs" ==> r == Failure(UnknownOperation(op))
    ensures (op == "sqrt" || op == "abs") && |args| != 1 ==> r == Failure(ArityError(op, |args|))
    ensures op == "+" ==> r == Sum(args)
    ensures op == "sqrt" && |args| == 1 ==> r == SquareRoot(args[0])
    ensures op == "abs" && |args| == 1 ==> r == Absolute(args[0])
  {
    if op == "+" then Sum(args)
    else if op == "sqrt" then
      if |args| != 1 then Failure(ArityError("sqrt", |args|)) else SquareRoot(args[0])
    else if op == "abs" then
      if |args| != 1 then Failure(ArityError("abs", |args|)) else Absolute(args[0])
    else Failure(UnknownOperation(op))
  }

  /**
   * `_evaluate(e)`: with scalar constants, every value it yields is a scalar
   * (nothing unevaluated is left).
   */
  function Evaluate(e: string, cs: Constants): (r: Parsed<Value>)
    ensures AllScalar(cs) && r.Success? ==> r.value.IsScalar()
    decreases |e|, 0, 0
  {
    if StartsWith(e, "\"") && EndsWith(e, "\"") then Success(Str(Inner(e, 1, 1)))
    else if NumberMatch(e) then NumberValue(e)
    else if e in cs then Success(cs[e])
    else if StartsWith(e, "@{") && EndsWith(e, "}") then EvaluateExpression(Strip(Inner(e, 2, 1)), cs)
    else Failure(InvalidConstantExpression(e))
  }

  /**
   * `_evaluate_expression(c)`: the whitespace-separated words of `c` are an
   * operator and its arguments; every argument is evaluated, in order,
   * before the operator is looked at.
   */
  function EvaluateExpression(c: string, cs: Constants): (r: Parsed<Value>)
    ensures r.Success? ==> r.value.IsNumber()
    ensures |Words(c)| < 2 ==> r == Failure(InvalidExpression(c))
    decreases |c|, 2, 0
  {
    var parts := Words(c);
    if |parts| < 2 then Failure(InvalidExpression(c))
    else
      var args :- EvaluateArgs(parts[1..], |c|, cs);
      Apply(parts[0], args)
  }

  /** `[self._evaluate(arg) for arg in args]`, stopping at the first failure. */
  function EvaluateArgs(ws: seq<string>, bound: nat, cs: Constants): (r: Parsed<seq<Value>>)
    requires forall w | w in ws :: |w| <= bound
    ensures r.Success? ==> |r.value| == |ws|
    decreases bound, 1, |ws|
  {
    if ws == [] then Success([])
    else
      match Evaluate(ws[0], cs)
      case Failure(e) => Failure(e)
      case Success(v) =>
        match EvaluateArgs(ws[1..], bound, cs)
        case Failure(e) => Failure(e)
        case Success(rest) => Success([v] + rest)
  }

  /**
   * The arguments are evaluated in order: on success the values are the
   * arguments' values, one for one; on failure the error is that of the
   * first argument that fails, every argument before it evaluating.
   */
  lemma {:induction false} ArgsEvaluated(ws: seq<string>, bound: nat, cs: Constants)
    requires forall w | w in ws :: |w| <= bound
    ensures EvaluateArgs(ws, bound, cs).Success? ==>
      forall i | 0 <= i < |ws| :: Evaluate(ws[i], cs) == Success(EvaluateArgs(ws, bound, cs).value[i])
    ensures EvaluateArgs(ws, bound, cs).Failure? ==>
      exists i | 0 <= i < |ws| :: FirstFailure(ws, i, cs, EvaluateArgs(ws, bound, cs).error)
    decreases |ws|
  {
    if ws != [] {
      var tail := ws[1..];
      assert forall w | w in tail :: w in ws;
      ArgsEvaluated(tail, bound, cs);
      match Evaluate(ws[0], cs)
      case Failure(e) =>
        assert FirstFailure(ws, 0, cs, e);
      case Success(v) =>
        match EvaluateArgs(tail, bound, cs)
        case Failure(e) =>
          var j :| 0 <= j < |tail| && FirstFailure(tail, j, cs, e);
          FailureShifts(ws, j, cs, e);
        case Success(rest) =>
          ConsValues(w => Evaluate(w, cs), ws, v, rest);
    }
  }

  /** Values for the head and, one for one, for the tail are values for the whole, one for one. */
  lemma ConsValues(ev: string -> Parsed<Value>, ws: seq<string>, v: Value, rest: seq<Value>)
    requires ws != [] && |rest| == |ws| - 1 && ev(ws[0]) == Success(v)
    requires forall i | 0 <= i < |rest| :: ev(ws[1..][i]) == Success(rest[i])
    ensures forall i | 0 <= i < |ws| :: ev(ws[i]) == Success(([v] + rest)[i])
  {
    forall i | 0 < i < |ws| ensures ev(ws[i]) == Success(([v] + rest)[i]) {
      assert ws[i] == ws[1..][i - 1];
    }
  }

  /** Argument `i` fails with `e`, and every argument before it evaluates. */
  predicate FirstFailure(ws: seq<string>, i: nat, cs: Constants, e: Error)
    requires i < |ws|
  {
    Evaluate(ws[i], cs) == Failure(e) && forall k | 0 <= k < i :: Evaluate(ws[k], cs).Success?
  }

  /** A first failure in the tail is a first failure of the whole when the head evaluates. */
  lemma FailureShifts(ws: seq<string>, j: nat, cs: Constants, e: Error)
    requires ws != [] && j < |ws| - 1 && Evaluate(ws[0], cs).Success?
    requires FirstFailure(ws[1..], j, cs, e)
    ensures FirstFailure(ws, j + 1, cs, e)
  {
    assert ws[j + 1] == ws[1..][j];
    HeadThenTail(w => Evaluate(w, cs).Success?, ws, j);
  }

  /** A property of the head and of the first `j` words of the tail holds of the first `j + 1` words. */
  lemma HeadThenTail(p: string -> bool, ws: seq<string>, j: nat)
    requires ws != [] && j < |ws| && p(ws[0])
    requires forall k | 0 <= k < j :: p(ws[1..][k])
    ensures forall k | 0 <= k < j + 1 :: p(ws[k])
  {
    forall k | 0 < k < j + 1 ensures p(ws[k]) {
      assert ws[k] == ws[1..][k - 1];
    }
  }

  /** Decimal digits of a natural number, most significant first. */
  function ShowNat(n: nat): string
    decreases n
  {
    if n < 10 then [('0' as int + n) as char]
    else ShowNat(n / 10) + [('0' as int + n % 10) as char]
  }

  /** An integer written as Python's `str(n)` (and JSON) writes it. */
  function ShowInt(n: int): string
  {
    if n < 0 then "-" + ShowNat(-n) else ShowNat(n)
  }

  lemma {:induction false} ShowNatDigits(n: nat)
    ensures IsDigits(ShowNat(n)) && DigitsValue(ShowNat(n)) == n
    decreases n
  {
    if n >= 10 {
      ShowNatDigits(n / 10);
      var s := ShowNat(n);
      assert s[..|s| - 1] == ShowNat(n / 10);
    }
  }

  /** A numeral starts with a digit or a minus sign. */
  lemma NumeralStart(s: string)
    requires IsNumeral(s)
    ensures |s| > 0 && (s[0] == '-' || IsDigit(s[0]))
  {
    if IsUnsignedNumeral(s) && !IsDigits(s) {
      var k :| 0 < k < |s| - 1 && s[k] == '.' && IsDigits(s[..k]) && IsDigits(s[k + 1..]);
      assert s[0] == s[..k][0];
    }
  }

  /** Text matched by the number pattern starts with a digit or a minus sign. */
  lemma NumberStart(e: string)
    requires NumberMatch(e)
    ensures |e| > 0 && (e[0] == '-' || IsDigit(e[0]))
  {
    if IsNumeral(e) {
      NumeralStart(e);
    } else {
      NumeralStart(e[..|e| - 1]);
      assert e[0] == e[..|e| - 1][0];
    }
  }

  /** Text matched by the number pattern is never taken for a quoted string. */
  lemma NumberIsNotQuoted(e: string)
    requires NumberMatch(e)
    ensures !StartsWith(e, "\"")
  {
    NumberStart(e);
  }

  /** An `@{...}` text that names no constant is evaluated as an expression. */
  lemma EvaluateBraces(e: string, cs: Constants)
    requires |e| >= 3 && e[0] == '@' && e[1] == '{' && e[|e| - 1] == '}'
    requires e !in cs
    ensures Evaluate(e, cs) == EvaluateExpression(Strip(e[2..|e| - 1]), cs)
  {
    assert !NumberMatch(e) by {
      if NumberMatch(e) { NumberStart(e); }
    }
    assert StartsWith(e, "@{") && EndsWith(e, "}");
  }

  /**
   * A text that is not quoted, not a number, not a constant and not
   * `@{...}`-shaped is an invalid constant expression.
   */
  lemma EvaluateUnknownName(e: string, cs: Constants)
    requires !(StartsWith(e, "\"") && EndsWith(e, "\"")) && !NumberMatch(e)
    requires e !in cs && !(StartsWith(e, "@{") && EndsWith(e, "}"))
    ensures Evaluate(e, cs) == Failure(InvalidConstantExpression(e))
  {
  }

  /** A word starting with none of `"`, `-`, `@` or a digit is none of the literal shapes. */
  lemma BareWord(e: string)
    requires |e| > 0 && e[0] != '"' && e[0] != '-' && e[0] != '@' && !IsDigit(e[0])
    ensures !StartsWith(e, "\"") && !NumberMatch(e) && !StartsWith(e, "@{")
  {
    assert !NumberMatch(e) by {
      if NumberMatch(e) { NumberStart(e); }
    }
    assert !StartsWith(e, "\"") by {
      if |e| >= 1 { assert e[..1][0] == e[0]; }
    }
    assert !StartsWith(e, "@{") by {
      if |e| >= 2 { assert e[..2][0] == e[0]; }
    }
  }


  /** A bare word that names a constant evaluates to that constant. */
  lemma EvaluateKnownName(e: string, cs: Constants)
    requires |e| > 0 && e[0] != '"' && e[0] != '-' && !IsDigit(e[0])
    requires e in cs
    ensures Evaluate(e, cs) == Success(cs[e])
  {
    assert !NumberMatch(e) by {
      if NumberMatch(e) { NumberStart(e); }
    }
    assert !StartsWith(e, "\"") by {
      assert e[..1][0] == e[0];
    }
  }

  /**
   * A run of digits evaluates to its integer value, unless it is longer than
   * `int()` accepts.
   */
  lemma EvaluateDigits(e: string, cs: Constants)
    requires IsDigits(e)
    ensures |e| <= IntMaxStrDigits ==> Evaluate(e, cs) == Success(Int(DigitsValue(e)))
    ensures |e| > IntMaxStrDigits ==> Evaluate(e, cs) == Failure(OperandError)
  {
    assert IsNumeral(e);
    MantissaOfDigits(e);
    NumberIsNotQuoted(e);
    assert '.' !in e by {
      assert forall i | 0 <= i < |e| :: IsDigit(e[i]);
    }
  }

  /**
   * Every integer of at most `IntMaxStrDigits` decimal digits, written in
   * decimal, evaluates back to that integer (whatever constants are
   * defined); a longer one is refused by `int()`.
   */
  lemma IntegerLiteralRoundTrip(n: int, cs: Constants)
    ensures |ShowNat(Abs(n))| <= IntMaxStrDigits ==> Evaluate(ShowInt(n), cs) == Success(Int(n))
    ensures |ShowNat(Abs(n))| > IntMaxStrDigits ==> Evaluate(ShowInt(n), cs) == Failure(OperandError)
  {
    ShowIntNumeral(n);
    NumberIsNotQuoted(ShowInt(n));
    ShowIntMantissa(n);
  }

  function Abs(n: int): nat {
    if n < 0 then -n else n
  }

  /** The digits of `str(n)` are those of its magnitude. */
  lemma ShowIntMantissa(n: int)
    ensures Mantissa(ShowInt(n)) == ShowNat(Abs(n))
  {
    ShowNatDigits(Abs(n));
    MantissaOfDigits(ShowNat(Abs(n)));
    if n < 0 {
      assert Mantissa("-") == [] by { assert "-"[1..] == []; }
      MantissaAppend("-", ShowNat(-n));
    }
  }

  /** An integer written in decimal is an integer numeral of that value. */
  lemma ShowIntNumeral(n: int)
    ensures IsNumeral(ShowInt(n)) && '.' !in ShowInt(n) && IntValue(ShowInt(n)) == n
  {
    var s := ShowInt(n);
    if n < 0 {
      ShowNatDigits(-n);
      assert s[1..] == ShowNat(-n);
      assert forall i | 1 <= i < |s| :: s[i] == ShowNat(-n)[i - 1];
    } else {
      ShowNatDigits(n);
    }
  }

  /**
   * A numeric literal evaluates unless it is an integer of more than
   * `IntMaxStrDigits` digits; it gives an integer exactly when it has no `.`
   * and a float exactly when it has one.
   */
  lemma NumeralKind(e: string, cs: Constants)
    requires NumberMatch(e)
    ensures Evaluate(e, cs).Success? <==> '.' in e || |Mantissa(e)| <= IntMaxStrDigits
    ensures Evaluate(e, cs).Failure? ==> Evaluate(e, cs).error == OperandError
    ensures Evaluate(e, cs).Success? ==> (Evaluate(e, cs).value.Int? <==> '.' !in e)
    ensures Evaluate(e, cs).Success? ==> (Evaluate(e, cs).value.Float? <==> '.' in e)
  {
    NumberIsNotQuoted(e);
  }

  /**
   * Quoted strings and numeric literals are tried before constants, so no
   * constant can change what they mean.
   */
  lemma LiteralsIgnoreConstants(e: string, cs: Constants, cs': Constants)
    requires (StartsWith(e, "\"") && EndsWith(e, "\"")) || NumberMatch(e)
    ensures Evaluate(e, cs) == Evaluate(e, cs')
  {
  }

  /** A lone `"` both starts and ends with a quote, and yields the empty string. */
  lemma LoneQuote(cs: Constants)
    ensures Evaluate("\"", cs) == Success(Str(""))
  {
  }

  /** A decimal integer is one word: non-empty and free of whitespace. */
  lemma ShowIntWord(n: int)
    ensures ShowInt(n) != [] && NoSpace(ShowInt(n))
  {
    var d := ShowInt(n);
    if n < 0 {
      ShowNatDigits(-n);
      assert forall i | 1 <= i < |d| :: d[i] == ShowNat(-n)[i - 1];
    } else {
      ShowNatDigits(n);
    }
  }

  /** An expression of at least two words applies its first word to the values of the others. */
  lemma ExpressionOfWords(c: string, cs: Constants, op: string, ws: seq<string>)
    requires Words(c) == [op] + ws && ws != []
    ensures forall w | w in ws :: |w| <= |c|
    ensures EvaluateExpression(c, cs) ==
      match EvaluateArgs(ws, |c|, cs)
      case Success(args) => Apply(op, args)
      case Failure(err) => Failure(err)
  {
    assert Words(c)[1..] == ws;
    assert forall w | w in ws :: w in Words(c);
  }

  /** One argument: its value, or its error. */
  lemma ArgsOne(a: string, bound: nat, cs: Constants)
    requires |a| <= bound
    ensures EvaluateArgs([a], bound, cs) ==
      match Evaluate(a, cs)
      case Success(v) => Success([v])
      case Failure(err) => Failure(err)
  {
    assert [a][1..] == [];
    assert EvaluateArgs([], bound, cs) == Success([]);
    if Evaluate(a, cs).Success? {
      assert [Evaluate(a, cs).value] + [] == [Evaluate(a, cs).value];
    }
  }

  /** Two arguments: both values, or the first error. */
  lemma ArgsTwo(a: string, b: string, bound: nat, cs: Constants)
    requires |a| <= bound && |b| <= bound
    ensures EvaluateArgs([a, b], bound, cs) ==
      match Evaluate(a, cs)
      case Failure(err) => Failure(err)
      case Success(v) =>
        match Evaluate(b, cs)
        case Failure(err) => Failure(err)
        case Success(w) => Success([v, w])
  {
    assert [a, b][1..] == [b];
    ArgsOne(b, bound, cs);
    if Evaluate(a, cs).Success? && Evaluate(b, cs).Success? {
      assert [Evaluate(a, cs).value] + [Evaluate(b, cs).value] == [Evaluate(a, cs).value, Evaluate(b, cs).value];
    }
  }

  /** `@{c}`, with `c` free of whitespace at both ends, is the expression `c`. */
  lemma BracedText(c: string, cs: Constants)
    requires c == [] || (!IsSpace(c[0]) && !IsSpace(c[|c| - 1]))
    requires "@{" + c + "}" !in cs
    ensures Evaluate("@{" + c + "}", cs) == EvaluateExpression(c, cs)
  {
    var e := "@{" + c + "}";
    assert e[2..|e| - 1] == c;
    StripUnchanged(c);
    EvaluateBraces(e, cs);
  }

  /** `@{op a}` evaluates its one argument `a`, then applies `op` to it. */
  lemma BracedOne(op: string, a: string, cs: Constants)
    requires op != [] && NoSpace(op) && a != [] && NoSpace(a)
    requires "@{" + op + " " + a + "}" !in cs
    ensures Evaluate("@{" + op + " " + a + "}", cs) ==
      match Evaluate(a, cs)
      case Success(v) => Apply(op, [v])
      case Failure(err) => Failure(err)
  {
    var c := op + [' '] + a;
    assert "@{" + op + " " + a + "}" == "@{" + c + "}";
    assert Words(c) == [op] + [a] by {
      WordsCons(op, ' ', a);
      WordsSingle(a);
    }
    assert c[0] == op[0] && c[|c| - 1] == a[|a| - 1];
    BracedText(c, cs);
    ExpressionOfWords(c, cs, op, [a]);
    ArgsOne(a, |c|, cs);
  }

  /** `@{op a b}` evaluates `a`, then `b`, then applies `op` to both. */
  lemma BracedTwo(op: string, a: string, b: string, cs: Constants)
    requires op != [] && NoSpace(op) && a != [] && NoSpace(a) && b != [] && NoSpace(b)
    requires "@{" + op + " " + a + " " + b + "}" !in cs
    ensures Evaluate("@{" + op + " " + a + " " + b + "}", cs) ==
      match Evaluate(a, cs)
      case Failure(err) => Failure(err)
      case Success(v) =>
        match Evaluate(b, cs)
        case Failure(err) => Failure(err)
        case Success(w) => Apply(op, [v, w])
  {
    var c := op + [' '] + (a + [' '] + b);
    assert "@{" + op + " " + a + " " + b + "}" == "@{" + c + "}";
    assert Words(c) == [op] + [a, b] by {
      WordsCons(op, ' ', a + [' '] + b);
      WordsCons(a, ' ', b);
      WordsSingle(b);
    }
    assert c[0] == op[0] && c[|c| - 1] == b[|b| - 1];
    BracedText(c, cs);
    ExpressionOfWords(c, cs, op, [a, b]);
    ArgsTwo(a, b, |c|, cs);
  }

  /**
   * The arguments of an expression are evaluated before its operator is
   * looked at: an argument naming no constant is reported whatever the
   * operator, known or not.
   */
  lemma ArgumentsBeforeOperator(op: string, a: string, cs: Constants)
    requires op != [] && NoSpace(op) && a != [] && NoSpace(a)
    requires a[0] != '"' && a[0] != '-' && a[0] != '@' && !IsDigit(a[0]) && a !in cs
    requires "@{" + op + " " + a + "}" !in cs
    ensures Evaluate("@{" + op + " " + a + "}", cs) == Failure(InvalidConstantExpression(a))
  {
    BareWord(a);
    EvaluateUnknownName(a, cs);
    BracedOne(op, a, cs);
  }

  /**
   * An operator other than `+`, `sqrt` and `abs` is reported once its
   * argument has evaluated.
   */
  lemma UnknownOperator(op: string, a: string, v: Value, cs: Constants)
    requires op != [] && NoSpace(op) && op != "+" && op != "sqrt" && op != "abs"
    requires a != [] && NoSpace(a) && Evaluate(a, cs) == Success(v)
    requires "@{" + op + " " + a + "}" !in cs
    ensures Evaluate("@{" + op + " " + a + "}", cs) == Failure(UnknownOperation(op))
  {
    BracedOne(op, a, cs);
  }

  lemma SumOfTwoIntegers(m: int, n: int)
    ensures Apply("+", [Int(m), Int(n)]) == Success(Int(m + n))
  {
    var args := [Int(m), Int(n)];
    assert forall a | a in args :: a.Int?;
    assert [Int(m), Int(n)][1..] == [Int(n)];
    assert [Int(n)][1..] == [];
    assert IntSum([Int(n)]) == n + IntSum([]);
  }

  /** `+` of two arguments that evaluate to integers is their integer sum. */
  lemma PlusOfIntegers(op: string, a: string, b: string, m: int, n: int, cs: Constants)
    requires op == "+"
    requires a != [] && NoSpace(a) && Evaluate(a, cs) == Success(Int(m))
    requires b != [] && NoSpace(b) && Evaluate(b, cs) == Success(Int(n))
    requires "@{" + op + " " + a + " " + b + "}" !in cs
    ensures Evaluate("@{" + op + " " + a + " " + b + "}", cs) == Success(Int(m + n))
  {
    BracedTwo(op, a, b, cs);
    SumOfTwoIntegers(m, n);
  }

  /** `abs` of an argument that evaluates to an integer is its absolute value. */
  lemma AbsOfInteger(op: string, a: string, n: int, cs: Constants)
    requires op == "abs"
    requires a != [] && NoSpace(a) && Evaluate(a, cs) == Success(Int(n))
    requires "@{" + op + " " + a + "}" !in cs
    ensures Evaluate("@{" + op + " " + a + "}", cs) == Success(Int(if n < 0 then -n else n))
  {
    BracedOne(op, a, cs);
    AbsApply(n);
  }

  lemma AbsApply(n: int)
    ensures Apply("abs", [Int(n)]) == Success(Int(if n < 0 then -n else n))
  {
    assert [Int(n)][0] == Int(n);
  }

  /**
   * `sqrt` of an argument that evaluates to an integer is a float when the
   * integer is not negative and converts to a float; otherwise `math.sqrt`
   * raises ValueError or OverflowError.
   */
  lemma SqrtOfInteger(op: string, a: string, n: int, cs: Constants)
    requires op == "sqrt"
    requires a != [] && NoSpace(a) && Evaluate(a, cs) == Success(Int(n))
    requires "@{" + op + " " + a + "}" !in cs
    ensures 0 <= n < FloatLimit ==> Evaluate("@{" + op + " " + a + "}", cs) == Success(Float(SqrtOf(Int(n))))
    ensures !(0 <= n < FloatLimit) ==> Evaluate("@{" + op + " " + a + "}", cs) == Failure(OperandError)
  {
    BracedOne(op, a, cs);
    assert [Int(n)][0] == Int(n);
  }

  /** `sqrt` takes exactly one argument: two that evaluate are an arity error. */
  lemma SqrtArity(op: string, a: string, b: string, v: Value, w: Value, cs: Constants)
    requires op == "sqrt"
    requires a != [] && NoSpace(a) && Evaluate(a, cs) == Success(v)
    requires b != [] && NoSpace(b) && Evaluate(b, cs) == Success(w)
    requires "@{" + op + " " + a + " " + b + "}" !in cs
    ensures Evaluate("@{" + op + " " + a + " " + b + "}", cs) == Failure(ArityError("sqrt", 2))
  {
    BracedTwo(op, a, b, cs);
  }

  /** Integer literals qualify as arguments for the lemmas above. */
  lemma IntegerArgument(n: int, cs: Constants)
    requires |ShowNat(Abs(n))| <= IntMaxStrDigits
    ensures ShowInt(n) != [] && NoSpace(ShowInt(n)) && Evaluate(ShowInt(n), cs) == Success(Int(n))
  {
    ShowIntWord(n);
    IntegerLiteralRoundTrip(n, cs);
  }

  lemma {:induction false} IntSumAppend(xs: seq<Value>, ys: seq<Value>)
    requires forall a | a in xs :: a.Int?
    requires forall a | a in ys :: a.Int?
    ensures forall a | a in xs + ys :: a.Int?
    ensures IntSum(xs + ys) == IntSum(xs) + IntSum(ys)
    decreases |xs|
  {
    if xs == [] {
      assert xs + ys == ys;
    } else {
      assert (xs + ys)[1..] == xs[1..] + ys;
      assert forall a | a in xs[1..] :: a in xs;
      IntSumAppend(xs[1..], ys);
    }
  }

  /**
   * An integer that does not convert to a float, anywhere after a float,
   * makes `sum` raise OverflowError.
   */
  lemma SumOverflowAfterFloat(args: seq<Value>, i: nat, j: nat)
    requires forall a | a in args :: a.IsNumber()
    requires i < j < |args| && args[i].Float? && args[j].Int? && !FitsFloat(args[j].i)
    ensures Sum(args) == Failure(OperandError)
  {
    assert !args[i].Int? && args[i] in args;
    assert FirstFloat(args) <= i;
  }

  /**
   * Numbers summed from a float onward: `sum` gives a float exactly when
   * every integer among them converts to a float.
   */
  lemma SumFromFloat(args: seq<Value>)
    requires args != [] && args[0].Float?
    requires forall a | a in args :: a.IsNumber()
    ensures Sum(args).Success? <==> forall j | 0 <= j < |args| && args[j].Int? :: FitsFloat(args[j].i)
    ensures Sum(args).Success? ==> Sum(args) == Success(Float(SumOf(args)))
  {
    assert !args[0].Int? && args[0] in args;
    assert FirstFloat(args) == 0;
    assert IntPrefix(args, 0) == [];
  }

  /** `@{+ w1 ... wn}` over words that evaluate to integers is their integer sum. */
  lemma SumExpression(c: string, ws: seq<string>, vs: seq<Value>, cs: Constants)
    requires Words(c) == ["+"] + ws && ws != []
    requires |vs| == |ws| && forall i | 0 <= i < |ws| :: vs[i].Int? && Evaluate(ws[i], cs) == Success(vs[i])
    ensures forall a | a in vs :: a.Int?
    ensures EvaluateExpression(c, cs) == Success(Int(IntSum(vs)))
  {
    ExpressionOfWords(c, cs, "+", ws);
    ArgsEvaluated(ws, |c|, cs);
    var args := EvaluateArgs(ws, |c|, cs);
    assert args.Success?;
    assert args.value == vs;
  }

  /**
   * A negative decimal literal with a non-zero integer part is below zero as
   * a float, so `math.sqrt` rejects it with ValueError.
   */
  lemma SqrtOfNegativeLiteral(a: string, b: string)
    requires IsDigits(a) && IsDigits(b) && DigitsValue(a) > 0
    ensures SquareRoot(Float(Literal("-" + a + "." + b))) == Failure(OperandError)
  {
    var t := "-" + a + "." + b;
    MantissaOfLiteral(a, b);
    ScaleOfLiteral(a, b);
    DigitsValueAppend(a, b);
    var x := DigitsValue(a + b);
    var p := Pow10(|b|);
    AtLeastOnce(DigitsValue(a), p);
    MoreThanOnce(x, Underflow);
  }

  lemma {:induction false} AtLeastOnce(x: nat, y: nat)
    requires x >= 1
    ensures x * y >= y
    decreases x
  {
    if x > 1 {
      AtLeastOnce(x - 1, y);
      assert x * y == (x - 1) * y + y;
    }
  }

  lemma MoreThanOnce(x: nat, u: nat)
    requires x >= 1 && u >= 2
    ensures x * u > x
  {
    AtLeastOnce(x, u - 1);
    assert x * u == x * (u - 1) + x;
  }

  lemma MantissaOfLiteral(a: string, b: string)
    requires IsDigits(a) && IsDigits(b)
    ensures Mantissa("-" + a + "." + b) == a + b
  {
    var r := ['.'] + b;
    var q := a + r;
    assert "-" + a + "." + b == ['-'] + q;
    MantissaOfDigits(a);
    MantissaOfDigits(b);
    assert Mantissa(['.']) == [] by { assert ['.'][1..] == []; }
    MantissaAppend(['.'], b);
    assert Mantissa(r) == b;
    MantissaAppend(a, r);
    assert Mantissa(q) == a + b;
    assert Mantissa(['-']) == [] by { assert ['-'][1..] == []; }
    MantissaAppend(['-'], q);
  }

  lemma {:induction false} MantissaAppend(x: string, y: string)
    ensures Mantissa(x + y) == Mantissa(x) + Mantissa(y)
    decreases |x|
  {
    if x != [] {
      assert (x + y)[1..] == x[1..] + y;
      MantissaAppend(x[1..], y);
    } else {
      assert x + y == y;
    }
  }

  lemma {:induction false} MantissaOfDigits(s: string)
    requires forall i | 0 <= i < |s| :: IsDigit(s[i])
    ensures Mantissa(s) == s
    decreases |s|
  {
    if s != [] {
      MantissaOfDigits(s[1..]);
      assert s == [s[0]] + s[1..];
    }
  }

  lemma ScaleOfLiteral(a: string, b: string)
    requires IsDigits(a)
    ensures Scale("-" + a + "." + b) == |b|
  {
    ScaleSkips("-" + a, b);
    assert "-" + a + "." + b == ("-" + a) + ['.'] + b;
  }

  lemma {:induction false} ScaleSkips(x: string, b: string)
    requires '.' !in x
    ensures Scale(x + ['.'] + b) == |b|
    decreases |x|
  {
    if x == [] {
      assert x + ['.'] + b == ['.'] + b;
    } else {
      assert (x + ['.'] + b)[1..] == x[1..] + ['.'] + b;
      assert (x + ['.'] + b)[0] == x[0];
      ScaleSkips(x[1..], b);
    }
  }

  lemma {:induction false} DigitsValueAppend(a: string, b: string)
    ensures DigitsValue(a + b) == DigitsValue(a) * Pow10(|b|) + DigitsValue(b)
    decreases |b|
  {
    if b == [] {
      assert a + b == a;
    } else {
      var s := a + b;
      var b' := b[..|b| - 1];
      assert s[..|s| - 1] == a + b';
      assert s[|s| - 1] == b[|b| - 1];
      DigitsValueAppend(a, b');
      var d := b[|b| - 1] as int - '0' as int;
      var dd := if 0 <= d then d else 0;
      assert DigitsValue(s) == DigitsValue(a + b') * 10 + dd;
      assert DigitsValue(b) == DigitsValue(b') * 10 + dd;
      assert Pow10(|b|) == Pow10(|b'|) * 10;
      ShiftDecimal(DigitsValue(a), Pow10(|b'|), DigitsValue(b'), dd);
    }
  }

  /** Appending a digit multiplies both parts of a split numeral by ten. */
  lemma ShiftDecimal(x: int, p: int, y: int, d: int)
    ensures (x * p + y) * 10 + d == x * (p * 10) + (y * 10 + d)
  {
  }

  /** A quoted string evaluates to the text between its quotes, unescaped or not. */
  lemma QuotedString(x: string, cs: Constants)
    ensures Evaluate("\"" + x + "\"", cs) == Success(Str(x))
  {
    var e := "\"" + x + "\"";
    assert e[..1] == "\"" && e[|e| - 1..] == "\"";
    assert Inner(e, 1, 1) == x;
  }

  /** A decimal literal with a minus sign evaluates to itself as a float. */
  lemma NegativeDecimal(x: string, y: string, cs: Constants)
    requires IsDigits(x) && IsDigits(y)
    ensures var t := "-" + x + "." + y;
      t != [] && NoSpace(t) && Evaluate(t, cs) == Success(Float(Literal(t)))
  {
    var t := "-" + x + "." + y;
    DecimalShape(x, y);
    DecimalHasNoSpace(x, y);
    assert '.' in t by { assert t[|x| + 1] == '.'; }
    assert !StartsWith(t, "\"") by { assert t[..1][0] == '-'; }
  }

  lemma DecimalShape(x: string, y: string)
    requires IsDigits(x) && IsDigits(y)
    ensures IsNumeral("-" + x + "." + y)
  {
    var t := "-" + x + "." + y;
    var u := x + "." + y;
    assert t[1..] == u && t[0] == '-';
    assert u[|x|] == '.' && u[..|x|] == x && u[|x| + 1..] == y;
    assert IsUnsignedNumeral(u);
  }

  lemma DecimalHasNoSpace(x: string, y: string)
    requires IsDigits(x) && IsDigits(y)
    ensures NoSpace("-" + x + "." + y)
  {
    var t := "-" + x + "." + y;
    forall i | 0 <= i < |t| ensures !IsSpace(t[i]) {
      if 1 <= i <= |x| { assert t[i] == x[i - 1]; }
      else if i > |x| + 1 { assert t[i] == y[i - |x| - 2]; }
    }
  }

  /** `@{sqrt -x.y}` with a non-zero integer part fails, as `math.sqrt` raises ValueError. */
  lemma SqrtOfNegativeDecimal(op: string, x: string, y: string, cs: Constants)
    requires op == "sqrt" && IsDigits(x) && IsDigits(y) && DigitsValue(x) > 0
    requires "@{" + op + " " + ("-" + x + "." + y) + "}" !in cs
    ensures Evaluate("@{" + op + " " + ("-" + x + "." + y) + "}", cs) == Failure(OperandError)
  {
    var t := "-" + x + "." + y;
    NegativeDecimal(x, y, cs);
    SqrtWord(op);
    assert "@{" + op + " " + t + "}" !in cs;
    BracedOne(op, t, cs);
    SqrtOfNegativeLiteral(x, y);
    var args := [Float(Literal(t))];
    assert |args| == 1 && args[0] == Float(Literal(t));
    assert Apply(op, args) == SquareRoot(Float(Literal(t)));
  }

  lemma SqrtWord(op: string)
    requires op == "sqrt"
    ensures op != [] && NoSpace(op)
  {
  }
}
