/** The condition mini-language of `evaluate_sql_condition`: a condition string such as
    "price <= 24000000" is matched against `^\w+\s*([<>=!]+)\s*([\d\.]+)$`, its threshold is
    read with `float`, and one of six comparisons is applied. Every failure (no string, an
    empty string, a mismatch, an unknown operator, a threshold `float` rejects) is read as
    "no constraint", so the evaluator fails open. */
module Condition {

  import opened Wrappers
  import opened Text

  // ---------------------------------------------------------------------------------------
  // The pattern, as a scanner of maximal character runs
  // ---------------------------------------------------------------------------------------

  /** The character classes the pattern uses: `\w`, `\s`, `[<>=!]`, `\d` and `[\d\.]`. */
  datatype CharClass = Word | Space | OpChar | Digit | NumberChar

  predicate IsDigit(c: char) {
    '0' <= c <= '9'
  }

  predicate InClass(cls: CharClass, c: char) {
    match cls
    case Word => IsLetter(c) || IsDigit(c) || c == '_'
    case Space => c == ' ' || c == '\t' || c == '\n' || c == '\r' || c == '\U{B}' || c == '\U{C}'
    case OpChar => c == '<' || c == '>' || c == '=' || c == '!'
    case Digit => IsDigit(c)
    case NumberChar => IsDigit(c) || c == '.'
  }

  predicate AllIn(s: string, cls: CharClass) {
    forall i | 0 <= i < |s| :: InClass(cls, s[i])
  }

  /** The length of the longest prefix of `s` made of characters of class `cls`. */
  function Span(s: string, cls: CharClass): (n: nat)
    ensures n <= |s|
    ensures forall i | 0 <= i < n :: InClass(cls, s[i])
    ensures n < |s| ==> !InClass(cls, s[n])
  {
    if s == [] || !InClass(cls, s[0]) then 0 else 1 + Span(s[1..], cls)
  }

  /** A run of class `cls` followed by a character outside it is exactly what `Span` finds. */
  lemma SpanOfConcat(x: string, y: string, cls: CharClass)
    requires AllIn(x, cls)
    requires y == [] || !InClass(cls, y[0])
    ensures Span(x + y, cls) == |x|
  {
    assert forall i | 0 <= i < |x| :: (x + y)[i] == x[i];
    assert y != [] ==> (x + y)[|x|] == y[0];
  }

  /** Once `Span` has found a run, the string splits into that run and what follows it. */
  lemma SkipRun(x: string, y: string, cls: CharClass)
    requires AllIn(x, cls)
    requires y == [] || !InClass(cls, y[0])
    ensures Span(x + y, cls) == |x|
    ensures (x + y)[..|x|] == x && (x + y)[|x|..] == y
  {
    SpanOfConcat(x, y, cls);
  }

  /** `\s*([\d\.]+)$`: blanks, then the number group up to the end of the string. Python's
      `$` also matches just before a final newline. */
  function MatchNumber(r: string): (m: Option<string>)
    ensures m.Some? ==> |m.value| > 0 && AllIn(m.value, NumberChar)
  {
    var r2 := r[Span(r, Space)..];
    var n := Span(r2, NumberChar);
    var rest := r2[n..];
    if n == 0 || !(rest == [] || rest == "\n") then None else Some(r2[..n])
  }

  /** `([<>=!]+)\s*([\d\.]+)$`: the operator group followed by the number group. */
  function MatchOperator(r: string): (m: Option<(string, string)>)
    ensures m.Some? ==> |m.value.0| > 0 && AllIn(m.value.0, OpChar)
    ensures m.Some? ==> |m.value.1| > 0 && AllIn(m.value.1, NumberChar)
  {
    var o := Span(r, OpChar);
    if o == 0 then None
    else
      match MatchNumber(r[o..])
      case None => None
      case Some(num) => Some((r[..o], num))
  }

  /** `\s*([<>=!]+)\s*([\d\.]+)$`: everything that follows the identifier. */
  function MatchTail(r: string): (m: Option<(string, string)>)
    ensures m.Some? ==> |m.value.0| > 0 && AllIn(m.value.0, OpChar)
    ensures m.Some? ==> |m.value.1| > 0 && AllIn(m.value.1, NumberChar)
  {
    MatchOperator(r[Span(r, Space)..])
  }

  /** `re.match(r'^\w+\s*([<>=!]+)\s*([\d\.]+)$', s)`: the operator group and the number
      group, or None when the string does not match. Each run is scanned to its end: the
      class that follows a run is disjoint from the run's own, so a shorter run could not
      be followed by what the pattern needs next, and the scan finds the only match. */
  function MatchCondition(s: string): (m: Option<(string, string)>)
    ensures m.Some? ==> |m.value.0| > 0 && AllIn(m.value.0, OpChar)
    ensures m.Some? ==> |m.value.1| > 0 && AllIn(m.value.1, NumberChar)
  {
    var w := Span(s, Word);
    if w == 0 then None else MatchTail(s[w..])
  }

  /** The pieces a matching string is made of: identifier, blanks, operator, blanks, number
      and an optional final newline. */
  predicate PatternParts(ident: string, ws1: string, op: string, ws2: string, num: string, end: string) {
    && |ident| > 0 && AllIn(ident, Word)
    && AllIn(ws1, Space)
    && |op| > 0 && AllIn(op, OpChar)
    && AllIn(ws2, Space)
    && |num| > 0 && AllIn(num, NumberChar)
    && (end == "" || end == "\n")
  }

  /** The string assembled from pattern pieces. */
  function Assemble(ident: string, ws1: string, op: string, ws2: string, num: string, end: string): string {
    ident + (ws1 + (op + (ws2 + (num + end))))
  }

  lemma NumberComplete(ws: string, num: string, end: string)
    requires AllIn(ws, Space) && |num| > 0 && AllIn(num, NumberChar) && (end == "" || end == "\n")
    ensures MatchNumber(ws + (num + end)) == Some(num)
  {
    SkipRun(ws, num + end, Space);
    SkipRun(num, end, NumberChar);
  }

  lemma OperatorComplete(op: string, ws: string, num: string, end: string)
    requires |op| > 0 && AllIn(op, OpChar)
    requires AllIn(ws, Space) && |num| > 0 && AllIn(num, NumberChar) && (end == "" || end == "\n")
    ensures MatchOperator(op + (ws + (num + end))) == Some((op, num))
  {
    assert (ws + (num + end))[0] == if ws != [] then ws[0] else num[0];
    SkipRun(op, ws + (num + end), OpChar);
    NumberComplete(ws, num, end);
  }

  lemma TailComplete(ws1: string, op: string, ws2: string, num: string, end: string)
    requires AllIn(ws1, Space) && |op| > 0 && AllIn(op, OpChar)
    requires AllIn(ws2, Space) && |num| > 0 && AllIn(num, NumberChar) && (end == "" || end == "\n")
    ensures MatchTail(ws1 + (op + (ws2 + (num + end)))) == Some((op, num))
  {
    var r2 := op + (ws2 + (num + end));
    OperatorComplete(op, ws2, num, end);
    assert r2[0] == op[0];
    SkipRun(ws1, r2, Space);
  }

  lemma TailStartsOutsideWord(ws: string, op: string, rest: string)
    requires AllIn(ws, Space) && |op| > 0 && AllIn(op, OpChar)
    ensures ws + (op + rest) != [] && !InClass(Word, (ws + (op + rest))[0])
  {
    if ws == [] {
      assert (ws + (op + rest))[0] == op[0];
    } else {
      assert (ws + (op + rest))[0] == ws[0];
    }
  }

  /** After a non-empty identifier, the match is decided by what follows it alone. */
  lemma IdentThenTail(ident: string, r: string)
    requires |ident| > 0 && AllIn(ident, Word)
    requires r == [] || !InClass(Word, r[0])
    ensures MatchCondition(ident + r) == MatchTail(r)
  {
    SkipRun(ident, r, Word);
  }

  /** Every string assembled from pattern pieces matches, with the operator and number
      pieces as its two groups. */
  lemma MatchComplete(ident: string, ws1: string, op: string, ws2: string, num: string, end: string)
    requires PatternParts(ident, ws1, op, ws2, num, end)
    ensures MatchCondition(Assemble(ident, ws1, op, ws2, num, end)) == Some((op, num))
  {
    var r := ws1 + (op + (ws2 + (num + end)));
    TailComplete(ws1, op, ws2, num, end);
    TailStartsOutsideWord(ws1, op, ws2 + (num + end));
    IdentThenTail(ident, r);
  }

  lemma NumberSound(r: string) returns (ws: string, num: string, end: string)
    requires MatchNumber(r).Some?
    ensures MatchNumber(r) == Some(num)
    ensures AllIn(ws, Space) && |num| > 0 && AllIn(num, NumberChar) && (end == "" || end == "\n")
    ensures r == ws + (num + end)
  {
    var k := Span(r, Space);
    var r2 := r[k..];
    var n := Span(r2, NumberChar);
    ws, num, end := r[..k], r2[..n], r2[n..];
    assert r2 == num + end;
  }

  lemma OperatorSound(r: string) returns (op: string, ws: string, num: string, end: string)
    requires MatchOperator(r).Some?
    ensures MatchOperator(r) == Some((op, num))
    ensures |op| > 0 && AllIn(op, OpChar)
    ensures AllIn(ws, Space) && |num| > 0 && AllIn(num, NumberChar) && (end == "" || end == "\n")
    ensures r == op + (ws + (num + end))
  {
    var o := Span(r, OpChar);
    op := r[..o];
    ws, num, end := NumberSound(r[o..]);
    assert r == op + r[o..];
  }

  lemma TailSound(r: string) returns (ws1: string, op: string, ws2: string, num: string, end: string)
    requires MatchTail(r).Some?
    ensures MatchTail(r) == Some((op, num))
    ensures AllIn(ws1, Space) && |op| > 0 && AllIn(op, OpChar)
    ensures AllIn(ws2, Space) && |num| > 0 && AllIn(num, NumberChar) && (end == "" || end == "\n")
    ensures r == ws1 + (op + (ws2 + (num + end)))
  {
    var k := Span(r, Space);
    ws1 := r[..k];
    var rest := r[k..];
    op, ws2, num, end := OperatorSound(rest);
    assert MatchTail(r) == MatchOperator(rest);
    assert r == ws1 + rest;
  }

  lemma AssembleAfterIdent(ident: string, r: string, ws1: string, op: string, ws2: string, num: string, end: string)
    requires r == ws1 + (op + (ws2 + (num + end)))
    ensures Assemble(ident, ws1, op, ws2, num, end) == ident + r
  {
  }

  lemma SplitIdent(s: string) returns (ident: string, r: string)
    requires MatchCondition(s).Some?
    ensures |ident| > 0 && AllIn(ident, Word)
    ensures s == ident + r && MatchTail(r) == MatchCondition(s)
  {
    var w := Span(s, Word);
    ident, r := s[..w], s[w..];
    assert MatchCondition(s) == MatchTail(r);
    assert forall i | 0 <= i < |ident| :: ident[i] == s[i];
    assert s == ident + r;
  }

  lemma MatchParts(s: string) returns (ident: string, ws1: string, ws2: string, end: string)
    requires MatchCondition(s).Some?
    ensures PatternParts(ident, ws1, MatchCondition(s).value.0, ws2, MatchCondition(s).value.1, end)
    ensures s == Assemble(ident, ws1, MatchCondition(s).value.0, ws2, MatchCondition(s).value.1, end)
  {
    var r;
    ident, r := SplitIdent(s);
    var op, num;
    ws1, op, ws2, num, end := TailSound(r);
    AssembleAfterIdent(ident, r, ws1, op, ws2, num, end);
  }

  /** Every match comes from pattern pieces, with the two groups as the operator and number
      pieces. With `MatchComplete` this pins `MatchCondition` to the pattern exactly. */
  lemma MatchSound(s: string)
    requires MatchCondition(s).Some?
    ensures exists ident, ws1, ws2, end ::
      && PatternParts(ident, ws1, MatchCondition(s).value.0, ws2, MatchCondition(s).value.1, end)
      && s == Assemble(ident, ws1, MatchCondition(s).value.0, ws2, MatchCondition(s).value.1, end)
  {
    var ident, ws1, ws2, end := MatchParts(s);
  }

  lemma NoLetterConcat(x: string, y: string)
    requires NoLetter(x) && NoLetter(y)
    ensures NoLetter(x + y)
  {
    assert forall i | 0 <= i < |x + y| :: (x + y)[i] == if i < |x| then x[i] else y[i - |x|];
  }

  /** What follows the identifier of a matching string holds no letter. */
  lemma MatchTailNoLetter(r: string)
    requires MatchTail(r).Some?
    ensures NoLetter(r)
  {
    var ws1, op, ws2, num, end := TailSound(r);
    NoLetterConcat(num, end);
    NoLetterConcat(ws2, num + end);
    NoLetterConcat(op, ws2 + (num + end));
    NoLetterConcat(ws1, op + (ws2 + (num + end)));
  }

  // ---------------------------------------------------------------------------------------
  // The field-name rewriting that precedes the match
  // ---------------------------------------------------------------------------------------

  /** `condition_str.replace("price", "value").replace("age", "value").replace("size", "value")` */
  function Normalize(s: string): string {
    Replace(Replace(Replace(s, "price", "value"), "age", "value"), "size", "value")
  }

  /** Replacing letters by letters keeps a word run a non-empty word run. */
  lemma {:induction false} ReplaceWordRun(x: string, pat: string, rep: string)
    requires pat != [] && rep != [] && AllLetters(rep)
    requires AllIn(x, Word)
    ensures AllIn(Replace(x, pat, rep), Word)
    ensures x != [] ==> Replace(x, pat, rep) != []
    decreases |x|
  {
    if x == [] {
    } else if pat <= x {
      ReplaceWordRun(x[|pat|..], pat, rep);
    } else {
      ReplaceWordRun(x[1..], pat, rep);
    }
  }

  /** Replacing one letter-only word by another never changes whether the pattern matches,
      nor its two groups: such words can only occur inside the identifier, or in text that
      stops the match either way. */
  lemma ReplaceKeepsMatch(s: string, pat: string, rep: string)
    requires pat != [] && AllLetters(pat)
    requires rep != [] && AllLetters(rep)
    ensures MatchCondition(Replace(s, pat, rep)) == MatchCondition(s)
  {
    var w := Span(s, Word);
    if s == [] {
    } else if w == 0 {
      assert !(pat <= s) by {
        if |pat| <= |s| {
          assert s[..|pat|][0] == s[0];
        }
      }
      assert Replace(s, pat, rep)[0] == s[0];
    } else {
      var a, r := s[..w], s[w..];
      assert s == a + r;
      ReplaceConcat(a, r, pat, rep);
      ReplaceWordRun(a, pat, rep);
      var a', r' := Replace(a, pat, rep), Replace(r, pat, rep);
      if r != [] {
        assert !(pat <= r) by {
          if |pat| <= |r| {
            assert r[..|pat|][0] == r[0];
          }
        }
        assert r'[0] == r[0];
      }
      SpanOfConcat(a', r', Word);
      assert (a' + r')[|a'|..] == r';
      if NoLetter(r) {
        ReplaceAbsent(r, pat, rep);
      } else {
        ReplaceKeepsLetter(r, pat, rep);
        if MatchTail(r).Some? {
          MatchTailNoLetter(r);
        }
        if MatchTail(r').Some? {
          MatchTailNoLetter(r');
        }
      }
    }
  }

  /** The field-name rewriting never changes the outcome of the match. */
  lemma NormalizeKeepsMatch(s: string)
    ensures MatchCondition(Normalize(s)) == MatchCondition(s)
  {
    assert AllLetters("price") && AllLetters("age") && AllLetters("size") && AllLetters("value");
    var p := Replace(s, "price", "value");
    var q := Replace(p, "age", "value");
    assert Normalize(s) == Replace(q, "size", "value");
    ReplaceKeepsMatch(s, "price", "value");
    ReplaceKeepsMatch(p, "age", "value");
    ReplaceKeepsMatch(q, "size", "value");
  }

  // ---------------------------------------------------------------------------------------
  // The threshold: `float` applied to the number group
  // ---------------------------------------------------------------------------------------

  /** The value of a run of decimal digits. */
  function DigitsValue(s: string): nat
    requires AllIn(s, Digit)
  {
    if s == [] then 0 else 10 * DigitsValue(s[..|s| - 1]) + ((s[|s| - 1] as int) - ('0' as int))
  }

  function Pow10(k: nat): (p: nat)
    ensures p > 0
  {
    if k == 0 then 1 else 10 * Pow10(k - 1)
  }

  /** The exact value of the decimal `whole.frac`. */
  function DecimalValue(whole: string, frac: string): (v: real)
    requires AllIn(whole, Digit) && AllIn(frac, Digit)
    ensures v >= 0.0
  {
    DigitsValue(whole) as real + DigitsValue(frac) as real / Pow10(|frac|) as real
  }

  /** `float(text)` on a run of digits and dots, as an exact decimal; None where `float`
      raises (no digit at all, or more than one dot). */
  function ParseNumber(text: string): (r: Option<real>)
    requires AllIn(text, NumberChar)
    ensures r.Some? ==> r.value >= 0.0
  {
    var k := Span(text, Digit);
    if k == |text| then
      if k == 0 then None else Some(DigitsValue(text) as real)
    else
      var frac := text[k + 1..];
      if Span(frac, Digit) < |frac| || (k == 0 && frac == []) then None
      else Some(DecimalValue(text[..k], frac))
  }

  predicate HasDigit(text: string) {
    exists i | 0 <= i < |text| :: IsDigit(text[i])
  }

  predicate HasTwoDots(text: string) {
    exists i, j | 0 <= i < j < |text| :: text[i] == '.' && text[j] == '.'
  }

  /** `float` accepts a run of digits and dots exactly when it holds a digit and at most one dot. */
  lemma ParseNumberDefined(text: string)
    requires AllIn(text, NumberChar)
    ensures ParseNumber(text).Some? <==> HasDigit(text) && !HasTwoDots(text)
  {
    var k := Span(text, Digit);
    if k == |text| {
      assert k > 0 ==> IsDigit(text[0]);
    } else {
      assert text[k] == '.';
      var frac := text[k + 1..];
      var m := Span(frac, Digit);
      if m < |frac| {
        assert text[k + 1 + m] == frac[m] == '.';
      } else {
        assert forall i | k < i < |text| :: text[i] == frac[i - k - 1];
        assert k > 0 ==> IsDigit(text[0]);
        assert frac != [] ==> IsDigit(text[k + 1]);
      }
    }
  }

  /** The decimal digits of a natural number, as Python's `str` writes them. */
  function DecimalText(n: nat): (s: string)
    ensures |s| > 0 && AllIn(s, Digit)
  {
    (if n < 10 then "" else DecimalText(n / 10)) + [('0' as int + n % 10) as char]
  }

  lemma {:induction false} DecimalTextValue(n: nat)
    ensures DigitsValue(DecimalText(n)) == n
  {
    var s := DecimalText(n);
    assert s[..|s| - 1] == if n < 10 then "" else DecimalText(n / 10);
    if n >= 10 {
      DecimalTextValue(n / 10);
    }
  }

  /** A run of digits reads as its value. */
  lemma ParseWhole(digits: string)
    requires |digits| > 0 && AllIn(digits, Digit)
    ensures AllIn(digits, NumberChar)
    ensures ParseNumber(digits) == Some(DigitsValue(digits) as real)
  {
    SkipRun(digits, "", Digit);
    assert digits + "" == digits;
  }

  /** A whole number written in decimal reads back as itself. */
  lemma ParseDecimalText(n: nat)
    ensures ParseNumber(DecimalText(n)) == Some(n as real)
  {
    ParseWhole(DecimalText(n));
    DecimalTextValue(n);
  }

  lemma FractionSplit(whole: string, frac: string)
    requires AllIn(whole, Digit) && AllIn(frac, Digit)
    ensures var text := whole + ("." + frac);
      && Span(text, Digit) == |whole| < |text|
      && text[..|whole|] == whole && text[|whole| + 1..] == frac
      && Span(frac, Digit) == |frac|
  {
    var rest := "." + frac;
    SkipRun(whole, rest, Digit);
    assert (whole + rest)[|whole| + 1..] == rest[1..] == frac;
    SkipRun(frac, "", Digit);
    assert frac + "" == frac;
  }

  /** A number with a fractional part reads as its exact decimal value. */
  lemma ParseFraction(whole: string, frac: string)
    requires AllIn(whole, Digit) && AllIn(frac, Digit) && |whole| + |frac| > 0
    ensures AllIn(whole + ("." + frac), NumberChar)
    ensures ParseNumber(whole + ("." + frac)) == Some(DecimalValue(whole, frac))
  {
    FractionSplit(whole, frac);
  }

  // ---------------------------------------------------------------------------------------
  // Operators, parsed conditions and the evaluator
  // ---------------------------------------------------------------------------------------

  /** The six supported comparison operators. */
  datatype Op = Le | Ge | Lt | Gt | Eq | Ne

  function OpText(op: Op): string {
    match op
    case Le => "<="
    case Ge => ">="
    case Lt => "<"
    case Gt => ">"
    case Eq => "="
    case Ne => "!="
  }

  /** The operator an operator group names; None for a group the pattern admits but that
      is none of the six, such as "==", "=<", "<>" or "!". */
  function ParseOp(text: string): (r: Option<Op>)
    ensures r.Some? ==> OpText(r.value) == text
    ensures r.None? ==> forall op: Op :: OpText(op) != text
  {
    if text == "<=" then Some(Le)
    else if text == ">=" then Some(Ge)
    else if text == "<" then Some(Lt)
    else if text == ">" then Some(Gt)
    else if text == "=" then Some(Eq)
    else if text == "!=" then Some(Ne)
    else None
  }

  /** A parsed condition: an operator and a non-negative threshold. */
  datatype Condition = Condition(op: Op, threshold: real)

  predicate Holds(c: Condition, value: real) {
    match c.op
    case Le => value <= c.threshold
    case Ge => value >= c.threshold
    case Lt => value < c.threshold
    case Gt => value > c.threshold
    case Eq => value == c.threshold
    case Ne => value != c.threshold
  }

  /** The explicit parser: the condition a string denotes, or None when it denotes none. */
  function ParseCondition(s: string): (r: Option<Condition>)
    ensures r.Some? ==> r.value.threshold >= 0.0
  {
    match MatchCondition(s)
    case None => None
    case Some((opText, numText)) =>
      match ParseNumber(numText)
      case None => None
      case Some(t) =>
        match ParseOp(opText)
        case None => None
        case Some(op) => Some(Condition(op, t))
  }

  /** The Python value passed as `condition_str`: absent (None), a string, or a value of
      another type, together with its truthiness. */
  datatype ConditionArg = Absent | Str(s: string) | NonString(truthy: bool)

  predicate IsTruthy(arg: ConditionArg) {
    match arg
    case Absent => false
    case Str(s) => s != ""
    case NonString(truthy) => truthy
  }

  /** The parser's verdict mapped to the fail-open reading: no condition admits every value. */
  predicate Admits(c: Option<Condition>, value: real) {
    c.None? || Holds(c.value, value)
  }

  /** `evaluate_sql_condition(value, condition_str)`. */
  predicate EvaluateCondition(value: real, arg: ConditionArg) {
    match arg
    case Str(s) => s == "" || Admits(ParseCondition(Normalize(s)), value)
    case _ => true
  }

  // ---------------------------------------------------------------------------------------
  // What the evaluator promises
  // ---------------------------------------------------------------------------------------

  lemma ParseNormalized(s: string)
    ensures ParseCondition(Normalize(s)) == ParseCondition(s)
  {
    NormalizeKeepsMatch(s);
  }

  /** Once the pattern has matched, the condition is the operator and the threshold the two
      groups spell, or none when either is not understood. */
  lemma ParseOfMatch(s: string, opText: string, numText: string)
    requires MatchCondition(s) == Some((opText, numText))
    ensures AllIn(numText, NumberChar)
    ensures ParseCondition(s)
      == if ParseNumber(numText).None? || ParseOp(opText).None? then None
         else Some(Condition(ParseOp(opText).value, ParseNumber(numText).value))
  {
  }

  lemma ParseOpText(op: Op)
    ensures ParseOp(OpText(op)) == Some(op)
  {
  }

  /** A string condition holds exactly when it parses to nothing or its comparison holds:
      the parser with every failure mapped to true. */
  lemma EvaluateMeaning(value: real, s: string)
    ensures EvaluateCondition(value, Str(s)) == Admits(ParseCondition(s), value)
  {
    ParseNormalized(s);
  }

  /** An absent, empty or falsy condition, or one that is not a string, accepts every value. */
  lemma FalsyAcceptsAll(value: real, arg: ConditionArg)
    requires !IsTruthy(arg) || !arg.Str?
    ensures EvaluateCondition(value, arg)
  {
  }

  /** A well-formed condition with one of the six operators is exactly that comparison
      against the threshold it spells. */
  lemma ComparisonApplies(value: real, ident: string, ws1: string, op: Op, ws2: string, num: string, end: string)
    requires PatternParts(ident, ws1, OpText(op), ws2, num, end)
    requires ParseNumber(num).Some?
    ensures EvaluateCondition(value, Str(Assemble(ident, ws1, OpText(op), ws2, num, end)))
      == Holds(Condition(op, ParseNumber(num).value), value)
  {
    var s := Assemble(ident, ws1, OpText(op), ws2, num, end);
    MatchComplete(ident, ws1, OpText(op), ws2, num, end);
    ParseOfMatch(s, OpText(op), num);
    ParseOpText(op);
    EvaluateMeaning(value, s);
  }

  /** An operator group the pattern admits but that is not one of the six accepts every value. */
  lemma UnknownOperatorAccepts(value: real, ident: string, ws1: string, opText: string, ws2: string, num: string, end: string)
    requires PatternParts(ident, ws1, opText, ws2, num, end)
    requires forall op: Op :: OpText(op) != opText
    ensures EvaluateCondition(value, Str(Assemble(ident, ws1, opText, ws2, num, end)))
  {
    var s := Assemble(ident, ws1, opText, ws2, num, end);
    MatchComplete(ident, ws1, opText, ws2, num, end);
    EvaluateMeaning(value, s);
  }

  /** A number group that `float` rejects accepts every value. */
  lemma BadNumberAccepts(value: real, ident: string, ws1: string, opText: string, ws2: string, num: string, end: string)
    requires PatternParts(ident, ws1, opText, ws2, num, end)
    requires HasTwoDots(num) || !HasDigit(num)
    ensures EvaluateCondition(value, Str(Assemble(ident, ws1, opText, ws2, num, end)))
  {
    var s := Assemble(ident, ws1, opText, ws2, num, end);
    MatchComplete(ident, ws1, opText, ws2, num, end);
    ParseNumberDefined(num);
    EvaluateMeaning(value, s);
  }

  /** A string the pattern rejects accepts every value. */
  lemma MismatchAccepts(value: real, s: string)
    requires MatchCondition(s).None?
    ensures EvaluateCondition(value, Str(s))
  {
    EvaluateMeaning(value, s);
  }

  // ---------------------------------------------------------------------------------------
  // Worked examples
  // ---------------------------------------------------------------------------------------

  /** "price <= 100" admits 100 and rejects 101. */
  lemma AtMostExample()
    ensures EvaluateCondition(100.0, Str("price <= 100"))
    ensures !EvaluateCondition(101.0, Str("price <= 100"))
  {
    assert DigitsValue("10") == 10;
    assert DigitsValue("100") == 100;
    ParseWhole("100");
    assert PatternParts("price", " ", OpText(Le), " ", "100", "");
    assert Assemble("price", " ", OpText(Le), " ", "100", "") == "price <= 100";
    ComparisonApplies(100.0, "price", " ", Le, " ", "100", "");
    ComparisonApplies(101.0, "price", " ", Le, " ", "100", "");
  }

  /** Python's `$` also matches before a final newline, so "size>=30\n" is still a condition. */
  lemma TrailingNewlineExample()
    ensures EvaluateCondition(30.0, Str("size>=30\n"))
    ensures !EvaluateCondition(29.0, Str("size>=30\n"))
  {
    assert DigitsValue("30") == 30;
    ParseWhole("30");
    assert PatternParts("size", "", OpText(Ge), "", "30", "\n");
    assert Assemble("size", "", OpText(Ge), "", "30", "\n") == "size>=30\n";
    ComparisonApplies(30.0, "size", "", Ge, "", "30", "\n");
    ComparisonApplies(29.0, "size", "", Ge, "", "30", "\n");
  }

  /** A string whose operator position holds a character outside `[<>=!]` does not match. */
  lemma MissingOperatorMismatch(ident: string, ws: string, rest: string)
    requires |ident| > 0 && AllIn(ident, Word) && AllIn(ws, Space)
    requires rest == [] || (!InClass(Word, rest[0]) && !InClass(Space, rest[0]) && !InClass(OpChar, rest[0]))
    ensures MatchCondition(ident + (ws + rest)) == None
  {
    var r := ws + rest;
    assert r == [] || !InClass(Word, r[0]) by {
      if ws != [] {
        assert r[0] == ws[0];
      }
    }
    IdentThenTail(ident, r);
    SkipRun(ws, rest, Space);
    SkipRun([], rest, OpChar);
    assert [] + rest == rest;
  }

  /** A string whose number position holds a character outside `[\d\.]`, such as a sign,
      does not match. */
  lemma MissingNumberMismatch(ident: string, ws1: string, op: string, ws2: string, rest: string)
    requires |ident| > 0 && AllIn(ident, Word) && AllIn(ws1, Space)
    requires |op| > 0 && AllIn(op, OpChar) && AllIn(ws2, Space)
    requires rest == [] || (!InClass(NumberChar, rest[0]) && !InClass(Space, rest[0]) && !InClass(OpChar, rest[0]))
    ensures MatchCondition(ident + (ws1 + (op + (ws2 + rest)))) == None
  {
    var r2 := ws2 + rest;
    assert MatchNumber(r2) == None by {
      SkipRun(ws2, rest, Space);
      SkipRun([], rest, NumberChar);
      assert [] + rest == rest;
    }
    assert MatchOperator(op + r2) == None by {
      assert r2 == [] || !InClass(OpChar, r2[0]) by {
        if ws2 != [] {
          assert r2[0] == ws2[0];
        }
      }
      SkipRun(op, r2, OpChar);
    }
    assert MatchTail(ws1 + (op + r2)) == None by {
      assert (op + r2)[0] == op[0];
      SkipRun(ws1, op + r2, Space);
    }
    TailStartsOutsideWord(ws1, op, r2);
    IdentThenTail(ident, ws1 + (op + r2));
  }

  /** "price ~~ 100" does not match the pattern, so it admits every value. */
  lemma UnknownSymbolExample(value: real)
    ensures EvaluateCondition(value, Str("price ~~ 100"))
  {
    assert "price" + (" " + "~~ 100") == "price ~~ 100";
    MissingOperatorMismatch("price", " ", "~~ 100");
    MismatchAccepts(value, "price ~~ 100");
  }

  /** A negative threshold does not match `[\d\.]+`, so "age <= -5" admits every value. */
  lemma NegativeThresholdExample(value: real)
    ensures EvaluateCondition(value, Str("age <= -5"))
  {
    assert "age" + (" " + ("<=" + (" " + "-5"))) == "age <= -5";
    MissingNumberMismatch("age", " ", "<=", " ", "-5");
    MismatchAccepts(value, "age <= -5");
  }

  /** "==" matches `[<>=!]+` but is none of the six operators, so it admits every value. */
  lemma DoubleEqualsExample(value: real)
    ensures EvaluateCondition(value, Str("price == 100"))
  {
    assert PatternParts("price", " ", "==", " ", "100", "");
    assert Assemble("price", " ", "==", " ", "100", "") == "price == 100";
    UnknownOperatorAccepts(value, "price", " ", "==", " ", "100", "");
  }

  /** "1.2.3" makes `float` raise, so "price <= 1.2.3" admits every value. */
  lemma TwoDotsExample(value: real)
    ensures EvaluateCondition(value, Str("price <= 1.2.3"))
  {
    assert "1.2.3"[1] == '.' && "1.2.3"[3] == '.';
    assert HasTwoDots("1.2.3");
    assert PatternParts("price", " ", "<=", " ", "1.2.3", "");
    assert Assemble("price", " ", "<=", " ", "1.2.3", "") == "price <= 1.2.3";
    BadNumberAccepts(value, "price", " ", "<=", " ", "1.2.3", "");
  }
}
