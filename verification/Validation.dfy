/** The recognisers of `dmNewDataTypesValidation.cc`: a cursor that runs over a string, and the grammar of
    float values. */
module Validation {
  import opened DmText

  const MINUS: CChar := 45
  const PLUS: CChar := 43
  const DOT: CChar := 46
  const COLON: CChar := 58
  const UPPER_E: CChar := 69
  const LOWER_E: CChar := 101
  const UPPER_W: CChar := 87
  const UPPER_Z: CChar := 90
  const ZERO: CChar := 48

  predicate IsDigit(c: CChar) {
    48 <= c <= 57
  }

  predicate AllDigits(s: Text) {
    forall i :: 0 <= i < |s| ==> IsDigit(s[i])
  }

  // ---------- the cursor ----------

  /** `matcher_t`. It is passed by value, and a copy measures its offset from where it was made. */
  datatype Matcher = Matcher(text: Text, position: nat, initial: nat) {
    ghost predicate Valid() {
      initial <= position <= |text|
    }

    function Copy(): Matcher {
      Matcher(text, position, position)
    }

    function Offset(): int {
      position - initial
    }

    /** What is still to be read. */
    function Rest(): Text
      requires Valid()
    {
      text[position..]
    }
  }

  function Start(text: Text): (m: Matcher)
    ensures m.Valid() && m.Rest() == text
  {
    Matcher(text, 0, 0)
  }

  /** `advance`: an offset of 0 means that nothing was recognised, and leaves the cursor alone. */
  method Advance(m: Matcher, offset: int) returns (next: Matcher, advanced: bool)
    requires m.Valid()
    ensures next.Valid() && next.text == m.text && next.initial == m.initial
    ensures advanced <==> 0 < offset <= |m.Rest()|
    ensures next.position == if advanced then m.position + offset else m.position
    ensures advanced ==> next.Rest() == m.Rest()[offset..]
  {
    if offset > 0 && m.position + offset <= |m.text| {
      return m.(position := m.position + offset), true;
    }
    return m, false;
  }

  // ---------- numbers ----------

  /** How many digits a text starts with. */
  function DigitRun(s: Text): (n: nat)
    ensures n <= |s| && AllDigits(s[..n])
    ensures n < |s| ==> !IsDigit(s[n])
  {
    if s == [] || !IsDigit(s[0]) then 0
    else
      var n := DigitRun(s[1..]) + 1;
      assert forall i :: 0 < i < n ==> s[i] == s[1..][..n - 1][i - 1];
      n
  }

  function LiteralLen(s: Text, c: CChar): (n: nat)
    ensures n <= 1 && n <= |s|
  {
    if s != [] && s[0] == c then 1 else 0
  }

  function SignLen(s: Text): (n: nat)
    ensures n <= 1 && n <= |s|
  {
    if LiteralLen(s, MINUS) == 1 then 1 else LiteralLen(s, PLUS)
  }

  /** The longest number of at least `min` and at most `max` digits at the front; 0 when there is none. */
  function NumberLen(s: Text, min: nat, max: nat): (n: nat)
    ensures n <= |s|
  {
    var run := DigitRun(s);
    if run < min then 0 else if run < max then run else max
  }

  lemma DigitRunStep(s: Text, k: nat)
    requires k < |s| && k <= DigitRun(s)
    ensures DigitRun(s) > k <==> IsDigit(s[k])
  {
    if k < DigitRun(s) {
      assert s[..DigitRun(s)][k] == s[k];
    }
  }

  method IsDigitAt(m: Matcher) returns (offset: int)
    requires m.Valid()
    ensures offset == if m.Rest() != [] && IsDigit(m.Rest()[0]) then 1 else 0
  {
    if m.position < |m.text| && IsDigit(m.text[m.position]) {
      return 1;
    }
    return 0;
  }

  method IsLiteral(m: Matcher, c: CChar) returns (offset: int)
    requires m.Valid()
    ensures offset == LiteralLen(m.Rest(), c)
  {
    if m.position < |m.text| && m.text[m.position] == c {
      return 1;
    }
    return 0;
  }

  method IsSign(m: Matcher) returns (offset: int)
    requires m.Valid()
    ensures offset == SignLen(m.Rest())
  {
    offset := IsLiteral(m, MINUS);
    if offset == 0 {
      offset := IsLiteral(m, PLUS);
    }
  }

  /** One digit of a run. */
  method TakeDigit(m: Matcher, ghost s: Text, ghost i: nat) returns (next: Matcher, advanced: bool)
    requires m.Valid() && i <= DigitRun(s) && m.Rest() == s[i..]
    ensures next.Valid() && next.text == m.text && next.initial == m.initial
    ensures advanced <==> i < DigitRun(s)
    ensures next.position == m.position + (if advanced then 1 else 0)
    ensures advanced ==> next.Rest() == s[i + 1..]
  {
    hide DigitRun, AllDigits;
    var digit := IsDigitAt(m);
    if i < |s| {
      DigitRunStep(s, i);
    }
    next, advanced := Advance(m, digit);
  }

  /** `is_number`, on its own copy of the cursor. */
  method IsNumber(matcher: Matcher, min: nat, max: nat) returns (offset: int)
    requires matcher.Valid() && min <= max
    ensures offset == NumberLen(matcher.Rest(), min, max)
    ensures matcher.position + offset <= |matcher.text|
  {
    hide DigitRun, AllDigits;
    var m := matcher.Copy();
    ghost var s := matcher.Rest();
    var advanced;
    for i := 0 to min
      invariant m.Valid() && m.text == matcher.text && m.initial == matcher.position
      invariant m.Offset() == i && i <= DigitRun(s) && m.Rest() == s[i..]
    {
      m, advanced := TakeDigit(m, s, i);
      if !advanced {
        return 0;
      }
    }
    for i := min to max
      invariant m.Valid() && m.text == matcher.text && m.initial == matcher.position
      invariant m.Offset() == i && i <= DigitRun(s) && m.Rest() == s[i..]
    {
      m, advanced := TakeDigit(m, s, i);
      if !advanced {
        return m.Offset();
      }
    }
    return m.Offset();
  }

  // ---------- floats ----------

  function FractionLen(s: Text): (n: nat)
    ensures n <= |s|
  {
    if LiteralLen(s, DOT) == 0 then 0
    else
      var n := NumberLen(s[1..], 1, 10);
      if n == 0 then 0 else 1 + n
  }

  function EeLen(s: Text): (n: nat)
    ensures n <= 1 && n <= |s|
  {
    if LiteralLen(s, UPPER_E) == 1 then 1 else LiteralLen(s, LOWER_E)
  }

  function ExponentLen(s: Text): nat {
    if EeLen(s) == 0 then 0
    else
      var k := 1 + SignLen(s[1..]);
      var n := NumberLen(s[k..], 1, 10);
      if n == 0 then 0 else k + n
  }

  function MantissaLen(s: Text): (n: nat)
    ensures n <= |s|
  {
    var k := SignLen(s);
    var n := NumberLen(s[k..], 1, 10);
    if n == 0 then 0 else k + n + FractionLen(s[k + n..])
  }

  /** What the greedy cursor accepts. */
  predicate Greedy(s: Text) {
    MantissaLen(s) > 0 && MantissaLen(s) + ExponentLen(s[MantissaLen(s)..]) == |s|
  }

  method IsFractionalPart(matcher: Matcher) returns (offset: int)
    requires matcher.Valid()
    ensures offset == FractionLen(matcher.Rest()) && matcher.position + offset <= |matcher.text|
  {
    var m := matcher.Copy();
    var ok;
    var part := IsLiteral(m, DOT);
    m, ok := Advance(m, part);
    if !ok {
      return 0;
    }
    part := IsNumber(m, 1, 10);
    m, ok := Advance(m, part);
    if !ok {
      return 0;
    }
    return m.Offset();
  }

  method IsEe(m: Matcher) returns (offset: int)
    requires m.Valid()
    ensures offset == EeLen(m.Rest())
  {
    offset := IsLiteral(m, UPPER_E);
    if offset == 0 {
      offset := IsLiteral(m, LOWER_E);
    }
  }

  method IsExponent(matcher: Matcher) returns (offset: int)
    requires matcher.Valid()
    ensures offset == ExponentLen(matcher.Rest()) && matcher.position + offset <= |matcher.text|
  {
    hide NumberLen, SignLen, EeLen;
    var m := matcher.Copy();
    var ok;
    var part := IsEe(m);
    m, ok := Advance(m, part);
    if !ok {
      return 0;
    }
    part := IsSign(m);
    m, ok := Advance(m, part);
    part := IsNumber(m, 1, 10);
    m, ok := Advance(m, part);
    if !ok {
      return 0;
    }
    return m.Offset();
  }

  method IsMantissa(matcher: Matcher) returns (offset: int)
    requires matcher.Valid()
    ensures offset == MantissaLen(matcher.Rest()) && matcher.position + offset <= |matcher.text|
  {
    hide NumberLen, SignLen, FractionLen;
    var m := matcher.Copy();
    var ok;
    var part := IsSign(m);
    m, ok := Advance(m, part);
    part := IsNumber(m, 1, 10);
    m, ok := Advance(m, part);
    if !ok {
      return 0;
    }
    part := IsFractionalPart(m);
    m, ok := Advance(m, part);
    return m.Offset();
  }

  /** `is_float`: it accepts exactly the texts of the grammar. */
  method IsFloat(str: Text) returns (accepted: bool)
    ensures accepted <==> FloatText(str)
  {
    GreedyIsGrammar(str);
    var m := Start(str);
    if |str| == 0 {
      return false;
    }
    var ok;
    var part := IsMantissa(m);
    m, ok := Advance(m, part);
    if !ok {
      return false;
    }
    part := IsExponent(m);
    m, ok := Advance(m, part);
    return m.Offset() == |str|;
  }

  predicate IsSignText(s: Text) {
    s == [] || s == ['-' as CChar] || s == ['+' as CChar]
  }

  predicate IsDigits(s: Text, min: nat, max: nat) {
    min <= |s| <= max && forall i :: 0 <= i < |s| ==> '0' as int <= s[i] <= '9' as int
  }

  predicate IsFractionText(s: Text) {
    s == [] || (s[0] == '.' as int && IsDigits(s[1..], 1, 10))
  }

  predicate ExponentParts(s: Text, e: CChar, sign: Text, digits: Text) {
    s == [e] + sign + digits && (e == 'E' as int || e == 'e' as int) && IsSignText(sign)
    && IsDigits(digits, 1, 10)
  }

  ghost predicate IsExponentText(s: Text) {
    s == [] || exists e, sign, digits :: ExponentParts(s, e, sign, digits)
  }

  ghost predicate FloatParts(s: Text, sign: Text, whole: Text, fraction: Text, exponent: Text) {
    && s == sign + whole + fraction + exponent
    && IsSignText(sign) && IsDigits(whole, 1, 10) && IsFractionText(fraction) && IsExponentText(exponent)
  }

  /** The grammar: an optional sign, 1 to 10 digits, an optional fraction, an optional exponent. */
  ghost predicate FloatText(s: Text) {
    exists sign, whole, fraction, exponent :: FloatParts(s, sign, whole, fraction, exponent)
  }

  // The greedy cursor takes exactly the parts of the grammar.

  lemma {:induction false} RunOfDigits(digits: Text, rest: Text)
    requires AllDigits(digits) && (rest == [] || !IsDigit(rest[0]))
    ensures DigitRun(digits + rest) == |digits|
  {
    var s := digits + rest;
    if digits == [] {
      assert s == rest;
    } else {
      assert s[1..] == digits[1..] + rest;
      RunOfDigits(digits[1..], rest);
    }
  }

  lemma NumberTaken(digits: Text, rest: Text)
    requires IsDigits(digits, 1, 10) && (rest == [] || !IsDigit(rest[0]))
    ensures NumberLen(digits + rest, 1, 10) == |digits|
  {
    RunOfDigits(digits, rest);
  }

  lemma SignTaken(sign: Text, rest: Text)
    requires IsSignText(sign) && rest != [] && IsDigit(rest[0])
    ensures SignLen(sign + rest) == |sign|
  {
  }

  lemma FractionTaken(fraction: Text, rest: Text)
    requires IsFractionText(fraction) && (rest == [] || (rest[0] != DOT && !IsDigit(rest[0])))
    ensures FractionLen(fraction + rest) == |fraction|
  {
    if fraction == [] {
      assert fraction + rest == rest;
    } else {
      assert (fraction + rest)[1..] == fraction[1..] + rest;
      NumberTaken(fraction[1..], rest);
    }
  }

  lemma ExponentPartsTaken(e: CChar, sign: Text, digits: Text)
    requires (e == UPPER_E || e == LOWER_E) && IsSignText(sign) && IsDigits(digits, 1, 10)
    ensures ExponentLen([e] + sign + digits) == 1 + |sign| + |digits|
  {
    hide DigitRun, AllDigits;
    var s := [e] + sign + digits;
    assert s[1..] == sign + digits;
    FirstDigit(digits);
    SignTaken(sign, digits);
    assert s[1 + |sign|..] == digits + [];
    NumberTaken(digits, []);
  }

  lemma FirstDigit(digits: Text)
    requires IsDigits(digits, 1, 10)
    ensures IsDigit(digits[0])
  {
  }

  lemma ExponentTaken(exponent: Text)
    requires IsExponentText(exponent)
    ensures ExponentLen(exponent) == |exponent|
    ensures exponent != [] ==> exponent[0] == UPPER_E || exponent[0] == LOWER_E
  {
    if exponent != [] {
      var e, sign, digits :| ExponentParts(exponent, e, sign, digits);
      ExponentPartsTaken(e, sign, digits);
    }
  }

  lemma MantissaTaken(sign: Text, whole: Text, fraction: Text, rest: Text)
    requires IsSignText(sign) && IsDigits(whole, 1, 10) && IsFractionText(fraction)
    requires rest == [] || (rest[0] != DOT && !IsDigit(rest[0]))
    ensures MantissaLen(sign + whole + fraction + rest) == |sign| + |whole| + |fraction|
  {
    hide DigitRun, AllDigits, NumberLen, SignLen, FractionLen, LiteralLen;
    var s := sign + whole + fraction + rest;
    FirstDigit(whole);
    assert s == sign + (whole + (fraction + rest));
    assert s[|sign|..] == whole + (fraction + rest);
    assert s[|sign| + |whole|..] == fraction + rest;
    SignTaken(sign, whole + (fraction + rest));
    NumberTaken(whole, fraction + rest);
    FractionTaken(fraction, rest);
  }

  lemma GrammarIsGreedy(s: Text)
    requires FloatText(s)
    ensures Greedy(s)
  {
    var sign, whole, fraction, exponent :| FloatParts(s, sign, whole, fraction, exponent);
    ExponentTaken(exponent);
    MantissaTaken(sign, whole, fraction, exponent);
    assert s[|sign| + |whole| + |fraction|..] == exponent;
  }

  lemma NumberIsDigits(s: Text)
    requires NumberLen(s, 1, 10) > 0
    ensures IsDigits(s[..NumberLen(s, 1, 10)], 1, 10)
  {
    var n := NumberLen(s, 1, 10);
    assert forall i :: 0 <= i < n ==> s[i] == s[..DigitRun(s)][i];
  }

  lemma ExponentIsText(s: Text)
    requires ExponentLen(s) == |s|
    ensures IsExponentText(s)
  {
    if s != [] {
      hide DigitRun, AllDigits;
      var k := SignLen(s[1..]);
      var sign, digits := s[1..1 + k], s[1 + k..];
      NumberIsDigits(digits);
      assert digits[..NumberLen(digits, 1, 10)] == digits;
      assert s == [s[0]] + sign + digits;
      assert ExponentParts(s, s[0], sign, digits);
    }
  }

  lemma FractionIsText(s: Text, rest: Text)
    requires FractionLen(s + rest) == |s|
    ensures IsFractionText(s)
  {
    if s != [] {
      hide DigitRun, AllDigits;
      var behind := (s + rest)[1..];
      assert behind == s[1..] + rest;
      NumberIsDigits(behind);
      assert behind[..|s| - 1] == s[1..];
    }
  }

  lemma GreedyIsFloat(s: Text)
    requires Greedy(s)
    ensures FloatText(s)
  {
    hide DigitRun, AllDigits, FractionLen, ExponentLen;
    var k := SignLen(s);
    var n := NumberLen(s[k..], 1, 10);
    var f := FractionLen(s[k + n..]);
    var sign, whole, fraction, exponent := s[..k], s[k..k + n], s[k + n..k + n + f], s[k + n + f..];
    NumberIsDigits(s[k..]);
    FourParts(s, k, k + n, k + n + f);
    FractionIsText(fraction, exponent);
    ExponentIsText(exponent);
    FloatFromParts(sign, whole, fraction, exponent);
  }

  lemma FourParts(s: Text, i: nat, j: nat, k: nat)
    requires i <= j <= k <= |s|
    ensures s == s[..i] + s[i..j] + s[j..k] + s[k..]
    ensures s[j..] == s[j..k] + s[k..] && s[i..j] == s[i..][..j - i]
  {
    assert s[..j] == s[..i] + s[i..j];
    assert s[..k] == s[..j] + s[j..k];
  }

  lemma FloatFromParts(sign: Text, whole: Text, fraction: Text, exponent: Text)
    requires IsSignText(sign) && IsDigits(whole, 1, 10) && IsFractionText(fraction) && IsExponentText(exponent)
    ensures FloatText(sign + whole + fraction + exponent)
  {
    assert FloatParts(sign + whole + fraction + exponent, sign, whole, fraction, exponent);
  }

  /** The greedy cursor is sound and complete for the grammar. */
  lemma GreedyIsGrammar(s: Text)
    ensures Greedy(s) <==> FloatText(s)
  {
    if Greedy(s) {
      GreedyIsFloat(s);
    }
    if FloatText(s) {
      GrammarIsGreedy(s);
    }
  }
}
