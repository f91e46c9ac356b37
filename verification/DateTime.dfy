/** Dates and times: 11 and 7 fixed-width layouts, subsets of ISO 8601:2004 sections 4.1 and 4.2. The ranges
    are the code's own: weeks run to 52, seconds to 59, hours to 23. */
module DateTime {
  import opened DmText
  import opened Validation

  datatype Field = Number(width: nat, low: nat, high: nat) | Literal(c: CChar) | Sign

  type Layout = seq<Field>

  const YEAR := Number(4, 0, 9999)
  const MONTH := Number(2, 1, 12)
  const DAY_OF_MONTH := Number(2, 1, 31)
  const DAY_OF_YEAR := Number(3, 1, 366)
  const DAY_OF_WEEK := Number(1, 1, 7)
  const WEEK := Number(2, 1, 52)
  const HOURS := Number(2, 0, 23)
  const MINUTES := Number(2, 0, 59)
  const SECONDS := Number(2, 0, 59)
  const DASH := Literal(MINUS)
  const W := Literal(UPPER_W)
  const COL := Literal(COLON)
  const Z := Literal(UPPER_Z)

  /** In the order `is_date` tries them. */
  const DATE_LAYOUTS: seq<Layout> := [
    [YEAR],
    [YEAR, DASH, MONTH, DASH, DAY_OF_MONTH],
    [YEAR, DASH, MONTH],
    [YEAR, DASH, DAY_OF_YEAR],
    [YEAR, DASH, W, WEEK],
    [YEAR, DASH, W, WEEK, DASH, DAY_OF_WEEK],
    [YEAR, MONTH, DAY_OF_MONTH],
    [YEAR, MONTH],
    [YEAR, DAY_OF_YEAR],
    [YEAR, W, WEEK],
    [YEAR, W, WEEK, DAY_OF_WEEK]
  ]

  /** In the order `is_time` tries them. */
  const TIME_LAYOUTS: seq<Layout> := [
    [HOURS, COL, MINUTES, COL, SECONDS],
    [HOURS, COL, MINUTES],
    [HOURS, MINUTES, SECONDS],
    [HOURS, MINUTES],
    [HOURS],
    [HOURS, COL, MINUTES, COL, SECONDS, Z],
    [HOURS, COL, MINUTES, COL, SECONDS, Sign, HOURS, COL, MINUTES]
  ]

  // ---------- the grammar ----------

  function Width(f: Field): nat {
    if f.Number? then f.width else 1
  }

  /** The decimal value of a text of digits. */
  function ValueOf(s: Text): int {
    if s == [] then 0 else 10 * ValueOf(s[..|s| - 1]) + (s[|s| - 1] as int - 48)
  }

  predicate InField(s: Text, f: Field) {
    |s| == Width(f) &&
    match f
    case Number(_, low, high) => AllDigits(s) && low <= ValueOf(s) <= high
    case Literal(c) => s == [c]
    case Sign => s == [MINUS] || s == [PLUS]
  }

  /** The text is made of the fields of a layout, one behind the other. */
  predicate InLayout(s: Text, layout: Layout)
    decreases |layout|
  {
    if layout == [] then s == []
    else
      var w := Width(layout[0]);
      w <= |s| && InField(s[..w], layout[0]) && InLayout(s[w..], layout[1..])
  }

  // ---------- recognisers ----------

  function FieldLen(s: Text, f: Field): nat {
    if Width(f) <= |s| && InField(s[..Width(f)], f) then Width(f) else 0
  }

  function TotalWidth(layout: Layout): nat {
    if layout == [] then 0 else Width(layout[0]) + TotalWidth(layout[1..])
  }

  predicate StartsWith(s: Text, layout: Layout) {
    TotalWidth(layout) <= |s| && InLayout(s[..TotalWidth(layout)], layout)
  }

  /** Every field is at least one character wide. */
  predicate Proper(layout: Layout) {
    forall f | f in layout :: Width(f) > 0
  }

  /** `is_number_in_range` */
  method IsNumberInRange(m: Matcher, width: nat, low: nat, high: nat) returns (offset: int)
    requires m.Valid() && width > 0
    ensures offset == FieldLen(m.Rest(), Number(width, low, high)) && m.position + offset <= |m.text|
  {
    ghost var s := m.Rest();
    FixedNumber(s, width);
    offset := IsNumber(m, width, width);
    if offset == 0 {
      return 0;
    }
    var value := 0;
    for i := 0 to width
      invariant value == ValueOf(s[..i])
    {
      value := 10 * value + (m.text[m.position + i] as int - 48);
      assert s[..i + 1][..i] == s[..i];
    }
    offset := if low <= value && value <= high then offset else 0;
  }

  /** A number of a fixed width is there exactly when that many digits are. */
  lemma FixedNumber(s: Text, width: nat)
    requires width > 0
    ensures NumberLen(s, width, width) == if width <= |s| && AllDigits(s[..width]) then width else 0
  {
    var run := DigitRun(s);
    if run >= width {
      assert forall i :: 0 <= i < width ==> s[..width][i] == s[..run][i];
    } else if run < |s| && width <= |s| {
      assert s[..width][run] == s[run];
    }
  }

  method IsField(m: Matcher, f: Field) returns (offset: int)
    requires m.Valid() && Width(f) > 0
    ensures offset == FieldLen(m.Rest(), f) && m.position + offset <= |m.text|
  {
    match f {
      case Number(width, low, high) => offset := IsNumberInRange(m, width, low, high);
      case Literal(c) => offset := IsLiteral(m, c);
      case Sign => offset := IsSign(m);
    }
  }

  lemma StartsWithStep(s: Text, layout: Layout)
    requires layout != [] && Width(layout[0]) > 0
    ensures StartsWith(s, layout)
            <==> FieldLen(s, layout[0]) > 0 && StartsWith(s[FieldLen(s, layout[0])..], layout[1..])
  {
    var w, n := Width(layout[0]), TotalWidth(layout);
    if n <= |s| {
      assert s[..n][..w] == s[..w];
      assert s[..n][w..] == s[w..][..n - w];
    }
  }

  /** What each of the recognisers named after a layout does: the fields in turn, on a copy of the cursor. */
  method IsLayout(matcher: Matcher, layout: Layout) returns (offset: int)
    requires matcher.Valid() && Proper(layout)
    ensures offset == if StartsWith(matcher.Rest(), layout) then TotalWidth(layout) else 0
    ensures matcher.position + offset <= |matcher.text|
  {
    var m := matcher.Copy();
    for i := 0 to |layout|
      invariant m.Valid() && m.text == matcher.text && m.initial == matcher.position
      invariant StartsWith(matcher.Rest(), layout) <==> StartsWith(m.Rest(), layout[i..])
      invariant m.Offset() + TotalWidth(layout[i..]) == TotalWidth(layout)
    {
      StartsWithStep(m.Rest(), layout[i..]);
      assert layout[i..][1..] == layout[i + 1..];
      assert layout[i] in layout;
      var part := IsField(m, layout[i]);
      var ok;
      m, ok := Advance(m, part);
      if !ok {
        return 0;
      }
    }
    return m.Offset();
  }

  /** `is_format` */
  method IsFormat(str: Text, layout: Layout) returns (matched: bool)
    requires Proper(layout) && str != []
    ensures matched <==> InLayout(str, layout)
  {
    var m := Start(str);
    var offset := IsLayout(m, layout);
    if InLayout(str, layout) {
      LayoutLength(str, layout);
    }
    matched := offset == |str|;
    assert TotalWidth(layout) == |str| ==> str[..TotalWidth(layout)] == str;
  }

  lemma {:induction false} LayoutLength(s: Text, layout: Layout)
    requires InLayout(s, layout)
    ensures |s| == TotalWidth(layout)
    decreases |layout|
  {
    if layout != [] {
      LayoutLength(s[Width(layout[0])..], layout[1..]);
    }
  }

  ghost predicate InOneOf(s: Text, layouts: seq<Layout>) {
    exists i :: 0 <= i < |layouts| && InLayout(s, layouts[i])
  }

  lemma AllProper(layouts: seq<Layout>)
    requires layouts == DATE_LAYOUTS || layouts == TIME_LAYOUTS
    ensures forall i :: 0 <= i < |layouts| ==> Proper(layouts[i]) && layouts[i] != []
  {
  }

  method IsOneOf(str: Text, layouts: seq<Layout>) returns (accepted: bool)
    requires forall i :: 0 <= i < |layouts| ==> Proper(layouts[i]) && layouts[i] != []
    ensures accepted <==> InOneOf(str, layouts)
  {
    if |str| == 0 {
      return false;
    }
    for i := 0 to |layouts|
      invariant forall j :: 0 <= j < i ==> !InLayout(str, layouts[j])
    {
      var matched := IsFormat(str, layouts[i]);
      if matched {
        return true;
      }
    }
    return false;
  }

  method IsDate(str: Text) returns (accepted: bool)
    ensures accepted <==> InOneOf(str, DATE_LAYOUTS)
    ensures accepted <==> IsDateText(str)
  {
    hide IsDateText;
    DatesAre(str);
    AllProper(DATE_LAYOUTS);
    accepted := IsOneOf(str, DATE_LAYOUTS);
  }

  method IsTime(str: Text) returns (accepted: bool)
    ensures accepted <==> InOneOf(str, TIME_LAYOUTS)
    ensures accepted <==> IsTimeText(str)
  {
    hide IsTimeText;
    TimesAre(str);
    AllProper(TIME_LAYOUTS);
    accepted := IsOneOf(str, TIME_LAYOUTS);
  }

  // ---------- printing and decoding ----------

  function Pow10(n: nat): nat {
    if n == 0 then 1 else 10 * Pow10(n - 1)
  }

  function Digits(v: nat, width: nat): (s: Text)
    ensures |s| == width && AllDigits(s)
  {
    if width == 0 then [] else Digits(v / 10, width - 1) + [48 + v % 10]
  }

  predicate Fits(f: Field, v: int) {
    match f
    case Number(width, low, high) => low <= v <= high && v < Pow10(width)
    case Literal(_) => v == 0
    case Sign => v == 0 || v == 1
  }

  predicate AllFit(layout: Layout, values: seq<int>) {
    |values| == |layout| && forall i :: 0 <= i < |values| ==> Fits(layout[i], values[i])
  }

  /** A value is in the range of its field. */
  predicate InRange(f: Field, v: int) {
    match f
    case Number(_, low, high) => low <= v <= high
    case Literal(_) => v == 0
    case Sign => v == 0 || v == 1
  }

  predicate AllInRange(layout: Layout, values: seq<int>) {
    |values| == |layout| && forall i :: 0 <= i < |values| ==> InRange(layout[i], values[i])
  }

  const FIELDS := [YEAR, MONTH, DAY_OF_MONTH, DAY_OF_YEAR, DAY_OF_WEEK, WEEK, HOURS, MINUTES, SECONDS]

  /** In the layouts used, every value in a field's range has as many digits as the field is wide. */
  lemma RangesArePrintable(f: Field)
    requires f in FIELDS
    ensures f.Number? && f.high < Pow10(f.width)
  {
    assert Pow10(1) == 10 && Pow10(2) == 100 && Pow10(3) == 1000 && Pow10(4) == 10000;
  }

  predicate Printable(layout: Layout) {
    forall f | f in layout && f.Number? :: f in FIELDS
  }

  lemma AllPrintable(layouts: seq<Layout>)
    requires layouts == DATE_LAYOUTS || layouts == TIME_LAYOUTS
    ensures forall layout | layout in layouts :: Printable(layout)
  {
  }

  /** For dates and times a value fits its field exactly if it is in the field's range. */
  lemma FitsIsRange(layout: Layout, values: seq<int>)
    requires layout in DATE_LAYOUTS || layout in TIME_LAYOUTS
    ensures AllFit(layout, values) <==> AllInRange(layout, values)
  {
    hide Printable, Pow10;
    AllPrintable(if layout in DATE_LAYOUTS then DATE_LAYOUTS else TIME_LAYOUTS);
    if |values| == |layout| {
      forall i | 0 <= i < |values| ensures Fits(layout[i], values[i]) <==> InRange(layout[i], values[i]) {
        FieldFits(layout, i, values[i]);
      }
    }
  }

  lemma FieldFits(layout: Layout, i: nat, v: int)
    requires Printable(layout) && i < |layout|
    ensures Fits(layout[i], v) <==> InRange(layout[i], v)
  {
    if layout[i].Number? {
      assert layout[i] in layout;
      RangesArePrintable(layout[i]);
    }
  }

  function PrintField(f: Field, v: int): (s: Text)
    requires Fits(f, v)
    ensures |s| == Width(f)
  {
    match f
    case Number(width, _, _) => Digits(v, width)
    case Literal(c) => [c]
    case Sign => if v == 0 then [MINUS] else [PLUS]
  }

  function Print(layout: Layout, values: seq<int>): Text
    requires AllFit(layout, values)
    decreases |layout|
  {
    if layout == [] then [] else PrintField(layout[0], values[0]) + Print(layout[1..], values[1..])
  }

  function DecodeField(s: Text, f: Field): int {
    match f
    case Number(_, _, _) => ValueOf(s)
    case Literal(_) => 0
    case Sign => if s == [MINUS] then 0 else 1
  }

  function Decode(s: Text, layout: Layout): (values: seq<int>)
    requires InLayout(s, layout)
    ensures |values| == |layout|
    decreases |layout|
  {
    if layout == [] then []
    else [DecodeField(s[..Width(layout[0])], layout[0])] + Decode(s[Width(layout[0])..], layout[1..])
  }

  lemma {:induction false} ValueOfDigits(v: nat, width: nat)
    requires v < Pow10(width)
    ensures ValueOf(Digits(v, width)) == v
  {
    if width > 0 {
      ValueOfDigits(v / 10, width - 1);
      var s := Digits(v, width);
      assert s[..width - 1] == Digits(v / 10, width - 1);
    }
  }

  lemma {:induction false} DigitsOfValue(s: Text)
    requires AllDigits(s)
    ensures 0 <= ValueOf(s) < Pow10(|s|) && Digits(ValueOf(s), |s|) == s
    decreases |s|
  {
    if s != [] {
      var front, last: int := s[..|s| - 1], s[|s| - 1] as int - 48;
      DigitsOfValue(front);
      assert ValueOf(s) / 10 == ValueOf(front) && ValueOf(s) % 10 == last;
      assert s == front + [48 + last];
    }
  }

  lemma FieldRoundTrip(f: Field, v: int)
    requires Fits(f, v)
    ensures InField(PrintField(f, v), f) && DecodeField(PrintField(f, v), f) == v
  {
    if f.Number? {
      ValueOfDigits(v, f.width);
    }
  }

  /** Values in range, printed in a layout, are accepted in it and decode back. */
  lemma {:induction false} PrintDecodes(layout: Layout, values: seq<int>)
    requires AllFit(layout, values)
    ensures InLayout(Print(layout, values), layout)
    ensures Decode(Print(layout, values), layout) == values
    decreases |layout|
  {
    if layout != [] {
      var first, rest := PrintField(layout[0], values[0]), Print(layout[1..], values[1..]);
      FieldRoundTrip(layout[0], values[0]);
      PrintDecodes(layout[1..], values[1..]);
      assert (first + rest)[..|first|] == first && (first + rest)[|first|..] == rest;
      assert values == [values[0]] + values[1..];
    }
  }

  /** Every date or time whose values are in range is accepted when printed, and decodes back. */
  lemma DateTimeRoundTrip(layout: Layout, values: seq<int>)
    requires layout in DATE_LAYOUTS || layout in TIME_LAYOUTS
    requires AllInRange(layout, values)
    ensures AllFit(layout, values) && InLayout(Print(layout, values), layout)
    ensures Decode(Print(layout, values), layout) == values
    ensures InOneOf(Print(layout, values), if layout in DATE_LAYOUTS then DATE_LAYOUTS else TIME_LAYOUTS)
  {
    hide AllFit, AllInRange, InLayout, Decode, Print;
    FitsIsRange(layout, values);
    PrintDecodes(layout, values);
  }

  lemma FieldPrints(s: Text, f: Field)
    requires InField(s, f)
    ensures Fits(f, DecodeField(s, f)) && PrintField(f, DecodeField(s, f)) == s
  {
    if f.Number? {
      DigitsOfValue(s);
    }
  }

  /** Whatever is accepted in a date or time layout is the print of values in range. */
  lemma DateTimeDecodes(s: Text, layout: Layout)
    requires layout in DATE_LAYOUTS || layout in TIME_LAYOUTS
    requires InLayout(s, layout)
    ensures AllInRange(layout, Decode(s, layout))
    ensures AllFit(layout, Decode(s, layout)) && Print(layout, Decode(s, layout)) == s
  {
    hide AllFit, AllInRange, InLayout, Decode, Print;
    DecodePrints(s, layout);
    FitsIsRange(layout, Decode(s, layout));
  }

  /** Whatever is accepted in a layout is the print of its values, and those are in range. */
  lemma {:induction false} DecodePrints(s: Text, layout: Layout)
    requires InLayout(s, layout)
    ensures AllFit(layout, Decode(s, layout)) && Print(layout, Decode(s, layout)) == s
    decreases |layout|
  {
    if layout != [] {
      hide InField, DecodeField, PrintField, Decode, Print, AllFit, InLayout;
      var w := Width(layout[0]);
      DecodeStep(s, layout);
      FieldPrints(s[..w], layout[0]);
      DecodePrints(s[w..], layout[1..]);
      PrintStep(layout, DecodeField(s[..w], layout[0]), Decode(s[w..], layout[1..]));
      Halves(s, w);
    }
  }

  lemma Halves(s: Text, w: nat)
    requires w <= |s|
    ensures s[..w] + s[w..] == s
  {
  }

  lemma DecodeStep(s: Text, layout: Layout)
    requires layout != [] && InLayout(s, layout)
    ensures var w := Width(layout[0]);
            && w <= |s| && InField(s[..w], layout[0]) && InLayout(s[w..], layout[1..])
            && Decode(s, layout) == [DecodeField(s[..w], layout[0])] + Decode(s[w..], layout[1..])
  {
  }

  lemma PrintStep(layout: Layout, v: int, values: seq<int>)
    requires layout != [] && Fits(layout[0], v) && AllFit(layout[1..], values)
    ensures AllFit(layout, [v] + values)
    ensures Print(layout, [v] + values) == PrintField(layout[0], v) + Print(layout[1..], values)
  {
    assert ([v] + values)[1..] == values;
    forall i | 0 < i < |layout| ensures Fits(layout[i], ([v] + values)[i]) {
      assert layout[i] == layout[1..][i - 1];
    }
  }

  // ---------- at most one layout ----------

  /** What can be told from a character: a digit, a sign, or the character itself. */
  function ClassOf(c: CChar): CChar {
    if IsDigit(c) then ZERO else if c == PLUS then MINUS else c
  }

  function ClassesOf(s: Text): (r: Text)
    ensures |r| == |s| && forall i :: 0 <= i < |s| ==> r[i] == ClassOf(s[i])
  {
    seq(|s|, i requires 0 <= i < |s| => ClassOf(s[i]))
  }

  function FieldClasses(f: Field): Text {
    match f
    case Number(width, _, _) => seq(width, _ => ZERO)
    case Literal(c) => [ClassOf(c)]
    case Sign => [MINUS]
  }

  function LayoutClasses(layout: Layout): Text {
    if layout == [] then [] else FieldClasses(layout[0]) + LayoutClasses(layout[1..])
  }

  lemma ClassesInField(s: Text, f: Field)
    requires InField(s, f)
    ensures ClassesOf(s) == FieldClasses(f)
  {
  }

  lemma ClassesOfHalves(s: Text, w: nat)
    requires w <= |s|
    ensures ClassesOf(s) == ClassesOf(s[..w]) + ClassesOf(s[w..])
  {
  }

  /** A layout determines the class of every character. */
  lemma {:induction false} ClassesInLayout(s: Text, layout: Layout)
    requires InLayout(s, layout)
    ensures ClassesOf(s) == LayoutClasses(layout)
    decreases |layout|
  {
    if layout != [] {
      hide InField, ClassesOf, FieldClasses;
      var w := Width(layout[0]);
      ClassesInLayout(s[w..], layout[1..]);
      ClassesInField(s[..w], layout[0]);
      ClassesOfHalves(s, w);
    }
  }

  /** The length of a text in a layout, and its fifth and sixth characters' classes where it has them. */
  datatype Mark = Mark(length: nat, fifth: CChar, sixth: CChar)

  function MarkOf(classes: Text): Mark {
    Mark(|classes|, if |classes| > 4 then classes[4] else ZERO, if |classes| > 5 then classes[5] else ZERO)
  }

  lemma {:induction false} ClassesConcat(a: Layout, b: Layout)
    ensures LayoutClasses(a + b) == LayoutClasses(a) + LayoutClasses(b)
  {
    if a == [] {
      assert a + b == b;
    } else {
      assert (a + b)[1..] == a[1..] + b;
      ClassesConcat(a[1..], b);
    }
  }

  lemma Classes1(a: Field)
    ensures LayoutClasses([a]) == FieldClasses(a)
  {
    assert LayoutClasses([a][1..]) == [];
  }

  lemma Classes2(a: Field, b: Field)
    ensures LayoutClasses([a, b]) == FieldClasses(a) + FieldClasses(b)
  {
    assert [a, b] == [a] + [b];
    ClassesConcat([a], [b]);
    Classes1(a);
    Classes1(b);
  }

  lemma Classes3(a: Field, b: Field, c: Field)
    ensures LayoutClasses([a, b, c]) == FieldClasses(a) + FieldClasses(b) + FieldClasses(c)
  {
    assert [a, b, c] == [a, b] + [c];
    ClassesConcat([a, b], [c]);
    Classes2(a, b);
    Classes1(c);
  }

  lemma DateMarks()
    ensures MarkOf(LayoutClasses(DATE_LAYOUTS[0])) == Mark(4, ZERO, ZERO)
    ensures MarkOf(LayoutClasses(DATE_LAYOUTS[1])) == Mark(10, MINUS, ZERO)
    ensures MarkOf(LayoutClasses(DATE_LAYOUTS[2])) == Mark(7, MINUS, ZERO)
    ensures MarkOf(LayoutClasses(DATE_LAYOUTS[3])) == Mark(8, MINUS, ZERO)
    ensures MarkOf(LayoutClasses(DATE_LAYOUTS[4])) == Mark(8, MINUS, UPPER_W)
    ensures MarkOf(LayoutClasses(DATE_LAYOUTS[5])) == Mark(10, MINUS, UPPER_W)
    ensures MarkOf(LayoutClasses(DATE_LAYOUTS[6])) == Mark(8, ZERO, ZERO)
    ensures MarkOf(LayoutClasses(DATE_LAYOUTS[7])) == Mark(6, ZERO, ZERO)
    ensures MarkOf(LayoutClasses(DATE_LAYOUTS[8])) == Mark(7, ZERO, ZERO)
    ensures MarkOf(LayoutClasses(DATE_LAYOUTS[9])) == Mark(7, UPPER_W, ZERO)
    ensures MarkOf(LayoutClasses(DATE_LAYOUTS[10])) == Mark(8, UPPER_W, ZERO)
  {
    hide LayoutClasses;
    Classes1(YEAR);
    Classes3(YEAR, DASH, MONTH);
    Classes2(DASH, DAY_OF_MONTH);
    ClassesConcat([YEAR, DASH, MONTH], [DASH, DAY_OF_MONTH]);
    assert DATE_LAYOUTS[1] == [YEAR, DASH, MONTH] + [DASH, DAY_OF_MONTH];
    Classes3(YEAR, DASH, DAY_OF_YEAR);
    Classes3(YEAR, DASH, W);
    Classes1(WEEK);
    ClassesConcat([YEAR, DASH, W], [WEEK]);
    assert DATE_LAYOUTS[4] == [YEAR, DASH, W] + [WEEK];
    Classes3(WEEK, DASH, DAY_OF_WEEK);
    ClassesConcat([YEAR, DASH, W], [WEEK, DASH, DAY_OF_WEEK]);
    assert DATE_LAYOUTS[5] == [YEAR, DASH, W] + [WEEK, DASH, DAY_OF_WEEK];
    Classes3(YEAR, MONTH, DAY_OF_MONTH);
    Classes2(YEAR, MONTH);
    Classes2(YEAR, DAY_OF_YEAR);
    Classes3(YEAR, W, WEEK);
    Classes1(DAY_OF_WEEK);
    ClassesConcat([YEAR, W, WEEK], [DAY_OF_WEEK]);
    assert DATE_LAYOUTS[10] == [YEAR, W, WEEK] + [DAY_OF_WEEK];
  }

  /** No text is in two date layouts. */
  lemma AtMostOneDateLayout(s: Text, i: nat, j: nat)
    requires i < |DATE_LAYOUTS| && j < |DATE_LAYOUTS|
    requires InLayout(s, DATE_LAYOUTS[i]) && InLayout(s, DATE_LAYOUTS[j])
    ensures i == j
  {
    hide InLayout, LayoutClasses;
    ClassesInLayout(s, DATE_LAYOUTS[i]);
    ClassesInLayout(s, DATE_LAYOUTS[j]);
    DateMarks();
  }

  lemma TimeMarks()
    ensures |LayoutClasses(TIME_LAYOUTS[0])| == 8 && |LayoutClasses(TIME_LAYOUTS[1])| == 5
    ensures |LayoutClasses(TIME_LAYOUTS[2])| == 6 && |LayoutClasses(TIME_LAYOUTS[3])| == 4
    ensures |LayoutClasses(TIME_LAYOUTS[4])| == 2 && |LayoutClasses(TIME_LAYOUTS[5])| == 9
    ensures |LayoutClasses(TIME_LAYOUTS[6])| == 14
  {
    hide LayoutClasses;
    Classes1(HOURS);
    Classes2(HOURS, MINUTES);
    Classes3(HOURS, MINUTES, SECONDS);
    Classes3(HOURS, COL, MINUTES);
    Classes2(COL, SECONDS);
    ClassesConcat([HOURS, COL, MINUTES], [COL, SECONDS]);
    assert TIME_LAYOUTS[0] == [HOURS, COL, MINUTES] + [COL, SECONDS];
    Classes3(COL, SECONDS, Z);
    ClassesConcat([HOURS, COL, MINUTES], [COL, SECONDS, Z]);
    assert TIME_LAYOUTS[5] == [HOURS, COL, MINUTES] + [COL, SECONDS, Z];
    Classes3(COL, SECONDS, Sign);
    ClassesConcat([HOURS, COL, MINUTES], [COL, SECONDS, Sign]);
    ClassesConcat([HOURS, COL, MINUTES] + [COL, SECONDS, Sign], [HOURS, COL, MINUTES]);
    assert TIME_LAYOUTS[6] == [HOURS, COL, MINUTES] + [COL, SECONDS, Sign] + [HOURS, COL, MINUTES];
  }

  /** No text is in two time layouts: their lengths differ. */
  lemma AtMostOneTimeLayout(s: Text, i: nat, j: nat)
    requires i < |TIME_LAYOUTS| && j < |TIME_LAYOUTS|
    requires InLayout(s, TIME_LAYOUTS[i]) && InLayout(s, TIME_LAYOUTS[j])
    ensures i == j
  {
    hide InLayout, LayoutClasses;
    ClassesInLayout(s, TIME_LAYOUTS[i]);
    ClassesInLayout(s, TIME_LAYOUTS[j]);
    TimeMarks();
  }

  // ---------- the accepted texts, in numerals and characters ----------

  function D1(v: nat): Text {
    ['0' as int + v % 10]
  }

  function D2(v: nat): Text {
    ['0' as int + v / 10 % 10, '0' as int + v % 10]
  }

  function D3(v: nat): Text {
    ['0' as int + v / 100 % 10, '0' as int + v / 10 % 10, '0' as int + v % 10]
  }

  function D4(v: nat): Text {
    ['0' as int + v / 1000 % 10, '0' as int + v / 100 % 10, '0' as int + v / 10 % 10, '0' as int + v % 10]
  }

  lemma OneDigit(v: nat)
    ensures Digits(v, 1) == D1(v)
  {
    assert Digits(v / 10, 0) == [];
  }

  lemma TwoDigits(v: nat)
    ensures Digits(v, 2) == D2(v)
  {
    hide Digits;
    OneMoreDigit(v, 1);
    OneDigit(v / 10);
  }

  lemma ThreeDigits(v: nat)
    ensures Digits(v, 3) == D3(v)
  {
    hide Digits;
    OneMoreDigit(v, 2);
    TwoDigits(v / 10);
    assert v / 10 / 10 == v / 100;
  }

  lemma FourDigits(v: nat)
    ensures Digits(v, 4) == D4(v)
  {
    hide Digits;
    OneMoreDigit(v, 3);
    ThreeDigits(v / 10);
    assert v / 10 / 10 == v / 100 && v / 10 / 100 == v / 1000;
  }

  lemma OneMoreDigit(v: nat, width: nat)
    ensures Digits(v, width + 1) == Digits(v / 10, width) + ['0' as int + v % 10]
  {
  }

  lemma DigitsAre(v: nat)
    ensures Digits(v, 1) == D1(v) && Digits(v, 2) == D2(v) && Digits(v, 3) == D3(v) && Digits(v, 4) == D4(v)
  {
    hide Digits, D1, D2, D3, D4;
    OneDigit(v);
    TwoDigits(v);
    ThreeDigits(v);
    FourDigits(v);
  }

  lemma NumberText(f: Field, v: nat)
    requires f in FIELDS && f.low <= v <= f.high
    ensures Fits(f, v)
    ensures f.width == 1 ==> PrintField(f, v) == D1(v)
    ensures f.width == 2 ==> PrintField(f, v) == D2(v)
    ensures f.width == 3 ==> PrintField(f, v) == D3(v)
    ensures f.width == 4 ==> PrintField(f, v) == D4(v)
  {
    RangesArePrintable(f);
    DigitsAre(v);
    assert Pow10(1) == 10 && Pow10(2) == 100 && Pow10(3) == 1000 && Pow10(4) == 10000;
  }

  /** Texts one behind the other. */
  function Flat(parts: seq<Text>): Text {
    if parts == [] then [] else parts[0] + Flat(parts[1..])
  }

  /** The year, and as far as it is given the month, its day, the day of the year, the week and its day. */
  datatype Day = Day(y: nat, m: nat, d: nat, n: nat, w: nat, k: nat)

  predicate ValidDay(x: Day) {
    x.y <= 9999 && 1 <= x.m <= 12 && 1 <= x.d <= 31 && 1 <= x.n <= 366 && 1 <= x.w <= 52 && 1 <= x.k <= 7
  }

  /** The ways to write a date. */
  function DateParts(x: Day): (parts: seq<seq<Text>>)
    ensures |parts| == 11
  {
    var y, m, d, n, w, k := D4(x.y), D2(x.m), D2(x.d), D3(x.n), D2(x.w), D1(x.k);
    [
      [y],
      [y, ['-' as CChar], m, ['-' as CChar], d],
      [y, ['-' as CChar], m],
      [y, ['-' as CChar], n],
      [y, ['-' as CChar], ['W' as CChar], w],
      [y, ['-' as CChar], ['W' as CChar], w, ['-' as CChar], k],
      [y, m, d],
      [y, m],
      [y, n],
      [y, ['W' as CChar], w],
      [y, ['W' as CChar], w, k]
    ]
  }

  /** The values of the fields for each of them. */
  function DateValues(x: Day): (values: seq<seq<int>>)
    ensures |values| == 11
  {
    [
      [x.y],
      [x.y, 0, x.m, 0, x.d],
      [x.y, 0, x.m],
      [x.y, 0, x.n],
      [x.y, 0, 0, x.w],
      [x.y, 0, 0, x.w, 0, x.k],
      [x.y, x.m, x.d],
      [x.y, x.m],
      [x.y, x.n],
      [x.y, 0, x.w],
      [x.y, 0, x.w, x.k]
    ]
  }

  /** Hour, minute and second, and sign, hour and minute of the offset. */
  datatype Clock = Clock(h: nat, i: nat, s: nat, plus: bool, oh: nat, oi: nat)

  predicate ValidClock(x: Clock) {
    x.h <= 23 && x.i <= 59 && x.s <= 59 && x.oh <= 23 && x.oi <= 59
  }

  /** The ways to write a time. */
  function TimeParts(x: Clock): (parts: seq<seq<Text>>)
    ensures |parts| == 7
  {
    var h, i, s := D2(x.h), D2(x.i), D2(x.s);
    var colon: Text := [':' as CChar];
    [
      [h, colon, i, colon, s],
      [h, colon, i],
      [h, i, s],
      [h, i],
      [h],
      [h, colon, i, colon, s, ['Z' as CChar]],
      [h, colon, i, colon, s, [if x.plus then '+' as CChar else '-' as CChar], D2(x.oh), colon, D2(x.oi)]
    ]
  }

  function TimeValues(x: Clock): (values: seq<seq<int>>)
    ensures |values| == 7
  {
    [
      [x.h, 0, x.i, 0, x.s],
      [x.h, 0, x.i],
      [x.h, x.i, x.s],
      [x.h, x.i],
      [x.h],
      [x.h, 0, x.i, 0, x.s, 0],
      [x.h, 0, x.i, 0, x.s, if x.plus then 1 else 0, x.oh, 0, x.oi]
    ]
  }

  ghost predicate IsDateText(t: Text) {
    exists x: Day, j: nat :: ValidDay(x) && j < 11 && t == Flat(DateParts(x)[j])
  }

  ghost predicate IsTimeText(t: Text) {
    exists x: Clock, j: nat :: ValidClock(x) && j < 7 && t == Flat(TimeParts(x)[j])
  }

  /** Each field is printed as the part at its place. */
  ghost predicate PrintsAs(layout: Layout, values: seq<int>, parts: seq<Text>) {
    && AllFit(layout, values) && |parts| == |layout|
    && forall i :: 0 <= i < |parts| ==> PrintField(layout[i], values[i]) == parts[i]
  }

  lemma {:induction false} PrintIsFlat(layout: Layout, values: seq<int>, parts: seq<Text>)
    requires PrintsAs(layout, values, parts)
    ensures Print(layout, values) == Flat(parts)
    decreases |layout|
  {
    if layout != [] {
      hide PrintField;
      PrintIsFlat(layout[1..], values[1..], parts[1..]);
    }
  }

  lemma LiteralText(c: CChar)
    ensures Fits(Literal(c), 0) && PrintField(Literal(c), 0) == [c]
  {
  }

  lemma SignText(plus: bool)
    ensures Fits(Sign, if plus then 1 else 0)
    ensures PrintField(Sign, if plus then 1 else 0) == [if plus then '+' as CChar else '-' as CChar]
  {
  }

  lemma DateInRange(x: Day, j: nat)
    requires ValidDay(x) && j < 11
    ensures AllInRange(DATE_LAYOUTS[j], DateValues(x)[j]) && AllFit(DATE_LAYOUTS[j], DateValues(x)[j])
  {
    match j {
      case 0 =>
      case 1 =>
      case 2 =>
      case 3 =>
      case 4 =>
      case 5 =>
      case 6 =>
      case 7 =>
      case 8 =>
      case 9 =>
      case 10 =>
    }
    FitsIsRange(DATE_LAYOUTS[j], DateValues(x)[j]);
  }

  lemma DatePrintsAs1(x: Day, j: nat)
    requires ValidDay(x) && 0 <= j < 6
    ensures PrintsAs(DATE_LAYOUTS[j], DateValues(x)[j], DateParts(x)[j])
  {
    hide D1, D2, D3, D4, AllFit, AllInRange, PrintField, Fits;
    DateInRange(x, j);
    LiteralText('-' as CChar);
    LiteralText('W' as CChar);
    NumberText(YEAR, x.y);
    NumberText(MONTH, x.m);
    NumberText(DAY_OF_MONTH, x.d);
    NumberText(DAY_OF_YEAR, x.n);
    NumberText(WEEK, x.w);
    NumberText(DAY_OF_WEEK, x.k);
    match j {
      case 0 =>
      case 1 =>
      case 2 =>
      case 3 =>
      case 4 =>
      case 5 =>
    }
  }

  lemma DatePrintsAs2(x: Day, j: nat)
    requires ValidDay(x) && 6 <= j < 11
    ensures PrintsAs(DATE_LAYOUTS[j], DateValues(x)[j], DateParts(x)[j])
  {
    hide D1, D2, D3, D4, AllFit, AllInRange, PrintField, Fits;
    DateInRange(x, j);
    LiteralText('-' as CChar);
    LiteralText('W' as CChar);
    NumberText(YEAR, x.y);
    NumberText(MONTH, x.m);
    NumberText(DAY_OF_MONTH, x.d);
    NumberText(DAY_OF_YEAR, x.n);
    NumberText(WEEK, x.w);
    NumberText(DAY_OF_WEEK, x.k);
    match j {
      case 6 =>
      case 7 =>
      case 8 =>
      case 9 =>
      case 10 =>
    }
  }

  lemma DatePrintsAs(x: Day, j: nat)
    requires ValidDay(x) && j < 11
    ensures PrintsAs(DATE_LAYOUTS[j], DateValues(x)[j], DateParts(x)[j])
  {
    if j < 6 {
      DatePrintsAs1(x, j);
    } else {
      DatePrintsAs2(x, j);
    }
  }

  lemma TimeInRange(x: Clock, j: nat)
    requires ValidClock(x) && j < 7
    ensures AllInRange(TIME_LAYOUTS[j], TimeValues(x)[j]) && AllFit(TIME_LAYOUTS[j], TimeValues(x)[j])
  {
    match j {
      case 0 =>
      case 1 =>
      case 2 =>
      case 3 =>
      case 4 =>
      case 5 =>
      case 6 =>
    }
    FitsIsRange(TIME_LAYOUTS[j], TimeValues(x)[j]);
  }

  lemma TimePrintsAs1(x: Clock, j: nat)
    requires ValidClock(x) && 0 <= j < 5
    ensures PrintsAs(TIME_LAYOUTS[j], TimeValues(x)[j], TimeParts(x)[j])
  {
    hide D1, D2, D3, D4, AllFit, AllInRange, PrintField, Fits;
    TimeInRange(x, j);
    LiteralText(':' as CChar);
    LiteralText('Z' as CChar);
    SignText(x.plus);
    NumberText(HOURS, x.h);
    NumberText(MINUTES, x.i);
    NumberText(SECONDS, x.s);
    NumberText(HOURS, x.oh);
    NumberText(MINUTES, x.oi);
    match j {
      case 0 =>
      case 1 =>
      case 2 =>
      case 3 =>
      case 4 =>
    }
  }

  lemma TimePrintsAs2(x: Clock, j: nat)
    requires ValidClock(x) && 5 <= j < 7
    ensures PrintsAs(TIME_LAYOUTS[j], TimeValues(x)[j], TimeParts(x)[j])
  {
    hide D1, D2, D3, D4, AllFit, AllInRange, PrintField, Fits;
    TimeInRange(x, j);
    LiteralText(':' as CChar);
    LiteralText('Z' as CChar);
    SignText(x.plus);
    NumberText(HOURS, x.h);
    NumberText(MINUTES, x.i);
    NumberText(SECONDS, x.s);
    NumberText(HOURS, x.oh);
    NumberText(MINUTES, x.oi);
    match j {
      case 5 =>
      case 6 =>
    }
  }

  lemma TimePrintsAs(x: Clock, j: nat)
    requires ValidClock(x) && j < 7
    ensures PrintsAs(TIME_LAYOUTS[j], TimeValues(x)[j], TimeParts(x)[j])
  {
    if j < 5 {
      TimePrintsAs1(x, j);
    } else {
      TimePrintsAs2(x, j);
    }
  }

  /** Values in the ranges of a date layout are those of a day. */
  lemma DayOf(v: seq<int>, j: nat) returns (x: Day)
    requires j < 11 && AllInRange(DATE_LAYOUTS[j], v)
    ensures ValidDay(x) && DateValues(x)[j] == v
  {
    x := Day(v[0], 1, 1, 1, 1, 1);
    match j {
      case 0 =>
      case 1 => x := x.(m := v[2], d := v[4]);
      case 2 => x := x.(m := v[2]);
      case 3 => x := x.(n := v[2]);
      case 4 => x := x.(w := v[3]);
      case 5 => x := x.(w := v[3], k := v[5]);
      case 6 => x := x.(m := v[1], d := v[2]);
      case 7 => x := x.(m := v[1]);
      case 8 => x := x.(n := v[1]);
      case 9 => x := x.(w := v[2]);
      case 10 => x := x.(w := v[2], k := v[3]);
    }
  }

  lemma ClockOf(v: seq<int>, j: nat) returns (x: Clock)
    requires j < 7 && AllInRange(TIME_LAYOUTS[j], v)
    ensures ValidClock(x) && TimeValues(x)[j] == v
  {
    x := Clock(v[0], 0, 0, false, 0, 0);
    match j {
      case 0 => x := x.(i := v[2], s := v[4]);
      case 1 => x := x.(i := v[2]);
      case 2 => x := x.(i := v[1], s := v[2]);
      case 3 => x := x.(i := v[1]);
      case 4 =>
      case 5 => x := x.(i := v[2], s := v[4]);
      case 6 => x := x.(i := v[2], s := v[4], plus := v[5] == 1, oh := v[6], oi := v[8]);
    }
  }

  /** The dates in words, without the layouts. */
  lemma DatesAre(t: Text)
    ensures InOneOf(t, DATE_LAYOUTS) <==> IsDateText(t)
  {
    hide InLayout, AllInRange, PrintsAs, Print, Decode, Flat, DateParts, DateValues, ValidDay;
    if InOneOf(t, DATE_LAYOUTS) {
      var j :| 0 <= j < |DATE_LAYOUTS| && InLayout(t, DATE_LAYOUTS[j]);
      DateTimeDecodes(t, DATE_LAYOUTS[j]);
      var x := DayOf(Decode(t, DATE_LAYOUTS[j]), j);
      DatePrintsAs(x, j);
      PrintIsFlat(DATE_LAYOUTS[j], DateValues(x)[j], DateParts(x)[j]);
    }
    if IsDateText(t) {
      var x: Day, j: nat :| ValidDay(x) && j < 11 && t == Flat(DateParts(x)[j]);
      DatePrintsAs(x, j);
      PrintIsFlat(DATE_LAYOUTS[j], DateValues(x)[j], DateParts(x)[j]);
      DateInRange(x, j);
      DateTimeRoundTrip(DATE_LAYOUTS[j], DateValues(x)[j]);
    }
  }

  lemma TimesAre(t: Text)
    ensures InOneOf(t, TIME_LAYOUTS) <==> IsTimeText(t)
  {
    hide InLayout, AllInRange, PrintsAs, Print, Decode, Flat, TimeParts, TimeValues, ValidClock;
    if InOneOf(t, TIME_LAYOUTS) {
      var j :| 0 <= j < |TIME_LAYOUTS| && InLayout(t, TIME_LAYOUTS[j]);
      DateTimeDecodes(t, TIME_LAYOUTS[j]);
      var x := ClockOf(Decode(t, TIME_LAYOUTS[j]), j);
      TimePrintsAs(x, j);
      PrintIsFlat(TIME_LAYOUTS[j], TimeValues(x)[j], TimeParts(x)[j]);
    }
    if IsTimeText(t) {
      var x: Clock, j: nat :| ValidClock(x) && j < 7 && t == Flat(TimeParts(x)[j]);
      TimePrintsAs(x, j);
      PrintIsFlat(TIME_LAYOUTS[j], TimeValues(x)[j], TimeParts(x)[j]);
      TimeInRange(x, j);
      DateTimeRoundTrip(TIME_LAYOUTS[j], TimeValues(x)[j]);
    }
  }
}
