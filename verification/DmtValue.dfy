/** Leaf values, the two ways the undo log writes them down, and the way replay rebuilds them. */
module DmtValue {
  import opened DmText

  datatype TextKind = Chr | Int | Float | Date | Time

  /** A typed leaf value. Numbers, dates and times keep the text they were given. */
  datatype Value =
    | Null
    | Str(kind: TextKind, text: Text)
    | Bool(flag: bool)
    | Bin(data: seq<Byte>)

  datatype Format = NullFormat | TextFormat(kind: TextKind) | BoolFormat | BinFormat

  function FormatOf(v: Value): Format {
    match v
    case Null => NullFormat
    case Str(kind, _) => TextFormat(kind)
    case Bool(_) => BoolFormat
    case Bin(_) => BinFormat
  }

  function SkipBlanks(s: Text): (r: Text)
    ensures r == [] || r[0] != SPACE
  {
    if s == [] || s[0] != SPACE then s else SkipBlanks(s[1..])
  }

  function DropTrailingBlanks(s: Text): (r: Text)
    ensures r == [] || r[|r| - 1] != SPACE
    ensures s != [] && s[0] != SPACE ==> r != [] && r[0] == s[0]
  {
    if s == [] || s[|s| - 1] != SPACE then s else DropTrailingBlanks(s[..|s| - 1])
  }

  /** `DMString::trim`: a string of blanks only is left alone. */
  function Trim(s: Text): Text {
    var t := SkipBlanks(s);
    if t == [] then s else DropTrailingBlanks(t)
  }

  predicate Trimmed(kind: TextKind) {
    kind.Float? || kind.Date? || kind.Time?
  }

  /** Every value a `DmtData` can hold: the kinds that `SetString` trims are trimmed. */
  predicate ValidValue(v: Value) {
    v.Str? && Trimmed(v.kind) ==> Trim(v.text) == v.text
  }

  const TRUE_TEXT: Text := [116, 114, 117, 101]
  const FALSE_TEXT: Text := [102, 97, 108, 115, 101]

  function Lower(c: CChar): CChar {
    if 65 <= c <= 90 then c + 32 else c
  }

  /** `strcasecmp(a, b) == 0` */
  predicate EqualsIgnoreCase(a: Text, b: Text) {
    |a| == |b| && forall i :: 0 <= i < |a| ==> Lower(a[i]) == Lower(b[i])
  }

  function Base64Digit(i: nat): CChar
    requires i <= 64
  {
    if i < 26 then 65 + i
    else if i < 52 then 71 + i
    else if i < 62 then i - 4
    else if i == 62 then 43
    else if i == 63 then 47
    else 61
  }

  /** `base64Encode` of a whole buffer, padded, without line breaks. */
  function Base64(b: seq<Byte>): (s: Text)
    ensures |s| == (|b| + 2) / 3 * 4
  {
    if |b| == 0 then []
    else if |b| == 1 then
      [Base64Digit(b[0] / 4), Base64Digit(b[0] % 4 * 16), Base64Digit(64), Base64Digit(64)]
    else if |b| == 2 then
      [Base64Digit(b[0] / 4), Base64Digit(b[0] % 4 * 16 + b[1] / 16), Base64Digit(b[1] % 16 * 4), Base64Digit(64)]
    else
      [Base64Digit(b[0] / 4), Base64Digit(b[0] % 4 * 16 + b[1] / 16),
       Base64Digit(b[1] % 16 * 4 + b[2] / 64), Base64Digit(b[2] % 64)] + Base64(b[3..])
  }

  /** What a digit of the base64 alphabet stands for; 64 for the padding, 65 for anything else. */
  function DigitValue(c: CChar): (v: nat)
    ensures v <= 65
  {
    if 'A' as int <= c <= 'Z' as int then c - 'A' as int
    else if 'a' as int <= c <= 'z' as int then c - 'a' as int + 26
    else if '0' as int <= c <= '9' as int then c - '0' as int + 52
    else if c == '+' as int then 62
    else if c == '/' as int then 63
    else if c == '=' as int then 64
    else 65
  }

  datatype Decoded = Data(bytes: seq<Byte>) | NotBase64

  /** A base64 text read back: groups of four digits, the last of which may be padded, with no bit set that
      is not part of a byte. */
  function DecodeBase64(s: Text): Decoded {
    if s == [] then Data([])
    else if |s| < 4 then NotBase64
    else
      var a, b, c, d := DigitValue(s[0]), DigitValue(s[1]), DigitValue(s[2]), DigitValue(s[3]);
      if a > 63 || b > 63 || c > 64 || d > 64 then NotBase64
      else if d == 64 then
        if |s| > 4 then NotBase64
        else if c == 64 then (if b % 16 != 0 then NotBase64 else Data([a * 4 + b / 16]))
        else if c % 4 != 0 then NotBase64
        else Data([a * 4 + b / 16, b % 16 * 16 + c / 4])
      else if c == 64 then NotBase64
      else
        match DecodeBase64(s[4..])
        case NotBase64 => NotBase64
        case Data(rest) => Data([a * 4 + b / 16, b % 16 * 16 + c / 4, c % 4 * 64 + d] + rest)
  }

  lemma DigitOfValue(i: nat)
    requires i <= 64
    ensures DigitValue(Base64Digit(i)) == i
  {
  }

  /** The base64 text of a buffer decodes to the buffer. */
  lemma {:induction false} Base64Decodes(b: seq<Byte>)
    ensures DecodeBase64(Base64(b)) == Data(b)
  {
    hide DigitValue, Base64Digit;
    DigitOfValue(64);
    if |b| == 0 {
    } else if |b| == 1 {
      OneByte(b[0]);
    } else if |b| == 2 {
      TwoBytes(b[0], b[1]);
    } else {
      ThreeBytes(b[0], b[1], b[2], b[3..]);
      Base64Decodes(b[3..]);
      assert b == [b[0], b[1], b[2]] + b[3..];
    }
  }

  lemma OneByte(x: Byte)
    ensures DecodeBase64(Base64([x])) == Data([x])
  {
    hide DigitValue, Base64Digit;
    DigitOfValue(x / 4);
    DigitOfValue(x % 4 * 16);
    DigitOfValue(64);
  }

  lemma TwoBytes(x: Byte, y: Byte)
    ensures DecodeBase64(Base64([x, y])) == Data([x, y])
  {
    hide DigitValue, Base64Digit;
    DigitOfValue(x / 4);
    DigitOfValue(x % 4 * 16 + y / 16);
    DigitOfValue(y % 16 * 4);
    DigitOfValue(64);
    Bits(x, y, 0);
  }

  lemma ThreeBytes(x: Byte, y: Byte, z: Byte, rest: seq<Byte>)
    ensures var r := DecodeBase64(Base64(rest));
            DecodeBase64(Base64([x, y, z] + rest)) == if r.Data? then Data([x, y, z] + r.bytes) else NotBase64
  {
    hide DigitValue, Base64Digit, Base64;
    var s := Base64([x, y, z] + rest);
    ThreeEncoded(x, y, z, rest);
    DigitOfValue(x / 4);
    DigitOfValue(x % 4 * 16 + y / 16);
    DigitOfValue(y % 16 * 4 + z / 64);
    DigitOfValue(z % 64);
    Bits(x, y, z);
    assert s[4..] == Base64(rest);
  }

  lemma Bits(x: Byte, y: Byte, z: Byte)
    ensures var b, c := x % 4 * 16 + y / 16, y % 16 * 4 + z / 64;
            x / 4 * 4 + b / 16 == x && b % 16 * 16 + c / 4 == y && c % 4 * 64 + z % 64 == z
  {
  }

  lemma ValueOfDigit(c: CChar)
    requires DigitValue(c) <= 64
    ensures Base64Digit(DigitValue(c)) == c
  {
  }

  /** Four digits and the three bytes they stand for. */
  lemma Digits4(a: nat, b: nat, c: nat, d: nat)
    requires a < 64 && b < 64 && c < 64 && d < 64
    ensures var x, y, z := a * 4 + b / 16, b % 16 * 16 + c / 4, c % 4 * 64 + d;
            && x < 256 && y < 256 && z < 256
            && x / 4 == a && x % 4 * 16 + y / 16 == b && y % 16 * 4 + z / 64 == c && z % 64 == d
  {
  }

  lemma LastGroup(s: Text)
    requires |s| == 4 && DigitValue(s[3]) == 64 && DecodeBase64(s).Data?
    ensures Base64(DecodeBase64(s).bytes) == s
  {
    hide DigitValue, Base64Digit;
    ValueOfDigit(s[0]);
    ValueOfDigit(s[1]);
    ValueOfDigit(s[2]);
    ValueOfDigit(s[3]);
    var a, b := DigitValue(s[0]), DigitValue(s[1]);
    if DigitValue(s[2]) == 64 {
      Digits4(a, b, 0, 0);
    } else {
      Digits4(a, b, DigitValue(s[2]), 0);
    }
  }

  lemma ThreeEncoded(x: Byte, y: Byte, z: Byte, rest: seq<Byte>)
    ensures Base64([x, y, z] + rest)
            == [Base64Digit(x / 4), Base64Digit(x % 4 * 16 + y / 16), Base64Digit(y % 16 * 4 + z / 64),
                Base64Digit(z % 64)] + Base64(rest)
  {
    hide Base64Digit;
    assert ([x, y, z] + rest)[3..] == rest;
  }

  lemma FullDecoded(s: Text)
    requires |s| >= 4 && DigitValue(s[3]) != 64 && DecodeBase64(s).Data?
    ensures DecodeBase64(s[4..]).Data?
    ensures var a, b, c, d := DigitValue(s[0]), DigitValue(s[1]), DigitValue(s[2]), DigitValue(s[3]);
            && a < 64 && b < 64 && c < 64 && d < 64
            && DecodeBase64(s).bytes
               == [a * 4 + b / 16, b % 16 * 16 + c / 4, c % 4 * 64 + d] + DecodeBase64(s[4..]).bytes
  {
    hide DigitValue;
  }

  lemma FullGroup(s: Text)
    requires |s| >= 4 && DigitValue(s[3]) != 64 && DecodeBase64(s).Data?
    ensures DecodeBase64(s[4..]).Data?
    ensures var rest := DecodeBase64(s[4..]).bytes;
            Base64(DecodeBase64(s).bytes) == [s[0], s[1], s[2], s[3]] + Base64(rest)
  {
    hide DigitValue, Base64Digit, Base64, DecodeBase64;
    FullDecoded(s);
    ValueOfDigit(s[0]);
    ValueOfDigit(s[1]);
    ValueOfDigit(s[2]);
    ValueOfDigit(s[3]);
    var a, b, c, d := DigitValue(s[0]), DigitValue(s[1]), DigitValue(s[2]), DigitValue(s[3]);
    Digits4(a, b, c, d);
    ThreeEncoded(a * 4 + b / 16, b % 16 * 16 + c / 4, c % 4 * 64 + d, DecodeBase64(s[4..]).bytes);
  }

  /** ... and is the only text that does. */
  lemma {:induction false} Base64Unique(s: Text)
    requires DecodeBase64(s).Data?
    ensures Base64(DecodeBase64(s).bytes) == s
  {
    if s != [] {
      if DigitValue(s[3]) == 64 {
        LastGroup(s);
      } else {
        FullGroup(s);
        Base64Unique(s[4..]);
        assert s == [s[0], s[1], s[2], s[3]] + s[4..];
      }
    }
  }

  /** `DmtData::GetString`, which a value record of the undo log uses. */
  function StringForm(v: Value): Text {
    match v
    case Null => []
    case Str(_, text) => text
    case Bool(flag) => if flag then TRUE_TEXT else FALSE_TEXT
    case Bin(data) => Base64(data)
  }

  /** `DMGetData::set`, which an add record of the undo log uses: binary data stays raw. */
  function RawForm(v: Value): seq<Byte> {
    match v
    case Bin(data) => data
    case _ => Bytes(StringForm(v))
  }

  /** `DmtData::SetString` */
  function SetString(text: Text, format: Format): (v: Value)
    requires format.TextFormat? || format.BoolFormat?
  {
    match format
    case BoolFormat => Bool(!EqualsIgnoreCase(text, FALSE_TEXT))
    case TextFormat(kind) => Str(kind, if Trimmed(kind) then Trim(text) else text)
  }

  /** `dmBuildData`: rebuild a value of a format from logged data. */
  function BuildData(format: Format, data: seq<Byte>): Value {
    match format
    case NullFormat => Null
    case BinFormat => Bin(data)
    case _ => SetString(CStr(data), format)
  }

  /** Replay of an add record gives a leaf its value back, whatever the value is. */
  lemma AddRestores(v: Value)
    requires ValidValue(v)
    ensures BuildData(FormatOf(v), RawForm(v)) == v
  {
    CStrOfBytes(StringForm(v));
    assert Lower(TRUE_TEXT[0]) != Lower(FALSE_TEXT[0]);
  }

  /** Whether replay of the value record of `SetValue` puts the old value back. */
  predicate UndoableSet(old': Value, new': Value) {
    || (old'.Str? && new'.Str? && old'.kind == new'.kind && old'.text != [])
    || (old'.Bool? && new'.Bool?)
  }

  /** A value record has data to read, and the value rebuilt from it with the type the node has by then
      is the old one, exactly when both values are non-empty text of one kind or both are booleans.
      Binary values come back as their base64 text. */
  lemma SetRestores(old': Value, new': Value)
    requires ValidValue(old')
    ensures StringForm(old') != [] && BuildData(FormatOf(new'), Bytes(StringForm(old'))) == old'
            <==> UndoableSet(old', new')
  {
    CStrOfBytes(StringForm(old'));
    assert Lower(TRUE_TEXT[0]) != Lower(FALSE_TEXT[0]);
    if old'.Bin? && new'.Bin? && old'.data != [] {
      assert |Bytes(Base64(old'.data))| == (|old'.data| + 2) / 3 * 4 > |old'.data|;
    }
  }

  /** Whatever replay rebuilds is again a value a `DmtData` can hold: trimming twice is trimming once. */
  lemma BuildDataValid(format: Format, data: seq<Byte>)
    ensures ValidValue(BuildData(format, data))
  {
    var text := CStr(data);
    var t := SkipBlanks(text);
    if t != [] {
      assert SkipBlanks(Trim(text)) == Trim(text);
    }
  }

  // ---------- what the texts are ----------

  /** The two booleans as text, and which texts are read as false: "false" in any mixture of cases. */
  lemma BoolTexts(data: seq<Byte>)
    ensures StringForm(Bool(true)) == Ascii("true") && StringForm(Bool(false)) == Ascii("false")
    ensures var s := CStr(data);
            && BuildData(BoolFormat, data).Bool?
            && (BuildData(BoolFormat, data) == Bool(false)
                <==> && |s| == 5 && s[0] in {'f' as CChar, 'F' as CChar} && s[1] in {'a' as CChar, 'A' as CChar}
                     && s[2] in {'l' as CChar, 'L' as CChar} && s[3] in {'s' as CChar, 'S' as CChar}
                     && s[4] in {'e' as CChar, 'E' as CChar})
  {
    assert FALSE_TEXT == Ascii("false") && TRUE_TEXT == Ascii("true");
  }

  /** Only blanks from `i` to `j`. */
  predicate Blank(s: Text, i: nat, j: nat) {
    forall k :: i <= k < j && k < |s| ==> s[k] == ' ' as CChar
  }

  lemma {:induction false} SkipsBlanks(s: Text) returns (i: nat)
    ensures i <= |s| && Blank(s, 0, i) && SkipBlanks(s) == s[i..]
  {
    if s == [] || s[0] != SPACE {
      i := 0;
    } else {
      i := SkipsBlanks(s[1..]);
      forall k | 0 < k <= i ensures s[k] == ' ' as CChar {
        assert s[k] == s[1..][k - 1];
      }
      i := i + 1;
    }
  }

  lemma {:induction false} DropsBlanks(s: Text) returns (j: nat)
    ensures j <= |s| && Blank(s, j, |s|) && DropTrailingBlanks(s) == s[..j]
  {
    if s == [] || s[|s| - 1] != SPACE {
      j := |s|;
    } else {
      j := DropsBlanks(s[..|s| - 1]);
    }
  }

  /** A text with something else than blanks is trimmed to what lies between the first and the last of its
      other characters. A text of blanks only stays as it is. */
  lemma TrimMeans(s: Text)
    ensures Blank(s, 0, |s|) ==> Trim(s) == s
    ensures !Blank(s, 0, |s|) ==>
              exists i: nat, j: nat ::
                && i < j <= |s| && Trim(s) == s[i..j] && Blank(s, 0, i) && Blank(s, j, |s|)
                && s[i] != ' ' as CChar && s[j - 1] != ' ' as CChar
  {
    var i := SkipsBlanks(s);
    var t := s[i..];
    var n := DropsBlanks(t);
    if t == [] {
      assert Blank(s, 0, |s|);
    } else {
      assert s[i] == t[0] && !Blank(s, 0, |s|);
      assert DropTrailingBlanks(t) == t[..n] == s[i..i + n];
      assert s[i + n - 1] == t[n - 1] == t[..n][n - 1];
      forall k | i + n <= k < |s| ensures s[k] == ' ' as CChar {
        assert s[k] == t[k - i];
      }
    }
  }

  /** What replay makes of logged data, format by format. */
  lemma BuildMeans(data: seq<Byte>)
    ensures BuildData(NullFormat, data) == Null && BuildData(BinFormat, data) == Bin(data)
    ensures forall kind | kind == Chr || kind == Int :: BuildData(TextFormat(kind), data) == Str(kind, CStr(data))
    ensures forall kind | kind == Float || kind == Date || kind == Time ::
              BuildData(TextFormat(kind), data) == Str(kind, Trim(CStr(data)))
  {
  }
}
