/** The bytes of a log record: what the WBXML writer puts into the file for each undo record, what the
    reader makes of them, and which records survive the round trip. */
module Wbxml {
  import opened DmText
  import opened Uri
  import opened DmtValue
  import opened UndoLog

  const CONTENT := 0x40
  const END_TAG: Byte := 0x01
  const DATA_TAG: Byte := 0x08 + CONTENT
  const TITLE_TAG: Byte := 0x10 + CONTENT
  const URI_TAG: Byte := 0x12 + CONTENT
  const FORMAT_TAG: Byte := 0x13 + CONTENT
  const TYPE_TAG: Byte := 0x16 + CONTENT
  const NAME_TAG: Byte := 0x1C + CONTENT
  const NODE_TAG: Byte := 0x1D + CONTENT
  const ENTRY_TAG: Byte := 0x22 + CONTENT
  const CMDTYPE_TAG: Byte := 0x23 + CONTENT
  const OPAQUE_CODE: Byte := 0xC3

  const CMD_ADD: Byte := 1
  const CMD_DELETE: Byte := 2
  const CMD_REPLACE: Byte := 3
  const CMD_ADD_CHILD: Byte := 4

  const ON_NODE: Byte := 0
  const ON_NAME: Byte := 1
  const ON_TITLE: Byte := 2

  const NODE_FORMAT: Byte := 5

  /** "text/plain" */
  const TEXT_PLAIN: seq<Byte> := [116, 101, 120, 116, 47, 112, 108, 97, 105, 110]

  function FormatCode(f: Format): Byte {
    match f
    case NullFormat => 0
    case BoolFormat => 3
    case BinFormat => 4
    case TextFormat(kind) =>
      match kind
      case Chr => 1
      case Int => 2
      case Date => 8
      case Time => 10
      case Float => 11
  }

  // ---------- writer ----------

  /** The leading groups of a multi-byte length, continuation bit set. */
  function LenHigh(n: nat): seq<Byte> {
    if n == 0 then [] else LenHigh(n / 128) + [128 + n % 128]
  }

  /** Length as `mb_u_int32`: seven bits a byte, most significant first. */
  function LenBytes(n: nat): seq<Byte> {
    LenHigh(n / 128) + [n % 128]
  }

  /** What a count becomes in the 16-bit parameter of the file layer. */
  function Count16(n: nat): (c: nat)
    ensures c <= n
  {
    if n < 0x10000 then n else n % 0x10000
  }

  /** `writeOpaque` */
  function Opaque(data: seq<Byte>): seq<Byte> {
    [OPAQUE_CODE] + LenBytes(|data|) + data[..Count16(|data|)]
  }

  function Element(tag: Byte, data: seq<Byte>): seq<Byte> {
    [tag] + Opaque(data) + [END_TAG]
  }

  /** An element that is left out altogether when it would be empty. */
  function OptionalElement(tag: Byte, data: seq<Byte>): seq<Byte> {
    if data == [] then [] else Element(tag, data)
  }

  function LastName(p: Path): Text {
    if p == [] then [] else Last(p)
  }

  /** `writePluginNode` and the END byte after it. */
  function NodeBytes(name: Text, props: Props, title: Text): seq<Byte> {
    match props
    case FolderProps(list) =>
      [NODE_TAG] + (OptionalElement(NAME_TAG, Bytes(name)) + (Element(TYPE_TAG, TEXT_PLAIN)
        + (OptionalElement(TITLE_TAG, Bytes(title)) + (OptionalElement(DATA_TAG, Bytes(list)) + [END_TAG]))))
    case FileProps(format, data) =>
      [NODE_TAG] + (OptionalElement(NAME_TAG, Bytes(name)) + (Element(FORMAT_TAG, [FormatCode(format)])
        + (Element(TYPE_TAG, TEXT_PLAIN) + (OptionalElement(DATA_TAG, data)
        + (OptionalElement(TITLE_TAG, Bytes(title)) + [END_TAG])))))
  }

  /** `writeURIInfo` */
  function HeadBytes(cmd: Byte, p: Path): seq<Byte> {
    [ENTRY_TAG, CMDTYPE_TAG, cmd, END_TAG] + Element(URI_TAG, Bytes(Join(p)))
  }

  function BodyBytes(r: Record): seq<Byte> {
    match r
    case DeleteRec(_) => [END_TAG]
    case AddChildRec(_) => [END_TAG]
    case AddRec(p, props, title) => NodeBytes(LastName(p), props, title)
    case ValueRec(_, data) => [ON_NODE] + OptionalElement(DATA_TAG, Bytes(data))
    case NameRec(_, name) => [ON_NAME] + Element(NAME_TAG, Bytes(name))
    case TitleRec(_, title) => [ON_TITLE] + Element(TITLE_TAG, Bytes(title))
  }

  function CommandOf(r: Record): Byte {
    match r
    case DeleteRec(_) => CMD_DELETE
    case AddChildRec(_) => CMD_ADD_CHILD
    case AddRec(_, _, _) => CMD_ADD
    case _ => CMD_REPLACE
  }

  /** Everything `logCommand` writes for one record before the position words. */
  function Encode(r: Record): (b: seq<Byte>)
    ensures |b| > 0 && b[0] == ENTRY_TAG
  {
    HeadBytes(CommandOf(r), r.path) + BodyBytes(r)
  }

  // ---------- reader ----------

  /** Outcome of a read: the value and the bytes that follow it, or a failure. */
  datatype Read<T> = Got(value: T, rest: seq<Byte>) | Failed

  function Wrap32(n: nat): nat {
    if n < 0x1_0000_0000 then n else n % 0x1_0000_0000
  }

  function ReadMore(acc: nat, input: seq<Byte>): Read<nat>
    decreases |input|
  {
    if input == [] then Failed
    else
      var n := Wrap32(acc * 128 + input[0] % 128);
      if input[0] >= 128 then ReadMore(n, input[1..]) else Got(n, input[1..])
  }

  /** `readLen` */
  function ReadLen(input: seq<Byte>): Read<nat> {
    ReadMore(0, input)
  }

  /** A buffer of a size is cleared before anything is read into it. */
  function Padded(data: seq<Byte>, size: nat): (r: seq<Byte>)
    requires |data| <= size
    ensures |r| == size && data <= r
    ensures |data| == size ==> r == data
  {
    data + seq(size - |data|, _ => 0)
  }

  /** `readOpaque`: the file layer is asked for the length cut to 16 bits. */
  function ReadOpaque(input: seq<Byte>): Read<seq<Byte>> {
    if input == [] || input[0] != OPAQUE_CODE then Failed
    else match ReadLen(input[1..])
      case Failed => Failed
      case Got(n, rest) =>
        var count := Count16(n);
        if |rest| < count then Failed else Got(Padded(rest[..count], n), rest[count..])
  }

  /** `readOpaqueTag`: opaque data and the END byte. */
  function ReadElement(input: seq<Byte>): (r: Read<seq<Byte>>)
    ensures r.Got? ==> |r.rest| < |input|
  {
    match ReadOpaque(input)
    case Failed => Failed
    case Got(data, rest) =>
      if rest == [] || rest[0] != END_TAG then Failed
      else (ReadLenShrinks(0, input[1..]); Got(data, rest[1..]))
  }

  lemma ReadLenShrinks(acc: nat, input: seq<Byte>)
    ensures ReadMore(acc, input).Got? ==> |ReadMore(acc, input).rest| < |input|
    decreases |input|
  {
  }

  datatype NodeProps = NodeProps(name: seq<Byte>, format: Byte, data: seq<Byte>, title: seq<Byte>)

  const NoProps := NodeProps([], NODE_FORMAT, [], [])

  /** `readNode`, for the elements this log writes. */
  function ReadNode(input: seq<Byte>, props: NodeProps): Read<NodeProps>
    decreases |input|
  {
    if input == [] then Failed
    else if input[0] == END_TAG then Got(props, input[1..])
    else match ReadElement(input[1..])
      case Failed => Failed
      case Got(data, rest) =>
        if input[0] == NAME_TAG then ReadNode(rest, props.(name := data))
        else if input[0] == FORMAT_TAG then
          (if |data| > 1 then Failed else ReadNode(rest, props.(format := if data == [] then 0 else data[0])))
        else if input[0] == TYPE_TAG then ReadNode(rest, props)
        else if input[0] == DATA_TAG then ReadNode(rest, props.(data := data))
        else if input[0] == TITLE_TAG then ReadNode(rest, props.(title := data))
        else Failed
  }

  datatype Decoded = KnownProps(props: Props) | Unknown

  function PropsFrom(p: NodeProps): Decoded {
    if p.format == NODE_FORMAT then KnownProps(FolderProps(CStr(p.data)))
    else if p.format == 0 then KnownProps(FileProps(NullFormat, p.data))
    else if p.format == 1 then KnownProps(FileProps(TextFormat(Chr), p.data))
    else if p.format == 2 then KnownProps(FileProps(TextFormat(Int), p.data))
    else if p.format == 3 then KnownProps(FileProps(BoolFormat, p.data))
    else if p.format == 4 then KnownProps(FileProps(BinFormat, p.data))
    else if p.format == 8 then KnownProps(FileProps(TextFormat(Date), p.data))
    else if p.format == 10 then KnownProps(FileProps(TextFormat(Time), p.data))
    else if p.format == 11 then KnownProps(FileProps(TextFormat(Float), p.data))
    else Unknown
  }

  function ReadAdd(p: Path, input: seq<Byte>): Read<Record> {
    if input == [] || input[0] != NODE_TAG then Failed
    else match ReadNode(input[1..], NoProps)
      case Failed => Failed
      case Got(props, rest) =>
        match PropsFrom(props)
        case Unknown => Failed
        case KnownProps(decoded) => Got(AddRec(p, decoded, CStr(props.title)), rest)
  }

  /** The attribute of a replace record and its one element. */
  function ReadReplace(p: Path, input: seq<Byte>): Read<Record> {
    if |input| < 2 then Failed
    else match ReadElement(input[2..])
      case Failed => Failed
      case Got(data, rest) =>
        if input[0] == ON_NODE && input[1] == DATA_TAG then Got(ValueRec(p, CStr(data)), rest)
        else if input[0] == ON_NAME && input[1] == NAME_TAG then Got(NameRec(p, CStr(data)), rest)
        else if input[0] == ON_TITLE && input[1] == TITLE_TAG then Got(TitleRec(p, CStr(data)), rest)
        else Failed
  }

  function ReadBody(cmd: Byte, p: Path, input: seq<Byte>): Read<Record> {
    if cmd == CMD_ADD then ReadAdd(p, input)
    else if cmd == CMD_DELETE || cmd == CMD_ADD_CHILD then
      (if input == [] || input[0] != END_TAG then Failed
       else Got(if cmd == CMD_DELETE then DeleteRec(p) else AddChildRec(p), input[1..]))
    else if cmd == CMD_REPLACE then ReadReplace(p, input)
    else Failed
  }

  /** The command and path at the front of a record. */
  function ReadHead(input: seq<Byte>): Read<(Byte, Path)> {
    if |input| < 5 || input[0] != ENTRY_TAG || input[1] != CMDTYPE_TAG || input[3] != END_TAG
       || input[4] != URI_TAG then Failed
    else match ReadElement(input[5..])
      case Failed => Failed
      case Got(uri, rest) => Got((input[2], Split(CStr(uri))), rest)
  }

  /** The ENTRY byte, then `readOneLogRecord`. */
  function ReadRecord(input: seq<Byte>): Read<Record> {
    match ReadHead(input)
    case Failed => Failed
    case Got(head, rest) => ReadBody(head.0, head.1, rest)
  }

  // ---------- round trip ----------

  const MAX_FIELD := 0x10000

  /** Every string of the record fits the 16-bit count of the file layer. */
  predicate Encodable(r: Record) {
    && ValidPath(r.path) && |Join(r.path)| < MAX_FIELD
    && match r
       case AddRec(p, FolderProps(list), title) => |list| < MAX_FIELD && |title| < MAX_FIELD
       case AddRec(p, FileProps(_, data), title) => |data| < MAX_FIELD && |title| < MAX_FIELD
       case ValueRec(_, data) => |data| < MAX_FIELD
       case NameRec(_, name) => |name| < MAX_FIELD
       case TitleRec(_, title) => |title| < MAX_FIELD
       case _ => true
  }

  lemma {:induction false} ReadHigh(n: nat, s: seq<Byte>)
    requires n < 0x1_0000_0000
    ensures ReadMore(0, LenHigh(n) + s) == ReadMore(n, s)
    decreases n
  {
    if n == 0 {
      assert LenHigh(n) + s == s;
    } else {
      var b: Byte := 128 + n % 128;
      assert LenHigh(n) + s == LenHigh(n / 128) + ([b] + s);
      ReadHigh(n / 128, [b] + s);
      assert ([b] + s)[1..] == s;
    }
  }

  /** A length of up to 32 bits reads back as written. */
  lemma LenRoundTrip(n: nat, rest: seq<Byte>)
    requires n < 0x1_0000_0000
    ensures ReadLen(LenBytes(n) + rest) == Got(n, rest)
  {
    var b: Byte := n % 128;
    assert LenBytes(n) + rest == LenHigh(n / 128) + ([b] + rest);
    ReadHigh(n / 128, [b] + rest);
    assert ([b] + rest)[1..] == rest;
  }

  const MAX_LEN := 0x1_0000_0000

  /** What comes back of opaque data: the bytes beyond its length modulo 65536 are neither written nor read. */
  function AsRead(data: seq<Byte>): (r: seq<Byte>)
    ensures |r| == |data|
    ensures |data| < MAX_FIELD ==> r == data
  {
    Padded(data[..Count16(|data|)], |data|)
  }

  /** What comes back of a text. */
  function Front(text: Text): (r: Text)
    ensures |text| < MAX_FIELD ==> r == text
  {
    text[..Count16(|text|)]
  }

  lemma TextAsRead(text: Text)
    ensures CStr(AsRead(Bytes(text))) == Front(text)
  {
    var front, r := Front(text), AsRead(Bytes(text));
    assert Bytes(text)[..Count16(|text|)] == Bytes(front);
    CStrThenNuls(front, seq(|text| - |front|, _ => 0));
  }

  lemma {:induction false} CStrThenNuls(text: Text, nuls: seq<Byte>)
    requires nuls == [] || nuls[0] == 0
    ensures CStr(Bytes(text) + nuls) == text
  {
    var whole := Bytes(text) + nuls;
    if text != [] {
      assert whole[1..] == Bytes(text[1..]) + nuls;
      CStrThenNuls(text[1..], nuls);
    }
  }

  lemma OpaqueRoundTrip(data: seq<Byte>, rest: seq<Byte>)
    requires |data| < MAX_LEN
    ensures ReadOpaque(Opaque(data) + rest) == Got(AsRead(data), rest)
  {
    var input, kept := Opaque(data) + rest, data[..Count16(|data|)];
    assert input[1..] == LenBytes(|data|) + (kept + rest);
    LenRoundTrip(|data|, kept + rest);
    assert (kept + rest)[..|kept|] == kept;
    assert (kept + rest)[|kept|..] == rest;
  }

  /** An element reads back, whatever follows it. */
  lemma ElementRoundTrip(tag: Byte, data: seq<Byte>, rest: seq<Byte>)
    requires |data| < MAX_LEN
    ensures ReadElement((Element(tag, data) + rest)[1..]) == Got(AsRead(data), rest)
    ensures (Element(tag, data) + rest)[0] == tag
  {
    var input := (Element(tag, data) + rest)[1..];
    assert input == Opaque(data) + ([END_TAG] + rest);
    OpaqueRoundTrip(data, [END_TAG] + rest);
    assert ([END_TAG] + rest)[1..] == rest;
  }

  /** Reading past one optional element of a node. */
  lemma NodeStep(tag: Byte, data: seq<Byte>, rest: seq<Byte>, props: NodeProps)
    requires |data| < MAX_LEN
    requires tag == NAME_TAG || tag == TYPE_TAG || tag == DATA_TAG || tag == TITLE_TAG
    requires (tag == NAME_TAG ==> props.name == []) && (tag == DATA_TAG ==> props.data == [])
    requires tag == TITLE_TAG ==> props.title == []
    ensures ReadNode(OptionalElement(tag, data) + rest, props) == ReadNode(rest,
              if tag == NAME_TAG then props.(name := AsRead(data))
              else if tag == DATA_TAG then props.(data := AsRead(data))
              else if tag == TITLE_TAG then props.(title := AsRead(data))
              else props)
  {
    hide AsRead;
    if data == [] {
      assert OptionalElement(tag, data) + rest == rest;
    } else {
      ElementRoundTrip(tag, data, rest);
    }
  }

  lemma FormatStep(code: Byte, rest: seq<Byte>, props: NodeProps)
    ensures ReadNode(Element(FORMAT_TAG, [code]) + rest, props) == ReadNode(rest, props.(format := code))
  {
    ElementRoundTrip(FORMAT_TAG, [code], rest);
  }

  lemma Regroup(a: seq<Byte>, b: seq<Byte>, rest: seq<Byte>)
    ensures (a + b) + rest == a + (b + rest)
  {
  }

  lemma RegroupAll(first: Byte, a: seq<Byte>, b: seq<Byte>, c: seq<Byte>, d: seq<Byte>, e: seq<Byte>, rest: seq<Byte>)
    ensures ([first] + (a + (b + (c + (d + e)))) + rest)[1..] == a + (b + (c + (d + (e + rest))))
  {
    Regroup(d, e, rest);
    Regroup(c, d + e, rest);
    Regroup(b, c + (d + e), rest);
    Regroup(a, b + (c + (d + e)), rest);
    var all := a + (b + (c + (d + e)));
    assert ([first] + all + rest)[1..] == all + rest;
  }

  /** An interior node's elements, read one after the other. */
  lemma FolderRoundTrip(name: Text, list: Text, title: Text, rest: seq<Byte>)
    requires |name| < MAX_LEN && |list| < MAX_LEN && |title| < MAX_LEN
    ensures ReadNode((NodeBytes(name, FolderProps(list), title) + rest)[1..], NoProps)
         == Got(NodeProps(AsRead(Bytes(name)), NODE_FORMAT, AsRead(Bytes(list)), AsRead(Bytes(title))), rest)
  {
    var e3 := [END_TAG] + rest;
    var e2 := OptionalElement(DATA_TAG, Bytes(list)) + e3;
    var e1 := OptionalElement(TITLE_TAG, Bytes(title)) + e2;
    var p := NoProps.(name := AsRead(Bytes(name)));
    FrontRoundTrip(name, e1);
    NodeStep(TITLE_TAG, Bytes(title), e2, p);
    NodeStep(DATA_TAG, Bytes(list), e3, p.(title := AsRead(Bytes(title))));
    assert e3[1..] == rest;
    RegroupAll(NODE_TAG, OptionalElement(NAME_TAG, Bytes(name)), Element(TYPE_TAG, TEXT_PLAIN),
               OptionalElement(TITLE_TAG, Bytes(title)), OptionalElement(DATA_TAG, Bytes(list)), [END_TAG], rest);
  }

  lemma FrontRoundTrip(name: Text, rest: seq<Byte>)
    requires |name| < MAX_LEN
    ensures ReadNode(OptionalElement(NAME_TAG, Bytes(name)) + (OptionalElement(TYPE_TAG, TEXT_PLAIN) + rest), NoProps)
         == ReadNode(rest, NoProps.(name := AsRead(Bytes(name))))
  {
    NodeStep(NAME_TAG, Bytes(name), OptionalElement(TYPE_TAG, TEXT_PLAIN) + rest, NoProps);
    NodeStep(TYPE_TAG, TEXT_PLAIN, rest, NoProps.(name := AsRead(Bytes(name))));
  }

  lemma LeafFrontRoundTrip(name: Text, code: Byte, rest: seq<Byte>)
    requires |name| < MAX_LEN
    ensures ReadNode(OptionalElement(NAME_TAG, Bytes(name)) + (Element(FORMAT_TAG, [code])
                       + (OptionalElement(TYPE_TAG, TEXT_PLAIN) + rest)), NoProps)
         == ReadNode(rest, NoProps.(name := AsRead(Bytes(name)), format := code))
  {
    var e1 := OptionalElement(TYPE_TAG, TEXT_PLAIN) + rest;
    var p := NoProps.(name := AsRead(Bytes(name)));
    NodeStep(NAME_TAG, Bytes(name), Element(FORMAT_TAG, [code]) + e1, NoProps);
    FormatStep(code, e1, p);
    NodeStep(TYPE_TAG, TEXT_PLAIN, rest, p.(format := code));
  }

  /** A leaf's elements, read one after the other. */
  lemma FileRoundTrip(name: Text, format: Format, data: seq<Byte>, title: Text, rest: seq<Byte>)
    requires |name| < MAX_LEN && |data| < MAX_LEN && |title| < MAX_LEN
    ensures ReadNode((NodeBytes(name, FileProps(format, data), title) + rest)[1..], NoProps)
         == Got(NodeProps(AsRead(Bytes(name)), FormatCode(format), AsRead(data), AsRead(Bytes(title))), rest)
  {
    var e3 := [END_TAG] + rest;
    var e2 := OptionalElement(TITLE_TAG, Bytes(title)) + e3;
    var e1 := OptionalElement(DATA_TAG, data) + e2;
    var p := NoProps.(name := AsRead(Bytes(name)), format := FormatCode(format));
    LeafFrontRoundTrip(name, FormatCode(format), e1);
    NodeStep(DATA_TAG, data, e2, p);
    NodeStep(TITLE_TAG, Bytes(title), e3, p.(data := AsRead(data)));
    assert e3[1..] == rest;
    Regroup(OptionalElement(TITLE_TAG, Bytes(title)), [END_TAG], rest);
    RegroupAll(NODE_TAG, OptionalElement(NAME_TAG, Bytes(name)), Element(FORMAT_TAG, [FormatCode(format)]),
               Element(TYPE_TAG, TEXT_PLAIN), OptionalElement(DATA_TAG, data),
               OptionalElement(TITLE_TAG, Bytes(title)) + [END_TAG], rest);
  }

  lemma LastNameShorter(p: Path)
    ensures |LastName(p)| <= |Join(p)|
  {
  }

  lemma AddFolderRoundTrip(at: Path, p: Path, list: Text, title: Text, rest: seq<Byte>)
    requires |LastName(at)| < MAX_LEN && |list| < MAX_LEN && |title| < MAX_LEN
    ensures ReadAdd(p, NodeBytes(LastName(at), FolderProps(list), title) + rest) ==
            Got(AddRec(p, FolderProps(Front(list)), Front(title)), rest)
  {
    FolderRoundTrip(LastName(at), list, title, rest);
    TextAsRead(title);
    TextAsRead(list);
    assert (NodeBytes(LastName(at), FolderProps(list), title) + rest)[0] == NODE_TAG;
  }

  lemma FormatCodeRoundTrip(format: Format, props: NodeProps)
    requires props.format == FormatCode(format)
    ensures PropsFrom(props) == KnownProps(FileProps(format, props.data))
  {
  }

  lemma AddFileRoundTrip(at: Path, p: Path, format: Format, data: seq<Byte>, title: Text, rest: seq<Byte>)
    requires |LastName(at)| < MAX_LEN && |data| < MAX_LEN && |title| < MAX_LEN
    ensures ReadAdd(p, NodeBytes(LastName(at), FileProps(format, data), title) + rest) ==
            Got(AddRec(p, FileProps(format, AsRead(data)), Front(title)), rest)
  {
    FileRoundTrip(LastName(at), format, data, title, rest);
    var name := AsRead(Bytes(LastName(at)));
    FormatCodeRoundTrip(format, NodeProps(name, FormatCode(format), AsRead(data), AsRead(Bytes(title))));
    TextAsRead(title);
    assert (NodeBytes(LastName(at), FileProps(format, data), title) + rest)[0] == NODE_TAG;
  }

  /** Every string of the record has a length of 32 bits. */
  predicate Writable(r: Record) {
    && |Join(r.path)| < MAX_LEN
    && match r
       case AddRec(p, FolderProps(list), title) => |list| < MAX_LEN && |title| < MAX_LEN
       case AddRec(p, FileProps(_, data), title) => |data| < MAX_LEN && |title| < MAX_LEN
       case ValueRec(_, data) => |data| < MAX_LEN
       case NameRec(_, name) => |name| < MAX_LEN
       case TitleRec(_, title) => |title| < MAX_LEN
       case _ => true
  }

  /** What comes back of a record, under the path that was read. */
  function FieldsAsRead(r: Record, p: Path): Record {
    match r
    case AddRec(_, FolderProps(list), title) => AddRec(p, FolderProps(Front(list)), Front(title))
    case AddRec(_, FileProps(format, data), title) => AddRec(p, FileProps(format, AsRead(data)), Front(title))
    case ValueRec(_, data) => ValueRec(p, Front(data))
    case NameRec(_, name) => NameRec(p, Front(name))
    case TitleRec(_, title) => TitleRec(p, Front(title))
    case DeleteRec(_) => DeleteRec(p)
    case AddChildRec(_) => AddChildRec(p)
  }

  function RecordAsRead(r: Record): Record {
    FieldsAsRead(r, Split(Front(Join(r.path))))
  }

  lemma AddRoundTrip(r: Record, p: Path, rest: seq<Byte>)
    requires r.AddRec? && Writable(r)
    ensures ReadAdd(p, NodeBytes(LastName(r.path), r.props, r.title) + rest) == Got(FieldsAsRead(r, p), rest)
  {
    LastNameShorter(r.path);
    match r.props
    case FolderProps(list) => AddFolderRoundTrip(r.path, p, list, r.title, rest);
    case FileProps(format, data) => AddFileRoundTrip(r.path, p, format, data, r.title, rest);
  }

  lemma BodyRoundTrip(r: Record, p: Path, rest: seq<Byte>)
    requires Writable(r) && !(r.ValueRec? && r.data == [])
    ensures ReadBody(CommandOf(r), p, BodyBytes(r) + rest) == Got(FieldsAsRead(r, p), rest)
  {
    match r
    case DeleteRec(_) => assert (BodyBytes(r) + rest)[1..] == rest;
    case AddChildRec(_) => assert (BodyBytes(r) + rest)[1..] == rest;
    case AddRec(_, _, _) => AddRoundTrip(r, p, rest);
    case ValueRec(_, data) => ReplaceRoundTrip(ON_NODE, DATA_TAG, data, rest);
    case NameRec(_, name) => ReplaceRoundTrip(ON_NAME, NAME_TAG, name, rest);
    case TitleRec(_, title) => ReplaceRoundTrip(ON_TITLE, TITLE_TAG, title, rest);
  }

  lemma ReplaceRoundTrip(attribute: Byte, tag: Byte, text: Text, rest: seq<Byte>)
    requires |text| < MAX_LEN
    ensures var input := [attribute] + Element(tag, Bytes(text)) + rest;
            |input| >= 2 && input[0] == attribute && input[1] == tag
            && ReadElement(input[2..]) == Got(AsRead(Bytes(text)), rest) && CStr(AsRead(Bytes(text))) == Front(text)
  {
    var input := [attribute] + Element(tag, Bytes(text)) + rest;
    assert input[2..] == (Element(tag, Bytes(text)) + rest)[1..];
    ElementRoundTrip(tag, Bytes(text), rest);
    TextAsRead(text);
  }

  lemma SkipFront(front: seq<Byte>, x: seq<Byte>, rest: seq<Byte>)
    requires x != []
    ensures ((front + x) + rest)[|front| + 1..] == (x + rest)[1..]
    ensures ((front + x) + rest)[|front|] == x[0]
    ensures forall i :: 0 <= i < |front| ==> ((front + x) + rest)[i] == front[i]
  {
  }

  lemma HeadOpensWith(cmd: Byte, uri: seq<Byte>, rest: seq<Byte>)
    requires |uri| < MAX_LEN
    ensures var input := ([ENTRY_TAG, CMDTYPE_TAG, cmd, END_TAG] + Element(URI_TAG, uri)) + rest;
            |input| >= 5 && input[0] == ENTRY_TAG && input[1] == CMDTYPE_TAG && input[2] == cmd && input[3] == END_TAG
            && input[4] == URI_TAG && ReadElement(input[5..]) == Got(AsRead(uri), rest)
  {
    SkipFront([ENTRY_TAG, CMDTYPE_TAG, cmd, END_TAG], Element(URI_TAG, uri), rest);
    ElementRoundTrip(URI_TAG, uri, rest);
  }

  lemma HeadRoundTrip(cmd: Byte, p: Path, rest: seq<Byte>)
    requires |Join(p)| < MAX_LEN
    ensures ReadHead(HeadBytes(cmd, p) + rest) == Got((cmd, Split(Front(Join(p)))), rest)
  {
    HeadOpensWith(cmd, Bytes(Join(p)), rest);
    TextAsRead(Join(p));
  }

  /** What is read back of any record, except a value record without data: every text cut to its length
      modulo 65536, and raw data that long with NULs in place of the rest. */
  lemma RecordReadBack(r: Record, rest: seq<Byte>)
    requires Writable(r) && !(r.ValueRec? && r.data == [])
    ensures ReadRecord(Encode(r) + rest) == Got(RecordAsRead(r), rest)
  {
    hide Front, AsRead, HeadBytes, BodyBytes, ReadHead, ReadBody, FieldsAsRead;
    Regroup(HeadBytes(CommandOf(r), r.path), BodyBytes(r), rest);
    HeadRoundTrip(CommandOf(r), r.path, BodyBytes(r) + rest);
    BodyRoundTrip(r, Split(Front(Join(r.path))), rest);
  }

  /** What is written is read back as it was when every string is shorter than 64 KiB. */
  lemma RecordRoundTrip(r: Record, rest: seq<Byte>)
    requires Encodable(r) && !(r.ValueRec? && r.data == [])
    ensures ReadRecord(Encode(r) + rest) == Got(r, rest)
  {
    hide ReadRecord, Encode;
    SplitJoin(r.path);
    RecordReadBack(r, rest);
  }

  /** The bytes that are neither written nor read happen to be NULs. */
  predicate NulTail(data: seq<Byte>) {
    forall i :: Count16(|data|) <= i < |data| ==> data[i] == 0
  }

  /** Exactly the records that come back as they were, among those with a path shorter than 64 KiB. */
  lemma ReadBackIff(r: Record)
    requires ValidPath(r.path) && |Join(r.path)| < MAX_FIELD
    ensures RecordAsRead(r) == r
            <==> match r {
                   case AddRec(_, FolderProps(list), title) => |list| < MAX_FIELD && |title| < MAX_FIELD
                   case AddRec(_, FileProps(_, data), title) => NulTail(data) && |title| < MAX_FIELD
                   case ValueRec(_, data) => |data| < MAX_FIELD
                   case NameRec(_, name) => |name| < MAX_FIELD
                   case TitleRec(_, title) => |title| < MAX_FIELD
                   case _ => true
                 }
  {
    hide Count16, Join, Split;
    SplitJoin(r.path);
    match r {
      case AddRec(_, FolderProps(list), title) => FrontIff(list); FrontIff(title);
      case AddRec(_, FileProps(_, data), title) => AsReadIff(data); FrontIff(title);
      case ValueRec(_, data) => FrontIff(data);
      case NameRec(_, name) => FrontIff(name);
      case TitleRec(_, title) => FrontIff(title);
      case _ =>
    }
  }

  lemma FrontIff(text: Text)
    ensures Front(text) == text <==> |text| < MAX_FIELD
    ensures |Front(text)| == |text| % MAX_FIELD
  {
  }

  lemma AsReadIff(data: seq<Byte>)
    ensures AsRead(data) == data <==> NulTail(data)
  {
    var count := Count16(|data|);
    forall i | count <= i < |data| ensures AsRead(data)[i] == 0 {
    }
    if NulTail(data) {
      assert forall i :: 0 <= i < |data| ==> AsRead(data)[i] == data[i];
    }
  }

  lemma {:induction false} SkipBlanksShorter(s: Text)
    ensures |SkipBlanks(s)| <= |s|
  {
    if s != [] && s[0] == SPACE {
      SkipBlanksShorter(s[1..]);
    }
  }

  lemma {:induction false} DropBlanksShorter(s: Text)
    ensures |DropTrailingBlanks(s)| <= |s|
  {
    if s != [] && s[|s| - 1] == SPACE {
      DropBlanksShorter(s[..|s| - 1]);
    }
  }

  /** A text value that a set has logged is rebuilt from its record exactly when it is shorter than 64 KiB.
      Replay puts a shorter text in place of a longer one. */
  lemma LongTextIsCut(p: Path, v: Value, rest: seq<Byte>)
    requires v.Str? && ValidValue(v) && 0 < |v.text| < MAX_LEN && |Join(p)| < MAX_LEN
    ensures var r := ReadRecord(Encode(ValueRec(p, StringForm(v))) + rest);
            && r.Got? && r.value.ValueRec?
            && (BuildData(FormatOf(v), Bytes(r.value.data)) == v <==> |v.text| < MAX_FIELD)
  {
    hide ReadRecord, Encode, SkipBlanks, DropTrailingBlanks;
    RecordReadBack(ValueRec(p, v.text), rest);
    var front := Front(v.text);
    FrontIff(v.text);
    CStrOfBytes(front);
    SkipBlanksShorter(front);
    DropBlanksShorter(SkipBlanks(front));
  }

  lemma ElementOrNot(p: Path, rest: seq<Byte>)
    ensures var r := ReadReplace(p, [ON_NODE] + rest);
            && (r.Got? <==> rest != [] && rest[0] == DATA_TAG && ReadElement(rest[1..]).Got?)
            && (r.Got? ==> r.value == ValueRec(p, CStr(ReadElement(rest[1..]).value)))
  {
    hide ReadElement;
    if rest != [] {
      assert ([ON_NODE] + rest)[2..] == rest[1..];
    }
  }

  /** A value record without data ends where its data element should start. It can be read only if the
      bytes that happen to follow are such an element, and then gives what they hold. */
  lemma EmptyValueUnreadable(p: Path, rest: seq<Byte>)
    requires ValidPath(p) && |Join(p)| < MAX_FIELD
    ensures var r := ReadRecord(Encode(ValueRec(p, [])) + rest);
            && (r.Got? <==> rest != [] && rest[0] == DATA_TAG && ReadElement(rest[1..]).Got?)
            && (r.Got? ==> r.value == ValueRec(p, CStr(ReadElement(rest[1..]).value)))
  {
    hide ReadElement, ReadHead, ReadReplace, HeadBytes;
    SplitJoin(p);
    assert BodyBytes(ValueRec(p, [])) == [ON_NODE];
    Regroup(HeadBytes(CMD_REPLACE, p), [ON_NODE], rest);
    HeadRoundTrip(CMD_REPLACE, p, [ON_NODE] + rest);
    ElementOrNot(p, rest);
  }

  // ---------- the bytes themselves ----------

  /** The length bytes of anything shorter than 64 KiB. */
  lemma LenBytesAre(n: nat)
    requires n < 65536
    ensures n < 128 ==> LenBytes(n) == [n]
    ensures 128 <= n < 16384 ==> LenBytes(n) == [128 + n / 128, n % 128]
    ensures 16384 <= n ==> LenBytes(n) == [128 + n / 16384, 128 + n / 128 % 128, n % 128]
  {
    var a, b := n / 128, n / 16384;
    assert a / 128 == b && b / 128 == 0;
    assert LenHigh(0) == [];
    assert b > 0 ==> LenHigh(b) == LenHigh(b / 128) + [128 + b % 128];
    assert a > 0 ==> LenHigh(a) == LenHigh(b) + [128 + a % 128];
  }

  /** An element of the log: its tag, opaque data behind its length, and the end byte; nothing for empty
      data. */
  function Tagged(tag: Byte, data: seq<Byte>): seq<Byte> {
    if data == [] then [] else [tag, 0xC3] + LenBytes(|data|) + data + [1]
  }

  lemma TaggedIs(tag: Byte, data: seq<Byte>)
    requires |data| < 65536
    ensures OptionalElement(tag, data) == Tagged(tag, data)
    ensures Element(tag, data) == [tag, 0xC3] + LenBytes(|data|) + data + [1]
  {
    assert data[..Count16(|data|)] == data;
  }

  /** The front of a record: the entry, the command and the path. */
  lemma HeadBytesAre(cmd: Byte, p: Path)
    requires |Join(p)| < 65536
    ensures HeadBytes(cmd, p) == [0x62, 0x63, cmd, 1, 0x52, 0xC3] + LenBytes(|Join(p)|) + Bytes(Join(p)) + [1]
  {
    TaggedIs(URI_TAG, Bytes(Join(p)));
  }

  /** The bytes of every record but an add, behind its front. */
  lemma RecordBytes(r: Record)
    requires Encodable(r) && !r.AddRec?
    ensures Encode(r)
            == HeadBytes(if r.DeleteRec? then 2 else if r.AddChildRec? then 4 else 3, r.path)
               + match r {
                   case DeleteRec(_) => [1]
                   case AddChildRec(_) => [1]
                   case ValueRec(_, data) => [0] + Tagged(0x48, Bytes(data))
                   case NameRec(_, name) => [1] + ([0x5C, 0xC3] + LenBytes(|name|) + Bytes(name) + [1])
                   case TitleRec(_, title) => [2] + ([0x50, 0xC3] + LenBytes(|title|) + Bytes(title) + [1])
                 }
  {
    hide Tagged, OptionalElement, Element, HeadBytes;
    match r {
      case DeleteRec(_) =>
      case AddChildRec(_) =>
      case ValueRec(_, data) => TaggedIs(0x48, Bytes(data));
      case NameRec(_, name) => TaggedIs(0x5C, Bytes(name));
      case TitleRec(_, title) => TaggedIs(0x50, Bytes(title));
    }
  }

  /** The number of a leaf's format. */
  function FormatNumber(f: Format): Byte {
    match f
    case NullFormat => 0
    case TextFormat(Chr) => 1
    case TextFormat(Int) => 2
    case BoolFormat => 3
    case BinFormat => 4
    case TextFormat(Date) => 8
    case TextFormat(Time) => 10
    case TextFormat(Float) => 11
  }

  /** The bytes of an add record, behind its front. */
  lemma AddRecordBytes(r: Record)
    requires Encodable(r) && r.AddRec?
    ensures var name := if r.path == [] then [] else Last(r.path);
            var plain := Bytes(Ascii("text/plain"));
            Encode(r)
            == HeadBytes(1, r.path)
               + match r.props {
                   case FolderProps(list) =>
                     [0x5D] + (Tagged(0x5C, Bytes(name)) + (Tagged(0x56, plain)
                       + (Tagged(0x50, Bytes(r.title)) + (Tagged(0x48, Bytes(list)) + [1]))))
                   case FileProps(format, data) =>
                     [0x5D] + (Tagged(0x5C, Bytes(name)) + (Tagged(0x53, [FormatNumber(format)])
                       + (Tagged(0x56, plain) + (Tagged(0x48, data) + (Tagged(0x50, Bytes(r.title)) + [1])))))
                 }
  {
    hide Tagged, NodeBytes, HeadBytes, Bytes;
    LastNameShorter(r.path);
    match r.props {
      case FolderProps(list) => FolderBytes(LastName(r.path), list, r.title);
      case FileProps(format, data) => FileBytes(LastName(r.path), format, data, r.title);
    }
  }

  lemma FolderBytes(name: Text, list: Text, title: Text)
    requires |name| < 65536 && |list| < 65536 && |title| < 65536
    ensures NodeBytes(name, FolderProps(list), title)
            == [0x5D] + (Tagged(0x5C, Bytes(name)) + (Tagged(0x56, Bytes(Ascii("text/plain")))
                 + (Tagged(0x50, Bytes(title)) + (Tagged(0x48, Bytes(list)) + [1]))))
  {
    hide Tagged, OptionalElement, Element;
    TypeElement();
    TaggedIs(0x5C, Bytes(name));
    TaggedIs(0x50, Bytes(title));
    TaggedIs(0x48, Bytes(list));
  }

  lemma FileBytes(name: Text, format: Format, data: seq<Byte>, title: Text)
    requires |name| < 65536 && |data| < 65536 && |title| < 65536
    ensures NodeBytes(name, FileProps(format, data), title)
            == [0x5D] + (Tagged(0x5C, Bytes(name)) + (Tagged(0x53, [FormatNumber(format)])
                 + (Tagged(0x56, Bytes(Ascii("text/plain"))) + (Tagged(0x48, data)
                 + (Tagged(0x50, Bytes(title)) + [1])))))
  {
    hide Tagged, OptionalElement, Element, FormatNumber;
    TypeElement();
    FormatElement(format);
    TaggedIs(0x5C, Bytes(name));
    TaggedIs(0x50, Bytes(title));
    TaggedIs(0x48, data);
  }

  /** Properties without a format element are those of an interior node, whose number is 5. */
  lemma NoFormatIsNode(name: seq<Byte>, data: seq<Byte>, title: seq<Byte>)
    ensures NoProps.format == 5
    ensures PropsFrom(NodeProps(name, 5, data, title)) == KnownProps(FolderProps(CStr(data)))
  {
  }

  lemma TypeElement()
    ensures Element(TYPE_TAG, TEXT_PLAIN) == Tagged(0x56, Bytes(Ascii("text/plain")))
  {
    assert Bytes(Ascii("text/plain")) == TEXT_PLAIN;
    TaggedIs(0x56, TEXT_PLAIN);
  }

  lemma FormatElement(f: Format)
    ensures Element(FORMAT_TAG, [FormatCode(f)]) == Tagged(0x53, [FormatNumber(f)])
  {
    TaggedIs(0x53, [FormatCode(f)]);
  }

  // ---------- the reader on any bytes ----------

  /** The number that septets stand for, most significant first. */
  function Base128(septets: seq<Byte>): nat {
    if septets == [] then 0 else 128 * Base128(septets[..|septets| - 1]) + septets[|septets| - 1] % 128
  }

  /** Any length that can be read is the number of its septets on 32 bits. */
  lemma {:induction false} LenMeans(front: seq<Byte>, last: Byte, rest: seq<Byte>)
    requires last < 128 && forall i :: 0 <= i < |front| ==> front[i] >= 128
    ensures ReadLen(front + [last] + rest) == Got(Base128(front + [last]) % 4294967296, rest)
  {
    assert front + [last] + rest == front + ([last] + rest);
    SeptetsRead([], front, [last] + rest);
    assert [] + front == front && Base128([]) == 0;
    var whole := front + [last];
    assert whole[..|whole| - 1] == front;
    assert ([last] + rest)[1..] == rest;
    WrapStep(Base128(front), last % 128);
  }

  lemma {:induction false} SeptetsRead(done: seq<Byte>, front: seq<Byte>, rest: seq<Byte>)
    requires forall i :: 0 <= i < |front| ==> front[i] >= 128
    ensures ReadMore(Base128(done) % 4294967296, front + rest) == ReadMore(Base128(done + front) % 4294967296, rest)
    decreases |front|
  {
    if front == [] {
      assert front + rest == rest && done + front == done;
    } else {
      var next := done + [front[0]];
      assert next[..|next| - 1] == done;
      assert (front + rest)[1..] == front[1..] + rest;
      assert done + front == next + front[1..];
      WrapStep(Base128(done), front[0] % 128);
      SeptetsRead(next, front[1..], rest);
    }
  }

  lemma WrapStep(n: nat, d: nat)
    requires d < 128
    ensures Wrap32(n % 4294967296 * 128 + d) == (n * 128 + d) % 4294967296
  {
    var q, r := n / 4294967296, n % 4294967296;
    assert n * 128 + d == (q * 128) * 4294967296 + (r * 128 + d);
    Multiple(q * 128, r * 128 + d);
  }

  lemma Multiple(q: nat, r: nat)
    ensures (q * 4294967296 + r) % 4294967296 == r % 4294967296
  {
  }

  /** What the reader takes for a record: the entry, a command it knows, and a path. */
  lemma AcceptedHead(input: seq<Byte>)
    requires ReadRecord(input).Got?
    ensures |input| >= 6 && input[0] == 0x62 && input[1] == 0x63 && 1 <= input[2] <= 4 && input[3] == 1
    ensures input[4] == 0x52 && input[5] == 0xC3
  {
    hide ReadBody, Split;
    assert ReadHead(input).Got? && ReadElement(input[5..]).Got?;
    KnownCommand(ReadHead(input).value.0, ReadHead(input).value.1, ReadHead(input).rest);
  }

  lemma KnownCommand(cmd: Byte, p: Path, input: seq<Byte>)
    requires ReadBody(cmd, p, input).Got?
    ensures 1 <= cmd <= 4
  {
  }

  /** Each element of a node, by its tag: what it sets, and which are refused. */
  lemma NodeElement(input: seq<Byte>, props: NodeProps)
    requires input != [] && input[0] != 1 && ReadElement(input[1..]).Got?
    ensures var data, rest := ReadElement(input[1..]).value, ReadElement(input[1..]).rest;
            ReadNode(input, props)
            == if input[0] == 0x5C then ReadNode(rest, props.(name := data))
               else if input[0] == 0x53 && |data| <= 1 then
                 ReadNode(rest, props.(format := if data == [] then 0 else data[0]))
               else if input[0] == 0x56 then ReadNode(rest, props)
               else if input[0] == 0x48 then ReadNode(rest, props.(data := data))
               else if input[0] == 0x50 then ReadNode(rest, props.(title := data))
               else Failed
  {
    hide ReadElement;
  }
}
