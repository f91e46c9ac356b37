/** Character data as the engine holds it: NUL-terminated 8-bit strings and raw byte buffers. */
module DmText {

  /** One character of a C string: any 8-bit unit except the terminator. */
  type CChar = c: int | 1 <= c < 256 witness 32

  type Text = seq<CChar>

  type Byte = b: int | 0 <= b < 256

  /** The characters of a string literal. */
  function Ascii(s: string): (r: Text)
    requires forall i :: 0 <= i < |s| ==> 1 <= s[i] as int < 256
    ensures |r| == |s| && forall i :: 0 <= i < |s| ==> r[i] == s[i] as int
  {
    seq(|s|, i requires 0 <= i < |s| => s[i] as int)
  }

  /** No element occurs twice. */
  ghost predicate NoDup<T>(s: seq<T>) {
    forall i, j :: 0 <= i < j < |s| ==> s[i] != s[j]
  }

  const SPACE: CChar := 32
  const SLASH: CChar := 47
  const QUESTION: CChar := 63

  /** The C string that starts at the beginning of a buffer: everything up to the first NUL. */
  function CStr(buffer: seq<Byte>): (s: Text)
    ensures |s| <= |buffer|
    ensures forall i :: 0 <= i < |s| ==> s[i] == buffer[i]
    ensures |s| < |buffer| ==> buffer[|s|] == 0
  {
    if buffer == [] || buffer[0] == 0 then [] else [buffer[0]] + CStr(buffer[1..])
  }

  /** The bytes of a C string, terminator excluded. */
  function Bytes(s: Text): (b: seq<Byte>)
    ensures |b| == |s| && forall i :: 0 <= i < |s| ==> b[i] == s[i]
  {
    seq(|s|, i requires 0 <= i < |s| => s[i])
  }

  /** A buffer that holds exactly the bytes of a string reads back as that string. */
  lemma CStrOfBytes(s: Text)
    ensures CStr(Bytes(s)) == s
  {
    assert forall i :: 0 <= i < |s| ==> Bytes(s)[i] != 0;
  }

  /** `strchr`: the first position of a character, or the length when it does not occur. */
  function IndexOf(s: Text, c: CChar): (i: nat)
    ensures i <= |s|
    ensures i < |s| ==> s[i] == c
    ensures forall j :: 0 <= j < i ==> s[j] != c
  {
    if s == [] || s[0] == c then 0
    else IndexOf(s[1..], c) + 1
  }

  /** `strrchr`: the last position of a character, or -1. */
  function LastIndexOf(s: Text, c: CChar): (i: int)
    ensures -1 <= i < |s|
    ensures 0 <= i ==> s[i] == c
    ensures forall j :: i < j < |s| ==> s[j] != c
  {
    if s == [] then -1
    else if s[|s| - 1] == c then |s| - 1
    else LastIndexOf(s[..|s| - 1], c)
  }
}
