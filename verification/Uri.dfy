/** Node paths. The tree stores a path as one string with '/' between segments; the model uses the
    sequence of segments. This module shows the two are interchangeable: every string operation the
    tree performs on a path is the corresponding operation on its segments. */
module Uri {
  import opened DmText

  type Path = seq<Text>

  /** A segment a node may have: not empty, and free of the two delimiters of a URI. */
  predicate ValidName(name: Text) {
    name != [] && SLASH !in name && QUESTION !in name
  }

  predicate ValidPath(p: Path) {
    forall i :: 0 <= i < |p| ==> ValidName(p[i])
  }

  function Parent(p: Path): Path
    requires p != []
  {
    p[..|p| - 1]
  }

  function Last(p: Path): Text
    requires p != []
  {
    p[|p| - 1]
  }

  /** `strURI`, with a '/' added when it is not empty, followed by a name. */
  function Extend(uri: Text, name: Text): Text {
    if uri == [] then name else uri + [SLASH] + name
  }

  /** The string form of a path. The root node is the empty string. */
  function Join(p: Path): Text {
    if p == [] then [] else Extend(Join(p[..|p| - 1]), p[|p| - 1])
  }

  /** `DmParseURI`: split at the last '/', and cut the key at the first '?' after it. Without a '/'
      both results stay empty. */
  function ParseURI(path: Text): (r: (Text, Text)) {
    var slash := LastIndexOf(path, SLASH);
    if slash < 0 then ([], [])
    else
      var rest := path[slash + 1..];
      (path[..slash], rest[..IndexOf(rest, QUESTION)])
  }

  /** `DmStrToStringVector` on a '/'-separated list. */
  function Split(list: Text): (items: seq<Text>)
    decreases |list|
  {
    if list == [] then []
    else
      var i := IndexOf(list, SLASH);
      if i == |list| then [list] else [list[..i]] + Split(list[i + 1..])
  }

  /** The loop behind `DmStrToStringVector`: peel one item off the reminder until it is empty. */
  method StrToStringVector(text: Text) returns (items: seq<Text>)
    ensures items == Split(text)
  {
    items := [];
    var reminder := text;
    while reminder != []
      invariant items + Split(reminder) == Split(text)
      decreases |reminder|
    {
      var pos := IndexOf(reminder, SLASH);
      if pos == |reminder| {
        items := items + [reminder];
        reminder := [];
      } else {
        items := items + [reminder[..pos]];
        reminder := reminder[pos + 1..];
      }
    }
  }

  lemma JoinNotEmpty(p: Path)
    requires ValidPath(p) && p != []
    ensures Join(p) != []
  {
  }

  /** Joining from the left: the first segment comes first, a '/' separates it from the others. */
  lemma {:induction false} JoinFront(name: Text, p: Path)
    requires ValidName(name) && ValidPath(p) && p != []
    ensures Join([name] + p) == name + [SLASH] + Join(p)
  {
    var whole := [name] + p;
    assert whole[..|whole| - 1] == [name] + p[..|p| - 1];
    if |p| == 1 {
      assert whole[..1] == [name];
      assert [name][..0] == [];
      assert p[..0] == [];
    } else {
      JoinFront(name, p[..|p| - 1]);
      JoinNotEmpty(p[..|p| - 1]);
    }
  }

  lemma IndexOfAppend(name: Text, rest: Text)
    requires SLASH !in name
    ensures IndexOf(name + [SLASH] + rest, SLASH) == |name|
  {
    var s := name + [SLASH] + rest;
    var i := IndexOf(s, SLASH);
    assert s[|name|] == SLASH;
    assert forall j :: 0 <= j < |name| ==> s[j] == name[j];
  }

  /** Splitting the string form of a path gives the path back, so the string form loses nothing. */
  lemma {:induction false} SplitJoin(p: Path)
    requires ValidPath(p)
    ensures Split(Join(p)) == p
  {
    if |p| == 0 {
    } else if |p| == 1 {
      assert p[..0] == [];
      assert Join(p) == p[0];
      assert IndexOf(p[0], SLASH) == |p[0]|;
    } else {
      var rest := p[1..];
      assert p == [p[0]] + rest;
      JoinFront(p[0], rest);
      IndexOfAppend(p[0], Join(rest));
      var s := Join(p);
      assert s[..|p[0]|] == p[0];
      assert s[|p[0]| + 1..] == Join(rest);
      SplitJoin(rest);
    }
  }

  /** Two different nodes never share a key in the flat map. */
  lemma JoinInjective(p: Path, q: Path)
    requires ValidPath(p) && ValidPath(q)
    requires Join(p) == Join(q)
    ensures p == q
  {
    SplitJoin(p);
    SplitJoin(q);
  }

  lemma ParseNested(uri: Text, key: Text)
    requires ValidName(key)
    ensures ParseURI(uri + [SLASH] + key) == (uri, key)
  {
    var s := uri + [SLASH] + key;
    assert s[|uri|] == SLASH;
    assert forall j :: |uri| < j < |s| ==> s[j] == key[j - |uri| - 1];
    assert LastIndexOf(s, SLASH) == |uri|;
    assert s[..|uri|] == uri;
    assert s[|uri| + 1..] == key;
    assert key[..|key|] == key;
  }

  /** What `DmParseURI` finds in a stored path: the parent's path, and the node's name unless the node
      hangs directly under the root, where the key stays empty and callers use the path itself. */
  lemma ParseJoined(p: Path)
    requires ValidPath(p) && p != []
    ensures ParseURI(Join(p)).0 == Join(Parent(p))
    ensures ParseURI(Join(p)).1 == if |p| == 1 then [] else Last(p)
    ensures |p| == 1 ==> Join(p) == Last(p)
  {
    if |p| == 1 {
      assert Parent(p) == [];
      assert LastIndexOf(p[0], SLASH) == -1;
    } else {
      JoinNotEmpty(Parent(p));
      ParseNested(Join(Parent(p)), Last(p));
    }
  }

  // ---------- the strings themselves ----------

  /** Items with a '/' between them. */
  function Glue(items: seq<Text>): Text {
    if items == [] then []
    else if |items| == 1 then items[0]
    else items[0] + ['/' as CChar] + Glue(items[1..])
  }

  /** The string form of a path is its segments with '/' between them. */
  lemma {:induction false} JoinIsGlue(p: Path)
    requires ValidPath(p)
    ensures Join(p) == Glue(p)
  {
    if |p| == 1 {
      assert p[..0] == [];
    } else if |p| > 1 {
      assert p == [p[0]] + p[1..];
      JoinFront(p[0], p[1..]);
      JoinIsGlue(p[1..]);
    }
  }

  /** What any list is split into: items without '/', which are the list again when they are put together
      with '/' between them, but for one '/' at the end of the list. */
  lemma {:induction false} SplitMeans(list: Text)
    requires list != []
    ensures Split(list) != [] && forall i :: 0 <= i < |Split(list)| ==> '/' as CChar !in Split(list)[i]
    ensures list == Glue(Split(list)) + if list[|list| - 1] == '/' as CChar then ['/' as CChar] else []
    decreases |list|
  {
    var i := IndexOf(list, SLASH);
    if i < |list| {
      var first, rest := list[..i], list[i + 1..];
      assert list == first + [SLASH] + rest;
      if rest != [] {
        SplitMeans(rest);
        assert Split(list)[1..] == Split(rest);
        assert rest[|rest| - 1] == list[|list| - 1];
        assert forall k :: 0 < k < |Split(list)| ==> Split(list)[k] == Split(rest)[k - 1];
      } else {
        assert Split(list) == [first];
      }
    }
  }

  /** What `DmParseURI` makes of any string: nothing without a '/'; otherwise what lies before the last '/',
      and what lies behind it up to a '?'. */
  lemma ParseMeans(uri: Text, key: Text, query: Text)
    requires '/' as CChar !in key && '?' as CChar !in key && '/' as CChar !in query
    requires query == [] || query[0] == '?' as CChar
    ensures ParseURI(uri + ['/' as CChar] + key + query) == (uri, key)
    ensures ParseURI(key + query) == ([], [])
  {
    var rest := key + query;
    assert uri + [SLASH] + key + query == uri + [SLASH] + rest;
    KeyEnds(key, query);
    ParseRest(uri, rest);
    assert LastIndexOf(rest, SLASH) == -1;
  }

  lemma KeyEnds(key: Text, query: Text)
    requires QUESTION !in key && (query == [] || query[0] == QUESTION)
    ensures IndexOf(key + query, QUESTION) == |key| && (key + query)[..|key|] == key
  {
    var rest := key + query;
    assert forall j :: 0 <= j < |key| ==> rest[j] == key[j];
    assert query != [] ==> rest[|key|] == query[0];
  }

  lemma ParseRest(uri: Text, rest: Text)
    requires SLASH !in rest
    ensures ParseURI(uri + [SLASH] + rest) == (uri, rest[..IndexOf(rest, QUESTION)])
  {
    var s := uri + [SLASH] + rest;
    assert s[|uri|] == SLASH;
    assert forall j :: |uri| < j < |s| ==> s[j] == rest[j - |uri| - 1];
    assert LastIndexOf(s, SLASH) == |uri|;
    assert s[..|uri|] == uri && s[|uri| + 1..] == rest;
  }
}
