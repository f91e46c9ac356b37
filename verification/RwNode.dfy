/** `DmtRWPluginNode` objects, and maps of them while the tree walks, clears or renames a subtree. */
module RwNode {
  import opened DmText
  import opened Uri
  import opened DmtValue
  import opened PluginTree
  import opened UndoLog
  import opened Wbxml
  import opened LogLayout

  datatype Status = Success | NotFound | Fail | IoFailure

  datatype Command = Add | Remove | ReplaceValue | ReplaceName | ReplaceTitle

  /** What `LogCommand` appends for a command: the inverse of the mutation about to happen. */
  ghost function CommandRecords(t: Tree, cmd: Command, uri: Path, at: Path): seq<Record>
    requires !cmd.Add? ==> at in t
  {
    match cmd
    case Add => [DeleteRec(uri)]
    case Remove => LinkRecords(uri) + AddRecords(t, at)
    case ReplaceValue => [ValueRec(uri, if t[at].Leaf? then StringForm(t[at].value) else [])]
    case ReplaceName => [NameRec(uri, LastName(at))]
    case ReplaceTitle => [TitleRec(uri, t[at].title)]
  }

  /** The mutations log these commands. */
  lemma UndoIsCommand(t: Tree, op: Op)
    requires WF(t) && Allowed(t, op) && op.path in t
    ensures op.SetLeaf? || op.Retitle? || op.DeleteNode? || op.RenameNode?
    ensures op.SetLeaf? ==> UndoRecords(t, op) == CommandRecords(t, ReplaceValue, op.path, op.path)
    ensures op.Retitle? ==> UndoRecords(t, op) == CommandRecords(t, ReplaceTitle, op.path, op.path)
    ensures op.DeleteNode? ==> UndoRecords(t, op) == CommandRecords(t, Remove, op.path, op.path)
    ensures op.RenameNode? ==>
              UndoRecords(t, op) == CommandRecords(t, ReplaceName, Parent(op.path) + [op.name], op.path)
  {
  }

  class RWNode {
    const isLeaf: bool
    var path: Path
    var name: Text
    var value: Value
    var children: seq<Text>
    var title: Text

    constructor InitLeaf(path: Path, value: Value)
      ensures isLeaf && this.path == path && name == LastName(path) && View() == Leaf(value, [])
    {
      isLeaf := true;
      this.path, name, this.value, children, title := path, LastName(path), value, [], [];
    }

    constructor InitInterior(path: Path, children: seq<Text>)
      ensures !isLeaf && this.path == path && name == LastName(path) && View() == Interior(children, [])
    {
      isLeaf := false;
      this.path, name, value, this.children, title := path, LastName(path), Null, children, [];
    }

    function View(): (n: Node)
      reads this`value, this`children, this`title
      ensures n.Leaf? == isLeaf && n.title == title
    {
      if isLeaf then Leaf(value, title) else Interior(children, title)
    }
  }

  // ---------- maps of nodes while a subtree is walked ----------

  /** The map without the subtrees of the first `i` children. */
  ghost function WithoutChildren<V>(m: map<Path, V>, p: Path, children: seq<Text>, i: nat): map<Path, V>
    requires i <= |children|
  {
    map q | q in m && !BelowSomeChild(children, p, i, q) :: m[q]
  }

  lemma WithoutNextChild<V>(m: map<Path, V>, p: Path, children: seq<Text>, i: nat)
    requires i < |children|
    ensures RemoveUnder(WithoutChildren(m, p, children, i), p + [children[i]]) == WithoutChildren(m, p, children, i + 1)
  {
    forall q
      ensures BelowSomeChild(children, p, i + 1, q) <==> BelowSomeChild(children, p, i, q) || p + [children[i]] <= q
    {
    }
  }

  lemma LeafAlone<V>(t: Tree, m: map<Path, V>, p: Path)
    requires WF(t) && p in t && t[p].Leaf?
    requires forall q | q in m && p <= q :: q in t
    ensures m - {p} == RemoveUnder(m, p)
  {
    forall q | q in m && p <= q ensures q == p {
      AncestorsExist(t, p, q);
    }
  }

  lemma WithoutAllChildren<V>(t: Tree, m: map<Path, V>, p: Path)
    requires WF(t) && p in t && t[p].Interior?
    requires forall q | q in m && p <= q :: q in t
    ensures WithoutChildren(m, p, t[p].children, |t[p].children|) - {p} == RemoveUnder(m, p)
  {
    BelowIsUnderChildren(t, p);
    var n := |t[p].children|;
    forall q | q in m && q != p ensures BelowSomeChild(t[p].children, p, n, q) <==> p <= q {
      if p <= q {
        assert q in Below(t, p);
      } else {
        forall j | 0 <= j < n ensures !(p + [t[p].children[j]] <= q) {
          assert p <= p + [t[p].children[j]];
        }
      }
    }
  }

  lemma SiblingNotBelow(children: seq<Text>, p: Path, i: nat, q: Path)
    requires NoDup(children) && i < |children| && p + [children[i]] <= q
    ensures !BelowSomeChild(children, p, i, q)
  {
    var mine := p + [children[i]];
    forall j | 0 <= j < i ensures !(p + [children[j]] <= q) {
      var other := p + [children[j]];
      assert mine[|p|] != other[|p|];
    }
  }

  lemma ChildPresent(t: Tree, p: Path, i: nat)
    requires WF(t) && p in t && t[p].Interior? && i < |t[p].children|
    ensures p + [t[p].children[i]] in t && |p| < MaxLen(t.Keys)
  {
    assert Sound(t, p);
    assert p + [t[p].children[i]] in t.Keys;
  }

  lemma {:induction false} ChildRecordsPrefix(t: Tree, p: Path, i: nat, n: nat)
    requires p in t && t[p].Interior? && i <= n <= |t[p].children|
    ensures ChildRecords(t, p, i) <= ChildRecords(t, p, n)
  {
    if i < n {
      ChildRecordsPrefix(t, p, i, n - 1);
    }
  }

  lemma ChildStep(t: Tree, p: Path, i: nat)
    requires p in t && t[p].Interior? && i < |t[p].children| && p + [t[p].children[i]] in t
    ensures ChildRecords(t, p, i + 1) == ChildRecords(t, p, i) + AddRecords(t, p + [t[p].children[i]])
  {
  }

  lemma PrefixRest(a: seq<Record>, b: seq<Record>, last: seq<Record>)
    requires a <= b
    ensures b + last == a + (b[|a|..] + last)
  {
  }

  lemma ChildRecordsSplit(t: Tree, p: Path, i: nat) returns (rest: seq<Record>)
    requires p in t && t[p].Interior? && i <= |t[p].children|
    ensures AddRecords(t, p) == ChildRecords(t, p, i) + rest
  {
    var n := |t[p].children|;
    ChildRecordsPrefix(t, p, i, n);
    var a, b := ChildRecords(t, p, i), ChildRecords(t, p, n);
    rest := b[|a|..] + [AddRecOf(t, p)];
    PrefixRest(a, b, [AddRecOf(t, p)]);
  }

  lemma LoggableUpTo(root: Text, part: seq<Record>, limit: seq<Record>)
    requires Loggable(root, limit) && part <= limit
    ensures Loggable(root, part)
  {
    assert limit == part + limit[|part|..];
    LoggablePrefix(root, part, limit[|part|..]);
  }

  lemma PiecePrefix(before: seq<Record>, a: seq<Record>, b: seq<Record>, now: seq<Record>, rest: seq<Record>,
                    limit: seq<Record>)
    requires now == a + b && before + (now + rest) <= limit
    ensures before + a + b == before + now && before + a + b <= limit
  {
    var whole := before + (now + rest);
    assert whole == (before + now) + rest;
    assert before + now == whole[..|before + now|];
  }

  /** Logging the subtree of the next child continues the records logged so far. */
  lemma NextChildLogged(t: Tree, p: Path, before: seq<Record>, i: nat, limit: seq<Record>)
    requires p in t && t[p].Interior? && i < |t[p].children| && p + [t[p].children[i]] in t
    requires before + AddRecords(t, p) <= limit
    ensures before + ChildRecords(t, p, i) + AddRecords(t, p + [t[p].children[i]]) == before + ChildRecords(t, p, i + 1)
    ensures before + ChildRecords(t, p, i) + AddRecords(t, p + [t[p].children[i]]) <= limit
  {
    ChildStep(t, p, i);
    var rest := ChildRecordsSplit(t, p, i + 1);
    PiecePrefix(before, ChildRecords(t, p, i), AddRecords(t, p + [t[p].children[i]]), ChildRecords(t, p, i + 1),
                rest, limit);
  }

  lemma TopLogged(t: Tree, p: Path, before: seq<Record>)
    requires p in t && t[p].Interior?
    ensures before + ChildRecords(t, p, |t[p].children|) + [AddRecOf(t, p)] == before + AddRecords(t, p)
  {
  }

  ghost predicate AbsentUpTo(s: seq<Text>, name: Text, i: nat) {
    i <= |s| && forall j :: 0 <= j < i ==> s[j] != name
  }

  lemma {:induction false} RemoveFirstAt(s: seq<Text>, name: Text, i: nat)
    requires AbsentUpTo(s, name, i)
    ensures i == |s| ==> RemoveFirst(s, name) == s
    ensures i < |s| && s[i] == name ==> RemoveFirst(s, name) == s[..i] + s[i + 1..]
  {
    if i > 0 {
      RemoveFirstAt(s[1..], name, i - 1);
      assert s == [s[0]] + s[1..];
    }
  }

  /** The loop of `Rename`: it stops at the first match. */
  method RemoveName(names: seq<Text>, name: Text) returns (r: seq<Text>)
    ensures r == RemoveFirst(names, name)
  {
    r := names;
    var i := 0;
    while i < |r|
      invariant r == names && AbsentUpTo(names, name, i)
    {
      RemoveFirstAt(names, name, i);
      if r[i] == name {
        r := r[..i] + r[i + 1..];
        return;
      }
      i := i + 1;
    }
    RemoveFirstAt(names, name, |names|);
  }

  /** The loop of `DeleteNode`: it goes on after a removal, at the next index of the shorter list. */
  method RemoveEveryName(names: seq<Text>, name: Text) returns (r: seq<Text>)
    requires NoDup(names)
    ensures r == RemoveFirst(names, name)
  {
    r := names;
    ghost var removed := false;
    RemoveFirstMember(names, name);
    var i := 0;
    while i < |r|
      invariant 0 <= i
      invariant !removed ==> r == names && AbsentUpTo(names, name, i)
      invariant removed ==> r == RemoveFirst(names, name)
      decreases |r| - i
    {
      if !removed {
        RemoveFirstAt(names, name, i);
      }
      if r[i] == name {
        assert r[i] in r;
        r := r[..i] + r[i + 1..];
        removed := true;
      }
      i := i + 1;
    }
    if !removed {
      RemoveFirstAt(names, name, |names|);
    }
  }

  // ---------- a subtree while it is renamed ----------

  lemma WithoutNoChildren<V>(m: map<Path, V>, p: Path, children: seq<Text>)
    ensures WithoutChildren(m, p, children, 0) == m
  {
  }

  lemma TopStays<V>(m: map<Path, V>, p: Path, children: seq<Text>)
    requires p in m
    ensures p in WithoutChildren(m, p, children, |children|)
  {
    assert forall j :: 0 <= j < |children| ==> |p + [children[j]]| > |p|;
  }

  /** The subtree of a child is still there when those of the children before it are gone. */
  lemma ChildMirrored(m0: map<Path, RWNode>, m: map<Path, RWNode>, t: Tree, p: Path, i: nat)
    requires WF(t) && p in t && t[p].Interior? && i < |t[p].children|
    requires MirrorsIn(m0, t, p) && m == WithoutChildren(m0, p, t[p].children, i)
    ensures var child := p + [t[p].children[i]];
            MirrorsIn(m, t, child) && child in m0 && child in m && m[child] == m0[child] && m[child].path == child
  {
    var child := p + [t[p].children[i]];
    assert Sound(t, p);
    assert p <= child;
    forall q | q in m0 && child <= q ensures p <= q && !BelowSomeChild(t[p].children, p, i, q) {
      SiblingNotBelow(t[p].children, p, i, q);
    }
    ChildPresent(t, p, i);
  }

  lemma SubtreeStillThere(m0: map<Path, RWNode>, m: map<Path, RWNode>, from: Path, to: Path, done: set<Path>, c: Text)
    requires Shifted(m0, m, from, to, done) && ApartOrSame(from, to)
    requires forall q | q in done :: !(from + [c] <= q)
    ensures SameUnder(m0, m, from + [c])
    ensures ObjectsUnder(m, from + [c]) == ObjectsUnder(m0, from + [c])
    ensures ApartOrSame(from + [c], to + [c])
  {
    assert from <= from + [c] && to <= to + [c];
    forall q | from + [c] <= q ensures (q in m <==> q in m0) && (q in m ==> m[q] == m0[q]) {
      StillThere(m0, m, from, to, done, q);
    }
    if from != to {
      ApartChildren(from, to, c);
    }
  }

  lemma ApartChildren(from: Path, to: Path, c: Text)
    requires Apart(from, to)
    ensures Apart(from + [c], to + [c])
  {
    if |from| <= |to| {
      assert from != to[..|from|];
      var i :| 0 <= i < |from| && from[i] != to[i];
      assert (from + [c])[i] != (to + [c])[i];
    } else {
      assert to != from[..|to|];
      var i :| 0 <= i < |to| && from[i] != to[i];
      assert (from + [c])[i] != (to + [c])[i];
    }
  }

  ghost predicate SameUnder(m0: map<Path, RWNode>, m: map<Path, RWNode>, p: Path) {
    forall q | p <= q :: (q in m <==> q in m0) && (q in m ==> m[q] == m0[q])
  }

  lemma ChildMirrorsIn(m0: map<Path, RWNode>, m: map<Path, RWNode>, t: Tree, from: Path, to: Path, done: set<Path>,
                       c: Text)
    requires ViewsIn(m0, t, from) && PathsMoved(m0, from, to, done) && SameUnder(m0, m, from + [c])
    requires forall q | q in done :: !(from + [c] <= q)
    ensures MirrorsIn(m, t, from + [c])
  {
    assert from <= from + [c];
    forall q | q in m && from + [c] <= q ensures q in t && m[q].View() == t[q] && m[q].path == q {
      assert Spot(q, from, to, done) == q;
      assert from <= q && q != from;
    }
  }

  lemma DistinctStays(m0: map<Path, RWNode>, m: map<Path, RWNode>, from: Path, to: Path, done: set<Path>)
    requires Shifted(m0, m, from, to, done) && Distinct(m0)
    ensures Distinct(m)
  {
    forall q, k | q in m && k in m && q != k ensures m[q] != m[k] {
      assert ShiftedAt(m0, m, from, to, done, q) && ShiftedAt(m0, m, from, to, done, k);
      if to <= q && to <= k {
        assert q == to + q[|to|..] && k == to + k[|to|..];
        assert Moved(q, to, from)[|from|..] == q[|to|..] && Moved(k, to, from)[|from|..] == k[|to|..];
      }
    }
  }

  lemma MovedName(o: Path, from: Path, to: Path)
    requires to != []
    ensures LastName(Moved(o, from, to)) == if o == from then Last(to) else LastName(o)
  {
    if from <= o && o != from {
      assert Last(to + o[|from|..]) == Last(o);
    }
  }

  /** Two trees that may differ in the parent of `p` only. */
  ghost predicate SameUnderTop(t: Tree, t1: Tree, p: Path) {
    p != [] && p in t && t.Keys == t1.Keys && forall q | q in t && p <= q :: t1[q] == t[q]
  }

  lemma RelinkedTop(t: Tree, p: Path, name: Text)
    requires WF(t) && p in t && p != []
    ensures HasParent(t, p)
    ensures SameUnderTop(t, Link(Unlink(t, p), Parent(p) + [name]), p)
    ensures RenamePath(t, p, name) == Relocate(Link(Unlink(t, p), Parent(p) + [name]), p, Parent(p) + [name])
  {
    assert Linked(t, p);
    assert !(p <= Parent(p));
  }

  /** The objects of `m0` hold the tree `t`, but store the paths and names they have after the move. */
  ghost predicate ObjectsMoved(m0: map<Path, RWNode>, objects: set<RWNode>, t: Tree, from: Path, to: Path)
    reads objects`path, objects`name, objects`value, objects`children, objects`title
  {
    && m0.Keys == t.Keys
    && forall q | q in m0 ::
              && m0[q] in objects && m0[q].View() == t[q]
              && m0[q].path == Moved(q, from, to) && m0[q].name == LastName(Moved(q, from, to))
  }

  ghost predicate ShowsIn(m: map<Path, RWNode>, objects: set<RWNode>, t: Tree)
    reads objects`path, objects`name, objects`value, objects`children, objects`title
  {
    && t.Keys == m.Keys
    && forall q | q in m :: m[q] in objects && m[q].path == q && m[q].name == LastName(q) && m[q].View() == t[q]
  }

  lemma KeyedDistinct(m: map<Path, RWNode>)
    requires forall q | q in m :: m[q].path == q
    ensures Distinct(m)
  {
    forall q, k | q in m && k in m && q != k ensures m[q] != m[k] {
      assert m[q].path != m[k].path;
    }
  }

  lemma ShowsMoved(m0: map<Path, RWNode>, m: map<Path, RWNode>, objects: set<RWNode>, t: Tree, from: Path, to: Path)
    requires ObjectsMoved(m0, objects, t, from, to) && m == Relocate(m0, from, to)
    ensures ShowsIn(m, objects, Relocate(t, from, to))
  {
    hide Relocate;
    var r := Relocate(t, from, to);
    RelocateShifts(m0, from, to);
    RelocateShifts(t, from, to);
    assert KeysUnder(t, from) == KeysUnder(m0, from);
    forall k ensures k in m <==> k in r {
      assert ShiftedAt(m0, m, from, to, KeysUnder(m0, from), k) && ShiftedAt(t, r, from, to, KeysUnder(t, from), k);
    }
    forall k | k in m
      ensures m[k] in objects && m[k].path == k && m[k].name == LastName(k) && m[k].View() == r[k]
    {
      assert ShiftedAt(m0, m, from, to, KeysUnder(m0, from), k) && ShiftedAt(t, r, from, to, KeysUnder(t, from), k);
      if to <= k {
        assert from <= Moved(k, to, from) && Moved(Moved(k, to, from), from, to) == k;
      }
    }
  }

  lemma TopApart(p: Path, to: Path)
    requires p != [] && to != [] && Parent(to) == Parent(p)
    ensures ApartOrSame(p, to)
  {
    assert |p| == |to|;
  }

  /** Neither path lies under the other. */
  predicate Apart(a: Path, b: Path) {
    !(a <= b) && !(b <= a)
  }

  predicate ApartOrSame(a: Path, b: Path) {
    a == b || Apart(a, b)
  }

  /** Under `p`, the map is that of `t`. */
  ghost predicate ViewsIn(m: map<Path, RWNode>, t: Tree, p: Path)
    reads m.Values`value, m.Values`children, m.Values`title
  {
    && (forall q | q in t && p <= q :: q in m)
    && (forall q | q in m && p <= q :: q in t && m[q].View() == t[q])
  }

  /** ... and every object stores its key. */
  ghost predicate MirrorsIn(m: map<Path, RWNode>, t: Tree, p: Path)
    reads m.Values
  {
    ViewsIn(m, t, p) && forall q | q in m && p <= q :: m[q].path == q
  }

  /** Different keys hold different objects. */
  ghost predicate Distinct(m: map<Path, RWNode>) {
    forall q, k | q in m && k in m && q != k :: m[q] != m[k]
  }

  ghost function ObjectsUnder(m: map<Path, RWNode>, p: Path): set<RWNode> {
    set q | q in m && p <= q :: m[q]
  }

  /** The entries that have moved when those of the first `i` children have. */
  ghost function Done(m0: map<Path, RWNode>, from: Path, names: seq<Text>, i: nat): set<Path>
    requires i <= |names|
  {
    set q | q in m0 && (q == from || BelowSomeChild(names, from, i, q))
  }

  /** Where an entry is when the entries of `done` have moved. */
  ghost function Spot(q: Path, from: Path, to: Path, done: set<Path>): Path {
    if q in done then Moved(q, from, to) else q
  }

  /** The paths stored in the objects below `from`. */
  ghost predicate PathsMoved(m0: map<Path, RWNode>, from: Path, to: Path, done: set<Path>)
    reads m0.Values`path
  {
    forall q | q in m0 && from <= q && q != from :: m0[q].path == Spot(q, from, to, done)
  }

  lemma MoveTop(m0: map<Path, RWNode>, from: Path, to: Path)
    requires from in m0
    ensures Shifted(m0, (m0 - {from})[to := m0[from]], from, to, {from})
  {
    var m := (m0 - {from})[to := m0[from]];
    forall k ensures ShiftedAt(m0, m, from, to, {from}, k) {
      if to <= k && Moved(k, to, from) == from {
        assert |k| == |to| && k == to;
      }
    }
    assert Moved(to, to, from) == from;
  }

  /** An entry below `from` that has not moved is still at its old key. */
  lemma StillThere(m0: map<Path, RWNode>, m: map<Path, RWNode>, from: Path, to: Path, done: set<Path>, q: Path)
    requires Shifted(m0, m, from, to, done) && ApartOrSame(from, to) && from <= q && q !in done
    ensures q in m <==> q in m0
    ensures q in m ==> m[q] == m0[q]
  {
    if to <= q {
      PrefixesNested(from, to, q);
    }
    assert Moved(q, from, from) == q;
    assert ShiftedAt(m0, m, from, to, done, q);
  }

  lemma MovedVia(q: Path, from: Path, to: Path, c: Text)
    requires from + [c] <= q
    ensures Moved(q, from + [c], to + [c]) == Moved(q, from, to)
  {
    assert from <= from + [c];
    assert q[|from|..] == [c] + q[|from| + 1..];
  }

  /** Where a key under the new parent comes from, seen from the parent and from the child. */
  lemma ChildOrigin(k: Path, from: Path, to: Path, c: Text)
    requires to <= k
    ensures from + [c] <= Moved(k, to, from) <==> to + [c] <= k
    ensures to + [c] <= k ==> Moved(k, to + [c], from + [c]) == Moved(k, to, from)
  {
    var rest := k[|to|..];
    assert k == to + rest && Moved(k, to, from) == from + rest;
    ChildFirst(from, rest, c);
    ChildFirst(to, rest, c);
    if to + [c] <= k {
      MovedVia(k, to, from, c);
    }
  }

  lemma ChildFirst(p: Path, rest: Path, c: Text)
    ensures p + [c] <= p + rest <==> rest != [] && rest[0] == c
  {
    if rest != [] {
      assert (p + rest)[..|p| + 1] == p + [rest[0]];
    }
    if p + [c] <= p + rest {
      assert (p + rest)[|p|] == (p + [c])[|p|];
    }
  }

  lemma SameKeysUnder(m0: map<Path, RWNode>, m: map<Path, RWNode>, from: Path, to: Path, done: set<Path>, c: Text)
    requires Shifted(m0, m, from, to, done) && ApartOrSame(from, to)
    requires forall q | q in done :: from <= q && !(from + [c] <= q)
    ensures KeysUnder(m, from + [c]) == KeysUnder(m0, from + [c])
  {
    assert from <= from + [c];
    forall q | from + [c] <= q ensures q in m <==> q in m0 {
      StillThere(m0, m, from, to, done, q);
    }
  }

  /** Moving the subtree of one more child. */
  lemma MoveNext(m0: map<Path, RWNode>, m: map<Path, RWNode>, from: Path, to: Path, done: set<Path>, c: Text)
    requires Shifted(m0, m, from, to, done) && ApartOrSame(from, to)
    requires forall q | q in done :: from <= q && !(from + [c] <= q)
    ensures Shifted(m0, Relocate(m, from + [c], to + [c]), from, to, done + KeysUnder(m0, from + [c]))
  {
    hide Relocate;
    var m2, keys := Relocate(m, from + [c], to + [c]), KeysUnder(m0, from + [c]);
    SameKeysUnder(m0, m, from, to, done, c);
    RelocateShifts(m, from + [c], to + [c]);
    forall k ensures ShiftedAt(m0, m2, from, to, done + keys, k) {
      assert ShiftedAt(m, m2, from + [c], to + [c], keys, k);
      MoveNextAt(m0, m, m2, from, to, done, c, k);
    }
  }

  lemma MoveNextAt(m0: map<Path, RWNode>, m: map<Path, RWNode>, m2: map<Path, RWNode>, from: Path, to: Path,
                   done: set<Path>, c: Text, k: Path)
    requires Shifted(m0, m, from, to, done) && ApartOrSame(from, to)
    requires forall q | q in done :: from <= q && !(from + [c] <= q)
    requires ShiftedAt(m, m2, from + [c], to + [c], KeysUnder(m0, from + [c]), k)
    ensures ShiftedAt(m0, m2, from, to, done + KeysUnder(m0, from + [c]), k)
  {
    var child, keys := from + [c], KeysUnder(m0, from + [c]);
    assert from <= child && to <= to + [c];
    assert ShiftedAt(m0, m, from, to, done, k);
    if to <= k {
      ChildOrigin(k, from, to, c);
      var o := Moved(k, to, from);
      if o in keys {
        StillThere(m0, m, from, to, done, o);
      }
    }
  }

  lemma AllMoved(m0: map<Path, RWNode>, m: map<Path, RWNode>, from: Path, to: Path, done: set<Path>)
    requires Shifted(m0, m, from, to, done) && done == KeysUnder(m0, from)
    ensures m == Relocate(m0, from, to)
  {
    RelocateShifts(m0, from, to);
    ShiftedOnce(m0, m, Relocate(m0, from, to), from, to, done);
  }

  lemma LeafMoves(t: Tree, m0: map<Path, RWNode>, m: map<Path, RWNode>, from: Path, to: Path)
    requires WF(t) && from in t && t[from].Leaf? && from in m0
    requires forall q | q in m0 && from <= q :: q in t
    requires Shifted(m0, m, from, to, {from})
    ensures m == Relocate(m0, from, to)
    ensures forall q | q in m0 && from <= q :: q == from
  {
    forall q | q in m0 && from <= q ensures q == from {
      AncestorsExist(t, from, q);
    }
    assert KeysUnder(m0, from) == {from};
    AllMoved(m0, m, from, to, {from});
  }

  lemma DoneNone(m0: map<Path, RWNode>, from: Path, names: seq<Text>)
    requires from in m0
    ensures Done(m0, from, names, 0) == {from}
  {
  }

  lemma DoneNext(m0: map<Path, RWNode>, from: Path, names: seq<Text>, i: nat)
    requires i < |names|
    ensures Done(m0, from, names, i + 1) == Done(m0, from, names, i) + KeysUnder(m0, from + [names[i]])
  {
    forall q
      ensures BelowSomeChild(names, from, i + 1, q) <==> BelowSomeChild(names, from, i, q) || from + [names[i]] <= q
    {
    }
  }

  lemma AllDone(t: Tree, m0: map<Path, RWNode>, from: Path)
    requires WF(t) && from in t && t[from].Interior? && from in m0
    requires forall q | q in m0 && from <= q :: q in t
    ensures Done(m0, from, t[from].children, |t[from].children|) == KeysUnder(m0, from)
  {
    BelowIsUnderChildren(t, from);
    var names := t[from].children;
    forall q | q in m0 ensures q == from || BelowSomeChild(names, from, |names|, q) <==> from <= q {
      if from <= q && q != from {
        assert q in Below(t, from);
      } else {
        forall j | 0 <= j < |names| ensures from + [names[j]] <= q ==> from <= q {
          assert from <= from + [names[j]];
        }
      }
    }
  }

  lemma DoneApart(m0: map<Path, RWNode>, from: Path, names: seq<Text>, i: nat)
    requires NoDup(names) && i < |names|
    ensures forall q | q in Done(m0, from, names, i) :: from <= q && !(from + [names[i]] <= q)
  {
    var mine := from + [names[i]];
    forall q | q in Done(m0, from, names, i) ensures from <= q && !(mine <= q) {
      if q != from {
        var j :| 0 <= j < i && from + [names[j]] <= q;
        var other := from + [names[j]];
        assert other[|from|] != mine[|from|];
        assert from <= other;
      }
    }
  }
}
