/** The undo log as a stack of records: which records a mutation writes before it acts, what replaying a
    record does, and what a replay of the whole stack, newest record first, restores. */
module UndoLog {
  import opened DmText
  import opened Uri
  import opened DmtValue
  import opened PluginTree

  /** The part of an add record that replay reads: the child list of an interior node as one
      '/'-separated string, or the format and raw data of a leaf. */
  datatype Props = FolderProps(list: Text) | FileProps(format: Format, data: seq<Byte>)

  datatype Record =
    | DeleteRec(path: Path)
    | AddChildRec(path: Path)
    | AddRec(path: Path, props: Props, title: Text)
    | ValueRec(path: Path, data: Text)
    | NameRec(path: Path, name: Text)
    | TitleRec(path: Path, title: Text)

  datatype Op =
    | CreateLeaf(path: Path, value: Value)
    | CreateInterior(path: Path)
    | DeleteNode(path: Path)
    | RenameNode(path: Path, name: Text)
    | SetLeaf(path: Path, value: Value)
    | Retitle(path: Path, title: Text)

  /** The mutations a session may contain: a create names a fresh path under an existing interior node, a
      rename a fresh sibling name, and the root is neither deleted nor renamed. What other mutations do is
      said by `InsertedWFIff`, `RenamedWFIff` and `RootDeleteRolledBackIff`. */
  predicate Allowed(t: Tree, op: Op) {
    match op
    case CreateLeaf(p, v) => HasParent(t, p) && ValidName(Last(p)) && p !in t && ValidValue(v)
    case CreateInterior(p) => HasParent(t, p) && ValidName(Last(p)) && p !in t
    case DeleteNode(p) => p != []
    case RenameNode(p, name) => p != [] && ValidName(name) && Parent(p) + [name] !in t
    case SetLeaf(p, v) => p in t && t[p].Leaf? && ValidValue(v)
    case Retitle(p, _) => p in t
  }

  // ---------- the public operations ----------

  function DeletePath(t: Tree, p: Path): Tree {
    if p !in t then t
    else if HasParent(t, p) then Delete(t, p)
    else RemoveUnder(t, p)
  }

  function RenamePath(t: Tree, p: Path, name: Text): Tree {
    if p in t && HasParent(t, p) then Rename(t, p, name) else t
  }

  /** The tree after a public operation. Deleting or renaming a path that does not exist fails and
      changes nothing. */
  function Apply(t: Tree, op: Op): Tree {
    match op
    case CreateLeaf(p, v) => if p != [] then Insert(t, p, Leaf(v, [])) else t
    case CreateInterior(p) => if p != [] then Insert(t, p, Interior([], [])) else t
    case DeleteNode(p) => DeletePath(t, p)
    case RenameNode(p, name) => RenamePath(t, p, name)
    case SetLeaf(p, v) => if p in t && t[p].Leaf? then SetValue(t, p, v) else t
    case Retitle(p, title) => if p in t then SetTitle(t, p, title) else t
  }

  // ---------- what is logged ----------

  function PropsOf(n: Node): Props {
    match n
    case Interior(children, _) => FolderProps(Join(children))
    case Leaf(value, _) => FileProps(FormatOf(value), RawForm(value))
  }

  function AddRecOf(t: Tree, p: Path): Record
    requires p in t
  {
    AddRec(p, PropsOf(t[p]), t[p].title)
  }

  ghost function MaxLen(s: set<Path>): (m: nat)
    ensures forall q :: q in s ==> |q| <= m
  {
    if s == {} then 0 else
      var x :| x in s;
      var m := MaxLen(s - {x});
      assert forall q :: q in s ==> q == x || q in s - {x};
      if |x| <= m then m else |x|
  }

  /** The add records of a subtree: children first, in list order, the node itself last. */
  ghost function AddRecords(t: Tree, p: Path): seq<Record>
    requires p in t
    decreases MaxLen(t.Keys) - |p|, 1, 0
  {
    if t[p].Leaf? then [AddRecOf(t, p)]
    else ChildRecords(t, p, |t[p].children|) + [AddRecOf(t, p)]
  }

  ghost function ChildRecords(t: Tree, p: Path, i: nat): seq<Record>
    requires p in t && t[p].Interior? && i <= |t[p].children|
    decreases MaxLen(t.Keys) - |p|, 0, i
  {
    if i == 0 then []
    else
      var child := p + [t[p].children[i - 1]];
      if child in t.Keys then ChildRecords(t, p, i - 1) + AddRecords(t, child)
      else ChildRecords(t, p, i - 1)
  }

  /** The record that links a subtree again. The root has no parent to be linked to. */
  function LinkRecords(p: Path): seq<Record> {
    if p == [] then [] else [AddChildRec(p)]
  }

  ghost function DeleteRecords(t: Tree, p: Path): seq<Record> {
    if p !in t then [] else LinkRecords(p) + AddRecords(t, p)
  }

  function RenameRecords(t: Tree, p: Path, name: Text): seq<Record> {
    if p !in t || p == [] then [] else [NameRec(Parent(p) + [name], Last(p))]
  }

  /** The records a public operation appends before it changes the tree. */
  ghost function UndoRecords(t: Tree, op: Op): seq<Record> {
    match op
    case CreateLeaf(p, _) => [DeleteRec(p)]
    case CreateInterior(p) => [DeleteRec(p)]
    case DeleteNode(p) => DeleteRecords(t, p)
    case RenameNode(p, name) => RenameRecords(t, p, name)
    case SetLeaf(p, _) => if p in t && t[p].Leaf? then [ValueRec(p, StringForm(t[p].value))] else []
    case Retitle(p, _) => if p in t then [TitleRec(p, t[p].title)] else []
  }

  // ---------- replay ----------

  /** State of one `playLog`: the tree, and whether the replay stopped at a record it could not read. */
  datatype Player = Player(tree: Tree, aborted: bool)

  function RebuildNode(props: Props): Node {
    match props
    case FolderProps(list) => Interior(Split(list), [])
    case FileProps(format, data) => Leaf(BuildData(format, data), [])
  }

  function ReplayValue(t: Tree, p: Path, data: Text): Tree {
    if p in t && t[p].Leaf? then SetValue(t, p, BuildData(FormatOf(t[p].value), Bytes(data))) else t
  }

  /** `readOneLogRecord` followed by `playbackOneRecord`. A value record without data has no data element,
      so the reader fails on it and the replay ends there. */
  function PlayOne(s: Player, r: Record): Player {
    if s.aborted then s
    else match r
      case DeleteRec(p) => s.(tree := DeletePath(s.tree, p))
      case AddChildRec(p) => if HasParent(s.tree, p) then s.(tree := Link(s.tree, p)) else s
      case AddRec(p, props, _) => s.(tree := s.tree[p := RebuildNode(props)])
      case ValueRec(p, data) =>
        if data == [] then s.(aborted := true)
        else s.(tree := ReplayValue(s.tree, p, data))
      case NameRec(p, name) => s.(tree := RenamePath(s.tree, p, name))
      case TitleRec(p, title) => if p in s.tree then s.(tree := SetTitle(s.tree, p, title)) else s
  }

  /** Replay of a stack of records, newest (last) first. */
  function Replay(s: Player, recs: seq<Record>): Player
    decreases |recs|
  {
    if recs == [] then s else Replay(PlayOne(s, recs[|recs| - 1]), recs[..|recs| - 1])
  }

  lemma {:induction false} ReplayConcat(s: Player, a: seq<Record>, b: seq<Record>)
    ensures Replay(s, a + b) == Replay(Replay(s, b), a)
    decreases |b|
  {
    if b == [] {
      assert a + b == a;
    } else {
      var ab := a + b;
      assert ab[..|ab| - 1] == a + b[..|b| - 1];
      ReplayConcat(PlayOne(s, b[|b| - 1]), a, b[..|b| - 1]);
    }
  }

  lemma {:induction false} AbortedStays(s: Player, recs: seq<Record>)
    requires s.aborted
    ensures Replay(s, recs) == s
    decreases |recs|
  {
    if recs != [] {
      AbortedStays(s, recs[..|recs| - 1]);
    }
  }

  /** Starting from any well-formed tree of shape `from`, replaying `recs` ends in a well-formed tree. It
      does not stop early if `total`, and if it does not stop early the shape it reaches is `to`. */
  ghost predicate Undoes(recs: seq<Record>, from: map<Path, Entry>, to: map<Path, Entry>, d: Detail, total: bool) {
    forall s: Player {:trigger Replay(s, recs)} :: !s.aborted && WF(s.tree) && Shape(s.tree, d) == from ==>
      var r := Replay(s, recs);
      && WF(r.tree)
      && (total ==> !r.aborted)
      && (!r.aborted ==> Shape(r.tree, d) == to)
  }

  /** Undoing the newer records and then the older ones. */
  lemma UndoesCompose(older: seq<Record>, newer: seq<Record>, from: map<Path, Entry>, mid: map<Path, Entry>,
                      to: map<Path, Entry>, d: Detail, total1: bool, total2: bool)
    requires Undoes(newer, from, mid, d, total1)
    requires Undoes(older, mid, to, d, total2)
    ensures Undoes(older + newer, from, to, d, total1 && total2)
  {
    forall s: Player | !s.aborted && WF(s.tree) && Shape(s.tree, d) == from
      ensures var r := Replay(s, older + newer);
              && WF(r.tree)
              && (total1 && total2 ==> !r.aborted)
              && (!r.aborted ==> Shape(r.tree, d) == to)
    {
      ReplayConcat(s, older, newer);
      var m := Replay(s, newer);
      if m.aborted {
        AbortedStays(m, older);
      }
    }
  }

  // ---------- delete: what its records rebuild ----------

  predicate IsAddOf(t: Tree, r: Record) {
    r.AddRec? && r.path in t && r == AddRecOf(t, r.path)
  }

  ghost function PathsOf(recs: seq<Record>): set<Path> {
    set r | r in recs :: r.path
  }

  /** The paths of a subtree, top included. */
  ghost function Under(t: Tree, p: Path): set<Path> {
    set q | q in t && p <= q
  }

  ghost function Below(t: Tree, p: Path): set<Path> {
    Under(t, p) - {p}
  }

  ghost predicate BelowSomeChild(children: seq<Text>, p: Path, i: nat, q: Path)
    requires i <= |children|
  {
    exists j :: 0 <= j < i && p + [children[j]] <= q
  }

  /** The paths of the subtrees of the first `i` children. */
  ghost function UnderChildren(t: Tree, p: Path, children: seq<Text>, i: nat): set<Path>
    requires i <= |children|
  {
    set q | q in t && BelowSomeChild(children, p, i, q)
  }

  lemma UnderNextChild(t: Tree, p: Path, children: seq<Text>, i: nat)
    requires 0 < i <= |children|
    ensures UnderChildren(t, p, children, i) == UnderChildren(t, p, children, i - 1) + Under(t, p + [children[i - 1]])
  {
    var child := p + [children[i - 1]];
    forall q ensures BelowSomeChild(children, p, i, q) <==> BelowSomeChild(children, p, i - 1, q) || child <= q {
    }
  }

  lemma BelowIsUnderChildren(t: Tree, p: Path)
    requires WF(t) && p in t && t[p].Interior?
    ensures UnderChildren(t, p, t[p].children, |t[p].children|) == Below(t, p)
  {
    var children := t[p].children;
    forall q | q in Below(t, p) ensures BelowSomeChild(children, p, |children|, q) {
      CoveredByChild(t, p, q);
    }
    forall q | q in t && BelowSomeChild(children, p, |children|, q) ensures q in Below(t, p) {
      var j :| 0 <= j < |children| && p + [children[j]] <= q;
      assert p <= p + [children[j]];
      assert |q| > |p|;
    }
  }

  lemma CoveredByChild(t: Tree, p: Path, q: Path)
    requires WF(t) && p in t && q in t && p <= q && p != q && t[p].Interior?
    ensures BelowSomeChild(t[p].children, p, |t[p].children|, q)
  {
    var c := q[|p|];
    assert p + [c] <= q;
    AncestorsExist(t, p + [c], q);
    ChildrenAreKeys(t, p);
    assert c in t[p].children;
  }

  lemma BelowLeaf(t: Tree, p: Path)
    requires WF(t) && p in t && t[p].Leaf?
    ensures Below(t, p) == {}
  {
    forall q | q in Below(t, p) ensures false {
      AncestorsExist(t, p, q);
    }
  }

  lemma PathsOfConcat(a: seq<Record>, b: seq<Record>)
    ensures PathsOf(a + b) == PathsOf(a) + PathsOf(b)
  {
  }

  /** The add records of a subtree name exactly its paths. */
  lemma {:induction false} AddRecordsCover(t: Tree, p: Path)
    requires WF(t) && p in t
    ensures forall r | r in AddRecords(t, p) :: IsAddOf(t, r)
    ensures PathsOf(AddRecords(t, p)) == Under(t, p)
    decreases MaxLen(t.Keys) - |p|, 1, 0
  {
    var top := [AddRecOf(t, p)];
    assert PathsOf(top) == {p} by {
      assert top[0] in top;
    }
    assert p in Under(t, p);
    if t[p].Leaf? {
      BelowLeaf(t, p);
      assert AddRecords(t, p) == top;
    } else {
      var n := |t[p].children|;
      ChildRecordsCover(t, p, n);
      BelowIsUnderChildren(t, p);
      PathsOfConcat(ChildRecords(t, p, n), top);
      assert AddRecords(t, p) == ChildRecords(t, p, n) + top;
    }
  }

  lemma {:induction false} ChildRecordsCover(t: Tree, p: Path, i: nat)
    requires WF(t) && p in t && t[p].Interior? && i <= |t[p].children|
    ensures forall r | r in ChildRecords(t, p, i) :: IsAddOf(t, r)
    ensures PathsOf(ChildRecords(t, p, i)) == UnderChildren(t, p, t[p].children, i)
    decreases MaxLen(t.Keys) - |p|, 0, i
  {
    if i == 0 {
      assert ChildRecords(t, p, 0) == [];
    } else {
      assert Sound(t, p);
      var child := p + [t[p].children[i - 1]];
      assert child in t.Keys;
      ChildRecordsCover(t, p, i - 1);
      AddRecordsCover(t, child);
      var a, b := ChildRecords(t, p, i - 1), AddRecords(t, child);
      assert ChildRecords(t, p, i) == a + b;
      PathsOfConcat(a, b);
      UnderNextChild(t, p, t[p].children, i);
    }
  }

  /** The node replay builds from an add record of `n`. */
  function Rebuilt(n: Node): Node {
    RebuildNode(PropsOf(n))
  }

  ghost function RebuiltSet(t: Tree, paths: set<Path>): Tree {
    map q | q in paths && q in t :: Rebuilt(t[q])
  }

  lemma RebuiltSetInsert(t: Tree, base: Tree, paths: set<Path>, p: Path)
    requires p in t
    ensures base[p := Rebuilt(t[p])] + RebuiltSet(t, paths) == base + RebuiltSet(t, paths + {p})
  {
  }

  /** A run of add records puts back every node it names. */
  lemma {:induction false} ReplayAdds(t: Tree, s: Player, recs: seq<Record>)
    requires forall r | r in recs :: IsAddOf(t, r)
    requires !s.aborted
    ensures Replay(s, recs) == s.(tree := s.tree + RebuiltSet(t, PathsOf(recs)))
    decreases |recs|
  {
    if recs == [] {
      assert PathsOf(recs) == {};
      assert RebuiltSet(t, {}) == map[];
      assert s.tree + map[] == s.tree;
    } else {
      var last, rest := recs[|recs| - 1], recs[..|recs| - 1];
      assert last in recs && IsAddOf(t, last);
      var s1 := PlayOne(s, last);
      assert s1 == s.(tree := s.tree[last.path := Rebuilt(t[last.path])]);
      ReplayAdds(t, s1, rest);
      assert recs == rest + [last];
      assert PathsOf(recs) == PathsOf(rest) + {last.path};
      RebuiltSetInsert(t, s.tree, PathsOf(rest), last.path);
    }
  }

  /** Replaying all add records of a subtree rebuilds the subtree. */
  lemma ReplaySubtree(t: Tree, p: Path, s: Player)
    requires WF(t) && p in t && !s.aborted
    ensures Replay(s, AddRecords(t, p)) == s.(tree := s.tree + RebuiltSet(t, Under(t, p)))
  {
    AddRecordsCover(t, p);
    ReplayAdds(t, s, AddRecords(t, p));
  }

  lemma ListedNamesValid(t: Tree, p: Path)
    requires WF(t) && p in t && t[p].Interior?
    ensures ValidPath(t[p].children)
  {
    assert Sound(t, p);
    forall i | 0 <= i < |t[p].children| ensures ValidName(t[p].children[i]) {
      assert Linked(t, p + [t[p].children[i]]);
    }
  }

  ghost predicate ParentsLast(recs: seq<Record>) {
    forall i, j :: 0 <= i < j < |recs| ==> !(recs[i].path <= recs[j].path)
  }

  /** No add record comes before that of one of its descendants, and no path has two: a replay, newest
      record first, re-creates every node once and before the nodes below it. */
  lemma {:induction false} ParentsRebuiltFirst(t: Tree, p: Path)
    requires WF(t) && p in t
    ensures ParentsLast(AddRecords(t, p))
    decreases MaxLen(t.Keys) - |p|, 1, 0
  {
    if t[p].Interior? {
      var n := |t[p].children|;
      var kids := ChildRecords(t, p, n);
      ChildrenRebuiltFirst(t, p, n);
      ChildRecordsCover(t, p, n);
      BelowIsUnderChildren(t, p);
      forall i | 0 <= i < |kids| ensures !(kids[i].path <= p) {
        assert kids[i] in kids;
        assert kids[i].path in PathsOf(kids);
      }
    }
  }

  lemma {:induction false} ChildrenRebuiltFirst(t: Tree, p: Path, i: nat)
    requires WF(t) && p in t && t[p].Interior? && i <= |t[p].children|
    ensures ParentsLast(ChildRecords(t, p, i))
    decreases MaxLen(t.Keys) - |p|, 0, i
  {
    hide UnderChildren, Under, IsAddOf, PathsOf, AddRecords, AddRecOf;
    if i > 0 {
      assert Sound(t, p);
      var children := t[p].children;
      var child := p + [children[i - 1]];
      assert child in t.Keys;
      ChildrenRebuiltFirst(t, p, i - 1);
      ParentsRebuiltFirst(t, child);
      ChildRecordsCover(t, p, i - 1);
      AddRecordsCover(t, child);
      var a, b := ChildRecords(t, p, i - 1), AddRecords(t, child);
      SiblingSubtreesApart(t, p, children, i, a, b);
      assert ChildRecords(t, p, i) == a + b;
    }
  }

  lemma SiblingSubtreesApart(t: Tree, p: Path, children: seq<Text>, i: nat, a: seq<Record>, b: seq<Record>)
    requires NoDup(children) && 0 < i <= |children|
    requires PathsOf(a) == UnderChildren(t, p, children, i - 1)
    requires PathsOf(b) == Under(t, p + [children[i - 1]])
    ensures forall k, j :: 0 <= k < |a| && 0 <= j < |b| ==> !(a[k].path <= b[j].path)
  {
    forall k, j | 0 <= k < |a| && 0 <= j < |b| ensures !(a[k].path <= b[j].path) {
      assert a[k] in a && b[j] in b;
      assert a[k].path in PathsOf(a) && b[j].path in PathsOf(b);
      var m :| 0 <= m < i - 1 && p + [children[m]] <= a[k].path;
      assert a[k].path[|p|] == (p + [children[m]])[|p|] == children[m];
      assert b[j].path[|p|] == (p + [children[i - 1]])[|p|] == children[i - 1];
    }
  }

  /** Every add record carries the title of its node, its child list or its value's format and raw data. */
  lemma AddRecordsSay(t: Tree, p: Path)
    requires WF(t) && p in t
    ensures forall r | r in AddRecords(t, p) ::
              && r.AddRec? && r.path in t && r.title == t[r.path].title
              && (t[r.path].Interior? ==> r.props == FolderProps(Join(t[r.path].children)))
              && (t[r.path].Leaf? ==> r.props == FileProps(FormatOf(t[r.path].value), RawForm(t[r.path].value)))
  {
    AddRecordsCover(t, p);
  }
}
