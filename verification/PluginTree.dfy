/** The management subtree as a value: the flat map from path to node, and inside every interior node
    the list of its children's names. The operations are those of `DmtRWPluginTree`; the classes in
    RwPlugin.dfy are proved against them. */
module PluginTree {
  import opened DmText
  import opened Uri
  import opened DmtValue

  datatype Node = Leaf(value: Value, title: Text) | Interior(children: seq<Text>, title: Text)

  type Tree = map<Path, Node>

  /** A node hangs under an interior node that lists its name. */
  ghost predicate Linked(t: Tree, p: Path)
    requires p != []
  {
    && ValidName(Last(p))
    && Parent(p) in t
    && t[Parent(p)].Interior?
    && Last(p) in t[Parent(p)].children
  }

  /** A child list names each child once and names only nodes of the map. */
  ghost predicate Sound(t: Tree, p: Path)
    requires p in t
  {
    match t[p]
    case Leaf(value, _) => ValidValue(value)
    case Interior(children, _) => NoDup(children) && forall c | c in children :: p + [c] in t
  }

  /** The flat map and the child lists describe the same tree. */
  ghost predicate WF(t: Tree) {
    && [] in t && t[[]].Interior?
    && (forall p {:trigger Linked(t, p)} :: p in t && p != [] ==> Linked(t, p))
    && (forall p {:trigger Sound(t, p)} :: p in t ==> Sound(t, p))
  }

  // ---------- operations ----------

  function RemoveFirst(s: seq<Text>, name: Text): seq<Text> {
    if s == [] then []
    else if s[0] == name then s[1..]
    else [s[0]] + RemoveFirst(s[1..], name)
  }

  predicate HasParent(t: Tree, p: Path) {
    p != [] && Parent(p) in t && t[Parent(p)].Interior?
  }

  /** `LinkToParentNode`: the name goes to the end of the parent's list. */
  function Link(t: Tree, p: Path): Tree
    requires HasParent(t, p)
  {
    var n := t[Parent(p)];
    t[Parent(p) := n.(children := n.children + [Last(p)])]
  }

  function Unlink(t: Tree, p: Path): Tree
    requires HasParent(t, p)
  {
    var n := t[Parent(p)];
    t[Parent(p) := n.(children := RemoveFirst(n.children, Last(p)))]
  }

  function RemoveUnder<V>(m: map<Path, V>, p: Path): map<Path, V> {
    map q | q in m && !(p <= q) :: m[q]
  }

  /** A path after the prefix `from` has been replaced by `to`. */
  function Moved(q: Path, from: Path, to: Path): Path {
    if from <= q then to + q[|from|..] else q
  }

  predicate NothingUnder<V>(m: map<Path, V>, p: Path) {
    forall q | q in m :: !(p <= q)
  }

  lemma MovedBack(q: Path, from: Path, to: Path)
    requires !(to <= q)
    ensures Moved(Moved(q, from, to), to, from) == q
  {
    if from <= q {
      assert (to + q[|from|..])[|to|..] == q[|from|..];
    }
  }

  function MovedKeys<V>(m: map<Path, V>, from: Path, to: Path): set<Path> {
    set k | k in m :: Moved(k, from, to)
  }

  /** Every key under `from` has that prefix replaced by `to`; all other entries stay, except where a moved
      entry takes their place. */
  function Relocate<V>(m: map<Path, V>, from: Path, to: Path): map<Path, V> {
    map q | q in MovedKeys(m, from, to) && (Moved(q, to, from) in m || q in m) ::
      if to <= q && Moved(q, to, from) in m then m[Moved(q, to, from)] else m[q]
  }

  ghost function KeysUnder<V>(m: map<Path, V>, p: Path): set<Path> {
    set q | q in m && p <= q
  }

  /** The entries of `done` have moved from under `from` to under `to`: what is at a key afterwards. */
  ghost predicate ShiftedAt<V>(m0: map<Path, V>, m: map<Path, V>, from: Path, to: Path, done: set<Path>, k: Path) {
    if to <= k && Moved(k, to, from) in done then
      Moved(k, to, from) in m0 && k in m && m[k] == m0[Moved(k, to, from)]
    else
      (k in m <==> k in m0 && k !in done) && (k in m ==> m[k] == m0[k])
  }

  ghost predicate Shifted<V>(m0: map<Path, V>, m: map<Path, V>, from: Path, to: Path, done: set<Path>) {
    forall k {:trigger ShiftedAt(m0, m, from, to, done, k)} :: ShiftedAt(m0, m, from, to, done, k)
  }

  lemma ShiftedOnce<V>(m0: map<Path, V>, a: map<Path, V>, b: map<Path, V>, from: Path, to: Path, done: set<Path>)
    requires Shifted(m0, a, from, to, done) && Shifted(m0, b, from, to, done)
    ensures a == b
  {
    forall k ensures (k in a <==> k in b) && (k in a ==> a[k] == b[k]) {
      assert ShiftedAt(m0, a, from, to, done, k) && ShiftedAt(m0, b, from, to, done, k);
    }
  }

  lemma MovedThere(q: Path, from: Path, to: Path)
    ensures from <= q ==> to <= Moved(q, from, to) && Moved(Moved(q, from, to), to, from) == q
  {
  }

  /** Moving a whole subtree, also over entries that are already there. */
  lemma RelocateShifts<V>(m: map<Path, V>, from: Path, to: Path)
    ensures Shifted(m, Relocate(m, from, to), from, to, KeysUnder(m, from))
  {
    var done := KeysUnder(m, from);
    forall k ensures ShiftedAt(m, Relocate(m, from, to), from, to, done, k) {
      if to <= k && Moved(k, to, from) in done {
        assert Moved(Moved(k, to, from), from, to) == k;
      } else {
        assert k in m && k !in done ==> Moved(k, from, to) == k;
        forall o | o in m && k == Moved(o, from, to) ensures o == k && k !in done {
          MovedThere(o, from, to);
        }
      }
    }
  }

  /** With nothing in the way, relocation keeps every entry, under its moved key, and adds none. */
  lemma RelocateEntries<V>(m: map<Path, V>, from: Path, to: Path)
    requires NothingUnder(m, to)
    ensures Relocate(m, from, to).Keys == MovedKeys(m, from, to)
    ensures forall k {:trigger Moved(k, from, to)} :: k in m ==>
              Moved(k, from, to) in Relocate(m, from, to) && Relocate(m, from, to)[Moved(k, from, to)] == m[k]
  {
    forall k | k in m ensures Moved(Moved(k, from, to), to, from) == k {
      MovedBack(k, from, to);
    }
  }

  function Create(t: Tree, p: Path, n: Node): Tree
    requires HasParent(t, p)
  {
    Link(t[p := n], p)
  }

  /** What a create does: the node enters the map before its parent is looked up, and stays there when
      there is none. */
  function Insert(t: Tree, p: Path, n: Node): Tree
    requires p != []
  {
    if HasParent(t, p) then Create(t, p, n) else t[p := n]
  }

  /** `DeleteNode`: the subtree leaves the map, its top leaves the parent's list. */
  function Delete(t: Tree, p: Path): Tree
    requires HasParent(t, p)
  {
    Unlink(RemoveUnder(t, p), p)
  }

  /** `DmtRWPluginNode::Rename`: the new name goes to the end of the parent's list, then the subtree
      moves, whether or not a sibling has that name. */
  function Rename(t: Tree, p: Path, name: Text): Tree
    requires HasParent(t, p)
  {
    Relocate(Link(Unlink(t, p), Parent(p) + [name]), p, Parent(p) + [name])
  }

  function SetValue(t: Tree, p: Path, v: Value): Tree
    requires p in t && t[p].Leaf?
  {
    t[p := t[p].(value := v)]
  }

  function SetTitle(t: Tree, p: Path, title: Text): Tree
    requires p in t
  {
    t[p := t[p].(title := title)]
  }

  // ---------- what two trees have in common ----------

  /** How much of a tree is compared: which paths exist and which are leaves; the leaf values as well;
      or the titles as well. The order of children is never compared. */
  datatype Detail = Skeleton | Values | Full

  datatype Entry = Entry(interior: bool, value: Value, title: Text)

  function EntryOf(n: Node, d: Detail): Entry {
    Entry(n.Interior?, if n.Leaf? && !d.Skeleton? then n.value else Null, if d.Full? then n.title else [])
  }

  function Shape(t: Tree, d: Detail): map<Path, Entry> {
    map p | p in t :: EntryOf(t[p], d)
  }

  // ---------- consequences of well-formedness ----------

  lemma RemoveFirstMember(s: seq<Text>, name: Text)
    requires NoDup(s)
    ensures NoDup(RemoveFirst(s, name))
    ensures forall c :: c in RemoveFirst(s, name) <==> c in s && c != name
  {
    if s != [] && s[0] != name {
      RemoveFirstMember(s[1..], name);
      var r := RemoveFirst(s[1..], name);
      assert s[0] !in s[1..];
      assert s[0] !in r;
    }
  }

  /** In a well-formed tree a child list is, as a set, what the keys of the map say. */
  lemma ChildrenAreKeys(t: Tree, p: Path)
    requires WF(t) && p in t && t[p].Interior?
    ensures forall c :: c in t[p].children <==> p + [c] in t
  {
    forall c | p + [c] in t ensures c in t[p].children {
      assert Linked(t, p + [c]);
      assert Parent(p + [c]) == p;
    }
    assert Sound(t, p);
  }

  /** Two well-formed trees with the same paths and kinds have the same child-name sets. */
  lemma SameShapeSameChildren(a: Tree, b: Tree, d: Detail, p: Path)
    requires WF(a) && WF(b) && Shape(a, d) == Shape(b, d)
    requires p in a && a[p].Interior?
    ensures p in b && b[p].Interior?
    ensures NoDup(a[p].children) && NoDup(b[p].children)
    ensures forall c :: c in a[p].children <==> c in b[p].children
  {
    assert p in Shape(a, d) && p in Shape(b, d);
    assert Shape(a, d)[p].interior && Shape(b, d)[p].interior;
    ChildrenAreKeys(a, p);
    ChildrenAreKeys(b, p);
    assert Sound(a, p) && Sound(b, p);
    forall c ensures p + [c] in a <==> p + [c] in b {
      assert p + [c] in Shape(a, d) <==> p + [c] in a;
      assert p + [c] in Shape(b, d) <==> p + [c] in b;
    }
  }

  /** Every ancestor of a node is an interior node of the map. */
  lemma {:induction false} AncestorsExist(t: Tree, p: Path, q: Path)
    requires WF(t) && q in t && p <= q
    ensures p in t && (p != q ==> t[p].Interior?)
    decreases |q|
  {
    if p != q {
      assert Linked(t, q);
      assert p <= Parent(q);
      AncestorsExist(t, p, Parent(q));
    }
  }

  lemma FreshMeansNothingUnder(t: Tree, p: Path)
    requires WF(t) && p !in t
    ensures NothingUnder(t, p)
  {
    forall q | q in t && p <= q ensures false {
      AncestorsExist(t, p, q);
    }
  }

  // ---------- every operation keeps the tree well formed, and what it does to the shape ----------

  lemma LinkEffect(t: Tree, p: Path, d: Detail)
    requires HasParent(t, p)
    ensures Shape(Link(t, p), d) == Shape(t, d)
    ensures Shape(Unlink(t, p), d) == Shape(t, d)
  {
  }

  lemma CreateKeepsWF(t: Tree, p: Path, n: Node)
    requires WF(t) && HasParent(t, p) && ValidName(Last(p)) && p !in t
    requires n.Leaf? ==> ValidValue(n.value)
    requires n.Interior? ==> n.children == []
    ensures WF(Create(t, p, n))
  {
    var r := Create(t, p, n);
    var par := Parent(p);
    assert p == par + [Last(p)];
    forall q | q in r && q != [] ensures Linked(r, q) {
      if q != p {
        assert Linked(t, q);
      }
    }
    assert Sound(t, par);
    assert Last(p) !in t[par].children;
    forall q | q in r ensures Sound(r, q) {
      if q != p {
        assert Sound(t, q);
      }
    }
  }

  /** A create keeps the map and the child lists in agreement exactly when the parent is an interior node
      of the map and the path is new: a create that fails for want of a parent leaves its node behind, and
      one on a path in use lists the name twice. */
  lemma InsertedWFIff(t: Tree, p: Path, n: Node)
    requires WF(t) && p != [] && ValidName(Last(p))
    requires n.Leaf? ==> ValidValue(n.value)
    requires n.Interior? ==> n.children == []
    ensures WF(Insert(t, p, n)) <==> HasParent(t, p) && p !in t
  {
    var r := Insert(t, p, n);
    if !HasParent(t, p) {
      assert !Linked(r, p);
    } else if p !in t {
      CreateKeepsWF(t, p, n);
    } else {
      var old', par := t[Parent(p)].children, Parent(p);
      assert Linked(t, p);
      var i :| 0 <= i < |old'| && old'[i] == Last(p);
      assert r[par].children[i] == r[par].children[|old'|];
      assert !Sound(r, par);
    }
  }

  lemma CreateEffect(t: Tree, p: Path, n: Node, d: Detail)
    requires WF(t) && HasParent(t, p) && ValidName(Last(p)) && p !in t
    requires n.Leaf? ==> ValidValue(n.value)
    requires n.Interior? ==> n.children == []
    ensures WF(Create(t, p, n))
    ensures Shape(Create(t, p, n), d) == Shape(t, d)[p := EntryOf(n, d)]
  {
    CreateKeepsWF(t, p, n);
    LinkEffect(t[p := n], p, d);
    ShapeUpdate(t, p, n, d);
  }

  lemma UnderChild(q: Path, c: Text, p: Path)
    requires p != [] && !(p <= q)
    ensures p <= q + [c] <==> q == Parent(p) && c == Last(p)
  {
    if |p| <= |q| {
      assert (q + [c])[..|p|] == q[..|p|];
    }
    if q == Parent(p) && c == Last(p) {
      assert q + [c] == p;
    }
  }

  lemma DeleteLinked(t: Tree, p: Path, q: Path)
    requires WF(t) && HasParent(t, p) && q != [] && q in t && !(p <= q)
    ensures Linked(Delete(t, p), q)
  {
    assert Linked(t, q);
    assert q == Parent(q) + [Last(q)];
    assert !(p <= Parent(q));
    assert Sound(t, Parent(q));
    RemoveFirstMember(t[Parent(q)].children, Last(p));
    UnderChild(Parent(q), Last(q), p);
  }

  lemma DeleteSound(t: Tree, p: Path, q: Path)
    requires WF(t) && HasParent(t, p) && q in t && !(p <= q)
    ensures Sound(Delete(t, p), q)
  {
    var r := Delete(t, p);
    assert Sound(t, q);
    assert Sound(t, Parent(p));
    RemoveFirstMember(t[Parent(p)].children, Last(p));
    if r[q].Interior? {
      forall c | c in r[q].children ensures q + [c] in r {
        assert q + [c] in t;
        UnderChild(q, c, p);
      }
    }
  }

  /** Delete removes exactly the path and its descendants. */
  lemma DeleteEffect(t: Tree, p: Path, d: Detail)
    requires WF(t) && p in t && p != []
    ensures HasParent(t, p) && WF(Delete(t, p))
    ensures Shape(Delete(t, p), d) == RemoveUnder(Shape(t, d), p)
  {
    assert Linked(t, p);
    var r := Delete(t, p);
    forall q | q in r && q != [] ensures Linked(r, q) {
      DeleteLinked(t, p, q);
    }
    forall q | q in r ensures Sound(r, q) {
      DeleteSound(t, p, q);
    }
    LinkEffect(RemoveUnder(t, p), p, d);
    assert Shape(RemoveUnder(t, p), d) == RemoveUnder(Shape(t, d), p);
  }

  /** Replacing what a node holds, but not its children, keeps the tree well formed. */
  lemma UpdateKeepsWF(t: Tree, p: Path, n: Node)
    requires WF(t) && p in t && n.Interior? == t[p].Interior?
    requires n.Leaf? ==> ValidValue(n.value)
    requires n.Interior? ==> n.children == t[p].children
    ensures WF(t[p := n])
  {
    var r := t[p := n];
    forall q | q in r && q != [] ensures Linked(r, q) {
      assert Linked(t, q);
    }
    forall q | q in r ensures Sound(r, q) {
      assert Sound(t, q);
    }
  }

  lemma ShapeUpdate(t: Tree, p: Path, n: Node, d: Detail)
    ensures Shape(t[p := n], d) == Shape(t, d)[p := EntryOf(n, d)]
  {
  }

  lemma SetEffect(t: Tree, p: Path, v: Value, d: Detail)
    requires WF(t) && p in t && t[p].Leaf? && ValidValue(v)
    ensures WF(SetValue(t, p, v))
    ensures Shape(SetValue(t, p, v), d) == Shape(t, d)[p := EntryOf(t[p].(value := v), d)]
  {
    UpdateKeepsWF(t, p, t[p].(value := v));
    ShapeUpdate(t, p, t[p].(value := v), d);
  }

  lemma TitleEffect(t: Tree, p: Path, title: Text, d: Detail)
    requires WF(t) && p in t
    ensures WF(SetTitle(t, p, title))
    ensures Shape(SetTitle(t, p, title), d) == Shape(t, d)[p := EntryOf(t[p].(title := title), d)]
  {
    assert Sound(t, p);
    UpdateKeepsWF(t, p, t[p].(title := title));
    ShapeUpdate(t, p, t[p].(title := title), d);
  }

  lemma MovedParent(q: Path, from: Path, to: Path)
    requires q != [] && q != from && to != []
    ensures Moved(q, from, to) != []
    ensures Parent(Moved(q, from, to)) == Moved(Parent(q), from, to)
    ensures Last(Moved(q, from, to)) == Last(q)
  {
    if from <= q {
      assert from <= Parent(q);
    } else {
      assert from <= Parent(q) ==> from <= q;
    }
  }

  lemma MovedChild(q: Path, c: Text, from: Path, to: Path)
    requires q + [c] != from
    ensures Moved(q + [c], from, to) == Moved(q, from, to) + [c]
  {
    if from <= q {
      assert (q + [c])[|from|..] == q[|from|..] + [c];
    } else {
      assert from <= q + [c] ==> from <= q;
    }
  }

  /** `t1` is `t` with the name of `p` replaced by that of its new sibling `to` in the parent's list. */
  ghost predicate Relinked(t: Tree, t1: Tree, p: Path, to: Path) {
    && HasParent(t, p) && HasParent(t1, to) && Parent(p) == Parent(to)
    && ValidName(Last(to))
    && t1.Keys == t.Keys && (forall q | q in t && q != Parent(p) :: t1[q] == t[q])
    && NoDup(t1[Parent(p)].children)
    && (forall c :: c in t1[Parent(p)].children <==> (c in t[Parent(p)].children && c != Last(p)) || c == Last(to))
    && NothingUnder(t, to) && NothingUnder(t1, to)
  }

  lemma RenameLinked(t: Tree, t1: Tree, p: Path, to: Path, k: Path)
    requires WF(t) && p in t && Relinked(t, t1, p, to)
    requires k in t && k != []
    ensures Moved(k, p, to) != [] && Linked(Relocate(t1, p, to), Moved(k, p, to))
  {
    hide Relocate;
    var r := Relocate(t1, p, to);
    var par := Parent(p);
    RelocateEntries(t1, p, to);
    assert Moved(par, p, to) == par;
    if k == p {
      assert Moved(k, p, to) == to;
    } else {
      assert Linked(t, k);
      MovedParent(k, p, to);
      assert r[Moved(Parent(k), p, to)] == t1[Parent(k)];
      if Parent(k) == par {
        assert k == par + [Last(k)];
        assert p == par + [Last(p)];
      }
    }
  }

  lemma RenameSound(t: Tree, t1: Tree, p: Path, to: Path, k: Path)
    requires WF(t) && p in t && Relinked(t, t1, p, to)
    requires k in t
    ensures Moved(k, p, to) in Relocate(t1, p, to) && Sound(Relocate(t1, p, to), Moved(k, p, to))
  {
    hide Relocate;
    var r := Relocate(t1, p, to);
    var q := Moved(k, p, to);
    var par := Parent(p);
    RelocateEntries(t1, p, to);
    assert p == par + [Last(p)];
    assert to == par + [Last(to)];
    assert r[q] == t1[k];
    assert Sound(t, k);
    assert Moved(p, p, to) == to;
    assert Moved(par, p, to) == par;
    if r[q].Interior? {
      forall c | c in r[q].children ensures q + [c] in r {
        if k == par && c == Last(to) {
          assert Moved(p, p, to) in r;
        } else {
          assert k + [c] in t;
          RenameChildNotTop(k, c, p, to, t, t1);
          MovedChild(k, c, p, to);
          assert Moved(k + [c], p, to) in r;
        }
      }
    }
  }

  lemma RenameChildNotTop(k: Path, c: Text, p: Path, to: Path, t: Tree, t1: Tree)
    requires Relinked(t, t1, p, to) && k in t && t1[k].Interior? && c in t1[k].children
    requires !(k == Parent(p) && c == Last(to))
    ensures k + [c] != p
  {
    assert Parent(k + [c]) == k && Last(k + [c]) == c;
  }

  lemma RenameRelinks(t: Tree, p: Path, name: Text)
    requires WF(t) && p in t && p != [] && ValidName(name) && Parent(p) + [name] !in t
    ensures HasParent(t, p) && NothingUnder(t, Parent(p) + [name])
    ensures Relinked(t, Link(Unlink(t, p), Parent(p) + [name]), p, Parent(p) + [name])
  {
    var par := Parent(p);
    var to := par + [name];
    FreshMeansNothingUnder(t, to);
    assert Linked(t, p);
    assert Sound(t, par);
    RemoveFirstMember(t[par].children, Last(p));
    assert name !in t[par].children;
  }

  lemma RelinkedKeepsWF(t: Tree, t1: Tree, p: Path, to: Path)
    requires WF(t) && p in t && p != [] && Relinked(t, t1, p, to)
    ensures WF(Relocate(t1, p, to))
  {
    hide Relocate, Linked, Sound;
    var r := Relocate(t1, p, to);
    RelocateEntries(t1, p, to);
    forall q | q in r && q != [] ensures Linked(r, q) {
      var k :| k in t1 && q == Moved(k, p, to);
      RenameLinked(t, t1, p, to, k);
    }
    forall q | q in r ensures Sound(r, q) {
      var k :| k in t1 && q == Moved(k, p, to);
      RenameSound(t, t1, p, to, k);
    }
    assert Moved([], p, to) == [];
  }

  /** Renaming to a fresh sibling name replaces the path prefix in every descendant key and leaves all
      other entries alone. */
  lemma RenameEffect(t: Tree, p: Path, name: Text, d: Detail)
    requires WF(t) && p in t && p != [] && ValidName(name) && Parent(p) + [name] !in t
    ensures HasParent(t, p) && NothingUnder(t, Parent(p) + [name])
    ensures WF(Rename(t, p, name))
    ensures NothingUnder(Shape(t, d), Parent(p) + [name])
    ensures Shape(Rename(t, p, name), d) == Relocate(Shape(t, d), p, Parent(p) + [name])
  {
    var to := Parent(p) + [name];
    RenameRelinks(t, p, name);
    RelinkedKeepsWF(t, Link(Unlink(t, p), to), p, to);
    LinkEffect(t, p, d);
    LinkEffect(Unlink(t, p), to, d);
    RelocateShape(Link(Unlink(t, p), to), p, to, d);
  }

  lemma RelocateSame<V>(m: map<Path, V>, p: Path)
    ensures Relocate(m, p, p) == m
  {
    RelocateShifts(m, p, p);
    forall k ensures ShiftedAt(m, m, p, p, KeysUnder(m, p), k) {
      assert Moved(k, p, p) == k;
    }
    ShiftedOnce(m, Relocate(m, p, p), m, p, p, KeysUnder(m, p));
  }

  /** Taking a name off its parent's list and putting it back at the end. */
  lemma RelinkKeepsWF(t: Tree, p: Path)
    requires WF(t) && p in t && p != []
    ensures HasParent(t, p) && WF(Link(Unlink(t, p), p))
  {
    var par := Parent(p);
    assert Linked(t, p);
    assert Sound(t, par);
    RemoveFirstMember(t[par].children, Last(p));
    var r := Link(Unlink(t, p), p);
    assert forall c :: c in r[par].children <==> c in t[par].children;
    forall q | q in r && q != [] ensures Linked(r, q) {
      assert Linked(t, q);
    }
    forall q | q in r ensures Sound(r, q) {
      assert Sound(t, q);
    }
  }

  /** A rename keeps the map and the child lists in agreement exactly when no other sibling has the new name.
      Otherwise the parent lists that name twice. */
  lemma RenamedWFIff(t: Tree, p: Path, name: Text)
    requires WF(t) && p in t && p != [] && ValidName(name)
    ensures HasParent(t, p)
    ensures WF(Rename(t, p, name)) <==> Parent(p) + [name] !in t || name == Last(p)
  {
    hide WF, Relocate;
    var to := Parent(p) + [name];
    RelinkKeepsWF(t, p);
    if to !in t {
      RenameEffect(t, p, name, Skeleton);
    } else if name == Last(p) {
      assert p == to;
      RelocateSame(Link(Unlink(t, p), p), p);
    } else {
      ListedTwice(t, p, name);
    }
  }

  lemma ListedTwice(t: Tree, p: Path, name: Text)
    requires WF(t) && p in t && p != [] && HasParent(t, p)
    requires Parent(p) + [name] in t && name != Last(p)
    ensures !WF(Rename(t, p, name))
  {
    hide Relocate;
    var par, to := Parent(p), Parent(p) + [name];
    var t1 := Link(Unlink(t, p), to);
    var r := Rename(t, p, name);
    assert Linked(t, to);
    assert Sound(t, par);
    RemoveFirstMember(t[par].children, Last(p));
    var rest := RemoveFirst(t[par].children, Last(p));
    var i :| 0 <= i < |rest| && rest[i] == name;
    RelocateShifts(t1, p, to);
    assert ShiftedAt(t1, r, p, to, KeysUnder(t1, p), par);
    assert r[par].children == rest + [name];
    assert r[par].children[i] == r[par].children[|rest|];
    assert !Sound(r, par);
  }

  lemma RelocateShape(t: Tree, from: Path, to: Path, d: Detail)
    requires NothingUnder(t, to)
    ensures NothingUnder(Shape(t, d), to)
    ensures Shape(Relocate(t, from, to), d) == Relocate(Shape(t, d), from, to)
  {
    hide Relocate;
    var a, b := Shape(Relocate(t, from, to), d), Relocate(Shape(t, d), from, to);
    RelocateEntries(t, from, to);
    RelocateEntries(Shape(t, d), from, to);
    forall q | q in a ensures q in b && a[q] == b[q] {
      var k :| k in t && q == Moved(k, from, to);
      assert k in Shape(t, d);
    }
    forall q | q in b ensures q in a {
      var k :| k in Shape(t, d) && q == Moved(k, from, to);
      assert k in t;
    }
  }

  lemma PrefixesNested(a: Path, b: Path, q: Path)
    requires a <= q && b <= q
    ensures a <= b || b <= a
  {
    if |a| <= |b| {
      assert a == q[..|a|] == q[..|b|][..|a|];
    } else {
      assert b == q[..|b|] == q[..|a|][..|b|];
    }
  }

  /** Moving a subtree back where it came from undoes the move. */
  lemma RelocateBack<V>(m: map<Path, V>, from: Path, to: Path)
    requires NothingUnder(m, to) && !(from <= to) && !(to <= from)
    ensures NothingUnder(Relocate(m, from, to), from)
    ensures Relocate(Relocate(m, from, to), to, from) == m
  {
    var r := Relocate(m, from, to);
    RelocateEntries(m, from, to);
    forall q | q in r ensures !(from <= q) {
      var k :| k in m && q == Moved(k, from, to);
      if from <= k && from <= q {
        PrefixesNested(from, to, q);
      }
    }
    forall k | k in m ensures Moved(Moved(k, from, to), to, from) == k {
      MovedBack(k, from, to);
    }
    var back := Relocate(r, to, from);
    RelocateEntries(r, to, from);
    forall k | k in m ensures k in back && back[k] == m[k] {
      assert Moved(k, from, to) in r;
      assert Moved(Moved(k, from, to), to, from) in back;
    }
    forall k | k in back ensures k in m {
      var q :| q in r && k == Moved(q, to, from);
      var k' :| k' in m && q == Moved(k', from, to);
    }
  }
}
