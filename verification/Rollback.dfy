/** What a rollback restores of one operation: its records undo it on every tree of the shape it produced,
    up to the values and titles that the records cannot carry. */
module Rollback {
  import opened DmText
  import opened Uri
  import opened DmtValue
  import opened PluginTree
  import opened UndoLog

  predicate UntitledUnder(t: Tree, p: Path) {
    forall q | q in t && p <= q :: t[q].title == []
  }

  /** The operations whose undo restores the tree up to detail `d`, as a caller can check beforehand. */
  predicate Clean(t: Tree, op: Op, d: Detail) {
    match op
    case DeleteNode(p) => d.Full? ==> UntitledUnder(t, p)
    case SetLeaf(p, v) => d.Skeleton? || (p in t && t[p].Leaf? && UndoableSet(t[p].value, v))
    case _ => true
  }

  /** The records of the operation can be read back: only a value record without data cannot. */
  predicate Readable(t: Tree, op: Op) {
    op.SetLeaf? ==> op.path in t && t[op.path].Leaf? && StringForm(t[op.path].value) != []
  }

  lemma ShapeKeys(t: Tree, d: Detail)
    ensures Shape(t, d).Keys == t.Keys
  {
  }

  lemma ReplayOne(s: Player, r: Record)
    ensures Replay(s, [r]) == PlayOne(s, r)
  {
    assert Replay(s, [r]) == Replay(PlayOne(s, r), []);
  }

  // ---------- undo of a delete ----------

  lemma RebuiltSame(t: Tree, q: Path)
    requires WF(t) && q in t
    ensures var n := Rebuilt(t[q]);
            && n.Interior? == t[q].Interior? && n.title == []
            && (n.Interior? ==> n.children == t[q].children)
            && (n.Leaf? ==> n.value == t[q].value && ValidValue(n.value))
  {
    assert Sound(t, q);
    if t[q].Interior? {
      ListedNamesValid(t, q);
      SplitJoin(t[q].children);
    } else {
      AddRestores(t[q].value);
    }
  }

  /** The subtree under `p` back in the map of `base`, before its top is linked. */
  ghost function Refilled(t: Tree, p: Path, base: Tree): Tree {
    base + RebuiltSet(t, Under(t, p))
  }

  /** The tree that replaying the records of a delete produces from `base`. */
  ghost function Reattached(t: Tree, p: Path, base: Tree): Tree {
    if HasParent(Refilled(t, p, base), p) then Link(Refilled(t, p, base), p) else Refilled(t, p, base)
  }

  /** `base` is a well-formed tree of the shape `t` has without the subtree under `p`. */
  ghost predicate Pruned(t: Tree, p: Path, base: Tree) {
    && WF(t) && p in t && p != [] && WF(base)
    && Shape(base, Skeleton) == RemoveUnder(Shape(t, Skeleton), p)
  }

  lemma PrunedKeys(t: Tree, p: Path, base: Tree)
    requires Pruned(t, p, base)
    ensures forall q :: q in base <==> q in t && !(p <= q)
    ensures forall q | q in base :: base[q].Interior? == t[q].Interior?
    ensures HasParent(base, p) && HasParent(Refilled(t, p, base), p)
  {
    forall q ensures q in base <==> q in t && !(p <= q) {
      assert q in Shape(base, Skeleton) <==> q in RemoveUnder(Shape(t, Skeleton), p);
    }
    forall q | q in base ensures base[q].Interior? == t[q].Interior? {
      assert Shape(base, Skeleton)[q] == Shape(t, Skeleton)[q];
    }
    assert Linked(t, p);
  }

  lemma DeleteReplay(t: Tree, p: Path, s: Player)
    requires Pruned(t, p, s.tree) && !s.aborted
    ensures Replay(s, [AddChildRec(p)] + AddRecords(t, p)) == s.(tree := Reattached(t, p, s.tree))
  {
    PrunedKeys(t, p, s.tree);
    ReplayConcat(s, [AddChildRec(p)], AddRecords(t, p));
    ReplaySubtree(t, p, s);
    ReplayOne(s.(tree := Refilled(t, p, s.tree)), AddChildRec(p));
  }

  lemma SkeletonFromDetail(a: Tree, b: Tree, d: Detail, p: Path)
    requires Shape(a, d) == RemoveUnder(Shape(b, d), p)
    ensures Shape(a, Skeleton) == RemoveUnder(Shape(b, Skeleton), p)
  {
    assert Shape(a, d).Keys == a.Keys;
    forall q | q in a ensures q in b && !(p <= q) && EntryOf(a[q], Skeleton) == EntryOf(b[q], Skeleton) {
      assert q in Shape(a, d);
      assert Shape(a, d)[q] == Shape(b, d)[q];
    }
    forall q | q in b && !(p <= q) ensures q in a {
      assert q in Shape(b, d);
      assert q in RemoveUnder(Shape(b, d), p);
    }
  }

  lemma ReattachedEntries(t: Tree, p: Path, base: Tree)
    requires Pruned(t, p, base)
    ensures Reattached(t, p, base).Keys == t.Keys
    ensures forall q | q in t && p <= q :: Reattached(t, p, base)[q] == Rebuilt(t[q])
    ensures forall q | q in t && !(p <= q) && q != Parent(p) :: q in base && Reattached(t, p, base)[q] == base[q]
    ensures Parent(p) in base && base[Parent(p)].Interior?
    ensures Reattached(t, p, base)[Parent(p)] == base[Parent(p)].(children := base[Parent(p)].children + [Last(p)])
  {
    PrunedKeys(t, p, base);
  }

  lemma ReattachedLinked(t: Tree, p: Path, base: Tree, q: Path)
    requires Pruned(t, p, base)
    requires q in t && q != []
    ensures Linked(Reattached(t, p, base), q)
  {
    hide Reattached, Refilled, RebuiltSet, Shape;
    ReattachedEntries(t, p, base);
    PrunedKeys(t, p, base);
    assert Linked(t, q);
    if q == p {
    } else if p <= q {
      assert p <= Parent(q);
      RebuiltSame(t, Parent(q));
    } else {
      assert !(p <= Parent(q));
      assert Linked(base, q);
    }
  }

  lemma ReattachedSound(t: Tree, p: Path, base: Tree, q: Path)
    requires Pruned(t, p, base)
    requires q in t
    ensures q in Reattached(t, p, base) && Sound(Reattached(t, p, base), q)
  {
    hide Reattached, Refilled, RebuiltSet, Shape;
    ReattachedEntries(t, p, base);
    PrunedKeys(t, p, base);
    assert Sound(t, q);
    if p <= q {
      RebuiltSame(t, q);
    } else {
      assert Sound(base, q);
      if q == Parent(p) {
        assert p == q + [Last(p)];
        assert Last(p) !in base[q].children;
      }
    }
  }

  lemma ReattachedWF(t: Tree, p: Path, base: Tree)
    requires Pruned(t, p, base)
    ensures WF(Reattached(t, p, base))
  {
    hide Reattached, Refilled, RebuiltSet, Shape;
    ReattachedEntries(t, p, base);
    PrunedKeys(t, p, base);
    var r := Reattached(t, p, base);
    forall q | q in r && q != [] ensures Linked(r, q) {
      ReattachedLinked(t, p, base, q);
    }
    forall q | q in r ensures Sound(r, q) {
      ReattachedSound(t, p, base, q);
    }
    assert !(p <= []);
  }

  lemma ReattachedEntry(t: Tree, p: Path, base: Tree, d: Detail, q: Path)
    requires Pruned(t, p, base)
    requires Shape(base, d) == RemoveUnder(Shape(t, d), p) && q in t
    ensures q in Reattached(t, p, base)
    ensures EntryOf(Reattached(t, p, base)[q], d) == EntryOf(t[q], d) <==> !(d.Full? && p <= q && t[q].title != [])
  {
    ReattachedEntries(t, p, base);
    PrunedKeys(t, p, base);
    if p <= q {
      RebuiltSame(t, q);
    } else {
      assert q in Shape(base, d) && Shape(base, d)[q] == Shape(t, d)[q];
    }
  }

  lemma SameEntriesSameShape(a: Tree, b: Tree, d: Detail)
    requires a.Keys == b.Keys
    ensures Shape(a, d) == Shape(b, d) <==> forall q | q in b :: EntryOf(a[q], d) == EntryOf(b[q], d)
  {
    if Shape(a, d) == Shape(b, d) {
      forall q | q in b ensures EntryOf(a[q], d) == EntryOf(b[q], d) {
        assert Shape(a, d)[q] == Shape(b, d)[q];
      }
    }
  }

  /** A deleted subtree comes back with all its paths, kinds, values and child-name sets; its titles are
      lost, so they are restored exactly when there were none. */
  lemma ReattachedShape(t: Tree, p: Path, base: Tree, d: Detail)
    requires Pruned(t, p, base)
    requires Shape(base, d) == RemoveUnder(Shape(t, d), p)
    ensures Shape(Reattached(t, p, base), d) == Shape(t, d) <==> (d.Full? ==> UntitledUnder(t, p))
  {
    ReattachedEntries(t, p, base);
    var r := Reattached(t, p, base);
    SameEntriesSameShape(r, t, d);
    forall q | q in t ensures EntryOf(r[q], d) == EntryOf(t[q], d) <==> !(d.Full? && p <= q && t[q].title != []) {
      ReattachedEntry(t, p, base, d, q);
    }
  }

  lemma DeleteUndone(t: Tree, p: Path, d: Detail)
    requires WF(t) && Allowed(t, DeleteNode(p)) && Clean(t, DeleteNode(p), d)
    ensures Undoes(UndoRecords(t, DeleteNode(p)), Shape(Apply(t, DeleteNode(p)), d), Shape(t, d), d, true)
  {
    var recs := UndoRecords(t, DeleteNode(p));
    if p in t {
      DeleteEffect(t, p, d);
      forall s: Player | !s.aborted && WF(s.tree) && Shape(s.tree, d) == RemoveUnder(Shape(t, d), p)
        ensures var r := Replay(s, recs); !r.aborted && WF(r.tree) && Shape(r.tree, d) == Shape(t, d)
      {
        SkeletonFromDetail(s.tree, t, d, p);
        DeleteReplay(t, p, s);
        ReattachedWF(t, p, s.tree);
        ReattachedShape(t, p, s.tree, d);
      }
    }
  }

  // ---------- undo of the other operations ----------

  lemma CreateUndone(t: Tree, p: Path, n: Node, d: Detail)
    requires WF(t) && HasParent(t, p) && ValidName(Last(p)) && p !in t
    requires n.Leaf? ==> ValidValue(n.value)
    requires n.Interior? ==> n.children == []
    ensures Undoes([DeleteRec(p)], Shape(Create(t, p, n), d), Shape(t, d), d, true)
  {
    CreateEffect(t, p, n, d);
    FreshMeansNothingUnder(t, p);
    var made := Shape(t, d)[p := EntryOf(n, d)];
    assert RemoveUnder(made, p) == Shape(t, d);
    forall s: Player | !s.aborted && WF(s.tree) && Shape(s.tree, d) == made
      ensures var r := Replay(s, [DeleteRec(p)]); !r.aborted && WF(r.tree) && Shape(r.tree, d) == Shape(t, d)
    {
      assert p in Shape(s.tree, d);
      DeleteEffect(s.tree, p, d);
      ReplayOne(s, DeleteRec(p));
    }
  }

  lemma RenamePathEffect(t: Tree, p: Path, name: Text, d: Detail)
    requires WF(t) && p in t && p != [] && ValidName(name) && Parent(p) + [name] !in t
    ensures WF(RenamePath(t, p, name))
    ensures NothingUnder(Shape(t, d), Parent(p) + [name])
    ensures Shape(RenamePath(t, p, name), d) == Relocate(Shape(t, d), p, Parent(p) + [name])
  {
    RenameEffect(t, p, name, d);
    assert RenamePath(t, p, name) == Rename(t, p, name);
  }

  lemma SiblingsApart(p: Path, to: Path)
    requires p != [] && to != [] && Parent(p) == Parent(to) && p != to
    ensures !(p <= to) && !(to <= p)
  {
    assert |p| == |to|;
  }

  lemma MovedTop(start: map<Path, Entry>, p: Path, to: Path)
    requires p in start && NothingUnder(start, to)
    ensures to in Relocate(start, p, to)
  {
    RelocateEntries(start, p, to);
    assert Moved(p, p, to) == to;
  }

  lemma MoveBack(start: map<Path, Entry>, p: Path, to: Path)
    requires p != [] && to != [] && Parent(p) == Parent(to) && p != to
    requires p in start && NothingUnder(start, to)
    ensures to in Relocate(start, p, to)
    ensures NothingUnder(Relocate(start, p, to), p)
    ensures Relocate(Relocate(start, p, to), to, p) == start
  {
    SiblingsApart(p, to);
    RelocateBack(start, p, to);
    MovedTop(start, p, to);
  }

  /** Renaming a sibling back, on any tree of the shape the rename produced. */
  lemma RenameBack(t: Tree, p: Path, to: Path, d: Detail, moved: map<Path, Entry>)
    requires p != [] && to != [] && Parent(p) == Parent(to) && ValidName(Last(p))
    requires to in moved && p !in moved && NothingUnder(moved, p)
    requires WF(t) && Shape(t, d) == moved
    ensures WF(RenamePath(t, to, Last(p))) && Shape(RenamePath(t, to, Last(p)), d) == Relocate(moved, to, p)
  {
    var back := Parent(to) + [Last(p)];
    assert p == back;
    assert Shape(t, d).Keys == t.Keys;
    RenamePathEffect(t, to, Last(p), d);
  }

  lemma PlayName(s: Player, p: Path, name: Text)
    requires !s.aborted
    ensures Replay(s, [NameRec(p, name)]) == s.(tree := RenamePath(s.tree, p, name))
  {
    ReplayOne(s, NameRec(p, name));
  }

  lemma NameRecReplay(s: Player, p: Path, to: Path, d: Detail, moved: map<Path, Entry>, start: map<Path, Entry>)
    requires p != [] && to != [] && Parent(p) == Parent(to) && ValidName(Last(p))
    requires to in moved && NothingUnder(moved, p) && Relocate(moved, to, p) == start
    requires !s.aborted && WF(s.tree) && Shape(s.tree, d) == moved
    ensures var r := Replay(s, [NameRec(to, Last(p))]);
            !r.aborted && WF(r.tree) && Shape(r.tree, d) == start
  {
    PlayName(s, to, Last(p));
    assert p <= p;
    RenameBack(s.tree, p, to, d, moved);
  }

  lemma NameRecUndoes(p: Path, to: Path, d: Detail, moved: map<Path, Entry>, start: map<Path, Entry>)
    requires p != [] && to != [] && Parent(p) == Parent(to) && ValidName(Last(p))
    requires to in moved && NothingUnder(moved, p) && Relocate(moved, to, p) == start
    ensures Undoes([NameRec(to, Last(p))], moved, start, d, true)
  {
    forall s: Player | !s.aborted && WF(s.tree) && Shape(s.tree, d) == moved
      ensures var r := Replay(s, [NameRec(to, Last(p))]);
              !r.aborted && WF(r.tree) && Shape(r.tree, d) == start
    {
      NameRecReplay(s, p, to, d, moved, start);
    }
  }

  lemma RenameUndone(t: Tree, p: Path, name: Text, d: Detail)
    requires WF(t) && Allowed(t, RenameNode(p, name)) && p in t
    ensures Undoes([NameRec(Parent(p) + [name], Last(p))],
                   Shape(Apply(t, RenameNode(p, name)), d), Shape(t, d), d, true)
  {
    var to := Parent(p) + [name];
    RenamePathEffect(t, p, name, d);
    assert Linked(t, p);
    assert Parent(to) == Parent(p);
    assert Shape(t, d).Keys == t.Keys;
    MoveBack(Shape(t, d), p, to);
    NameRecUndoes(p, to, d, Relocate(Shape(t, d), p, to), Shape(t, d));
  }

  lemma RenamedKeys(t: Tree, p: Path, name: Text, s: Tree)
    requires WF(t) && Allowed(t, RenameNode(p, name)) && p in t
    requires Shape(s, Skeleton) == Shape(Apply(t, RenameNode(p, name)), Skeleton)
    ensures p !in s && ValidName(Last(p))
  {
    var to := Parent(p) + [name];
    RenamePathEffect(t, p, name, Skeleton);
    assert Linked(t, p);
    ShapeKeys(t, Skeleton);
    assert p in Shape(t, Skeleton);
    MoveBack(Shape(t, Skeleton), p, to);
    ShapeKeys(s, Skeleton);
    assert p <= p;
  }

  /** Replay of a readable value record on any tree of the shape the set produced. */
  lemma ValueRecReplay(t: Tree, p: Path, v: Value, d: Detail, base: Tree)
    requires WF(t) && p in t && t[p].Leaf? && (d.Skeleton? || UndoableSet(t[p].value, v))
    requires WF(base) && Shape(base, d) == Shape(t, d)[p := EntryOf(t[p].(value := v), d)]
    ensures var r := ReplayValue(base, p, StringForm(t[p].value));
            WF(r) && Shape(r, d) == Shape(t, d)
  {
    var old' := t[p].value;
    assert Sound(t, p);
    SetRestores(old', v);
    assert p in Shape(base, d) && Shape(base, d)[p] == EntryOf(t[p].(value := v), d);
    var w := BuildData(FormatOf(base[p].value), Bytes(StringForm(old')));
    BuildDataValid(FormatOf(base[p].value), Bytes(StringForm(old')));
    SetEffect(base, p, w, d);
    assert EntryOf(base[p].(value := w), d) == EntryOf(t[p], d);
    assert Shape(t, d)[p := EntryOf(t[p], d)] == Shape(t, d);
  }

  lemma SetUndone(t: Tree, p: Path, v: Value, d: Detail)
    requires WF(t) && Allowed(t, SetLeaf(p, v)) && Clean(t, SetLeaf(p, v), d)
    ensures Undoes(UndoRecords(t, SetLeaf(p, v)), Shape(Apply(t, SetLeaf(p, v)), d), Shape(t, d), d,
                   Readable(t, SetLeaf(p, v)))
  {
    var rec := ValueRec(p, StringForm(t[p].value));
    SetEffect(t, p, v, d);
    forall s: Player | !s.aborted && WF(s.tree) && Shape(s.tree, d) == Shape(Apply(t, SetLeaf(p, v)), d)
      ensures var r := Replay(s, [rec]);
              WF(r.tree) && (rec.data != [] ==> !r.aborted) && (!r.aborted ==> Shape(r.tree, d) == Shape(t, d))
    {
      ReplayOne(s, rec);
      ValueRecReplay(t, p, v, d, s.tree);
    }
  }

  lemma TitleUndone(t: Tree, p: Path, title: Text, d: Detail)
    requires WF(t) && p in t
    ensures Undoes([TitleRec(p, t[p].title)], Shape(SetTitle(t, p, title), d), Shape(t, d), d, true)
  {
    var rec := TitleRec(p, t[p].title);
    TitleEffect(t, p, title, d);
    forall s: Player | !s.aborted && WF(s.tree) && Shape(s.tree, d) == Shape(SetTitle(t, p, title), d)
      ensures var r := Replay(s, [rec]); !r.aborted && WF(r.tree) && Shape(r.tree, d) == Shape(t, d)
    {
      ReplayOne(s, rec);
      assert p in Shape(s.tree, d);
      assert Shape(s.tree, d)[p] == EntryOf(t[p].(title := title), d);
      TitleEffect(s.tree, p, t[p].title, d);
      assert Shape(t, d)[p := EntryOf(t[p], d)] == Shape(t, d);
    }
  }

  /** The parent's list after a name has gone and others have come at its end. */
  predicate ListedAs(t: Tree, r: Tree, parent: Path, gone: seq<Text>, come: seq<Text>)
    requires parent in t && t[parent].Interior? && |gone| <= 1
  {
    && parent in r && r[parent].Interior? && r[parent].title == t[parent].title
    && exists i: nat ::
         && i + |gone| <= |t[parent].children| && t[parent].children[i..i + |gone|] == gone
         && r[parent].children == t[parent].children[..i] + t[parent].children[i + |gone|..] + come
  }

  lemma RemovedAt(s: seq<Text>, name: Text) returns (i: nat)
    requires name in s
    ensures i < |s| && s[i] == name && RemoveFirst(s, name) == s[..i] + s[i + 1..]
  {
    if s[0] == name {
      i := 0;
    } else {
      i := RemovedAt(s[1..], name);
      assert s == [s[0]] + s[1..];
      i := i + 1;
    }
  }

  /** What a create, a set and a new title make of the tree: one node of the given value or title, at the end
      of its parent's list if it is new. */
  lemma ApplyMakes(t: Tree, op: Op)
    requires WF(t) && Allowed(t, op) && !op.DeleteNode? && !op.RenameNode?
    ensures var p, r := op.path, Apply(t, op);
            && p in r
            && (op.CreateLeaf? ==> r[p] == Leaf(op.value, []))
            && (op.CreateInterior? ==> r[p] == Interior([], []))
            && (op.SetLeaf? ==> r[p] == Leaf(op.value, t[p].title))
            && (op.Retitle? ==> r[p] == t[p].(title := op.title))
            && (op.SetLeaf? || op.Retitle? ==> forall q | q != p :: (q in r <==> q in t) && (q in t ==> r[q] == t[q]))
            && (op.CreateLeaf? || op.CreateInterior? ==>
                  && ListedAs(t, r, Parent(p), [], [Last(p)])
                  && forall q | q != p && q != Parent(p) :: (q in r <==> q in t) && (q in t ==> r[q] == t[q]))
  {
    var p := op.path;
    if op.CreateLeaf? || op.CreateInterior? {
      var old' := t[Parent(p)].children;
      assert old'[|old'|..|old'| + 0] == [] && old' == old'[..|old'|] + old'[|old'| + 0..];
    }
  }

  /** What a delete makes of it: the subtree goes, and its top's name. */
  lemma ApplyDeletes(t: Tree, p: Path)
    requires WF(t) && p in t && p != []
    ensures HasParent(t, p)
    ensures var r := Apply(t, DeleteNode(p));
            && ListedAs(t, r, Parent(p), [Last(p)], [])
            && (forall q :: q in r <==> q in t && !(p <= q))
            && forall q | q in r && q != Parent(p) :: r[q] == t[q]
  {
    assert Linked(t, p);
    var old' := t[Parent(p)].children;
    var i := RemovedAt(old', Last(p));
    assert old'[i..i + 1] == [Last(p)];
    assert old'[..i] + old'[i + 1..] + [] == old'[..i] + old'[i + 1..];
    assert !(p <= Parent(p));
  }

  /** What a rename to a new name makes of it: every path in the subtree has the new name in the place of the
      old one, and the name goes to the end of the list. */
  lemma ApplyRenames(t: Tree, p: Path, name: Text)
    requires WF(t) && Allowed(t, RenameNode(p, name)) && p in t
    ensures HasParent(t, p)
    ensures var r := Apply(t, RenameNode(p, name));
            && ListedAs(t, r, Parent(p), [Last(p)], [name])
            && (forall rest: Path :: p + rest in t <==> Parent(p) + [name] + rest in r)
            && (forall rest: Path | p + rest in t :: r[Parent(p) + [name] + rest] == t[p + rest])
            && (forall q | !(p <= q) && !(Parent(p) + [name] <= q) :: q in r <==> q in t)
            && (forall q | !(p <= q) && !(Parent(p) + [name] <= q) && q in t && q != Parent(p) ::
                  q in r && r[q] == t[q])
            && (forall q | q in r :: !(p <= q))
  {
    hide WF, Relocate;
    var par, to := Parent(p), Parent(p) + [name];
    RenameRelinks(t, p, name);
    SiblingsApart(p, to);
    var t1 := Link(Unlink(t, p), to);
    var r, done := Relocate(t1, p, to), KeysUnder(t1, p);
    RelocateShifts(t1, p, to);
    assert r == Apply(t, RenameNode(p, name));
    RenamedList(t, p, name, r, done);
    forall rest: Path
      ensures p + rest in t <==> to + rest in r
      ensures p + rest in t ==> r[to + rest] == t[p + rest]
    {
      assert ShiftedAt(t1, r, p, to, done, to + rest);
      assert Moved(to + rest, to, p) == p + rest && p <= p + rest;
    }
    forall q
      ensures !(p <= q) && !(to <= q) ==> (q in r <==> q in t) && (q in t && q != par ==> r[q] == t[q])
      ensures p <= q ==> q !in r
    {
      assert ShiftedAt(t1, r, p, to, done, q);
      if p <= q && to <= q {
        PrefixesNested(p, to, q);
      }
    }
  }

  lemma RenamedList(t: Tree, p: Path, name: Text, r: Tree, done: set<Path>)
    requires WF(t) && p in t && p != [] && HasParent(t, p)
    requires ShiftedAt(Link(Unlink(t, p), Parent(p) + [name]), r, p, Parent(p) + [name], done, Parent(p))
    requires done == KeysUnder(Link(Unlink(t, p), Parent(p) + [name]), p)
    ensures ListedAs(t, r, Parent(p), [Last(p)], [name])
  {
    assert Linked(t, p);
    var old' := t[Parent(p)].children;
    var i := RemovedAt(old', Last(p));
    assert old'[i..i + 1] == [Last(p)];
  }

  /** Every operation keeps the tree well formed. */
  lemma ApplyKeepsWF(t: Tree, op: Op)
    requires WF(t) && Allowed(t, op)
    ensures WF(Apply(t, op))
  {
    match op
    case CreateLeaf(p, v) => CreateKeepsWF(t, p, Leaf(v, []));
    case CreateInterior(p) => CreateKeepsWF(t, p, Interior([], []));
    case DeleteNode(p) => if p in t { DeleteEffect(t, p, Skeleton); }
    case RenameNode(p, name) => if p in t { RenameEffect(t, p, name, Skeleton); }
    case SetLeaf(p, v) => SetEffect(t, p, v, Skeleton);
    case Retitle(p, title) => TitleEffect(t, p, title, Skeleton);
  }

  /** The records one operation logs undo that operation, on every tree of the shape it produced. */
  lemma OpUndone(t: Tree, op: Op, d: Detail)
    requires WF(t) && Allowed(t, op) && Clean(t, op, d)
    ensures Undoes(UndoRecords(t, op), Shape(Apply(t, op), d), Shape(t, d), d, Readable(t, op))
  {
    match op
    case CreateLeaf(p, v) => CreateUndone(t, p, Leaf(v, []), d);
    case CreateInterior(p) => CreateUndone(t, p, Interior([], []), d);
    case DeleteNode(p) => DeleteUndone(t, p, d);
    case RenameNode(p, name) => if p in t { RenameUndone(t, p, name, d); }
    case SetLeaf(p, v) => SetUndone(t, p, v, d);
    case Retitle(p, title) => TitleUndone(t, p, title, d);
  }

  // ---------- one operation: exactly when rollback restores it ----------

  function Fresh(t: Tree): Player {
    Player(t, false)
  }

  /** Rolling back one `SetValue` restores the leaf exactly when the value can be read back and rebuilt, or
      when nothing can be read back and nothing had changed. */
  lemma SetRolledBackIff(t: Tree, p: Path, v: Value)
    requires WF(t) && Allowed(t, SetLeaf(p, v))
    ensures var r := Replay(Fresh(Apply(t, SetLeaf(p, v))), UndoRecords(t, SetLeaf(p, v)));
            Shape(r.tree, Values) == Shape(t, Values)
            <==> UndoableSet(t[p].value, v) || (StringForm(t[p].value) == [] && t[p].value == v)
  {
    var s := Fresh(Apply(t, SetLeaf(p, v)));
    var rec := ValueRec(p, StringForm(t[p].value));
    assert Sound(t, p);
    SetRestores(t[p].value, v);
    ReplayOne(s, rec);
    var r := PlayOne(s, rec).tree;
    assert r == t[p := t[p].(value := r[p].value)];
    ShapeUpdate(t, p, r[p], Values);
    if r[p].value == t[p].value {
      assert Shape(t, Values)[p := EntryOf(t[p], Values)] == Shape(t, Values);
    } else {
      assert Shape(r, Values)[p] != Shape(t, Values)[p];
    }
  }

  /** Rolling back one delete restores paths, kinds and values always, and the titles too exactly when
      the deleted subtree had none. */
  lemma DeleteRolledBackIff(t: Tree, p: Path, d: Detail)
    requires WF(t) && Allowed(t, DeleteNode(p)) && p in t
    ensures var r := Replay(Fresh(Apply(t, DeleteNode(p))), UndoRecords(t, DeleteNode(p)));
            Shape(r.tree, d) == Shape(t, d) <==> (d.Full? ==> UntitledUnder(t, p))
  {
    var s := Fresh(Apply(t, DeleteNode(p)));
    DeleteEffect(t, p, d);
    SkeletonFromDetail(s.tree, t, d, p);
    DeleteReplay(t, p, s);
    ReattachedShape(t, p, s.tree, d);
  }

  lemma RenameToSame(t: Tree, p: Path, d: Detail)
    requires p != [] && p in t && HasParent(t, p)
    ensures Shape(RenamePath(t, p, Last(p)), d) == Shape(t, d)
    ensures p in RenamePath(t, p, Last(p)) && HasParent(RenamePath(t, p, Last(p)), p)
  {
    assert Parent(p) + [Last(p)] == p;
    RelocateSame(Link(Unlink(t, p), p), p);
    LinkEffect(t, p, d);
    LinkEffect(Unlink(t, p), p, d);
  }

  /** After a rename to a sibling name, nothing is left at the old path. */
  lemma GoneAfterRename(t: Tree, p: Path, name: Text)
    requires p != [] && p in t && HasParent(t, p) && name != Last(p)
    ensures var r := RenamePath(t, p, name);
            p !in r && Parent(p) + [name] in r && HasParent(r, Parent(p) + [name])
  {
    var par, to := Parent(p), Parent(p) + [name];
    var t1 := Link(Unlink(t, p), to);
    var r := Relocate(t1, p, to);
    assert p == par + [Last(p)];
    RelocateShifts(t1, p, to);
    var done := KeysUnder(t1, p);
    assert ShiftedAt(t1, r, p, to, done, p);
    assert ShiftedAt(t1, r, p, to, done, par);
    assert Moved(to, to, p) == p && p <= p;
    assert ShiftedAt(t1, r, p, to, done, to);
  }

  /** Rolling back one rename restores the tree exactly when no other sibling had the new name. Otherwise
      that sibling has been overwritten and nothing brings it back. */
  lemma RenameRolledBackIff(t: Tree, p: Path, name: Text, d: Detail)
    requires WF(t) && p in t && p != [] && ValidName(name)
    ensures var op := RenameNode(p, name);
            var r := Replay(Fresh(Apply(t, op)), UndoRecords(t, op));
            Shape(r.tree, d) == Shape(t, d) <==> Parent(p) + [name] !in t || name == Last(p)
  {
    hide Rename, Shape, RenamePath;
    var op, to := RenameNode(p, name), Parent(p) + [name];
    var t1 := RenamePath(t, p, name);
    assert Linked(t, p);
    PlayName(Fresh(t1), to, Last(p));
    if to !in t {
      RenamePathEffect(t, p, name, d);
      RenameUndone(t, p, name, d);
      assert Replay(Fresh(t1), [NameRec(to, Last(p))]) == Fresh(RenamePath(t1, to, Last(p)));
    } else if name == Last(p) {
      assert to == p;
      RenameToSame(t, p, d);
      RenameToSame(t1, p, d);
    } else {
      GoneAfterRename(t, p, name);
      GoneAfterRename(t1, to, Last(p));
      ShapeKeys(t, d);
      ShapeKeys(RenamePath(t1, to, Last(p)), d);
    }
  }

  /** Deleting the root empties the map, which is no tree any more; a rollback right after it rebuilds
      everything but the titles. */
  lemma RootDeleteRolledBackIff(t: Tree, d: Detail)
    requires WF(t)
    ensures var gone := Apply(t, DeleteNode([]));
            && gone == map[] && !WF(gone)
            && var r := Replay(Fresh(gone), UndoRecords(t, DeleteNode([])));
               !r.aborted && (Shape(r.tree, d) == Shape(t, d) <==> (d.Full? ==> UntitledUnder(t, [])))
  {
    var gone: Tree := map[];
    assert Apply(t, DeleteNode([])) == gone;
    assert LinkRecords([]) + AddRecords(t, []) == AddRecords(t, []);
    ReplaySubtree(t, [], Fresh(gone));
    var r := RebuiltSet(t, Under(t, []));
    assert gone + r == r && r.Keys == t.Keys;
    SameEntriesSameShape(r, t, d);
    forall q | q in t ensures EntryOf(r[q], d) == EntryOf(t[q], d) <==> !(d.Full? && t[q].title != []) {
      RebuiltSame(t, q);
    }
  }

  // ---------- inputs that rollback does not restore ----------

  const A_NAME: Text := [97]

  /** A tree of the root and one leaf "a". */
  function OneLeaf(value: Value, title: Text): Tree {
    map[[] := Interior([A_NAME], []), [A_NAME] := Leaf(value, title)]
  }

  lemma OneLeafWF(value: Value, title: Text)
    requires ValidValue(value)
    ensures WF(OneLeaf(value, title))
  {
    var t := OneLeaf(value, title);
    assert Parent([A_NAME]) == [] && Last([A_NAME]) == A_NAME && [] + [A_NAME] == [A_NAME];
    assert Linked(t, [A_NAME]);
    assert Sound(t, []) && Sound(t, [A_NAME]);
  }

  /** Setting a leaf that held the empty string cannot be undone: the record has no data to read. */
  lemma EmptyTextIsLost()
    ensures var t, op := OneLeaf(Str(Chr, []), []), SetLeaf([A_NAME], Str(Chr, [98]));
            && WF(t) && Allowed(t, op)
            && Shape(Replay(Fresh(Apply(t, op)), UndoRecords(t, op)).tree, Values) != Shape(t, Values)
  {
    OneLeafWF(Str(Chr, []), []);
    SetRolledBackIff(OneLeaf(Str(Chr, []), []), [A_NAME], Str(Chr, [98]));
  }

  /** Setting a binary leaf cannot be undone: replay stores the base64 text as the data. */
  lemma BinaryIsLost()
    ensures var t, op := OneLeaf(Bin([0]), []), SetLeaf([A_NAME], Bin([1]));
            && WF(t) && Allowed(t, op)
            && Shape(Replay(Fresh(Apply(t, op)), UndoRecords(t, op)).tree, Values) != Shape(t, Values)
  {
    OneLeafWF(Bin([0]), []);
    SetRolledBackIff(OneLeaf(Bin([0]), []), [A_NAME], Bin([1]));
  }

  /** What comes back of any binary leaf that was set: the base64 text of its data, as binary data again or
      as text, depending on the value it was set to. */
  lemma BinaryComesBackAsText(t: Tree, p: Path, b: seq<Byte>, v: Value)
    requires WF(t) && Allowed(t, SetLeaf(p, v)) && t[p].value == Bin(b) && b != []
    requires v.Bin? || (v.Str? && v.kind.Chr?)
    ensures var r := Replay(Fresh(Apply(t, SetLeaf(p, v))), UndoRecords(t, SetLeaf(p, v)));
            && !r.aborted
            && exists text: Text ::
                 && DecodeBase64(text) == Data(b)
                 && r.tree == t[p := t[p].(value := if v.Bin? then Bin(Bytes(text)) else Str(Chr, text))]
  {
    hide DecodeBase64, Base64;
    var text := Base64(b);
    Base64Decodes(b);
    Base64NotEmpty(b);
    CStrOfBytes(text);
    var t1 := Apply(t, SetLeaf(p, v));
    ReplayOne(Fresh(t1), ValueRec(p, text));
    var w := if v.Bin? then Bin(Bytes(text)) else Str(Chr, text);
    assert BuildData(FormatOf(v), Bytes(text)) == w;
    assert t1[p := t1[p].(value := w)] == t[p := t[p].(value := w)];
  }

  lemma Base64NotEmpty(b: seq<Byte>)
    requires b != []
    ensures Base64(b) != []
  {
    assert |Base64(b)| == (|b| + 2) / 3 * 4;
  }

  /** Deleting a titled leaf and rolling back loses the title. */
  lemma TitleIsLost()
    ensures var t, op := OneLeaf(Null, [98]), DeleteNode([A_NAME]);
            && WF(t) && Allowed(t, op)
            && Shape(Replay(Fresh(Apply(t, op)), UndoRecords(t, op)).tree, Full) != Shape(t, Full)
  {
    OneLeafWF(Null, [98]);
    var t := OneLeaf(Null, [98]);
    assert [A_NAME] in t && [A_NAME] <= [A_NAME] && t[[A_NAME]].title != [];
    DeleteRolledBackIff(t, [A_NAME], Full);
  }

  const B_NAME: Text := [98]

  /** A tree of the root and the leaves "a" and "b". */
  function TwoLeaves(): Tree {
    map[[] := Interior([A_NAME, B_NAME], []), [A_NAME] := Leaf(Null, []), [B_NAME] := Leaf(Null, [])]
  }

  lemma TwoLeavesWF()
    ensures WF(TwoLeaves())
  {
    var t := TwoLeaves();
    forall name | name == A_NAME || name == B_NAME ensures Linked(t, [name]) && Sound(t, [name]) {
      assert Parent([name]) == [] && Last([name]) == name;
    }
    assert [] + [A_NAME] == [A_NAME] && [] + [B_NAME] == [B_NAME];
    assert Sound(t, []);
  }

  /** Renaming "a" to "b" and rolling back leaves one leaf. */
  lemma TakenNameIsLost()
    ensures var t, op := TwoLeaves(), RenameNode([A_NAME], B_NAME);
            && WF(t) && !WF(Apply(t, op))
            && Shape(Replay(Fresh(Apply(t, op)), UndoRecords(t, op)).tree, Skeleton) != Shape(t, Skeleton)
  {
    hide WF, Replay, Rename;
    var t := TwoLeaves();
    TwoLeavesWF();
    assert Parent([A_NAME]) == [] && [] + [B_NAME] == [B_NAME];
    RenamedWFIff(t, [A_NAME], B_NAME);
    RenameRolledBackIff(t, [A_NAME], B_NAME, Skeleton);
  }
}
