/** What a rollback makes of a whole run of operations. Every node of the start is traced through the
    renames of the run to its delete or to the end; its trace alone decides whether it comes back. */
module Runs {
  import opened DmText
  import opened Uri
  import opened DmtValue
  import opened PluginTree
  import opened UndoLog
  import opened Rollback

  /** Every operation of a run is allowed where it is applied. */
  predicate AllAllowed(t: Tree, ops: seq<Op>)
    decreases |ops|
  {
    ops == [] || (Allowed(t, ops[0]) && AllAllowed(Apply(t, ops[0]), ops[1..]))
  }

  function RunOps(t: Tree, ops: seq<Op>): Tree
    decreases |ops|
  {
    if ops == [] then t else RunOps(Apply(t, ops[0]), ops[1..])
  }

  /** The log a run leaves behind. */
  ghost function LogOf(t: Tree, ops: seq<Op>): seq<Record>
    decreases |ops|
  {
    if ops == [] then []
    else UndoRecords(t, ops[0]) + LogOf(Apply(t, ops[0]), ops[1..])
  }

  predicate AllReadable(t: Tree, ops: seq<Op>)
    decreases |ops|
  {
    ops == [] || (Readable(t, ops[0]) && AllReadable(Apply(t, ops[0]), ops[1..]))
  }

  lemma {:induction false} RunKeepsWF(t: Tree, ops: seq<Op>)
    requires WF(t) && AllAllowed(t, ops)
    ensures WF(RunOps(t, ops))
    decreases |ops|
  {
    if ops != [] {
      ApplyKeepsWF(t, ops[0]);
      RunKeepsWF(Apply(t, ops[0]), ops[1..]);
    }
  }

  /** One more operation at the end of a run. */
  lemma {:induction false} RunSnoc(t: Tree, ops: seq<Op>, op: Op)
    requires AllAllowed(t, ops) && Allowed(RunOps(t, ops), op)
    ensures AllAllowed(t, ops + [op]) && RunOps(t, ops + [op]) == Apply(RunOps(t, ops), op)
    ensures LogOf(t, ops + [op]) == LogOf(t, ops) + UndoRecords(RunOps(t, ops), op)
    decreases |ops|
  {
    hide Allowed, Apply, UndoRecords;
    var all := ops + [op];
    if ops == [] {
      assert all == [op] && all[1..] == [];
      assert LogOf(Apply(t, op), []) == [];
    } else {
      var t1 := Apply(t, ops[0]);
      assert all[0] == ops[0] && all[1..] == ops[1..] + [op];
      RunSnoc(t1, ops[1..], op);
      LogFront(t, all);
      LogFront(t, ops);
      ConcatThree(UndoRecords(t, ops[0]), LogOf(t1, ops[1..]), UndoRecords(RunOps(t, ops), op));
    }
  }

  lemma LogFront(t: Tree, ops: seq<Op>)
    requires ops != []
    ensures LogOf(t, ops) == UndoRecords(t, ops[0]) + LogOf(Apply(t, ops[0]), ops[1..])
  {
  }

  lemma ConcatThree(a: seq<Record>, b: seq<Record>, c: seq<Record>)
    ensures a + (b + c) == (a + b) + c
  {
  }

  // ---------- the trace of a node ----------

  /** Whether an operation deletes the node at `q`. */
  predicate Deletes(t: Tree, op: Op, q: Path) {
    op.DeleteNode? && op.path in t && op.path <= q
  }

  /** Where the node at `q` is after an operation that does not delete it. */
  function Next(t: Tree, op: Op, q: Path): Path {
    if op.RenameNode? && op.path in t && op.path != [] then Moved(q, op.path, Parent(op.path) + [op.name]) else q
  }

  function ValueAt(t: Tree, q: Path): Value {
    if q in t && t[q].Leaf? then t[q].value else Null
  }

  /** The history of a node from the start of a run to its delete, or to the end: whether its value was set,
      the last value it had, and whether it was deleted without its title having been set before. */
  datatype Trace = Trace(wasSet: bool, last: Value, titleLost: bool)

  function TraceOf(t: Tree, ops: seq<Op>, q: Path): Trace
    decreases |ops|
  {
    if ops == [] then Trace(false, ValueAt(t, q), false)
    else if Deletes(t, ops[0], q) then Trace(false, ValueAt(t, q), true)
    else
      var rest := TraceOf(Apply(t, ops[0]), ops[1..], Next(t, ops[0], q));
      match ops[0]
      case SetLeaf(p, _) => if p == q then rest.(wasSet := true) else rest
      case Retitle(p, _) => if p == q then rest.(titleLost := false) else rest
      case _ => rest
  }

  /** What the trace of a node must say for a rollback to bring it back: if its value was set, the first
      and the last value are text of one kind, the first not empty, or both boolean; and its title, if
      lost, was empty. */
  predicate ComesBack(t: Tree, ops: seq<Op>, q: Path, d: Detail)
    requires q in t
  {
    var trace := TraceOf(t, ops, q);
    && (!d.Skeleton? && trace.wasSet ==> UndoableSet(ValueAt(t, q), trace.last))
    && (d.Full? && trace.titleLost ==> t[q].title == [])
  }

  predicate AllComeBack(t: Tree, ops: seq<Op>, d: Detail) {
    forall q | q in t :: ComesBack(t, ops, q, d)
  }

  /** What a rollback makes of the node at `q`. */
  function Back(t: Tree, ops: seq<Op>, q: Path): Entry
    requires q in t
  {
    var trace := TraceOf(t, ops, q);
    var first := ValueAt(t, q);
    Entry(t[q].Interior?,
          if trace.wasSet then BuildData(FormatOf(trace.last), Bytes(StringForm(first))) else first,
          if trace.titleLost then [] else t[q].title)
  }

  function Cut(e: Entry, d: Detail): Entry {
    Entry(e.interior, if e.interior || d.Skeleton? then Null else e.value, if d.Full? then e.title else [])
  }

  function BackShape(t: Tree, ops: seq<Op>, d: Detail): map<Path, Entry> {
    map q | q in t :: Cut(Back(t, ops, q), d)
  }

  // ---------- one operation, node by node ----------

  /** What the records of one operation make of the node at `q`, whose entry after the operation, or after
      the undo of all later ones, is `e`. */
  function Restored(t: Tree, op: Op, q: Path, e: Entry): Entry
    requires q in t
  {
    if op.SetLeaf? && op.path == q then e.(value := BuildData(FormatOf(e.value), Bytes(StringForm(ValueAt(t, q)))))
    else if op.Retitle? && op.path == q then e.(title := t[q].title)
    else e
  }

  /** The tree `m` has the paths and kinds of the tree after `op`. */
  ghost predicate After(t: Tree, op: Op, m: Tree) {
    && WF(t) && Allowed(t, op) && Readable(t, op)
    && WF(m) && Shape(m, Skeleton) == Shape(Apply(t, op), Skeleton)
  }

  /** The records of `op`, replayed on `m`, give `q` the entry that `Restored` says. */
  ghost predicate BackAt(t: Tree, op: Op, m: Tree, q: Path)
    requires q in t
  {
    var r := Replay(Fresh(m), UndoRecords(t, op)).tree;
    && q in r
    && if Deletes(t, op, q) then EntryOf(r[q], Full) == EntryOf(t[q], Full).(title := [])
       else
         && Next(t, op, q) in m
         && EntryOf(r[q], Full) == Restored(t, op, q, EntryOf(m[Next(t, op, q)], Full))
  }

  lemma SameKeys(a: Tree, b: Tree, d: Detail)
    requires Shape(a, d) == Shape(b, d)
    ensures a.Keys == b.Keys
    ensures forall q | q in b :: EntryOf(a[q], d) == EntryOf(b[q], d)
  {
    ShapeKeys(a, d);
    ShapeKeys(b, d);
    SameEntriesSameShape(a, b, d);
  }

  lemma CreateBack(t: Tree, op: Op, m: Tree, q: Path)
    requires After(t, op, m) && q in t && (op.CreateLeaf? || op.CreateInterior?)
    ensures BackAt(t, op, m, q)
  {
    var p := op.path;
    CreateEffect(t, p, if op.CreateLeaf? then Leaf(op.value, []) else Interior([], []), Skeleton);
    FreshMeansNothingUnder(t, p);
    SameKeys(m, Apply(t, op), Skeleton);
    assert p in Shape(m, Skeleton);
    DeleteEffect(m, p, Full);
    ReplayOne(Fresh(m), DeleteRec(p));
    ShapeKeys(Delete(m, p), Full);
    assert q in Shape(m, Full);
    assert q in RemoveUnder(Shape(m, Full), p);
    assert Shape(Delete(m, p), Full)[q] == Shape(m, Full)[q];
  }

  lemma DeleteBack(t: Tree, op: Op, m: Tree, q: Path)
    requires After(t, op, m) && q in t && op.DeleteNode?
    ensures BackAt(t, op, m, q)
  {
    var p := op.path;
    if p in t {
      DeleteEffect(t, p, Skeleton);
      assert Pruned(t, p, m);
      DeleteReplay(t, p, Fresh(m));
      ReattachedEntries(t, p, m);
      PrunedKeys(t, p, m);
      if p <= q {
        RebuiltSame(t, q);
      }
    } else {
      SameKeys(m, t, Skeleton);
    }
  }

  lemma RenameBackAt(t: Tree, op: Op, m: Tree, q: Path)
    requires After(t, op, m) && q in t && op.RenameNode?
    ensures BackAt(t, op, m, q)
  {
    hide WF, Rename, Relocate, Shape;
    var p := op.path;
    if p in t {
      var to := Parent(p) + [op.name];
      RenamedKeys(t, p, op.name, m);
      RenamedPlaces(t, p, op.name, m, q);
      RenameBackEntry(m, p, to, q);
      PlayName(Fresh(m), to, Last(p));
    } else {
      SameKeys(m, t, Skeleton);
    }
  }

  lemma RenamedPlaces(t: Tree, p: Path, name: Text, m: Tree, q: Path)
    requires WF(t) && Allowed(t, RenameNode(p, name)) && p in t && q in t
    requires Shape(m, Skeleton) == Shape(RenamePath(t, p, name), Skeleton)
    ensures var to := Parent(p) + [name];
            to in m && Moved(q, p, to) in m && !(to <= q)
  {
    hide WF, RenamePath, Relocate, Shape;
    var to := Parent(p) + [name];
    RenamePathEffect(t, p, name, Skeleton);
    RelocateEntries(Shape(t, Skeleton), p, to);
    ShapeKeys(t, Skeleton);
    ShapeKeys(m, Skeleton);
    assert Moved(q, p, to) in m;
    assert Moved(p, p, to) == to;
  }

  lemma RenameBackEntry(m: Tree, p: Path, to: Path, q: Path)
    requires WF(m) && to in m && p !in m && p != [] && to != [] && Parent(p) == Parent(to) && ValidName(Last(p))
    requires !(to <= q) && Moved(q, p, to) in m
    ensures q in RenamePath(m, to, Last(p))
    ensures EntryOf(RenamePath(m, to, Last(p))[q], Full) == EntryOf(m[Moved(q, p, to)], Full)
  {
    assert p == Parent(to) + [Last(p)];
    RenamePathEffect(m, to, Last(p), Full);
    var r := RenamePath(m, to, Last(p));
    RelocateEntries(Shape(m, Full), to, p);
    MovedBack(q, p, to);
    var k := Moved(q, p, to);
    assert k in Shape(m, Full) && Moved(k, to, p) == q;
    assert Shape(r, Full)[q] == Shape(m, Full)[k];
  }

  lemma SetBack(t: Tree, op: Op, m: Tree, q: Path)
    requires After(t, op, m) && q in t && (op.SetLeaf? || op.Retitle?)
    ensures BackAt(t, op, m, q)
  {
    var p := op.path;
    SameKeys(m, Apply(t, op), Skeleton);
    ReplayOne(Fresh(m), UndoRecords(t, op)[0]);
  }

  /** Node by node, what the records of one operation do on every tree of the shape it produced. */
  lemma OpBack(t: Tree, op: Op, m: Tree, q: Path)
    requires After(t, op, m) && q in t
    ensures BackAt(t, op, m, q)
  {
    match op
    case CreateLeaf(_, _) => CreateBack(t, op, m, q);
    case CreateInterior(_) => CreateBack(t, op, m, q);
    case DeleteNode(_) => DeleteBack(t, op, m, q);
    case RenameNode(_, _) => RenameBackAt(t, op, m, q);
    case SetLeaf(_, _) => SetBack(t, op, m, q);
    case Retitle(_, _) => SetBack(t, op, m, q);
  }

  /** The operation itself moves the node to `Next` and changes nothing but the value or title it sets. */
  lemma NextEntry(t: Tree, op: Op, q: Path)
    requires WF(t) && Allowed(t, op) && q in t && !Deletes(t, op, q)
    ensures var k := Next(t, op, q);
            && k in Apply(t, op)
            && EntryOf(Apply(t, op)[k], Full)
               == if op.SetLeaf? && op.path == q then EntryOf(t[q], Full).(value := op.value)
                  else if op.Retitle? && op.path == q then EntryOf(t[q], Full).(title := op.title)
                  else EntryOf(t[q], Full)
  {
    var r := Apply(t, op);
    assert q in Shape(t, Full);
    match op
    case CreateLeaf(p, v) =>
      CreateEffect(t, p, Leaf(v, []), Full);
      assert Shape(r, Full)[q] == Shape(t, Full)[q];
    case CreateInterior(p) =>
      CreateEffect(t, p, Interior([], []), Full);
      assert Shape(r, Full)[q] == Shape(t, Full)[q];
    case DeleteNode(p) =>
      if p in t {
        DeleteEffect(t, p, Full);
        assert q in RemoveUnder(Shape(t, Full), p);
        assert Shape(r, Full)[q] == Shape(t, Full)[q];
      }
    case RenameNode(p, name) =>
      if p in t {
        RenamePathEffect(t, p, name, Full);
        RelocateEntries(Shape(t, Full), p, Parent(p) + [name]);
        assert Shape(r, Full)[Next(t, op, q)] == Shape(t, Full)[q];
      }
    case SetLeaf(p, v) =>
    case Retitle(p, title) =>
  }

  lemma BuildKeepsFormat(format: Format, data: seq<Byte>)
    ensures FormatOf(BuildData(format, data)) == format
  {
  }

  /** A node whose value was never set still has its first value. */
  lemma {:induction false} UnsetKeepsValue(t: Tree, ops: seq<Op>, q: Path)
    requires WF(t) && AllAllowed(t, ops) && q in t && !TraceOf(t, ops, q).wasSet
    ensures TraceOf(t, ops, q).last == ValueAt(t, q)
    decreases |ops|
  {
    if ops != [] && !Deletes(t, ops[0], q) {
      NextEntry(t, ops[0], q);
      ApplyKeepsWF(t, ops[0]);
      UnsetKeepsValue(Apply(t, ops[0]), ops[1..], Next(t, ops[0], q));
    }
  }

  /** The first value of a node that was set can be read back when all records can. */
  lemma {:induction false} TracedIsReadable(t: Tree, ops: seq<Op>, q: Path)
    requires WF(t) && AllAllowed(t, ops) && AllReadable(t, ops) && q in t && TraceOf(t, ops, q).wasSet
    ensures t[q].Leaf? && StringForm(t[q].value) != []
    decreases |ops|
  {
    var op := ops[0];
    if !(op.SetLeaf? && op.path == q) {
      NextEntry(t, op, q);
      ApplyKeepsWF(t, op);
      TracedIsReadable(Apply(t, op), ops[1..], Next(t, op, q));
    }
  }

  /** The closed form of `Back` is what undoing the operations one by one, newest first, gives. */
  lemma BackStep(t: Tree, ops: seq<Op>, q: Path)
    requires WF(t) && AllAllowed(t, ops) && ops != [] && q in t && !Deletes(t, ops[0], q)
    ensures var k := Next(t, ops[0], q);
            && k in Apply(t, ops[0])
            && Back(t, ops, q) == Restored(t, ops[0], q, Back(Apply(t, ops[0]), ops[1..], k))
  {
    hide Apply, BuildData, Next, WF;
    var op, t1, k := ops[0], Apply(t, ops[0]), Next(t, ops[0], q);
    NextEntry(t, op, q);
    ApplyKeepsWF(t, op);
    var rest := TraceOf(t1, ops[1..], k);
    if rest.wasSet {
      BuildKeepsFormat(FormatOf(rest.last), Bytes(StringForm(ValueAt(t1, k))));
    } else {
      UnsetKeepsValue(t1, ops[1..], k);
    }
  }

  // ---------- runs ----------

  lemma CutEntry(n: Node, d: Detail)
    ensures Cut(EntryOf(n, Full), d) == EntryOf(n, d)
  {
  }

  lemma RestoredCut(t: Tree, op: Op, q: Path, a: Entry, b: Entry, d: Detail)
    requires q in t && Cut(a, d) == Cut(b, d)
    requires op.SetLeaf? && op.path == q ==> t[q].Leaf? && !a.interior
    ensures Cut(Restored(t, op, q, a), d) == Cut(Restored(t, op, q, b), d)
  {
    hide BuildData;
  }

  /** Undoing one more operation, after the later ones have been undone. */
  lemma BackOne(t: Tree, ops: seq<Op>, m: Tree, q: Path, d: Detail)
    requires WF(t) && AllAllowed(t, ops) && ops != [] && Readable(t, ops[0]) && q in t
    requires WF(m) && Shape(m, d) == BackShape(Apply(t, ops[0]), ops[1..], d)
    requires Shape(m, Skeleton) == Shape(Apply(t, ops[0]), Skeleton)
    ensures var r := Replay(Fresh(m), UndoRecords(t, ops[0])).tree;
            q in r && EntryOf(r[q], d) == Cut(Back(t, ops, q), d)
  {
    hide WF, Allowed, BuildData, Apply;
    var op, t1 := ops[0], Apply(t, ops[0]);
    var r := Replay(Fresh(m), UndoRecords(t, op)).tree;
    OpBack(t, op, m, q);
    CutEntry(r[q], d);
    if !Deletes(t, op, q) {
      var k := Next(t, op, q);
      BackStep(t, ops, q);
      CutEntry(m[k], d);
      assert Shape(m, d)[k] == BackShape(t1, ops[1..], d)[k];
      RestoredCut(t, op, q, EntryOf(m[k], Full), Back(t1, ops[1..], k), d);
    }
  }

  lemma BackShapeSkeleton(t: Tree, ops: seq<Op>, d: Detail, m: Tree)
    requires Shape(m, d) == BackShape(t, ops, d)
    ensures Shape(m, Skeleton) == Shape(t, Skeleton)
  {
    hide TraceOf, BuildData;
    ShapeKeys(m, d);
    assert BackShape(t, ops, d).Keys == t.Keys;
    forall q | q in t ensures EntryOf(m[q], Skeleton) == EntryOf(t[q], Skeleton) {
      assert Shape(m, d)[q] == BackShape(t, ops, d)[q];
    }
    SameEntriesSameShape(m, t, Skeleton);
  }

  lemma NoRunBack(t: Tree, d: Detail)
    ensures BackShape(t, [], d) == Shape(t, d)
  {
    forall q | q in t ensures Cut(Back(t, [], q), d) == EntryOf(t[q], d) {
    }
  }

  /** Replaying the records of one operation completes the undo of the later ones. */
  lemma UndoOne(t: Tree, ops: seq<Op>, m: Player, d: Detail)
    requires WF(t) && AllAllowed(t, ops) && ops != [] && Readable(t, ops[0])
    requires !m.aborted && WF(m.tree) && Shape(m.tree, d) == BackShape(Apply(t, ops[0]), ops[1..], d)
    ensures var r := Replay(m, UndoRecords(t, ops[0]));
            !r.aborted && WF(r.tree) && Shape(r.tree, d) == BackShape(t, ops, d)
  {
    hide WF, Allowed, BuildData, Apply, Back, Replay, UndoRecords;
    var op, t1 := ops[0], Apply(t, ops[0]);
    var r := Replay(m, UndoRecords(t, op));
    BackShapeSkeleton(t1, ops[1..], d, m.tree);
    OpUndone(t, op, Skeleton);
    assert r == Replay(Fresh(m.tree), UndoRecords(t, op));
    SameKeys(r.tree, t, Skeleton);
    forall q | q in t ensures EntryOf(r.tree[q], d) == Cut(Back(t, ops, q), d) {
      BackOne(t, ops, m.tree, q, d);
    }
  }

  /** Replaying the log of a run whose records can all be read, on any tree of the shape it produced, ends
      well formed with every node of the start as its trace says. */
  lemma {:induction false} RunBack(t: Tree, ops: seq<Op>, s: Player, d: Detail)
    requires WF(t) && AllAllowed(t, ops) && AllReadable(t, ops)
    requires !s.aborted && WF(s.tree) && Shape(s.tree, d) == Shape(RunOps(t, ops), d)
    ensures var r := Replay(s, LogOf(t, ops));
            !r.aborted && WF(r.tree) && Shape(r.tree, d) == BackShape(t, ops, d)
    decreases |ops|
  {
    hide Shape, BackShape, WF, Allowed, Apply, UndoRecords;
    if ops == [] {
      NoRunBack(t, d);
    } else {
      var op, t1 := ops[0], Apply(t, ops[0]);
      ApplyKeepsWF(t, op);
      RunBack(t1, ops[1..], s, d);
      var m := Replay(s, LogOf(t1, ops[1..]));
      ReplayConcat(s, UndoRecords(t, op), LogOf(t1, ops[1..]));
      UndoOne(t, ops, m, d);
    }
  }

  lemma BackAsBefore(t: Tree, ops: seq<Op>, q: Path, d: Detail)
    requires WF(t) && AllAllowed(t, ops) && AllReadable(t, ops) && q in t
    ensures Cut(Back(t, ops, q), d) == EntryOf(t[q], d) <==> ComesBack(t, ops, q, d)
  {
    hide BuildData, TraceOf, UndoableSet, StringForm, Allowed, Apply;
    var trace := TraceOf(t, ops, q);
    if trace.wasSet {
      TracedIsReadable(t, ops, q);
      assert Sound(t, q);
      SetRestores(t[q].value, trace.last);
    }
  }

  /** What a rollback makes of the start has its shape exactly if every trace allows it. */
  lemma BackShapeIff(t: Tree, ops: seq<Op>, d: Detail)
    requires WF(t) && AllAllowed(t, ops) && AllReadable(t, ops)
    ensures BackShape(t, ops, d) == Shape(t, d) <==> AllComeBack(t, ops, d)
  {
    hide WF, Back, ComesBack, AllAllowed, AllReadable;
    var a, b := BackShape(t, ops, d), Shape(t, d);
    assert a.Keys == b.Keys;
    forall q | q in t ensures a[q] == b[q] <==> ComesBack(t, ops, q, d) {
      BackAsBefore(t, ops, q, d);
    }
  }

  /** Rolling back a run whose records can all be read, from every tree of the shape the run produced,
      restores the start exactly when the trace of every node allows it. */
  lemma RunUndone(t: Tree, ops: seq<Op>, d: Detail)
    requires WF(t) && AllAllowed(t, ops) && AllReadable(t, ops)
    ensures Undoes(LogOf(t, ops), Shape(RunOps(t, ops), d), Shape(t, d), d, true) <==> AllComeBack(t, ops, d)
  {
    hide WF, LogOf, AllAllowed, AllReadable, AllComeBack, Shape, BackShape;
    BackShapeIff(t, ops, d);
    RunKeepsWF(t, ops);
    var end := Fresh(RunOps(t, ops));
    RunBack(t, ops, end, d);
    forall s: Player | !s.aborted && WF(s.tree) && Shape(s.tree, d) == Shape(RunOps(t, ops), d)
      ensures var r := Replay(s, LogOf(t, ops));
              !r.aborted && WF(r.tree) && Shape(r.tree, d) == BackShape(t, ops, d)
    {
      RunBack(t, ops, s, d);
    }
    assert !end.aborted && WF(end.tree) && Shape(end.tree, d) == Shape(RunOps(t, ops), d);
  }

  /** Whatever values were set, the records of a run lead back to the paths, kinds and child-name sets of
      its start, unless one of them cannot be read. */
  lemma {:induction false} RunSkeletonUndone(t: Tree, ops: seq<Op>)
    requires WF(t) && AllAllowed(t, ops)
    ensures Undoes(LogOf(t, ops), Shape(RunOps(t, ops), Skeleton), Shape(t, Skeleton), Skeleton, AllReadable(t, ops))
    decreases |ops|
  {
    if ops != [] {
      var t1 := Apply(t, ops[0]);
      ApplyKeepsWF(t, ops[0]);
      OpUndone(t, ops[0], Skeleton);
      RunSkeletonUndone(t1, ops[1..]);
      UndoesCompose(UndoRecords(t, ops[0]), LogOf(t1, ops[1..]), Shape(RunOps(t, ops), Skeleton), Shape(t1, Skeleton),
                    Shape(t, Skeleton), Skeleton, AllReadable(t1, ops[1..]), Readable(t, ops[0]));
    }
  }

  // ---------- runs with records that cannot be read ----------

  datatype Stretch = Stretch(start: Tree, ops: seq<Op>)

  /** The operations after the last one whose record cannot be read, and the tree they start from. */
  function Tail(t: Tree, ops: seq<Op>): Stretch
    decreases |ops|
  {
    if AllReadable(t, ops) then Stretch(t, ops) else Tail(Apply(t, ops[0]), ops[1..])
  }

  /** Every rollback: it stops at the newest record that cannot be read, on the tree right after the
      operation that logged it, and brings that tree back as the traces of the later operations say. */
  lemma {:induction false} RunRolledBack(t: Tree, ops: seq<Op>, d: Detail)
    requires WF(t) && AllAllowed(t, ops)
    ensures var r := Replay(Fresh(RunOps(t, ops)), LogOf(t, ops));
            var tail := Tail(t, ops);
            && WF(r.tree) && (r.aborted <==> !AllReadable(t, ops))
            && Shape(r.tree, d) == BackShape(tail.start, tail.ops, d)
    decreases |ops|
  {
    hide WF, Allowed, Apply, Readable, Shape, BackShape;
    var end := Fresh(RunOps(t, ops));
    if AllReadable(t, ops) {
      RunKeepsWF(t, ops);
      RunBack(t, ops, end, d);
    } else {
      var t1 := Apply(t, ops[0]);
      ApplyKeepsWF(t, ops[0]);
      RunRolledBack(t1, ops[1..], d);
      var m := Replay(end, LogOf(t1, ops[1..]));
      ReplayConcat(end, UndoRecords(t, ops[0]), LogOf(t1, ops[1..]));
      if m.aborted {
        AbortedStays(m, UndoRecords(t, ops[0]));
      } else {
        StopsAtUnreadable(t, ops[0], m);
      }
    }
  }

  lemma StopsAtUnreadable(t: Tree, op: Op, m: Player)
    requires Allowed(t, op) && !Readable(t, op) && !m.aborted
    ensures Replay(m, UndoRecords(t, op)) == m.(aborted := true)
  {
    ReplayOne(m, UndoRecords(t, op)[0]);
  }

  /** The node that the tail starts with at `q` ends up as the start had it there: of the same kind; with
      the start's value, which the tail never set or from which its own first value is rebuilt in the last
      format; and with the start's title, unless that was empty and the tail loses it. */
  predicate AsAtStart(t: Tree, tail: Stretch, q: Path, d: Detail)
    requires q in t && q in tail.start
  {
    var trace, first := TraceOf(tail.start, tail.ops, q), ValueAt(tail.start, q);
    && tail.start[q].Interior? == t[q].Interior?
    && (!d.Skeleton? && t[q].Leaf? ==>
          t[q].value == if trace.wasSet then BuildData(FormatOf(trace.last), Bytes(StringForm(first))) else first)
    && (d.Full? ==> t[q].title == if trace.titleLost then [] else tail.start[q].title)
  }

  /** Whether a rollback of the run restores its start up to detail `d`, as the operations alone tell: node
      by node if all records can be read, and otherwise node by node on the tree where the replay stops,
      which must have the paths of the start, with nothing created left over and nothing missing. */
  predicate Restores(t: Tree, ops: seq<Op>, d: Detail) {
    if AllReadable(t, ops) then AllComeBack(t, ops, d)
    else
      var tail := Tail(t, ops);
      tail.start.Keys == t.Keys && forall q | q in t.Keys :: AsAtStart(t, tail, q, d)
  }

  lemma StopsAsAtStart(t: Tree, tail: Stretch, q: Path, d: Detail)
    requires q in t && q in tail.start
    ensures Cut(Back(tail.start, tail.ops, q), d) == EntryOf(t[q], d) <==> AsAtStart(t, tail, q, d)
  {
    hide TraceOf, BuildData, StringForm;
  }

  lemma StopsAtShape(t: Tree, tail: Stretch, d: Detail)
    ensures BackShape(tail.start, tail.ops, d) == Shape(t, d)
            <==> tail.start.Keys == t.Keys && forall q | q in t.Keys :: AsAtStart(t, tail, q, d)
  {
    hide Back, AsAtStart;
    var a, b := BackShape(tail.start, tail.ops, d), Shape(t, d);
    assert a.Keys == tail.start.Keys && b.Keys == t.Keys;
    if tail.start.Keys == t.Keys {
      forall q | q in t.Keys ensures a[q] == b[q] <==> AsAtStart(t, tail, q, d) {
        assert q in tail.start && q in t;
        StopsAsAtStart(t, tail, q, d);
      }
    }
  }

  /** For every run: exactly when a rollback restores the start. */
  lemma RunRolledBackIff(t: Tree, ops: seq<Op>, d: Detail)
    requires WF(t) && AllAllowed(t, ops)
    ensures var r := Replay(Fresh(RunOps(t, ops)), LogOf(t, ops));
            && WF(r.tree) && (r.aborted <==> !AllReadable(t, ops))
            && (Shape(r.tree, d) == Shape(t, d) <==> Restores(t, ops, d))
  {
    hide WF, LogOf, Shape, BackShape, AllComeBack, RunOps, AllAllowed;
    RunRolledBack(t, ops, d);
    if AllReadable(t, ops) {
      BackShapeIff(t, ops, d);
    } else {
      StopsAtShape(t, Tail(t, ops), d);
    }
  }

  /** After an operation whose record cannot be read, a rollback ends on the tree right after it, and
      restores that tree exactly when the later operations come back. */
  lemma UnreadableStopsReplay(t: Tree, op: Op, later: seq<Op>, d: Detail)
    requires WF(t) && Allowed(t, op) && !Readable(t, op)
    requires AllAllowed(Apply(t, op), later) && AllReadable(Apply(t, op), later)
    ensures var t1 := Apply(t, op);
            var r := Replay(Fresh(RunOps(t1, later)), UndoRecords(t, op) + LogOf(t1, later));
            && r.aborted && WF(r.tree)
            && (Shape(r.tree, d) == Shape(t1, d) <==> AllComeBack(t1, later, d))
  {
    hide WF, Allowed, Apply, Readable, Shape, BackShape, AllComeBack;
    var ops := [op] + later;
    assert ops[0] == op && ops[1..] == later;
    RunRolledBack(t, ops, d);
    ApplyKeepsWF(t, op);
    BackShapeIff(Apply(t, op), later, d);
  }

  // ---------- runs that show the condition is about the whole run ----------

  /** Neither set of a leaf can be undone alone, and yet the run is: only the first and the last value
      matter, since replay rebuilds with the format the leaf has by then. */
  lemma DetourComesBack()
    ensures var t := OneLeaf(Str(Chr, [120]), []);
            var ops := [SetLeaf([A_NAME], Str(Int, [53])), SetLeaf([A_NAME], Str(Chr, [121]))];
            && WF(t) && AllAllowed(t, ops) && AllReadable(t, ops) && Restores(t, ops, Full)
            && !Clean(t, ops[0], Values) && !Clean(Apply(t, ops[0]), ops[1], Values)
  {
    var t := OneLeaf(Str(Chr, [120]), []);
    var ops := [SetLeaf([A_NAME], Str(Int, [53])), SetLeaf([A_NAME], Str(Chr, [121]))];
    OneLeafWF(Str(Chr, [120]), []);
    var t1 := Apply(t, ops[0]);
    var t2 := Apply(t1, ops[1]);
    assert ops[1..] == [ops[1]] && ops[1..][1..] == [];
    forall q | q in t ensures ComesBack(t, ops, q, Full) {
      assert TraceOf(t2, [], q) == Trace(false, ValueAt(t2, q), false);
      assert TraceOf(t1, ops[1..], q) == Trace(q == [A_NAME], ValueAt(t2, q), false);
      assert TraceOf(t, ops, q) == Trace(q == [A_NAME], ValueAt(t2, q), false);
    }
  }

  /** The title of a deleted leaf comes back when the same run had set it before: the older record holds
      the first title. */
  lemma RetitledThenDeleted()
    ensures var t := OneLeaf(Null, [98]);
            var ops := [Retitle([A_NAME], [99]), DeleteNode([A_NAME])];
            WF(t) && AllAllowed(t, ops) && AllReadable(t, ops) && Restores(t, ops, Full)
  {
    var t := OneLeaf(Null, [98]);
    var ops := [Retitle([A_NAME], [99]), DeleteNode([A_NAME])];
    OneLeafWF(Null, [98]);
    var t1 := Apply(t, ops[0]);
    assert ops[1..] == [ops[1]] && ops[1..][1..] == [];
    forall q | q in t ensures ComesBack(t, ops, q, Full) {
      var t2 := Apply(t1, ops[1]);
      assert TraceOf(t2, [], q) == Trace(false, ValueAt(t2, q), false);
      assert TraceOf(t1, ops[1..], q) == Trace(false, ValueAt(t1, q), q == [A_NAME]);
      assert TraceOf(t, ops, q) == Trace(false, ValueAt(t1, q), false);
    }
  }
}
