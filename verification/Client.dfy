/** A caller of the plugin tree: what the contracts of the public calls give it together. */
module Client {
  import opened DmText
  import opened Uri
  import opened DmtValue
  import opened PluginTree
  import opened UndoLog
  import opened Wbxml
  import opened LogLayout
  import opened LogReplay
  import opened RwNode
  import opened RwPlugin
  import Runs
  import Session

  const JustRoot: Tree := map[[] := Interior([], [])]

  lemma JustRootWF()
    ensures WF(JustRoot)
  {
    assert Sound(JustRoot, []);
  }

  function Start(): Session.State {
    Session.State(JustRoot, [], false)
  }

  /** Begin, create one leaf: a session of its own. */
  function Calls(op: Op): seq<Session.Action> {
    [Session.Begin, Session.Mutate(op)]
  }

  lemma CallsRun(op: Op)
    requires Allowed(JustRoot, op)
    ensures var begun := Session.Run(Start(), [Session.Begin]);
            && begun == Session.State(JustRoot, [], true)
            && Session.Run(Start(), Calls(op)) == Session.Step(begun, Session.Mutate(op))
    ensures Session.Proper(Start(), Calls(op)) && Session.Since(Calls(op)) == [op]
    ensures Session.Checkpoint(Start(), Calls(op)) == JustRoot
  {
    var all, one := Calls(op), [Session.Begin];
    assert all[..1] == one && one[..0] == [];
    assert Session.Run(Start(), []) == Start();
    assert Session.Run(Start(), one) == Session.Step(Start(), Session.Begin);
  }

  /** A create is always undone. */
  lemma CreateRestores(p: Path, v: Value)
    requires Allowed(JustRoot, CreateLeaf(p, v))
    ensures Runs.AllReadable(JustRoot, [CreateLeaf(p, v)]) && Runs.Restores(JustRoot, [CreateLeaf(p, v)], Full)
  {
    var op := CreateLeaf(p, v);
    var t1 := Apply(JustRoot, op);
    assert [op][1..] == [];
    assert Runs.AllReadable(t1, []);
    forall q | q in JustRoot ensures Runs.ComesBack(JustRoot, [op], q, Full) {
      assert Runs.TraceOf(t1, [], q) == Runs.Trace(false, Runs.ValueAt(t1, q), false);
    }
  }

  method OpenAtomic(rootPath: Text) returns (tree: RWTree)
    ensures fresh(tree) && fresh(tree.objects) && tree.log == null && tree.rootPath == rootPath
    ensures tree.Valid() && tree.State() == Session.State(JustRoot, [], true)
  {
    hide RWTree.Rep, WF;
    tree := new RWTree(rootPath);
    var status := tree.Begin();
  }

  /** The first create of a session. */
  method CreateFirst(tree: RWTree, name: Text, value: Value)
    requires tree.Valid() && tree.State() == Session.State(JustRoot, [], true) && tree.log == null
    requires |tree.rootPath| < LONG_ROOT && ValidName(name) && |name| < MAX_FIELD && ValidValue(value)
    modifies tree, tree.objects
    ensures tree.InSession(Start(), Calls(CreateLeaf([name], value)))
    ensures fresh(tree.objects - old(tree.objects)) && (tree.log == null || fresh(tree.log))
  {
    hide Loggable, WF, RWTree.Rep, Session.Run, Session.Proper, Calls, Encode;
    var p, op := [name], CreateLeaf([name], value);
    assert Parent(p) == [] && Last(p) == name && Join(p) == name;
    JustRootWF();
    CallsRun(op);
    DeleteFits(tree.rootPath, p);
    assert tree.Records() + UndoRecords(tree.tree, op) == [DeleteRec(p)];
    var status := tree.Mutate(op);
  }

  /** A new tree, one atomic create, and its rollback: the tree holds its root again, without a title. */
  method CreateAndRollBack(rootPath: Text, name: Text, value: Value) returns (tree: RWTree, status: Status)
    requires |rootPath| < LONG_ROOT && ValidName(name) && |name| < MAX_FIELD && ValidValue(value)
    ensures fresh(tree) && tree.Valid() && status != IoFailure
    ensures Shape(tree.tree, Full) == Shape(JustRoot, Full) && tree.Records() == [] && !tree.atomic
  {
    hide WF, Shape, RWTree.Valid, Session.Run, Session.Proper, Session.Since, Session.Checkpoint, Calls,
      Runs.AllReadable, Runs.Restores;
    var op := CreateLeaf([name], value);
    assert Parent([name]) == [] && Last([name]) == name;
    CallsRun(op);
    CreateRestores([name], value);
    tree := OpenAtomic(rootPath);
    CreateFirst(tree, name, value);
    status := tree.Rollback(Start(), Calls(op));
  }
}
