/** `DmtRWPluginTree` and `DmtRWPluginNode`: the flat map of node objects, the child lists inside them,
    and the undo log, changed in place. Every method is proved against the operation of the same name on
    tree values, so all that is proved about those holds of these objects. */
module RwPlugin {
  import opened DmText
  import opened Uri
  import opened DmtValue
  import opened PluginTree
  import opened UndoLog
  import opened Wbxml
  import opened LogLayout
  import opened PluginLog
  import opened Replaying
  import opened RwNode
  import Looping = LogReplay
  import Undo = Rollback
  import Runs
  import Session

  class RWTree {
    const rootPath: Text
    var nodes: map<Path, RWNode>
    var playback: bool
    var atomic: bool
    var log: Log?

    /** The tree the map's objects hold, and all the objects the map has ever held. */
    ghost var tree: Tree
    ghost var objects: set<RWNode>

    ghost predicate Shows(t: Tree)
      reads this`nodes, this`objects, objects`path, objects`name, objects`value, objects`children, objects`title
    {
      ShowsIn(nodes, objects, t)
    }

    ghost function Logs(): set<Log>
      reads this`log
    {
      if log == null then {} else {log}
    }

    ghost predicate LogValid()
      reads this`log, Logs()`file, Logs()`records, Logs()`files, Logs()`prevRecord
    {
      log != null ==> log.Valid() && log.rootPath == rootPath
    }

    /** What holds between any two steps, also in the middle of a replay: every key of the map is the path
        its node stores, and the log file is in order. */
    ghost predicate Rep()
      reads this`nodes, this`objects, this`tree, this`log
      reads objects`path, objects`name, objects`value, objects`children, objects`title
      reads Logs()`file, Logs()`records, Logs()`files, Logs()`prevRecord
    {
      Shows(tree) && LogValid()
    }

    ghost function Records(): seq<Record>
      reads this`log, Logs()`records
    {
      if log == null then [] else log.records
    }

    ghost function State(): Session.State
      reads this, log
    {
      Session.State(tree, Records(), atomic)
    }

    /** What holds between public calls. */
    ghost predicate Valid()
      reads this, objects, log
    {
      Rep() && WF(tree) && !playback
    }

    /** A plugin tree that holds its root only. */
    constructor (rootPath: Text)
      ensures Valid() && this.rootPath == rootPath
      ensures log == null && fresh(objects)
      ensures State() == Session.State(map[[] := Interior([], [])], [], false)
    {
      this.rootPath := rootPath;
      playback, atomic, log := false, false, null;
      var root := new RWNode.InitInterior([], []);
      nodes := map[[] := root];
      tree := map[[] := Interior([], [])];
      objects := {root};
    }

    // ---------- the flat map ----------

    method GetNode(path: Path) returns (status: Status, node: RWNode?)
      ensures status == if path in nodes then Success else NotFound
      ensures node == if path in nodes then nodes[path] else null
    {
      if path in nodes {
        return Success, nodes[path];
      }
      return NotFound, null;
    }

    method SetNode(path: Path, node: RWNode)
      modifies this`nodes
      ensures nodes == old(nodes)[path := node]
    {
      nodes := nodes[path := node];
    }

    method RemoveNode(path: Path) returns (status: Status)
      modifies this`nodes
      ensures nodes == old(nodes) - {path}
      ensures status == if path in old(nodes) then Success else NotFound
    {
      var node;
      status, node := GetNode(path);
      if status == Success {
        nodes := nodes - {path};
      }
    }

    method GetChildNodeNames(path: Path) returns (status: Status, names: seq<Text>)
      ensures status == if path !in nodes then NotFound else if nodes[path].isLeaf then Fail else Success
      ensures status == Success ==> names == nodes[path].children
    {
      names := [];
      var node;
      status, node := GetNode(path);
      if status != Success {
        return;
      }
      if node.isLeaf {
        return Fail, [];
      }
      names := node.children;
    }

    /** `GetChildNodes`: the objects of the listed children, or an error at the first that is missing. */
    method GetChildNodes(node: RWNode) returns (status: Status, kids: seq<RWNode>)
      ensures status == Success <==> !node.isLeaf && forall i :: 0 <= i < |node.children| ==>
              node.path + [node.children[i]] in nodes
      ensures status == Success || status == if node.isLeaf then Fail else NotFound
      ensures status == Success ==> |kids| == |node.children|
      ensures node.isLeaf ==> kids == []
      ensures |kids| <= |node.children| || node.isLeaf
      ensures forall i :: 0 <= i < |kids| ==>
                node.path + [node.children[i]] in nodes && kids[i] == nodes[node.path + [node.children[i]]]
    {
      kids := [];
      if node.isLeaf {
        return Fail, kids;
      }
      status := Success;
      for i := 0 to |node.children|
        invariant |kids| == i && status == Success
        invariant forall j :: 0 <= j < i ==>
                  node.path + [node.children[j]] in nodes && kids[j] == nodes[node.path + [node.children[j]]]
      {
        var child;
        status, child := GetNode(node.path + [node.children[i]]);
        if status != Success {
          return;
        }
        kids := kids + [child];
      }
    }

    /** In a well-formed tree all listed children are found. */
    method GetKids(node: RWNode, ghost t: Tree) returns (status: Status, kids: seq<RWNode>)
      requires Shows(t) && WF(t) && node.path in nodes && nodes[node.path] == node && !node.isLeaf
      ensures status == Success && |kids| == |node.children|
      ensures forall i :: 0 <= i < |kids| ==>
                node.path + [node.children[i]] in nodes && kids[i] == nodes[node.path + [node.children[i]]]
    {
      assert t[node.path] == node.View();
      assert Sound(t, node.path);
      status, kids := GetChildNodes(node);
    }

    // ---------- logging ----------

    /** Logging leaves the nodes alone. */
    method LogOne(r: Record, ghost t: Tree)
      requires Shows(t) && log != null && log.Valid() && Loggable(log.rootPath, log.records + [r])
      modifies log
      ensures log.Valid() && log.records == old(log.records) + [r]
      ensures Shows(t)
    {
      log.LogRecord(r);
    }

    /** The records of a subtree, children first. */
    method LogAdd(node: RWNode, ghost t: Tree, ghost limit: seq<Record>)
      requires Shows(t) && WF(t)
      requires node.path in nodes && nodes[node.path] == node
      requires log != null && log.Valid() && Loggable(log.rootPath, limit)
      requires log.records + AddRecords(t, node.path) <= limit
      modifies log
      ensures log.Valid() && log.records == old(log.records) + AddRecords(t, node.path)
      ensures Shows(t)
      decreases MaxLen(t.Keys) - |node.path|, 1
    {
      ghost var p, before := node.path, log.records;
      assert t[p] == node.View();
      if node.isLeaf {
        assert AddRecords(t, p) == [AddRecOf(t, p)];
      } else {
        LogChildren(node, t, limit);
        TopLogged(t, p, before);
      }
      LoggableUpTo(log.rootPath, before + AddRecords(t, p), limit);
      LogOne(AddRec(node.path, PropsOf(node.View()), node.title), t);
    }

    method LogChildren(node: RWNode, ghost t: Tree, ghost limit: seq<Record>)
      requires Shows(t) && WF(t)
      requires node.path in nodes && nodes[node.path] == node && !node.isLeaf
      requires log != null && log.Valid() && Loggable(log.rootPath, limit)
      requires log.records + AddRecords(t, node.path) <= limit
      modifies log
      ensures log.Valid() && log.records == old(log.records) + ChildRecords(t, node.path, |node.children|)
      ensures Shows(t)
      decreases MaxLen(t.Keys) - |node.path|, 0
    {
      ghost var p, before := node.path, log.records;
      assert t[p] == node.View();
      var status, kids := GetKids(node, t);
      for i := 0 to |kids|
        invariant Shows(t)
        invariant log.Valid() && log.records == before + ChildRecords(t, p, i)
      {
        ChildPresent(t, p, i);
        NextChildLogged(t, p, before, i, limit);
        LogAdd(kids[i], t, limit);
      }
    }

    method InitLog()
      requires Shows(tree) && LogValid() && |rootPath| < 0x10000
      modifies this`log
      ensures Shows(tree) && LogValid() && log != null && Records() == old(Records())
      ensures old(log) == null ==> fresh(log)
      ensures old(log) != null ==> log == old(log)
    {
      if log == null {
        log := new Log(rootPath);
      }
    }

    /** The records that rebuild a subtree and link it again. */
    method LogRemove(uri: Path, node: RWNode)
      requires Shows(tree) && WF(tree) && node.path in nodes && nodes[node.path] == node
      requires log != null && log.Valid() && log.rootPath == rootPath
      requires Loggable(rootPath, log.records + (LinkRecords(uri) + AddRecords(tree, node.path)))
      modifies log
      ensures log.Valid() && log.records == old(log.records) + (LinkRecords(uri) + AddRecords(tree, node.path))
      ensures Shows(tree)
    {
      hide Loggable, FileOf, WF, LinkRecords;
      ghost var before, links, adds := log.records, LinkRecords(uri), AddRecords(tree, node.path);
      assert before + (links + adds) == before + links + adds;
      LoggableUpTo(rootPath, before + links, before + links + adds);
      LinkOrNot(uri);
      if uri != [] {
        LogOne(AddChildRec(uri), tree);
      }
      assert log.records == before + links;
      LogAdd(node, tree, before + links + adds);
    }

    method LogInverse(cmd: Command, uri: Path, at: Path, node: RWNode?)
      requires Shows(tree)
      requires !cmd.Add? ==> at in nodes && node == nodes[at]
      requires cmd.Remove? ==> WF(tree)
      requires cmd.ReplaceValue? ==> node.isLeaf
      requires log != null && log.Valid() && log.rootPath == rootPath
      requires Loggable(rootPath, log.records + CommandRecords(tree, cmd, uri, at))
      modifies log
      ensures log.Valid() && log.records == old(log.records) + CommandRecords(tree, cmd, uri, at)
      ensures Shows(tree)
    {
      hide Loggable, FileOf;
      match cmd {
        case Add => LogOne(DeleteRec(uri), tree);
        case Remove => LogRemove(uri, node);
        case ReplaceValue => LogOne(ValueRec(uri, StringForm(node.value)), tree);
        case ReplaceName => LogOne(NameRec(uri, node.name), tree);
        case ReplaceTitle => LogOne(TitleRec(uri, node.title), tree);
      }
    }

    /** `LogCommand`: nothing while a log is replayed or a parent re-linked; otherwise the inverse of the
        mutation about to happen. */
    method LogCommand(cmd: Command, uri: Path, at: Path, node: RWNode?) returns (status: Status)
      requires Shows(tree) && (!playback ==> LogValid())
      requires !cmd.Add? ==> at in nodes && node == nodes[at]
      requires !playback && cmd.Remove? ==> WF(tree)
      requires cmd.ReplaceValue? ==> node.isLeaf
      requires !playback ==> Loggable(rootPath, Records() + CommandRecords(tree, cmd, uri, at))
      modifies this`log, log
      ensures Shows(tree) && (!playback ==> LogValid()) && status == Success
      ensures playback ==> log == old(log) && (log != null ==> unchanged(log))
      ensures !playback ==> Records() == old(Records()) + CommandRecords(tree, cmd, uri, at)
      ensures log == old(log) || (old(log) == null && fresh(log))
    {
      hide Loggable, FileOf;
      status := Success;
      if !playback {
        InitLog();
        LogInverse(cmd, uri, at, node);
      }
    }

    // ---------- one node ----------

    method AssignValue(node: RWNode, value: Value)
      requires Shows(tree) && node.path in nodes && nodes[node.path] == node && node.isLeaf
      modifies this`tree, node`value
      ensures Shows(tree) && tree == Apply(old(tree), SetLeaf(node.path, value))
    {
      node.value := value;
      tree := tree[node.path := Leaf(value, node.title)];
    }

    method AssignTitle(node: RWNode, title: Text)
      requires Shows(tree) && node.path in nodes && nodes[node.path] == node
      modifies this`tree, node`title
      ensures Shows(tree) && tree == Apply(old(tree), Retitle(node.path, title))
    {
      node.title := title;
      tree := tree[node.path := node.View()];
    }

    /** `SetValue` with a list of child names. The tree only does this with logging switched off, and then
        `LogCommand` returns at once. */
    method SetChildren(node: RWNode, names: seq<Text>) returns (status: Status)
      requires Shows(tree) && playback && node.path in nodes && nodes[node.path] == node && !node.isLeaf
      modifies this`tree, node`children
      ensures Shows(tree) && status == Success
      ensures tree == old(tree)[node.path := Interior(names, node.title)]
    {
      node.children := names;
      tree := tree[node.path := Interior(names, node.title)];
      status := Success;
    }

    /** `DmtRWPluginNode::SetValue` on a leaf. */
    method SetValue(node: RWNode, value: Value) returns (status: Status)
      requires Rep() && node.path in nodes && nodes[node.path] == node && node.isLeaf
      requires !playback ==> Loggable(rootPath, Records() + CommandRecords(tree, ReplaceValue, node.path, node.path))
      modifies this`log, log, this`tree, node`value
      ensures Rep() && status == Success
      ensures tree == Apply(old(tree), SetLeaf(node.path, value))
      ensures playback ==> log == old(log) && (log != null ==> unchanged(log))
      ensures !playback ==> Records() == old(Records() + CommandRecords(tree, ReplaceValue, node.path, node.path))
      ensures log == old(log) || (old(log) == null && fresh(log))
    {
      hide Loggable, FileOf, ShowsIn;
      status := LogCommand(ReplaceValue, node.path, node.path, node);
      AssignValue(node, value);
    }

    method SetTitle(node: RWNode, title: Text) returns (status: Status)
      requires Rep() && node.path in nodes && nodes[node.path] == node
      requires !playback ==> Loggable(rootPath, Records() + CommandRecords(tree, ReplaceTitle, node.path, node.path))
      modifies this`log, log, this`tree, node`title
      ensures Rep() && status == Success
      ensures tree == Apply(old(tree), Retitle(node.path, title))
      ensures playback ==> log == old(log) && (log != null ==> unchanged(log))
      ensures !playback ==> Records() == old(Records() + CommandRecords(tree, ReplaceTitle, node.path, node.path))
      ensures log == old(log) || (old(log) == null && fresh(log))
    {
      hide Loggable, FileOf, ShowsIn;
      status := LogCommand(ReplaceTitle, node.path, node.path, node);
      AssignTitle(node, title);
    }

    // ---------- create ----------

    /** A new object takes its place in the map. */
    method PutNode(node: RWNode, value: Node)
      requires Shows(tree) && node.name == LastName(node.path) && node.View() == value
      modifies this`nodes, this`tree, this`objects
      ensures Shows(tree) && tree == old(tree)[node.path := value]
      ensures nodes == old(nodes)[node.path := node] && objects == old(objects) + {node}
    {
      SetNode(node.path, node);
      objects := objects + {node};
      tree := tree[node.path := value];
    }

    method CreateInteriorNodeInternal(path: Path, children: seq<Text>) returns (status: Status, created: RWNode?)
      requires Shows(tree)
      modifies this`nodes, this`tree, this`objects
      ensures Shows(tree) && status == Success && tree == old(tree)[path := Interior(children, [])]
      ensures fresh(created) && nodes == old(nodes)[path := created] && objects == old(objects) + {created}
    {
      var node := new RWNode.InitInterior(path, children);
      PutNode(node, Interior(children, []));
      status, created := GetNode(path);
    }

    method CreateLeafNodeInternal(path: Path, value: Value) returns (status: Status, created: RWNode?)
      requires Shows(tree)
      modifies this`nodes, this`tree, this`objects
      ensures Shows(tree) && status == Success && tree == old(tree)[path := Leaf(value, [])]
      ensures fresh(created) && nodes == old(nodes)[path := created] && objects == old(objects) + {created}
    {
      var node := new RWNode.InitLeaf(path, value);
      PutNode(node, Leaf(value, []));
      status, created := GetNode(path);
    }

    /** How a parent's list is set when one of its children comes or goes: logging is off meanwhile, and
        back as it was afterwards. */
    method SetChildrenUnlogged(parent: RWNode, names: seq<Text>) returns (status: Status)
      requires Shows(tree) && parent.path in nodes && nodes[parent.path] == parent && !parent.isLeaf
      modifies this`playback, this`tree, parent`children
      ensures Shows(tree) && status == Success && playback == old(playback)
      ensures tree == old(tree)[parent.path := Interior(names, parent.title)]
    {
      var needLogging := playback;
      playback := true;
      status := SetChildren(parent, names);
      playback := needLogging;
    }

    /** How a create or a link ends: the parent is there, missing, or a leaf. */
    ghost function ParentStatus(t: Tree, path: Path): (status: Status)
      requires path != []
      ensures status == Success <==> HasParent(t, path)
      ensures (status == NotFound <==> Parent(path) !in t) && status != IoFailure
    {
      if Parent(path) !in t then NotFound else if t[Parent(path)].Leaf? then Fail else Success
    }

    method LinkToParentNode(path: Path) returns (status: Status)
      requires Shows(tree) && path != []
      modifies this`playback, this`tree, objects`children
      ensures Shows(tree) && playback == old(playback)
      ensures tree == if HasParent(old(tree), path) then Link(old(tree), path) else old(tree)
      ensures status == ParentStatus(old(tree), path)
    {
      var names;
      status, names := GetChildNodeNames(Parent(path));
      if status != Success {
        return;
      }
      names := names + [Last(path)];
      var parent;
      status, parent := GetNode(Parent(path));
      status := SetChildrenUnlogged(parent, names);
    }

    /** The parent's list and the parent itself, as `DeleteNode` and `Rename` look them up. */
    method GetParent(path: Path) returns (status: Status, names: seq<Text>, parent: RWNode)
      requires Shows(tree) && HasParent(tree, path)
      ensures status == Success && names == tree[Parent(path)].children
      ensures Parent(path) in nodes && parent == nodes[Parent(path)] && parent.path == Parent(path) && !parent.isLeaf
      ensures parent.title == tree[Parent(path)].title && parent in objects
    {
      status, names := GetChildNodeNames(Parent(path));
      var node;
      status, node := GetNode(Parent(path));
      parent := node;
    }

    // ---------- delete ----------

    method DeleteSubTree(node: RWNode, ghost t: Tree) returns (status: Status)
      requires WF(t) && MirrorsIn(nodes, t, node.path)
      requires node.path in nodes && nodes[node.path] == node
      modifies this`nodes
      ensures status == Success && nodes == RemoveUnder(old(nodes), node.path)
      decreases MaxLen(t.Keys) - |node.path|, 1
    {
      assert t[node.path] == node.View();
      if node.isLeaf {
        LeafAlone(t, nodes, node.path);
      } else {
        DeleteChildren(node, t);
        WithoutAllChildren(t, old(nodes), node.path);
      }
      status := RemoveNode(node.path);
    }

    method DeleteChildren(node: RWNode, ghost t: Tree)
      requires WF(t) && MirrorsIn(nodes, t, node.path)
      requires node.path in nodes && nodes[node.path] == node && !node.isLeaf
      modifies this`nodes
      ensures nodes == WithoutChildren(old(nodes), node.path, node.children, |node.children|)
      ensures node.path in nodes
      decreases MaxLen(t.Keys) - |node.path|, 0
    {
      hide WF, RemoveUnder, WithoutChildren;
      ghost var m0, p := nodes, node.path;
      assert t[p] == node.View();
      WithoutNoChildren(m0, p, node.children);
      var status, kids := GetMirroredKids(node, t);
      for i := 0 to |kids|
        invariant nodes == WithoutChildren(m0, p, node.children, i)
      {
        ChildPresent(t, p, i);
        WithoutNextChild(m0, p, node.children, i);
        ChildMirrored(m0, nodes, t, p, i);
        DeleteChild(kids[i], t);
      }
      TopStays(m0, p, node.children);
    }

    method DeleteChild(child: RWNode, ghost t: Tree)
      requires WF(t) && MirrorsIn(nodes, t, child.path)
      requires child.path in nodes && nodes[child.path] == child
      modifies this`nodes
      ensures nodes == RemoveUnder(old(nodes), child.path)
      decreases MaxLen(t.Keys) - |child.path|, 2
    {
      var status;
      assert t[child.path] == child.View();
      if child.isLeaf {
        LeafAlone(t, nodes, child.path);
        status := RemoveNode(child.path);
      } else {
        status := DeleteSubTree(child, t);
      }
    }

    /** Takes the name of a deleted node off its parent's list. */
    method UnlinkFromParent(path: Path) returns (status: Status)
      requires Shows(tree) && HasParent(tree, path) && NoDup(tree[Parent(path)].children)
      modifies this`playback, this`tree, objects`children
      ensures Shows(tree) && status == Success && playback == old(playback)
      ensures tree == Unlink(old(tree), path)
    {
      hide ShowsIn;
      var names;
      var parent;
      status, names, parent := GetParent(path);
      names := RemoveEveryName(names, Last(path));
      status := SetChildrenUnlogged(parent, names);
    }

    method DeleteNode(path: Path) returns (status: Status)
      requires Rep() && WF(tree)
      requires !playback ==> Loggable(rootPath, Records() + DeleteRecords(tree, path))
      modifies this`nodes, this`playback, this`log, log, this`tree, objects`children
      ensures Rep() && playback == old(playback)
      ensures tree == DeletePath(old(tree), path)
      ensures status == if path in old(tree) then Success else NotFound
      ensures playback ==> log == old(log) && (log != null ==> unchanged(log))
      ensures !playback ==> Records() == old(Records() + DeleteRecords(tree, path))
      ensures log == old(log) || (old(log) == null && fresh(log))
    {
      hide Loggable, FileOf;
      var node;
      status, node := GetNode(path);
      if status != Success {
        return;
      }
      status := DeleteFound(path, node);
    }

    method DeleteFound(path: Path, node: RWNode) returns (status: Status)
      requires Rep() && WF(tree) && path in nodes && nodes[path] == node
      requires !playback ==> Loggable(rootPath, Records() + CommandRecords(tree, Remove, path, path))
      modifies this`nodes, this`playback, this`log, log, this`tree, objects`children
      ensures Rep() && status == Success && playback == old(playback)
      ensures tree == DeletePath(old(tree), path)
      ensures playback ==> log == old(log) && (log != null ==> unchanged(log))
      ensures !playback ==> Records() == old(Records() + CommandRecords(tree, Remove, path, path))
      ensures log == old(log) || (old(log) == null && fresh(log))
    {
      hide Loggable, FileOf, ShowsIn, DeletePath, AddRecords;
      status := LogCommand(Remove, path, path, node);
      status := DeleteLinked(path, node);
    }

    /** `DeleteNode` after the log has been written. */
    method DeleteLinked(path: Path, node: RWNode) returns (status: Status)
      requires Shows(tree) && WF(tree) && path in nodes && nodes[path] == node
      modifies this`nodes, this`playback, this`tree, objects`children
      ensures Shows(tree) && status == Success && playback == old(playback)
      ensures tree == DeletePath(old(tree), path)
    {
      status := Success;
      if path != [] {
        assert Linked(tree, path);
        assert Sound(tree, Parent(path));
      }
      ClearSubTree(path, node);
      if path != [] {
        status := UnlinkFromParent(path);
      }
    }

    method ClearSubTree(path: Path, node: RWNode)
      requires Shows(tree) && WF(tree) && path in nodes && nodes[path] == node
      modifies this`nodes, this`tree
      ensures Shows(tree) && tree == RemoveUnder(old(tree), path)
    {
      var status := DeleteSubTree(node, tree);
      tree := RemoveUnder(tree, path);
    }

    method GetMirroredKids(node: RWNode, ghost t: Tree) returns (status: Status, kids: seq<RWNode>)
      requires WF(t) && MirrorsIn(nodes, t, node.path)
      requires node.path in nodes && nodes[node.path] == node && !node.isLeaf
      ensures status == Success && |kids| == |node.children|
      ensures forall i :: 0 <= i < |kids| ==>
                node.path + [node.children[i]] in nodes && kids[i] == nodes[node.path + [node.children[i]]]
    {
      assert t[node.path] == node.View();
      forall i | 0 <= i < |node.children| ensures node.path + [node.children[i]] in nodes {
        ChildPresent(t, node.path, i);
      }
      status, kids := GetChildNodes(node);
    }

    // ---------- rename ----------

    /** The parent's list gets the new name at its end, without a record. */
    method RelinkParent(path: Path, name: Text) returns (status: Status)
      requires Shows(tree) && HasParent(tree, path)
      modifies this`playback, this`tree, objects`children
      ensures Shows(tree) && status == Success && playback == old(playback)
      ensures tree == Link(Unlink(old(tree), path), Parent(path) + [name])
    {
      hide ShowsIn;
      var names;
      var parent;
      status, names, parent := GetParent(path);
      names := RemoveName(names, Last(path));
      names := names + [name];
      status := SetChildrenUnlogged(parent, names);
    }

    /** `DmtRWPluginNode::Rename`: the new name joins the parent's list in place of the old one, then the
        subtree moves. */
    method Rename(node: RWNode, name: Text) returns (status: Status)
      requires Rep() && WF(tree) && node.path in nodes && nodes[node.path] == node
      requires node.path != [] && ValidName(name)
      requires !playback ==> Loggable(rootPath, Records() + RenameRecords(tree, node.path, name))
      modifies this`nodes, this`playback, this`log, log, this`tree, objects`children, objects`path, node`name
      ensures Rep() && status == Success && playback == old(playback)
      ensures tree == RenamePath(old(tree), old(node.path), name)
      ensures playback ==> log == old(log) && (log != null ==> unchanged(log))
      ensures !playback ==> Records() == old(Records() + RenameRecords(tree, node.path, name))
      ensures log == old(log) || (old(log) == null && fresh(log))
    {
      hide Loggable, FileOf, WF, RenamePath;
      status := LogCommand(ReplaceName, Parent(node.path) + [name], node.path, node);
      status := RenameLinked(node, name);
    }

    /** `Rename` after the log has been written. */
    method RenameLinked(node: RWNode, name: Text) returns (status: Status)
      requires Shows(tree) && WF(tree) && node.path in nodes && nodes[node.path] == node
      requires node.path != [] && ValidName(name)
      modifies this`nodes, this`playback, this`tree, objects`children, objects`path, node`name
      ensures Shows(tree) && status == Success && playback == old(playback)
      ensures tree == RenamePath(old(tree), old(node.path), name)
    {
      hide WF, RenamePath, Relocate, Link, Unlink;
      ghost var t := tree;
      RelinkedTop(t, node.path, name);
      status := RelinkParent(node.path, name);
      status := MoveSubTree(node, name, t);
    }

    /** The second half of `Rename`. */
    method MoveSubTree(node: RWNode, name: Text, ghost t: Tree) returns (status: Status)
      requires WF(t) && SameUnderTop(t, tree, node.path)
      requires Shows(tree) && node.path in nodes && nodes[node.path] == node
      modifies this`nodes, this`tree, objects`path, node`name
      ensures Shows(tree) && status == Success
      ensures tree == Relocate(old(tree), old(node.path), Parent(old(node.path)) + [name])
    {
      hide WF, Relocate, ObjectsMoved;
      ghost var m0, p := nodes, node.path;
      status := MoveObjects(node, name, t);
      ShowsMoved(m0, nodes, objects, tree, p, Parent(p) + [name]);
      tree := Relocate(tree, p, Parent(p) + [name]);
    }

    method MoveObjects(node: RWNode, name: Text, ghost t: Tree) returns (status: Status)
      requires WF(t) && SameUnderTop(t, tree, node.path)
      requires Shows(tree) && node.path in nodes && nodes[node.path] == node
      modifies this`nodes, objects`path, node`name
      ensures status == Success && nodes == Relocate(old(nodes), old(node.path), Parent(old(node.path)) + [name])
      ensures ObjectsMoved(old(nodes), objects, tree, old(node.path), Parent(old(node.path)) + [name])
    {
      hide WF, Relocate;
      ghost var m0, p, to := nodes, node.path, Parent(node.path) + [name];
      KeyedDistinct(m0);
      node.name := name;
      forall q | q in m0 ensures m0[q].name == LastName(Moved(q, p, to)) {
        MovedName(q, p, to);
      }
      status := MovePaths(node, name, t);
    }

    method MovePaths(node: RWNode, name: Text, ghost t: Tree) returns (status: Status)
      requires WF(t) && SameUnderTop(t, tree, node.path)
      requires tree.Keys == nodes.Keys && node.path in nodes && nodes[node.path] == node
      requires forall q | q in nodes :: nodes[q] in objects && nodes[q].path == q && nodes[q].View() == tree[q]
      modifies this`nodes, objects`path
      ensures status == Success && nodes == Relocate(old(nodes), old(node.path), Parent(old(node.path)) + [name])
      ensures forall q | q in old(nodes) ::
                old(nodes)[q].path == Moved(q, old(node.path), Parent(old(node.path)) + [name])
    {
      hide WF, Relocate;
      ghost var m0, p, to := nodes, node.path, Parent(node.path) + [name];
      TopApart(p, to);
      KeyedDistinct(m0);
      status := RenameChildNodes(node, Parent(node.path), name, t);
      forall q | q in m0 ensures m0[q].path == Moved(q, p, to) {
        if !(p <= q) {
          assert m0[q] !in ObjectsUnder(m0, p);
          assert m0[q].path == old(m0[q].path) == q;
        }
      }
    }

    /** `RenameChildNodes`: the object moves to its new key, then its children follow, and only then does it
        store its new path. */
    method RenameChildNodes(node: RWNode, parent: Path, name: Text, ghost t: Tree) returns (status: Status)
      requires WF(t) && MirrorsIn(nodes, t, node.path) && Distinct(nodes)
      requires node.path in nodes && nodes[node.path] == node
      requires ApartOrSame(node.path, parent + [name])
      modifies this`nodes, ObjectsUnder(nodes, node.path)`path
      ensures status == Success && nodes == Relocate(old(nodes), old(node.path), parent + [name])
      ensures forall q | q in old(nodes) && old(node.path) <= q ::
                old(nodes)[q].path == Moved(q, old(node.path), parent + [name])
      decreases MaxLen(t.Keys) - |node.path|, 3
    {
      ghost var m0, from := nodes, node.path;
      var to := parent + [name];
      assert t[from] == node.View();
      status := RemoveNode(node.path);
      SetNode(to, node);
      MoveTop(m0, from, to);
      if node.isLeaf {
        LeafMoves(t, m0, nodes, from, to);
        node.path := to;
        return;
      }
      status := RenameChildren(node, to, m0, t);
      node.path := to;
    }

    /** The loop of `RenameChildNodes`. */
    method RenameChildren(node: RWNode, to: Path, ghost m0: map<Path, RWNode>, ghost t: Tree) returns (status: Status)
      requires WF(t) && MirrorsIn(m0, t, node.path) && Distinct(m0)
      requires node.path in m0 && m0[node.path] == node && !node.isLeaf
      requires ApartOrSame(node.path, to) && to in nodes && nodes[to] == node
      requires Shifted(m0, nodes, node.path, to, {node.path})
      modifies this`nodes, (ObjectsUnder(m0, node.path) - {node})`path
      ensures status == Success && nodes == Relocate(m0, node.path, to)
      ensures forall q | q in m0 && node.path <= q && q != node.path :: m0[q].path == Moved(q, node.path, to)
      decreases MaxLen(t.Keys) - |node.path|, 2
    {
      hide WF, Shifted, Relocate, ObjectsUnder, Distinct;
      var names;
      ghost var from := node.path;
      assert t[from] == node.View();
      status, names := GetChildNodeNames(to);
      DoneNone(m0, from, names);
      for i := 0 to |names|
        invariant status == Success
        invariant Shifted(m0, nodes, from, to, Done(m0, from, names, i))
        invariant PathsMoved(m0, from, to, Done(m0, from, names, i))
        invariant ViewsIn(m0, t, from) && node.path == from
      {
        status := RenameNextChild(node, to, names, i, m0, t);
      }
      AllDone(t, m0, from);
      AllMoved(m0, nodes, from, to, Done(m0, from, names, |names|));
    }

    method RenameNextChild(node: RWNode, to: Path, names: seq<Text>, i: nat, ghost m0: map<Path, RWNode>, ghost t: Tree)
      returns (status: Status)
      requires WF(t) && ViewsIn(m0, t, node.path) && Distinct(m0)
      requires node.path in m0 && m0[node.path] == node && !node.isLeaf && names == node.children && i < |names|
      requires ApartOrSame(node.path, to)
      requires Shifted(m0, nodes, node.path, to, Done(m0, node.path, names, i))
      requires PathsMoved(m0, node.path, to, Done(m0, node.path, names, i))
      modifies this`nodes, (ObjectsUnder(m0, node.path) - {node})`path
      ensures status == Success
      ensures Shifted(m0, nodes, node.path, to, Done(m0, node.path, names, i + 1))
      ensures PathsMoved(m0, node.path, to, Done(m0, node.path, names, i + 1))
      decreases MaxLen(t.Keys) - |node.path|, 1
    {
      ghost var from, child := node.path, node.path + [names[i]];
      ghost var done, done2 := Done(m0, from, names, i), Done(m0, from, names, i + 1);
      DoneNext(m0, from, names, i);
      assert from <= child;
      assert node !in ObjectsUnder(m0, child);
      status := RenameChild(node, to, names, i, m0, t);
      forall q | q in m0 && from <= q && q != from ensures m0[q].path == Spot(q, from, to, done2) {
        if child <= q {
          assert q in KeysUnder(m0, child);
        } else {
          assert m0[q] !in ObjectsUnder(m0, child);
          assert m0[q].path == old(m0[q].path) == Spot(q, from, to, done);
        }
      }
    }

    method RenameChild(node: RWNode, to: Path, names: seq<Text>, i: nat, ghost m0: map<Path, RWNode>, ghost t: Tree)
      returns (status: Status)
      requires WF(t) && ViewsIn(m0, t, node.path) && Distinct(m0)
      requires node.path in m0 && m0[node.path] == node && !node.isLeaf && names == node.children && i < |names|
      requires ApartOrSame(node.path, to)
      requires Shifted(m0, nodes, node.path, to, Done(m0, node.path, names, i))
      requires PathsMoved(m0, node.path, to, Done(m0, node.path, names, i))
      modifies this`nodes, ObjectsUnder(m0, node.path + [names[i]])`path
      ensures status == Success
      ensures Shifted(m0, nodes, node.path, to, Done(m0, node.path, names, i + 1))
      ensures forall q | q in m0 && node.path + [names[i]] <= q :: m0[q].path == Moved(q, node.path, to)
      decreases MaxLen(t.Keys) - |node.path|, 0
    {
      ghost var from, done, m := node.path, Done(m0, node.path, names, i), nodes;
      var child := node.path + [names[i]];
      assert t[from] == node.View();
      assert Sound(t, from);
      ChildPresent(t, from, i);
      DoneApart(m0, from, names, i);
      SubtreeStillThere(m0, m, from, to, done, names[i]);
      ChildMirrorsIn(m0, m, t, from, to, done, names[i]);
      DistinctStays(m0, m, from, to, done);
      var kid;
      status, kid := GetNode(child);
      status := RenameChildNodes(kid, to, names[i], t);
      MoveNext(m0, m, from, to, done, names[i]);
      DoneNext(m0, from, names, i);
      forall q | q in m0 && child <= q ensures m0[q].path == Moved(q, from, to) {
        MovedVia(q, from, to, names[i]);
        assert q in m && m[q] == m0[q];
      }
    }

    method RenameNode(path: Path, name: Text) returns (status: Status)
      requires Rep() && WF(tree) && path != [] && ValidName(name)
      requires !playback ==> Loggable(rootPath, Records() + RenameRecords(tree, path, name))
      modifies this`nodes, this`playback, this`log, log, this`tree, objects`children, objects`path, objects`name
      ensures Rep() && playback == old(playback)
      ensures status == if path in old(tree) then Success else NotFound
      ensures tree == RenamePath(old(tree), path, name)
      ensures playback ==> log == old(log) && (log != null ==> unchanged(log))
      ensures !playback ==> Records() == old(Records() + RenameRecords(tree, path, name))
      ensures log == old(log) || (old(log) == null && fresh(log))
    {
      hide Loggable, FileOf, WF;
      var node;
      status, node := GetNode(path);
      if status == Success {
        status := Rename(node, name);
      }
    }

    // ---------- create ----------

    /** `CreateLeafNode`: the node enters the map before its parent is looked up. */
    method CreateLeafNode(path: Path, value: Value) returns (status: Status, created: RWNode?)
      requires Rep() && path != []
      requires !playback ==> Loggable(rootPath, Records() + [DeleteRec(path)])
      modifies this`nodes, this`playback, this`log, log, this`tree, this`objects, objects`children
      ensures Rep() && playback == old(playback)
      ensures status == ParentStatus(old(tree), path)
      ensures tree == Insert(old(tree), path, Leaf(value, []))
      ensures playback ==> log == old(log) && (log != null ==> unchanged(log))
      ensures !playback ==> Records() == old(Records()) + [DeleteRec(path)]
      ensures log == old(log) || (old(log) == null && fresh(log))
      ensures fresh(objects - old(objects))
      ensures created != null && fresh(created) && path in nodes && nodes[path] == created
      ensures created.path == path && created.View() == Leaf(value, [])
    {
      hide Loggable, FileOf, ShowsIn, Create;
      status := LogCommand(Add, path, path, null);
      status, created := InsertLeaf(path, value);
    }

    method InsertLeaf(path: Path, value: Value) returns (status: Status, created: RWNode?)
      requires Shows(tree) && path != []
      modifies this`nodes, this`playback, this`tree, this`objects, objects`children
      ensures Shows(tree) && playback == old(playback)
      ensures status == ParentStatus(old(tree), path)
      ensures tree == Insert(old(tree), path, Leaf(value, []))
      ensures fresh(objects - old(objects))
      ensures created != null && fresh(created) && path in nodes && nodes[path] == created
      ensures created.path == path && created.View() == Leaf(value, [])
    {
      hide ShowsIn;
      status, created := CreateLeafNodeInternal(path, value);
      ParentStays(old(tree), path, Leaf(value, []));
      status := LinkToParentNode(path);
      ShownNode(nodes, objects, tree, path);
    }

    method CreateInteriorNode(path: Path) returns (status: Status, created: RWNode?)
      requires Rep() && path != []
      requires !playback ==> Loggable(rootPath, Records() + [DeleteRec(path)])
      modifies this`nodes, this`playback, this`log, log, this`tree, this`objects, objects`children
      ensures Rep() && playback == old(playback)
      ensures status == ParentStatus(old(tree), path)
      ensures tree == Insert(old(tree), path, Interior([], []))
      ensures playback ==> log == old(log) && (log != null ==> unchanged(log))
      ensures !playback ==> Records() == old(Records()) + [DeleteRec(path)]
      ensures log == old(log) || (old(log) == null && fresh(log))
      ensures fresh(objects - old(objects))
      ensures created != null && fresh(created) && path in nodes && nodes[path] == created
      ensures created.path == path && created.View() == Interior([], [])
    {
      hide Loggable, FileOf, ShowsIn, Create;
      status := LogCommand(Add, path, path, null);
      status, created := InsertInterior(path);
    }

    method InsertInterior(path: Path) returns (status: Status, created: RWNode?)
      requires Shows(tree) && path != []
      modifies this`nodes, this`playback, this`tree, this`objects, objects`children
      ensures Shows(tree) && playback == old(playback)
      ensures status == ParentStatus(old(tree), path)
      ensures tree == Insert(old(tree), path, Interior([], []))
      ensures fresh(objects - old(objects))
      ensures created != null && fresh(created) && path in nodes && nodes[path] == created
      ensures created.path == path && created.View() == Interior([], [])
    {
      hide ShowsIn;
      status, created := CreateInteriorNodeInternal(path, []);
      ParentStays(old(tree), path, Interior([], []));
      status := LinkToParentNode(path);
      ShownNode(nodes, objects, tree, path);
    }

    // ---------- replay ----------

    /** `playbackOneRecord`: the same methods, with logging off. None of them fails with an I/O error. */
    method PlaybackOneRecord(r: Record) returns (status: Status)
      requires Rep() && playback && Ready(tree, r)
      modifies this`nodes, this`playback, this`log, log, this`tree, this`objects
      modifies objects`children, objects`path, objects`name, objects`value, objects`title
      ensures Rep() && playback && status != IoFailure
      ensures !Unreadable(r) ==> tree == PlayOne(Undo.Fresh(old(tree)), r).tree
      ensures log == old(log) && (log != null ==> unchanged(log))
      ensures fresh(objects - old(objects))
    {
      hide Loggable, FileOf, ShowsIn, WF;
      match r {
        case AddRec(p, props, _) => status := PlaybackAdd(p, props);
        case AddChildRec(p) => status := LinkToParentNode(p);
        case DeleteRec(p) => status := DeleteNode(p);
        case NameRec(p, name) => status := RenameNode(p, name);
        case ValueRec(p, data) => status := PlaybackValue(p, data);
        case TitleRec(p, title) => status := PlaybackTitle(p, title);
      }
    }

    method PlaybackValue(p: Path, data: Text) returns (status: Status)
      requires Rep() && playback && (p in tree ==> tree[p].Leaf?)
      modifies this`log, log, this`tree, objects`value
      ensures Rep() && tree == ReplayValue(old(tree), p, data)
      ensures status == if p in old(tree) then Success else NotFound
      ensures log == old(log) && (log != null ==> unchanged(log))
    {
      hide Loggable, FileOf, BuildData, AddRecords, StringForm, WF;
      var node;
      status, node := GetNode(p);
      if status == Success {
        status := SetValue(node, BuildData(FormatOf(node.value), Bytes(data)));
      }
    }

    method PlaybackTitle(p: Path, title: Text) returns (status: Status)
      requires Rep() && playback
      modifies this`log, log, this`tree, objects`title
      ensures Rep() && tree == if p in old(tree) then PluginTree.SetTitle(old(tree), p, title) else old(tree)
      ensures status == if p in old(tree) then Success else NotFound
      ensures log == old(log) && (log != null ==> unchanged(log))
    {
      hide Loggable, FileOf;
      var node;
      status, node := GetNode(p);
      if status == Success {
        status := SetTitle(node, title);
      }
    }

    method PlaybackAdd(p: Path, props: Props) returns (status: Status)
      requires Shows(tree)
      modifies this`nodes, this`tree, this`objects
      ensures Shows(tree) && status == Success && tree == old(tree)[p := RebuildNode(props)]
      ensures fresh(objects - old(objects))
    {
      var node;
      match props {
        case FolderProps(list) =>
          var children := StrToStringVector(list);
          status, node := CreateInteriorNodeInternal(p, children);
        case FileProps(format, data) =>
          status, node := CreateLeafNodeInternal(p, BuildData(format, data));
      }
    }

    /** What the loop of `playLog` needs to end, with no log or two records or more: a short root path, or an
        unreadable record besides the first. */
    ghost predicate ReplayStops()
      reads this`log, Logs()`records
    {
      log != null ==>
        |rootPath| < LONG_ROOT || Looping.SomeUnreadable(log.records, 1, |log.records|)
    }

    /** `playLog`: every record once, newest first, until one cannot be read. It ends because record
        positions fall. */
    method PlayLog() returns (status: Status)
      requires Rep() && playback && log != null && Playable(Undo.Fresh(tree), log.records)
      requires ReplayStops()
      modifies this`nodes, this`playback, this`log, log, this`tree, this`objects
      modifies objects`children, objects`path, objects`name, objects`value, objects`title
      ensures Rep() && playback && log == old(log)
      ensures var end := Replay(Undo.Fresh(old(tree)), old(log.records));
              tree == end.tree && (status == IoFailure <==> end.aborted)
      ensures fresh(objects - old(objects))
    {
      hide Loggable, FileOf, ShowsIn, WF, PlayOne, Unreadable, Ready;
      status := Success;
      ghost var recs, k: nat := log.records, |log.records|;
      assert recs[..k] == recs;
      var current, byte := log.StartReplay();
      if current == 0 {
        return;
      }
      while true
        invariant Rep() && playback && log == old(log) && log.records == recs && fresh(objects - old(objects))
        invariant byte == ENTRY_TAG && log.At(k, current) && status != IoFailure
        invariant |rootPath| < LONG_ROOT || Looping.SomeUnreadable(recs, 1, k)
        invariant Playable(Undo.Fresh(tree), recs[..k])
        invariant Replay(Undo.Fresh(tree), recs[..k]) == Replay(Undo.Fresh(old(tree)), recs)
        decreases current
      {
        PlayStep(tree, recs, k);
        var read := log.ReadOneLogRecord(k, current);
        if read.Failed? {
          status := IoFailure;
          break;
        }
        status := PlaybackOneRecord(read.value);
        assert |rootPath| < LONG_ROOT || Looping.SomeUnreadable(recs, 1, k - 1);
        k := k - 1;
        current, byte := log.GotoPreviousRecord(current, k + 1);
        if current == 0 {
          break;
        }
      }
    }

    // ---------- transactions ----------

    method Flush() returns (status: Status)
      requires Valid()
      modifies this`log
      ensures Valid() && status == Success && log == null
      ensures atomic == old(atomic) && tree == old(tree)
      ensures State() == Session.Step(old(State()), Session.Flush)
    {
      hide Loggable, FileOf, ShowsIn, WF;
      if log != null {
        log := null;
      }
      status := Success;
    }

    method Begin() returns (status: Status)
      requires Valid()
      modifies this`log, this`atomic
      ensures Valid() && status == Success && log == null
      ensures atomic && tree == old(tree)
      ensures State() == Session.Step(old(State()), Session.Begin)
    {
      hide Loggable, FileOf, ShowsIn, WF;
      atomic := true;
      status := Flush();
    }

    method Commit() returns (status: Status)
      requires Valid()
      modifies this`log, this`atomic
      ensures Valid() && status == Success && log == null
      ensures !atomic && tree == old(tree)
      ensures State() == Session.Step(old(State()), Session.Commit)
    {
      hide Loggable, FileOf, ShowsIn, WF;
      status := Flush();
      atomic := false;
    }

    /** `Rollback` on any log that can be replayed: replay with logging off, then a fresh start. */
    method ReplayAndForget() returns (status: Status)
      requires Valid() && Playable(Undo.Fresh(tree), Records())
      requires ReplayStops()
      modifies this`nodes, this`playback, this`log, log, this`tree, this`objects, this`atomic
      modifies objects`children, objects`path, objects`name, objects`value, objects`title
      ensures Rep() && !playback && log == null && State() == Session.Step(old(State()), Session.RollBack)
      ensures status == IoFailure <==> Replay(Undo.Fresh(old(tree)), old(Records())).aborted
      ensures fresh(objects - old(objects))
    {
      hide Loggable, FileOf, ShowsIn, WF;
      playback := true;
      status := Success;
      if log != null {
        status := PlayLog();
        log := null;
      }
      playback := false;
      atomic := false;
    }

    /** The tree is where these public calls lead from a start without a log. */
    ghost predicate InSession(start: Session.State, actions: seq<Session.Action>)
      reads this, objects, log
    {
      && Valid() && State() == Session.Run(start, actions)
      && WF(start.tree) && start.log == [] && Session.Proper(start, actions)
    }

    /** `Rollback` after any interleaving of public calls. The log can be replayed, the tree stays well
        formed, it is back as of the last transaction call exactly if the mutations since then allow it,
        and the status tells whether a record could not be read. */
    method Rollback(ghost start: Session.State, ghost actions: seq<Session.Action>) returns (status: Status)
      requires InSession(start, actions) && ReplayStops()
      modifies this`nodes, this`playback, this`log, log, this`tree, this`objects, this`atomic
      modifies objects`children, objects`path, objects`name, objects`value, objects`title
      ensures InSession(start, actions + [Session.RollBack]) && log == null && !atomic
      ensures forall d ::
                Shape(tree, d) == Shape(Session.Checkpoint(start, actions), d)
                <==> Runs.Restores(Session.Checkpoint(start, actions), Session.Since(actions), d)
      ensures status == IoFailure
              <==> !Runs.AllReadable(Session.Checkpoint(start, actions), Session.Since(actions))
      ensures fresh(objects - old(objects))
    {
      hide Loggable, FileOf, ShowsIn, WF, Shape, Runs.Restores, Runs.AllReadable;
      RollbackIsReady(start, actions);
      SessionRollback(start, actions);
      status := ReplayAndForget();
    }

    // ---------- a public mutation ----------

    /** Whichever mutation is called, the tree and the log take one step of the session. */
    method Mutate(op: Op) returns (status: Status)
      requires Valid() && Allowed(tree, op)
      requires Loggable(rootPath, Records() + UndoRecords(tree, op))
      modifies this`nodes, this`playback, this`log, log, this`tree, this`objects
      modifies objects`children, objects`path, objects`name, objects`value, objects`title
      ensures Valid() && State() == Session.Step(old(State()), Session.Mutate(op))
      ensures status == if (op.DeleteNode? || op.RenameNode?) && op.path !in old(tree) then NotFound else Success
      ensures fresh(objects - old(objects))
      ensures log == old(log) || (old(log) == null && fresh(log))
    {
      hide Loggable, FileOf, ShowsIn, WF, Create, DeletePath, RenamePath, AddRecords;
      Undo.ApplyKeepsWF(tree, op);
      var node;
      match op {
        case CreateLeaf(p, v) => status, node := CreateLeafNode(p, v);
        case CreateInterior(p) => status, node := CreateInteriorNode(p);
        case DeleteNode(p) => status := DeleteNode(p);
        case RenameNode(p, name) => status := RenameNode(p, name);
        case SetLeaf(p, v) => status := MutateNode(op);
        case Retitle(p, title) => status := MutateNode(op);
      }
    }

    /** Callers look a node up before they set its value or title. */
    method MutateNode(op: Op) returns (status: Status)
      requires Valid() && Allowed(tree, op) && (op.SetLeaf? || op.Retitle?)
      requires Loggable(rootPath, Records() + UndoRecords(tree, op))
      modifies this`log, log, this`tree, objects`value, objects`title
      ensures Rep() && tree == Apply(old(tree), op) && status == Success
      ensures Records() == old(Records() + UndoRecords(tree, op))
      ensures log == old(log) || (old(log) == null && fresh(log))
    {
      hide Loggable, FileOf, AddRecords;
      var node;
      status, node := GetNode(op.path);
      UndoIsCommand(tree, op);
      if op.SetLeaf? {
        status := SetValue(node, op.value);
      } else {
        status := SetTitle(node, op.title);
      }
    }
  }

  lemma LinkOrNot(p: Path)
    ensures LinkRecords(p) == if p == [] then [] else [AddChildRec(p)]
  {
  }

  lemma ParentStays(t: Tree, p: Path, n: Node)
    requires p != []
    ensures HasParent(t[p := n], p) == HasParent(t, p)
    ensures p in Insert(t, p, n) && Insert(t, p, n)[p] == n
  {
  }

  lemma ShownNode(m: map<Path, RWNode>, objects: set<RWNode>, t: Tree, p: Path)
    requires ShowsIn(m, objects, t) && p in m
    ensures p in t && m[p].path == p && m[p].View() == t[p]
  {
  }

  lemma SessionRollback(start: Session.State, actions: seq<Session.Action>)
    requires WF(start.tree) && start.log == [] && Session.Proper(start, actions)
    ensures var all := actions + [Session.RollBack];
            && Session.Run(start, all) == Session.Step(Session.Run(start, actions), Session.RollBack)
            && WF(Session.Run(start, all).tree) && Session.Proper(start, all)
    ensures forall d ::
              Shape(Session.Run(start, actions + [Session.RollBack]).tree, d)
              == Shape(Session.Checkpoint(start, actions), d)
              <==> Runs.Restores(Session.Checkpoint(start, actions), Session.Since(actions), d)
    ensures Replay(Undo.Fresh(Session.Run(start, actions).tree), Session.Run(start, actions).log).aborted
            <==> !Runs.AllReadable(Session.Checkpoint(start, actions), Session.Since(actions))
  {
    hide WF, Shape, Runs.Restores, Runs.AllReadable;
    var all := actions + [Session.RollBack];
    assert all[..|all| - 1] == actions;
    Session.EveryReachableTreeIsWellFormed(start, all);
    forall d {
      Session.RollbackReturnsToCheckpoint(start, actions, d);
    }
    Session.RollbackReturnsToCheckpoint(start, actions, Skeleton);
  }

  /** One turn of the loop of `playLog`. */
  lemma PlayStep(t: Tree, recs: seq<Record>, k: nat)
    requires 0 < k <= |recs| && Playable(Undo.Fresh(t), recs[..k])
    ensures Ready(t, recs[k - 1])
    ensures Unreadable(recs[k - 1]) ==> Replay(Undo.Fresh(t), recs[..k]) == Player(t, true)
    ensures !Unreadable(recs[k - 1]) ==>
              var t1 := PlayOne(Undo.Fresh(t), recs[k - 1]).tree;
              && Replay(Undo.Fresh(t), recs[..k]) == Replay(Undo.Fresh(t1), recs[..k - 1])
              && Playable(Undo.Fresh(t1), recs[..k - 1])
  {
    var r := recs[k - 1];
    assert recs[..k][|recs[..k]| - 1] == r && recs[..k][..|recs[..k]| - 1] == recs[..k - 1];
    var s := PlayOne(Undo.Fresh(t), r);
    assert s == Player(s.tree, Unreadable(r));
    if Unreadable(r) {
      AbortedStays(s, recs[..k - 1]);
    }
  }
}
