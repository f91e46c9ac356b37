/** Replay calls the tree's own methods, which need a well-formed tree to walk a subtree. While the
    records of a delete are replayed the tree is not well formed: the top of the subtree is linked last.
    This module shows that no record that walks a subtree ever meets such a tree. */
module Replaying {
  import opened Uri
  import opened DmtValue
  import opened PluginTree
  import opened UndoLog
  import opened Rollback
  import opened Session

  /** What the tree method behind a record needs of the tree. */
  ghost predicate Ready(t: Tree, r: Record) {
    match r
    case DeleteRec(p) => p != [] && WF(t)
    case NameRec(p, name) => p != [] && WF(t) && ValidName(name) && Parent(p) + [name] !in t
    case AddChildRec(p) => p != []
    case ValueRec(p, _) => p in t ==> t[p].Leaf?
    case _ => true
  }

  /** Every record of the stack is replayed on a tree that is ready for it. */
  ghost predicate Playable(s: Player, recs: seq<Record>)
    decreases |recs|
  {
    recs == [] || s.aborted ||
    (Ready(s.tree, recs[|recs| - 1]) && Playable(PlayOne(s, recs[|recs| - 1]), recs[..|recs| - 1]))
  }

  /** The records can be replayed on every well-formed tree with these paths and kinds. */
  ghost predicate PlayableFrom(recs: seq<Record>, from: map<Path, Entry>) {
    forall s: Player {:trigger Playable(s, recs)} ::
      !s.aborted && WF(s.tree) && Shape(s.tree, Skeleton) == from ==> Playable(s, recs)
  }

  lemma {:induction false} PlayableConcat(s: Player, a: seq<Record>, b: seq<Record>)
    requires Playable(s, b) && Playable(Replay(s, b), a)
    ensures Playable(s, a + b)
    decreases |b|
  {
    if b == [] {
      assert a + b == a;
    } else if !s.aborted {
      var ab := a + b;
      assert ab[..|ab| - 1] == a + b[..|b| - 1];
      PlayableConcat(PlayOne(s, b[|b| - 1]), a, b[..|b| - 1]);
    }
  }

  lemma {:induction false} AddsPlayable(s: Player, recs: seq<Record>)
    requires forall r | r in recs :: r.AddRec?
    ensures Playable(s, recs)
    decreases |recs|
  {
    if recs != [] {
      var last := recs[|recs| - 1];
      assert last in recs;
      AddsPlayable(PlayOne(s, last), recs[..|recs| - 1]);
    }
  }

  lemma OnePlayable(s: Player, r: Record)
    requires Ready(s.tree, r)
    ensures Playable(s, [r])
  {
    assert [r][..0] == [];
    assert Playable(PlayOne(s, r), []);
  }

  lemma DeletePlayable(t: Tree, p: Path, s: Player)
    requires WF(t) && p in t && p != []
    ensures Playable(s, [AddChildRec(p)] + AddRecords(t, p))
  {
    AddRecordsCover(t, p);
    AddsPlayable(s, AddRecords(t, p));
    OnePlayable(Replay(s, AddRecords(t, p)), AddChildRec(p));
    PlayableConcat(s, [AddChildRec(p)], AddRecords(t, p));
  }

  /** The records one operation logs can be replayed after it. */
  lemma OpPlayable(t: Tree, op: Op)
    requires WF(t) && Allowed(t, op)
    ensures PlayableFrom(UndoRecords(t, op), Shape(Apply(t, op), Skeleton))
  {
    var recs := UndoRecords(t, op);
    forall s: Player | !s.aborted && WF(s.tree) && Shape(s.tree, Skeleton) == Shape(Apply(t, op), Skeleton)
      ensures Playable(s, recs)
    {
      OpPlayableOn(t, op, s);
    }
  }

  lemma OpPlayableOn(t: Tree, op: Op, s: Player)
    requires WF(t) && Allowed(t, op) && WF(s.tree)
    requires Shape(s.tree, Skeleton) == Shape(Apply(t, op), Skeleton)
    ensures Playable(s, UndoRecords(t, op))
  {
    match op
    case CreateLeaf(p, v) => OnePlayable(s, DeleteRec(p));
    case CreateInterior(p) => OnePlayable(s, DeleteRec(p));
    case DeleteNode(p) => if p in t { DeletePlayable(t, p, s); }
    case RenameNode(p, name) =>
      if p in t {
        RenamedKeys(t, p, name, s.tree);
        var rec := NameRec(Parent(p) + [name], Last(p));
        assert Parent(rec.path) + [Last(p)] == p;
        OnePlayable(s, rec);
      }
    case SetLeaf(p, v) =>
      if p in s.tree {
        assert p in Shape(s.tree, Skeleton);
        assert Shape(s.tree, Skeleton)[p] == EntryOf(t[p].(value := v), Skeleton);
      }
      OnePlayable(s, ValueRec(p, StringForm(t[p].value)));
    case Retitle(p, title) => OnePlayable(s, TitleRec(p, t[p].title));
  }

  lemma PlayableCompose(older: seq<Record>, newer: seq<Record>, from: map<Path, Entry>, mid: map<Path, Entry>,
                        total: bool)
    requires PlayableFrom(newer, from) && Undoes(newer, from, mid, Skeleton, total)
    requires PlayableFrom(older, mid)
    ensures PlayableFrom(older + newer, from)
  {
    forall s: Player | !s.aborted && WF(s.tree) && Shape(s.tree, Skeleton) == from ensures Playable(s, older + newer) {
      assert Playable(s, newer);
      var m := Replay(s, newer);
      assert Playable(m, older);
      PlayableConcat(s, older, newer);
    }
  }

  /** In every interleaving of mutations and transaction calls, the log at hand can be replayed. */
  lemma {:induction false} SessionPlayable(s: State, actions: seq<Action>)
    requires WF(s.tree) && s.log == [] && Proper(s, actions)
    ensures PlayableFrom(Run(s, actions).log, Shape(Run(s, actions).tree, Skeleton))
    decreases |actions|
  {
    if actions != [] {
      var before, a := actions[..|actions| - 1], actions[|actions| - 1];
      SessionPlayable(s, before);
      var m := Run(s, before);
      if a.Mutate? {
        SessionInvariant(s, before);
        OpPlayable(m.tree, a.op);
        OpUndone(m.tree, a.op, Skeleton);
        PlayableCompose(m.log, UndoRecords(m.tree, a.op), Shape(Apply(m.tree, a.op), Skeleton),
                        Shape(m.tree, Skeleton), Readable(m.tree, a.op));
      }
    }
  }

  /** A rollback in any reachable state replays every record on a tree that is ready for it. */
  lemma RollbackIsReady(s: State, actions: seq<Action>)
    requires WF(s.tree) && s.log == [] && Proper(s, actions)
    ensures Playable(Fresh(Run(s, actions).tree), Run(s, actions).log)
  {
    SessionPlayable(s, actions);
    EveryReachableTreeIsWellFormed(s, actions);
  }
}
