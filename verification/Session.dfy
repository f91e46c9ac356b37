/** The plugin tree between the transaction calls: mutations append undo records, `Begin`, `Flush` and
    `Commit` throw the log away, `Rollback` replays it. The statements are about every interleaving. */
module Session {
  import opened PluginTree
  import opened UndoLog
  import opened Rollback
  import opened Runs

  datatype Action = Mutate(op: Op) | Begin | Flush | Commit | RollBack

  datatype State = State(tree: Tree, log: seq<Record>, atomic: bool)

  ghost function Step(s: State, a: Action): State {
    match a
    case Mutate(op) => State(Apply(s.tree, op), s.log + UndoRecords(s.tree, op), s.atomic)
    case Begin => State(s.tree, [], true)
    case Flush => State(s.tree, [], s.atomic)
    case Commit => State(s.tree, [], false)
    case RollBack => State(Replay(Fresh(s.tree), s.log).tree, [], false)
  }

  ghost function Run(s: State, actions: seq<Action>): State
    decreases |actions|
  {
    if actions == [] then s
    else Step(Run(s, actions[..|actions| - 1]), actions[|actions| - 1])
  }

  /** The tree as of the last transaction call, or the initial tree when there has been none. */
  ghost function Checkpoint(s: State, actions: seq<Action>): Tree
    decreases |actions|
  {
    if actions == [] then s.tree
    else if actions[|actions| - 1].Mutate? then Checkpoint(s, actions[..|actions| - 1])
    else Run(s, actions).tree
  }

  /** Every mutation of the run is allowed where it happens. */
  ghost predicate Proper(s: State, actions: seq<Action>)
    decreases |actions|
  {
    actions == [] ||
    (var before := actions[..|actions| - 1];
     Proper(s, before) &&
     (actions[|actions| - 1].Mutate? ==> Allowed(Run(s, before).tree, actions[|actions| - 1].op)))
  }

  /** The mutations since the last transaction call. */
  function Since(actions: seq<Action>): seq<Op>
    decreases |actions|
  {
    if actions == [] || !actions[|actions| - 1].Mutate? then []
    else Since(actions[..|actions| - 1]) + [actions[|actions| - 1].op]
  }

  /** The state is where the mutations `ops` lead from the tree `base`, and the log is theirs. */
  ghost predicate Reached(s: State, base: Tree, ops: seq<Op>) {
    && WF(base) && AllAllowed(base, ops)
    && s.tree == RunOps(base, ops) && s.log == LogOf(base, ops)
  }

  lemma ReachedHere(s: State)
    requires WF(s.tree) && s.log == []
    ensures Reached(s, s.tree, [])
  {
  }

  lemma MutateReaches(s: State, base: Tree, ops: seq<Op>, op: Op)
    requires Reached(s, base, ops) && Allowed(s.tree, op)
    ensures Reached(Step(s, Mutate(op)), base, ops + [op])
  {
    RunSnoc(base, ops, op);
  }

  /** What holds throughout a session: the log is that of the mutations since the checkpoint, so that it
      leads back there from every tree with the paths and kinds of the present one. */
  lemma {:induction false} SessionInvariant(s: State, actions: seq<Action>)
    requires WF(s.tree) && s.log == [] && Proper(s, actions)
    ensures Reached(Run(s, actions), Checkpoint(s, actions), Since(actions))
    ensures var r, base := Run(s, actions), Checkpoint(s, actions);
            && WF(r.tree)
            && Undoes(r.log, Shape(r.tree, Skeleton), Shape(base, Skeleton), Skeleton,
                      AllReadable(base, Since(actions)))
    decreases |actions|
  {
    hide WF, Allowed, Shape, Undoes, RunOps, LogOf, AllAllowed, AllReadable, UndoRecords, Apply, Replay;
    if actions == [] {
      ReachedHere(s);
    } else {
      var before, a := actions[..|actions| - 1], actions[|actions| - 1];
      SessionInvariant(s, before);
      var m := Run(s, before);
      if a.Mutate? {
        MutateReaches(m, Checkpoint(s, before), Since(before), a.op);
      } else {
        if a.RollBack? {
          RunRolledBack(Checkpoint(s, before), Since(before), Skeleton);
        }
        ReachedHere(Run(s, actions));
      }
    }
    ReachedUndoes(Run(s, actions), Checkpoint(s, actions), Since(actions));
  }

  lemma ReachedUndoes(s: State, base: Tree, ops: seq<Op>)
    requires Reached(s, base, ops)
    ensures WF(s.tree)
    ensures Undoes(s.log, Shape(s.tree, Skeleton), Shape(base, Skeleton), Skeleton, AllReadable(base, ops))
  {
    hide WF, Shape, Undoes, RunOps, LogOf, AllAllowed;
    RunKeepsWF(base, ops);
    RunSkeletonUndone(base, ops);
  }

  /** The flat map and the child lists agree in every reachable state, whatever values were set and
      however far a rollback got. */
  lemma EveryReachableTreeIsWellFormed(s: State, actions: seq<Action>)
    requires WF(s.tree) && s.log == [] && Proper(s, actions)
    ensures WF(Run(s, actions).tree)
  {
    SessionInvariant(s, actions);
  }

  /** In every interleaving, a rollback returns to the tree as of the last transaction call up to detail
      `d` exactly when the mutations since then allow it. */
  lemma RollbackReturnsToCheckpoint(s: State, actions: seq<Action>, d: Detail)
    requires WF(s.tree) && s.log == [] && Proper(s, actions)
    ensures var r := Run(s, actions + [RollBack]);
            && r.log == [] && !r.atomic
            && (Shape(r.tree, d) == Shape(Checkpoint(s, actions), d)
                <==> Restores(Checkpoint(s, actions), Since(actions), d))
    ensures Replay(Fresh(Run(s, actions).tree), Run(s, actions).log).aborted
            <==> !AllReadable(Checkpoint(s, actions), Since(actions))
  {
    hide WF, Shape, Undoes, RunOps, LogOf, AllAllowed, AllReadable, Restores, Since, Replay;
    SessionInvariant(s, actions);
    var all := actions + [RollBack];
    assert all[..|all| - 1] == actions;
    RunRolledBackIff(Checkpoint(s, actions), Since(actions), d);
  }

  /** When every record since the last transaction call can be read, the same paths, kinds and child-name
      sets come back, whatever values were set. */
  lemma PathsReturn(s: State, actions: seq<Action>)
    requires WF(s.tree) && s.log == [] && Proper(s, actions)
    requires AllReadable(Checkpoint(s, actions), Since(actions))
    ensures Shape(Run(s, actions + [RollBack]).tree, Skeleton) == Shape(Checkpoint(s, actions), Skeleton)
  {
    RollbackReturnsToCheckpoint(s, actions, Skeleton);
  }
}
