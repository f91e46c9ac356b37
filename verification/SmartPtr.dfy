/** `JemSmartPtr` and `JemBaseObject`: reference counts, and deletion that runs on through the smart pointers
    an object has as members. Objects and pointers are named by numbers in one heap. */
module SmartPtr {

  type Obj = nat
  type Ptr = nat

  datatype Target = Null | To(obj: Obj)

  type Targets = map<Ptr, Target>

  /** The smart pointers that hold an object. */
  ghost function Holders(targets: Targets, o: Obj): set<Ptr> {
    set p | p in targets && targets[p] == To(o)
  }

  /** The member pointers of objects exist, and each belongs to one object, once. */
  ghost predicate MembersOk(targets: Targets, members: map<Obj, seq<Ptr>>) {
    && (forall o, i | o in members && 0 <= i < |members[o]| :: members[o][i] in targets)
    && (forall o, i, j | o in members && 0 <= i < j < |members[o]| :: members[o][i] != members[o][j])
    && (forall o, x, m | o in members && x in members && o != x && m in members[o] :: m !in members[x])
  }

  ghost predicate Owned(members: map<Obj, seq<Ptr>>, p: Ptr) {
    exists o :: o in members && p in members[o]
  }

  /** Every count is the number of smart pointers that hold the object, plus the releases still to be done;
      no smart pointer holds a deleted object. */
  ghost predicate Counted(counts: map<Obj, int>, targets: Targets, pending: multiset<Obj>) {
    && (forall p | p in targets && targets[p].To? :: targets[p].obj in counts)
    && (forall o | o in pending :: o in counts)
    && (forall o | o in counts :: counts[o] == |Holders(targets, o)| + pending[o])
  }

  /** Objects and pointers only went away, and no object that was held is left unheld. */
  ghost predicate Fewer(counts: map<Obj, int>, targets: Targets, counts0: map<Obj, int>, targets0: Targets) {
    && (forall p | p in targets :: p in targets0 && targets[p] == targets0[p])
    && (forall o | o in counts :: o in counts0 && (counts[o] <= 0 ==> counts[o] == counts0[o]))
  }

  /** Deletion has run on: of the objects that have gone, no member pointer is left. */
  ghost predicate MembersGone(members: map<Obj, seq<Ptr>>, targets: Targets, members0: map<Obj, seq<Ptr>>) {
    forall o, m | o in members0 && o !in members && m in members0[o] :: m !in targets
  }

  /** The pointers that have gone are those of `destroyed` and exactly the members of the objects that have
      gone; the other objects keep their members. */
  ghost predicate Cascaded(members: map<Obj, seq<Ptr>>, targets: Targets, members0: map<Obj, seq<Ptr>>,
                           targets0: Targets, destroyed: set<Ptr>) {
    && (forall o | o in members :: o in members0 && members[o] == members0[o])
    && (forall p :: p in targets <==>
          p in targets0 && p !in destroyed && forall o | o in members0 && p in members0[o] :: o in members)
  }

  lemma RunsOn(members: map<Obj, seq<Ptr>>, targets: Targets, members0: map<Obj, seq<Ptr>>, targets0: Targets,
               destroyed: set<Ptr>)
    requires MembersOk(targets, members) && MembersGone(members, targets, members0)
    requires forall o | o in members :: o in members0 && members[o] == members0[o]
    requires forall p | p in targets :: p in targets0 && p !in destroyed
    requires forall p | p in targets0 && p !in destroyed && !Owned(members0, p) :: p in targets
    ensures Cascaded(members, targets, members0, targets0, destroyed)
  {
    forall p | p in targets0 && p !in destroyed && (forall o | o in members0 && p in members0[o] :: o in members)
      ensures p in targets
    {
      if Owned(members0, p) {
        var o :| o in members0 && p in members0[o];
        var i :| 0 <= i < |members[o]| && members[o][i] == p;
      }
    }
  }

  lemma HoldersAdd(targets: Targets, p: Ptr, t: Target, o: Obj)
    requires p !in targets
    ensures Holders(targets[p := t], o) == if t == To(o) then Holders(targets, o) + {p} else Holders(targets, o)
    ensures p !in Holders(targets, o)
  {
  }

  lemma HoldersDrop(targets: Targets, p: Ptr, o: Obj)
    requires p in targets
    ensures Holders(targets - {p}, o) == Holders(targets, o) - {p}
    ensures p in Holders(targets, o) <==> targets[p] == To(o)
  {
  }

  /** A pointer goes away before its object has been released. */
  lemma DropPointer(counts: map<Obj, int>, targets: Targets, pending: multiset<Obj>, p: Ptr)
    requires Counted(counts, targets, pending) && p in targets
    ensures Counted(counts, targets - {p}, if targets[p].To? then pending + multiset{targets[p].obj} else pending)
  {
    forall o | o in counts
      ensures |Holders(targets - {p}, o)| == |Holders(targets, o)| - if targets[p] == To(o) then 1 else 0
    {
      HoldersDrop(targets, p, o);
    }
  }

  /** An object whose count has come down to 0 can go: nothing holds it. */
  lemma DropObject(counts: map<Obj, int>, targets: Targets, pending: multiset<Obj>, o: Obj)
    requires Counted(counts, targets, pending) && o in counts && counts[o] <= 0
    ensures Counted(counts - {o}, targets, pending)
  {
    assert Holders(targets, o) == {};
    forall p | p in targets ensures targets[p] != To(o) {
      assert p !in Holders(targets, o);
    }
  }

  lemma DropOwner(targets: Targets, members: map<Obj, seq<Ptr>>, o: Obj)
    requires MembersOk(targets, members) && o in members
    ensures MembersOk(targets, members - {o})
    ensures forall j | 0 <= j < |members[o]| :: members[o][j] in targets && !Owned(members - {o}, members[o][j])
    ensures forall i, j | 0 <= i < j < |members[o]| :: members[o][i] != members[o][j]
  {
  }

  lemma DropUnowned(targets: Targets, members: map<Obj, seq<Ptr>>, p: Ptr)
    requires MembersOk(targets, members) && !Owned(members, p)
    ensures MembersOk(targets - {p}, members)
  {
  }

  /** A pointer comes into being after its object has been counted up. */
  lemma AddPointer(counts: map<Obj, int>, targets: Targets, p: Ptr, t: Target)
    requires Counted(counts, targets, multiset{}) && p !in targets && (t.To? ==> t.obj in counts)
    ensures Counted(if t.To? then counts[t.obj := counts[t.obj] + 1] else counts, targets[p := t], multiset{})
  {
    forall o | o in counts
      ensures |Holders(targets[p := t], o)| == |Holders(targets, o)| + if t == To(o) then 1 else 0
    {
      HoldersAdd(targets, p, t, o);
    }
    hide Holders;
  }

  class Heap {
    /** The live objects and their `m_nRefCount`. */
    var counts: map<Obj, int>
    /** The live smart pointers and their `m_pData`. */
    var targets: Targets
    /** The smart pointers that are members of an object. */
    var members: map<Obj, seq<Ptr>>

    ghost predicate Inv(pending: multiset<Obj>)
      reads this
    {
      Counted(counts, targets, pending) && members.Keys == counts.Keys && MembersOk(targets, members)
    }

    ghost predicate Valid()
      reads this
    {
      Inv(multiset{})
    }

    constructor ()
      ensures Valid() && counts == map[] && targets == map[]
    {
      counts, targets, members := map[], map[], map[];
    }

    method AddRef(t: Target)
      requires t.To? ==> t.obj in counts
      modifies this`counts
      ensures counts == if t.To? then old(counts)[t.obj := old(counts)[t.obj] + 1] else old(counts)
    {
      if t.To? {
        counts := counts[t.obj := counts[t.obj] + 1];
      }
    }

    /** `DecRef` on what a pointer held; the last release deletes the object. */
    method DecRef(t: Target, ghost pending: multiset<Obj>)
      requires Inv(if t.To? then pending + multiset{t.obj} else pending)
      modifies this
      ensures Inv(pending) && Fewer(counts, targets, old(counts), old(targets))
      ensures MembersGone(members, targets, old(members))
      ensures forall p | p in old(targets) && !Owned(old(members), p) :: p in targets
      ensures forall o | o in members :: o in old(members) && members[o] == old(members)[o]
      decreases targets.Keys, 3
    {
      if t == Null {
        return;
      }
      var o := t.obj;
      counts := counts[o := counts[o] - 1];
      if counts[o] <= 0 {
        Delete(o, pending);
      }
    }

    /** `delete`: the object's destructor destroys its member pointers. */
    method Delete(o: Obj, ghost pending: multiset<Obj>)
      requires Inv(pending) && o in counts && counts[o] <= 0
      modifies this
      ensures Inv(pending) && Fewer(counts, targets, old(counts), old(targets)) && o !in counts
      ensures MembersGone(members, targets, old(members))
      ensures forall p | p in old(targets) && !Owned(old(members), p) :: p in targets
      ensures forall x | x in members :: x in old(members) && members[x] == old(members)[x]
      decreases targets.Keys, 2
    {
      hide Counted, MembersOk, MembersGone;
      var mine := members[o];
      DropObject(counts, targets, pending, o);
      DropOwner(targets, members, o);
      counts, members := counts - {o}, members - {o};
      DestroyMembers(mine, pending);
      GoneWith(members, targets, old(members), o);
    }

    /** The destructors of all member pointers of an object that is gone. */
    method DestroyMembers(mine: seq<Ptr>, ghost pending: multiset<Obj>)
      requires Inv(pending) && forall j | 0 <= j < |mine| :: mine[j] in targets && !Owned(members, mine[j])
      requires forall i, j | 0 <= i < j < |mine| :: mine[i] != mine[j]
      modifies this
      ensures Inv(pending) && Fewer(counts, targets, old(counts), old(targets))
      ensures MembersGone(members, targets, old(members)) && forall j | 0 <= j < |mine| :: mine[j] !in targets
      ensures forall p | p in old(targets) && p !in mine && !Owned(old(members), p) :: p in targets
      ensures forall x | x in members :: x in old(members) && members[x] == old(members)[x]
      decreases targets.Keys, 1
    {
      hide Counted, MembersOk, MembersGone;
      ghost var members0 := members;
      NothingGone(members, targets);
      for i := 0 to |mine|
        invariant Inv(pending) && Fewer(counts, targets, old(counts), old(targets))
        invariant MembersGone(members, targets, members0) && forall j | 0 <= j < i :: mine[j] !in targets
        invariant forall j | i <= j < |mine| :: mine[j] in targets && !Owned(members, mine[j])
        invariant forall p | p in old(targets) && p !in mine && !Owned(members0, p) :: p in targets
        invariant forall x | x in members :: x in members0 && members[x] == members0[x]
        invariant targets.Keys <= old(targets.Keys)
      {
        ghost var members1, targets1 := members, targets;
        DestroyMember(mine[i], pending);
        GoneTwice(members, targets, members1, targets1, members0);
      }
    }

    /** The destructor of a pointer that no live object has as a member. */
    method DestroyMember(m: Ptr, ghost pending: multiset<Obj>)
      requires Inv(pending) && m in targets && !Owned(members, m)
      modifies this
      ensures Inv(pending) && Fewer(counts, targets, old(counts), old(targets)) && m !in targets
      ensures MembersGone(members, targets, old(members))
      ensures forall p | p in old(targets) && p != m && !Owned(old(members), p) :: p in targets
      ensures forall x | x in members :: x in old(members) && members[x] == old(members)[x]
      decreases targets.Keys, 0
    {
      hide Counted, MembersOk;
      var t := targets[m];
      DropPointer(counts, targets, pending, m);
      DropUnowned(targets, members, m);
      targets := targets - {m};
      DecRef(t, pending);
    }

    /** An object with member pointers, all null; nothing holds it yet. */
    method NewObject(o: Obj, memberPtrs: seq<Ptr>)
      requires Valid() && o !in counts
      requires forall i :: 0 <= i < |memberPtrs| ==> memberPtrs[i] !in targets
      requires forall i, j :: 0 <= i < j < |memberPtrs| ==> memberPtrs[i] != memberPtrs[j]
      modifies this
      ensures Valid() && counts == old(counts)[o := 0] && members == old(members)[o := memberPtrs]
      ensures forall p :: p in targets <==> p in old(targets) || p in memberPtrs
      ensures forall p | p in targets :: targets[p] == if p in old(targets) then old(targets)[p] else Null
    {
      ghost var targets0 := targets;
      for i := 0 to |memberPtrs|
        invariant forall p :: p in targets <==> p in targets0 || p in memberPtrs[..i]
        invariant forall p | p in targets :: targets[p] == if p in targets0 then targets0[p] else Null
        invariant counts == old(counts) && members == old(members)
      {
        targets := targets[memberPtrs[i] := Null];
      }
      assert memberPtrs[..|memberPtrs|] == memberPtrs;
      NullsHoldNothing(targets0, targets);
      counts, members := counts[o := 0], members[o := memberPtrs];
      NewMembersOk(targets0, targets, old(members), o, memberPtrs);
    }

    /** Construction from a plain pointer. */
    method Construct(p: Ptr, t: Target)
      requires Valid() && p !in targets && (t.To? ==> t.obj in counts)
      modifies this
      ensures Valid() && targets == old(targets)[p := t] && members == old(members)
    {
      hide Counted, MembersOk;
      AddPointer(counts, targets, p, t);
      SameKeysMembersOk(targets, targets[p := t], members);
      AddRef(t);
      targets := targets[p := t];
    }

    /** The copy constructor. */
    method Copy(p: Ptr, q: Ptr)
      requires Valid() && p !in targets && q in targets
      modifies this
      ensures Valid() && targets == old(targets)[p := old(targets)[q]] && members == old(members)
    {
      Construct(p, targets[q]);
    }

    /** Assignment from a plain pointer: count up the new object, then release the old one. Self-assignment
        does nothing. */
    method Assign(p: Ptr, t: Target)
      requires Valid() && p in targets && (t.To? ==> t.obj in counts)
      modifies this
      ensures Valid() && AllHeld(old(counts)) && Cascaded(members, targets, old(members), old(targets), {})
      ensures t == old(targets)[p] ==> targets == old(targets) && counts == old(counts)
      ensures p in targets ==> targets[p] == t
      ensures !Owned(old(members), p) ==> p in targets
      ensures forall q | q in targets && q != p :: q in old(targets) && targets[q] == old(targets)[q]
    {
      hide Counted, MembersOk, MembersGone, Holders, Cascaded;
      AlreadyHeld(counts, targets);
      NothingGone(members, targets);
      RunsOn(members, targets, members, targets, {});
      if targets[p] != t {
        var was := targets[p];
        Retarget(counts, targets, p, t);
        SameKeysMembersOk(targets, targets[p := t], members);
        AddRef(t);
        targets := targets[p := t];
        assert was.To? ==> multiset{} + multiset{was.obj} == multiset{was.obj};
        ghost var mid := counts;
        ghost var retargeted := targets;
        DecRef(was, multiset{});
        RunsOn(members, targets, old(members), retargeted, {});
        SameDomain(members, targets, old(members), old(targets), retargeted);
        StillHeld(counts, targets, mid, old(counts));
      }
    }

    /** Assignment from another smart pointer, itself included. */
    method AssignFrom(p: Ptr, q: Ptr)
      requires Valid() && p in targets && q in targets
      modifies this
      ensures Valid() && AllHeld(old(counts)) && Cascaded(members, targets, old(members), old(targets), {})
      ensures p == q ==> targets == old(targets) && counts == old(counts)
      ensures p in targets ==> targets[p] == old(targets)[q]
      ensures !Owned(old(members), p) ==> p in targets
    {
      Assign(p, targets[q]);
    }

    /** The destructor of a pointer that is not a member of a live object. */
    method Destroy(p: Ptr)
      requires Valid() && p in targets && !Owned(members, p)
      modifies this
      ensures Valid() && AllHeld(old(counts)) && Cascaded(members, targets, old(members), old(targets), {p})
      ensures forall q | q in targets :: q in old(targets) && targets[q] == old(targets)[q]
    {
      hide Counted, MembersOk, MembersGone, Holders, Cascaded;
      DestroyMember(p, multiset{});
      RunsOn(members, targets, old(members), old(targets), {p});
      StillHeld(counts, targets, old(counts), old(counts));
    }

    /** An object that some pointer held is alive exactly as long as some pointer holds it. */
    ghost predicate AllHeld(counts0: map<Obj, int>)
      reads this
    {
      forall o | o in counts0 && counts0[o] > 0 :: o in counts <==> Holders(targets, o) != {}
    }
  }

  /** What has gone in two steps. */
  lemma GoneTwice(members: map<Obj, seq<Ptr>>, targets: Targets, members1: map<Obj, seq<Ptr>>, targets1: Targets,
                  members0: map<Obj, seq<Ptr>>)
    requires MembersGone(members, targets, members1) && MembersGone(members1, targets1, members0)
    requires forall x | x in members1 :: x in members0 && members1[x] == members0[x]
    requires forall p | p in targets :: p in targets1
    ensures MembersGone(members, targets, members0)
  {
  }

  lemma GoneWith(members: map<Obj, seq<Ptr>>, targets: Targets, members0: map<Obj, seq<Ptr>>, o: Obj)
    requires o in members0 && MembersGone(members, targets, members0 - {o})
    requires forall m | m in members0[o] :: m !in targets
    ensures MembersGone(members, targets, members0)
  {
  }

  lemma SameDomain(members: map<Obj, seq<Ptr>>, targets: Targets, members0: map<Obj, seq<Ptr>>, a: Targets, b: Targets)
    requires Cascaded(members, targets, members0, b, {}) && a.Keys == b.Keys
    ensures Cascaded(members, targets, members0, a, {})
  {
    assert forall p :: p in a <==> p in a.Keys;
    assert forall p :: p in b <==> p in b.Keys;
  }

  lemma NothingGone(members: map<Obj, seq<Ptr>>, targets: Targets)
    ensures MembersGone(members, targets, members)
  {
  }

  lemma AlreadyHeld(counts: map<Obj, int>, targets: Targets)
    requires Counted(counts, targets, multiset{})
    ensures forall o | o in counts && counts[o] > 0 :: Holders(targets, o) != {}
  {
  }

  /** After a release, an object held before is alive exactly if it is still held. */
  lemma StillHeld(counts: map<Obj, int>, targets: Targets, mid: map<Obj, int>, before: map<Obj, int>)
    requires Counted(counts, targets, multiset{})
    requires forall o | o in counts :: o in mid && (counts[o] <= 0 ==> counts[o] == mid[o])
    requires forall o | o in before && before[o] > 0 :: o in mid && mid[o] > 0
    ensures forall o | o in before && before[o] > 0 :: o in counts <==> Holders(targets, o) != {}
  {
    forall o | o in before && before[o] > 0 ensures o in counts <==> Holders(targets, o) != {} {
      if o in counts {
        assert counts[o] == |Holders(targets, o)|;
      } else {
        assert forall p | p in targets :: targets[p] != To(o);
      }
    }
  }

  lemma SameKeysMembersOk(targets: Targets, after: Targets, members: map<Obj, seq<Ptr>>)
    requires MembersOk(targets, members) && targets.Keys <= after.Keys
    ensures MembersOk(after, members)
  {
    assert forall p | p in targets :: p in after.Keys;
  }

  lemma RetargetHolders(targets: Targets, p: Ptr, t: Target, o: Obj)
    requires p in targets && targets[p] != t
    ensures |Holders(targets[p := t], o)| ==
            |Holders(targets, o)| - (if targets[p] == To(o) then 1 else 0) + if t == To(o) then 1 else 0
  {
    var dropped := targets - {p};
    assert targets[p := t] == dropped[p := t];
    HoldersDrop(targets, p, o);
    HoldersAdd(dropped, p, t, o);
  }

  /** The old object is to be released, the new one has been counted up. */
  lemma Retarget(counts: map<Obj, int>, targets: Targets, p: Ptr, t: Target)
    requires Counted(counts, targets, multiset{}) && p in targets && targets[p] != t && (t.To? ==> t.obj in counts)
    ensures Counted(if t.To? then counts[t.obj := counts[t.obj] + 1] else counts, targets[p := t],
                    if targets[p].To? then multiset{targets[p].obj} else multiset{})
  {
    hide Holders;
    forall o | o in counts
      ensures |Holders(targets[p := t], o)| ==
              |Holders(targets, o)| - (if targets[p] == To(o) then 1 else 0) + if t == To(o) then 1 else 0
    {
      RetargetHolders(targets, p, t, o);
    }
  }

  lemma NullsHoldNothing(before: Targets, after: Targets)
    requires forall p | p in before :: p in after && after[p] == before[p]
    requires forall p | p in after && p !in before :: after[p] == Null
    ensures forall o :: Holders(after, o) == Holders(before, o)
  {
  }

  lemma NewMembersOk(before: Targets, after: Targets, members: map<Obj, seq<Ptr>>, o: Obj, memberPtrs: seq<Ptr>)
    requires MembersOk(before, members) && o !in members
    requires forall p | p in before :: p in after
    requires forall i :: 0 <= i < |memberPtrs| ==> memberPtrs[i] in after && memberPtrs[i] !in before
    requires forall i, j :: 0 <= i < j < |memberPtrs| ==> memberPtrs[i] != memberPtrs[j]
    ensures MembersOk(after, members[o := memberPtrs])
  {
  }

  // ---------- a chain of any length ----------

  /** `p` alone holds the first object, and each object's member pointers alone hold the next. */
  ghost predicate IsChain(members: map<Obj, seq<Ptr>>, targets: Targets, p: Ptr, chain: seq<Obj>) {
    && (forall i | 0 <= i < |chain| :: chain[i] in members && Holders(targets, chain[i]) != {})
    && (|chain| > 0 ==> Holders(targets, chain[0]) == {p})
    && (forall i | 0 < i < |chain| :: forall q | q in Holders(targets, chain[i]) :: q in members[chain[i - 1]])
  }

  lemma {:induction false} ChainFalls(members: map<Obj, seq<Ptr>>, targets: Targets, members0: map<Obj, seq<Ptr>>,
                                      targets0: Targets, p: Ptr, chain: seq<Obj>, i: nat)
    requires IsChain(members0, targets0, p, chain) && i < |chain|
    requires Cascaded(members, targets, members0, targets0, {p})
    requires forall q | q in targets :: q in targets0 && targets[q] == targets0[q]
    requires forall o | o in members0 && Holders(targets0, o) != {} :: o in members ==> Holders(targets, o) != {}
    ensures chain[i] !in members
    decreases i
  {
    if i > 0 {
      ChainFalls(members, targets, members0, targets0, p, chain, i - 1);
    }
    assert Holders(targets, chain[i]) <= Holders(targets0, chain[i]);
    assert forall q | q in Holders(targets0, chain[i]) :: q !in targets;
    assert Holders(targets, chain[i]) == {};
  }

  /** When the pointer to the first object of a chain goes, all its objects go. */
  method DestroyChain(heap: Heap, p: Ptr, ghost chain: seq<Obj>)
    requires heap.Valid() && p in heap.targets && !Owned(heap.members, p)
    requires IsChain(heap.members, heap.targets, p, chain)
    modifies heap
    ensures heap.Valid() && forall i | 0 <= i < |chain| :: chain[i] !in heap.counts
  {
    hide Owned, IsChain, Cascaded, MembersOk;
    ghost var members0, targets0 := heap.members, heap.targets;
    HeldAreCounted(heap.counts, targets0);
    heap.Destroy(p);
    forall i | 0 <= i < |chain| ensures chain[i] !in heap.counts {
      ChainFalls(heap.members, heap.targets, members0, targets0, p, chain, i);
    }
  }

  lemma HeldAreCounted(counts: map<Obj, int>, targets: Targets)
    requires Counted(counts, targets, multiset{})
    ensures forall o | o in counts && Holders(targets, o) != {} :: counts[o] > 0
  {
  }
}
