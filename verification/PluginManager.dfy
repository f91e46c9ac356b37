/** `DMPluginManager` and `DMPlugin`: which plugin answers for a path, and the life of the libraries behind
    the plugins' function pointers. */
module PluginManager {
  import opened DmText

  // ---------- path matching ----------

  const STAR: CChar := 42

  ghost predicate Occurs(text: Text, needle: Text) {
    exists before, after :: text == before + needle + after
  }

  /** A plugin path without '*' stands for all paths it is a string prefix of. With one, the parts before
      and behind its first '*' must follow each other in the node path. */
  ghost predicate Covers(pluginPath: Text, nodePath: Text) {
    var star := IndexOf(pluginPath, STAR);
    if star == |pluginPath| then pluginPath <= nodePath
    else pluginPath[..star] <= nodePath && Occurs(nodePath[star..], pluginPath[star + 1..])
  }

  /** The matching rule for a plugin path without '*'. */
  lemma CoversWithoutStar(pluginPath: Text, nodePath: Text)
    requires '*' as CChar !in pluginPath
    ensures Covers(pluginPath, nodePath) <==> Begins(nodePath, pluginPath)
  {
    assert IndexOf(pluginPath, STAR) == |pluginPath|;
    if pluginPath <= nodePath {
      assert nodePath == pluginPath + nodePath[|pluginPath|..];
    }
  }

  /** The first '*' of a plugin path. */
  predicate FirstStar(pluginPath: Text, k: nat) {
    k < |pluginPath| && pluginPath[k] == '*' as CChar && '*' as CChar !in pluginPath[..k]
  }

  /** The plugin at a path answers for a node: without '*', for every path that begins with its own; with
      one, for every path made of the part before the first '*', anything, the part behind it, anything. */
  ghost predicate AnswersFor(pluginPath: Text, nodePath: Text) {
    if '*' as CChar !in pluginPath then Begins(nodePath, pluginPath)
    else exists k: nat :: FirstStar(pluginPath, k) && HasParts(nodePath, pluginPath[..k], pluginPath[k + 1..])
  }

  ghost predicate Begins(nodePath: Text, a: Text) {
    exists rest: Text :: nodePath == a + rest
  }

  ghost predicate HasParts(nodePath: Text, a: Text, b: Text) {
    exists x: Text, y: Text :: nodePath == a + x + b + y
  }

  predicate FoundAt(text: Text, needle: Text, at: nat) {
    at + |needle| <= |text| && text[at..at + |needle|] == needle
  }

  /** `DmStrstr`, as the test whether it finds anything. */
  method Strstr(text: Text, needle: Text) returns (found: bool)
    ensures found <==> Occurs(text, needle)
  {
    var i := 0;
    while i <= |text|
      invariant 0 <= i <= |text| + 1
      invariant forall j :: 0 <= j < i ==> !FoundAt(text, needle, j)
    {
      if FoundAt(text, needle, i) {
        assert text == text[..i] + needle + text[i + |needle|..];
        return true;
      }
      i := i + 1;
    }
    forall before, after | text == before + needle + after ensures FoundAt(text, needle, |before|) {
      assert text[|before|..|before| + |needle|] == needle;
    }
    return false;
  }

  /** `PathMatch`: two pointers run over both paths until the plugin path ends or shows a '*'. */
  method PathMatch(nodePath: Text, pluginPath: Text) returns (matched: bool)
    ensures '*' as CChar !in pluginPath ==> (matched <==> Begins(nodePath, pluginPath))
    ensures forall k: nat | FirstStar(pluginPath, k) ::
              matched <==> HasParts(nodePath, pluginPath[..k], pluginPath[k + 1..])
    ensures matched <==> AnswersFor(pluginPath, nodePath)
  {
    if '*' as CChar !in pluginPath {
      CoversWithoutStar(pluginPath, nodePath);
    } else {
      CoversIsAnswer(pluginPath, nodePath);
    }
    matched := RunBoth(nodePath, pluginPath);
  }

  lemma CoversIsAnswer(pluginPath: Text, nodePath: Text)
    requires '*' as CChar in pluginPath
    ensures exists k: nat :: FirstStar(pluginPath, k)
    ensures forall k: nat | FirstStar(pluginPath, k) ::
              Covers(pluginPath, nodePath) <==> HasParts(nodePath, pluginPath[..k], pluginPath[k + 1..])
  {
    hide Covers;
    assert FirstStar(pluginPath, IndexOf(pluginPath, STAR));
    forall k: nat | FirstStar(pluginPath, k)
      ensures Covers(pluginPath, nodePath) <==> HasParts(nodePath, pluginPath[..k], pluginPath[k + 1..])
    {
      var a, b := pluginPath[..k], pluginPath[k + 1..];
      assert pluginPath == a + [STAR] + b;
      CoversWithStar(a, b, nodePath);
    }
  }

  /** The two pointers. */
  method RunBoth(nodePath: Text, pluginPath: Text) returns (matched: bool)
    ensures matched <==> Covers(pluginPath, nodePath)
  {
    var p := 0;
    ghost var star := IndexOf(pluginPath, STAR);
    while true
      invariant 0 <= p <= star && p <= |nodePath| && pluginPath[..p] == nodePath[..p]
      decreases |pluginPath| - p
    {
      if p == |pluginPath| {
        return true;
      }
      if pluginPath[p] == STAR {
        break;
      }
      if p == |nodePath| || nodePath[p] != pluginPath[p] {
        PrefixesDiffer(nodePath, pluginPath, p, star);
        return false;
      }
      p := p + 1;
    }
    assert nodePath[..p] == pluginPath[..star];
    matched := Strstr(nodePath[p..], pluginPath[p + 1..]);
  }

  lemma PrefixesDiffer(nodePath: Text, pluginPath: Text, p: nat, star: nat)
    requires p < star <= |pluginPath| && p <= |nodePath|
    requires p == |nodePath| || nodePath[p] != pluginPath[p]
    ensures !(pluginPath[..star] <= nodePath) && !(pluginPath <= nodePath)
  {
  }

  /** The matching rule in one equation: with '*', the node path is the first part, anything, the second
      part, anything. */
  lemma CoversWithStar(a: Text, b: Text, nodePath: Text)
    requires STAR !in a
    ensures Covers(a + [STAR] + b, nodePath) <==> exists x: Text, y: Text :: nodePath == a + x + b + y
  {
    var plugin := a + [STAR] + b;
    assert plugin[|a|] == STAR && forall j :: 0 <= j < |a| ==> plugin[j] == a[j];
    assert IndexOf(plugin, STAR) == |a|;
    assert plugin[..|a|] == a && plugin[|a| + 1..] == b;
    if a <= nodePath {
      OccursBehind(a, b, nodePath);
    }
    forall x: Text, y: Text | nodePath == a + x + b + y ensures a <= nodePath {
      assert nodePath[..|a|] == a;
    }
  }

  lemma OccursBehind(a: Text, b: Text, nodePath: Text)
    requires a <= nodePath
    ensures Occurs(nodePath[|a|..], b) <==> exists x: Text, y: Text :: nodePath == a + x + b + y
  {
    var rest := nodePath[|a|..];
    assert nodePath == a + rest;
    if Occurs(rest, b) {
      var x, y :| rest == x + b + y;
      assert nodePath == a + x + b + y;
    }
    forall x: Text, y: Text | nodePath == a + x + b + y ensures Occurs(rest, b) {
      assert rest == x + b + y;
    }
  }

  // ---------- libraries and function pointers ----------

  /** What `XPL_DL_Load` returns; 0 when the library cannot be loaded. */
  type Handle = nat

  /** A pointer to a function, and the library its code is in. */
  datatype Function = NoFunction | In(lib: Handle)

  datatype Kind = Data | Exec | Constraint | CommitKind

  /** The kinds, in the order of the manager's index. */
  const KINDS: seq<Kind> := [Data, Exec, Constraint, CommitKind]

  ghost predicate OneOfFour(k: Kind) {
    k == Data || k == Exec || k == Constraint || k == CommitKind
  }

  lemma EveryKind(k: Kind)
    ensures k in KINDS
  {
    assert OneOfFour(k);
    assert KINDS[0] == Data && KINDS[1] == Exec && KINDS[2] == Constraint && KINDS[3] == CommitKind;
  }

  function ForEachKind<T>(value: T): (m: map<Kind, T>)
    ensures forall k: Kind :: k in m && m[k] == value
  {
    var all := map[Data := value, Exec := value, Constraint := value, CommitKind := value];
    assert forall k: Kind :: k in all && all[k] == value by {
      forall k: Kind ensures k in all && all[k] == value {
        assert OneOfFour(k);
      }
    }
    all
  }

  datatype Library = Library(name: Text, handle: Handle)

  ghost function HandlesOf(libs: seq<Library>): set<Handle> {
    set l | l in libs :: l.handle
  }

  predicate Recorded(libs: seq<Library>, name: Text) {
    exists l :: l in libs && l.name == name
  }

  /** The handle on record for a name, or the one a fresh load gives. */
  function HandleFor(libs: seq<Library>, name: Text, loaded: Handle): Handle {
    if libs == [] then loaded
    else if libs[0].name == name then libs[0].handle
    else HandleFor(libs[1..], name, loaded)
  }

  /** Everything that loading a symbol may change: the table, what is in memory, and the plugin's handles and
      function pointers. */
  datatype Symbols = Symbols(libs: seq<Library>, mapped: set<Handle>, handles: map<Kind, Handle>,
                             functions: map<Kind, Function>)

  /** The library of a name has been looked up or loaded. */
  ghost function AfterLib(s: Symbols, name: Text, loaded: Handle, room: bool): Symbols {
    if Recorded(s.libs, name) then s
    else s.(libs := if room then s.libs + [Library(name, loaded)] else s.libs,
            mapped := if loaded != 0 then s.mapped + {loaded} else s.mapped)
  }

  /** An empty handle is filled if the plugin's parameters name a library. */
  ghost function AfterHandle(s: Symbols, names: map<Kind, Text>, kind: Kind, loaded: Handle, room: bool): Symbols
    requires kind in s.handles
  {
    if s.handles[kind] != 0 || kind !in names then s
    else AfterLib(s, names[kind], loaded, room).(handles := s.handles[kind := HandleFor(s.libs, names[kind], loaded)])
  }

  /** With a handle, the function is looked up. */
  ghost function AfterSymbol(s: Symbols, names: map<Kind, Text>, kind: Kind, loaded: Handle, found: bool, room: bool)
    : Symbols
    requires kind in s.handles
  {
    var h := AfterHandle(s, names, kind, loaded, room);
    if h.handles[kind] == 0 then h
    else h.(functions := h.functions[kind := if found then In(h.handles[kind]) else NoFunction])
  }

  /** A call loads a symbol that is missing. */
  ghost function AfterCall(s: Symbols, names: map<Kind, Text>, kind: Kind, loaded: Handle, found: bool, room: bool)
    : Symbols
    requires kind in s.handles && kind in s.functions
  {
    if s.functions[kind] == NoFunction then AfterSymbol(s, names, kind, loaded, found, room) else s
  }

  /** The handle that a load leaves with the plugin and not in the table: the plugin has none of this kind and
      its parameters name a library that is not on record, there is no room to record it, and it loads
      under a handle of its own. */
  ghost predicate LosesRecord(s: Symbols, names: map<Kind, Text>, kind: Kind, loaded: Handle, room: bool)
    requires kind in s.handles
  {
    && s.handles[kind] == 0 && kind in names && !Recorded(s.libs, names[kind])
    && !room && loaded != 0 && loaded !in HandlesOf(s.libs)
  }

  /** A call through a pointer that is there loads nothing. One through a null pointer fills an empty handle
      from the library that the plugin's parameters name for the kind, at its handle on record or the one it
      loads under, and takes the function from the library of the handle. */
  lemma WhatACallLoads(s: Symbols, names: map<Kind, Text>, kind: Kind, loaded: Handle, found: bool, room: bool)
    requires kind in s.handles && kind in s.functions && DistinctNames(s.libs)
    ensures var r := AfterCall(s, names, kind, loaded, found, room);
            && kind in r.handles && kind in r.functions
            && (s.functions[kind] != NoFunction ==> r == s)
            && (s.handles[kind] != 0 || kind !in names ==>
                  r.handles == s.handles && r.libs == s.libs && r.mapped == s.mapped)
            && (forall k | k in s.handles && k != kind :: k in r.handles && r.handles[k] == s.handles[k])
            && (forall k | k in s.functions && k != kind :: k in r.functions && r.functions[k] == s.functions[k])
    ensures var r := AfterCall(s, names, kind, loaded, found, room);
            s.functions[kind] == NoFunction ==>
              r.functions[kind] == if found && r.handles[kind] != 0 then In(r.handles[kind]) else NoFunction
    ensures var r := AfterCall(s, names, kind, loaded, found, room);
            s.functions[kind] == NoFunction && s.handles[kind] == 0 && kind in names ==>
              && (forall l | l in s.libs && l.name == names[kind] ::
                    r.handles[kind] == l.handle && r.libs == s.libs && r.mapped == s.mapped)
              && ((forall l | l in s.libs :: l.name != names[kind]) ==>
                    && r.handles[kind] == loaded
                    && r.libs == (if room then s.libs + [Library(names[kind], loaded)] else s.libs)
                    && r.mapped == (if loaded == 0 then s.mapped else s.mapped + {loaded}))
  {
    hide HandleFor, HandlesOf, DistinctNames;
    if kind in names {
      HandleForRecorded(s.libs, names[kind], loaded);
      forall l | l in s.libs && l.name == names[kind] ensures HandleFor(s.libs, names[kind], loaded) == l.handle {
        HandleOnRecord(s.libs, l, loaded);
      }
    }
  }

  lemma HandleOnRecord(libs: seq<Library>, l: Library, loaded: Handle)
    requires DistinctNames(libs) && l in libs
    ensures HandleFor(libs, l.name, loaded) == l.handle
  {
    var i :| 0 <= i < |libs| && libs[i] == l;
    HandleForIs(libs, l.name, loaded, i);
  }

  lemma {:induction false} HandleForIs(libs: seq<Library>, name: Text, loaded: Handle, i: nat)
    requires i <= |libs| && forall j :: 0 <= j < i ==> libs[j].name != name
    ensures i == |libs| ==> !Recorded(libs, name) && HandleFor(libs, name, loaded) == loaded
    ensures i < |libs| && libs[i].name == name ==>
              Recorded(libs, name) && HandleFor(libs, name, loaded) == libs[i].handle
  {
    if i > 0 {
      HandleForIs(libs[1..], name, loaded, i - 1);
      assert libs == [libs[0]] + libs[1..];
    } else if libs != [] && libs[0].name == name {
      assert libs[0] in libs;
    }
  }

  /** The handle a load returns is in the table exactly if it was already, or could be recorded. */
  lemma {:induction false} HandleForRecorded(libs: seq<Library>, name: Text, loaded: Handle)
    ensures Recorded(libs, name) ==> HandleFor(libs, name, loaded) in HandlesOf(libs)
    ensures !Recorded(libs, name) ==> HandleFor(libs, name, loaded) == loaded
  {
    if libs != [] {
      if libs[0].name == name {
        assert libs[0] in libs;
      } else {
        HandleForRecorded(libs[1..], name, loaded);
        assert libs == [libs[0]] + libs[1..];
        assert HandlesOf(libs) == {libs[0].handle} + HandlesOf(libs[1..]);
      }
    }
  }

  ghost predicate DistinctNames(libs: seq<Library>) {
    forall i, j :: 0 <= i < j < |libs| ==> libs[i].name != libs[j].name
  }

  /** A library that is on record, or for which there is room, is loaded once: every later load of its name
      gives the same handle. Without room every load is a fresh one. */
  lemma LoadedOnce(s: Symbols, name: Text, loaded: Handle, room: bool, again: Handle)
    ensures HandleFor(AfterLib(s, name, loaded, room).libs, name, again)
            == if Recorded(s.libs, name) || room then HandleFor(s.libs, name, loaded) else again
  {
    var after := AfterLib(s, name, loaded, room).libs;
    if Recorded(s.libs, name) {
      var l :| l in s.libs && l.name == name;
      HandleForAny(s.libs, name, loaded, again);
    } else if room {
      assert after[|s.libs|] == Library(name, loaded);
      forall j | 0 <= j < |s.libs| ensures after[j].name != name {
        assert s.libs[j] in s.libs;
      }
      HandleForIs(after, name, again, |s.libs|);
      HandleForRecorded(s.libs, name, loaded);
    } else {
      HandleForRecorded(s.libs, name, again);
    }
  }

  lemma {:induction false} HandleForAny(libs: seq<Library>, name: Text, a: Handle, b: Handle)
    requires Recorded(libs, name)
    ensures HandleFor(libs, name, a) == HandleFor(libs, name, b)
  {
    if libs[0].name != name {
      assert libs == [libs[0]] + libs[1..];
      HandleForAny(libs[1..], name, a, b);
    }
  }

  class DMPlugin {
    const path: Text
    const kinds: set<Kind>
    /** The names of the libraries, by kind, as the plugin's parameters give them. */
    const libraryNames: map<Kind, Text>
    var handles: map<Kind, Handle>
    var functions: map<Kind, Function>
    var hasTree: bool
    var lastAccessed: nat

    constructor (path: Text, kinds: set<Kind>, libraryNames: map<Kind, Text>, now: nat)
      ensures this.path == path && this.kinds == kinds && this.libraryNames == libraryNames
      ensures Unloaded() && !hasTree && lastAccessed == now
    {
      this.path, this.kinds, this.libraryNames := path, kinds, libraryNames;
      handles := ForEachKind(0);
      functions := ForEachKind(NoFunction);
      hasTree, lastAccessed := false, now;
    }

    /** No handle, no function pointer. */
    ghost predicate Unloaded()
      reads this`handles, this`functions
    {
      forall k: Kind :: k in handles && handles[k] == 0 && k in functions && functions[k] == NoFunction
    }

    ghost predicate Safe(live: set<Handle>)
      reads this`handles, this`functions
    {
      SafeWith(handles, functions, live)
    }

    ghost predicate Holds(handle: Handle)
      reads this`handles
    {
      exists k: Kind :: k in handles && handles[k] == handle
    }

    method UnloadSymbols()
      modifies this
      ensures Unloaded() && !hasTree && lastAccessed == old(lastAccessed)
    {
      functions := ForEachKind(NoFunction);
      hasTree := false;
      handles := ForEachKind(0);
    }

    method IsSymbolsLoaded() returns (loaded: bool)
      requires forall k: Kind :: k in handles
      ensures loaded <==> hasTree || exists k: Kind :: handles[k] != 0
    {
      forall k: Kind | handles[k] != 0 ensures OneOfFour(k) {
      }
      loaded := hasTree || handles[Data] != 0 || handles[Exec] != 0
        || handles[Constraint] != 0 || handles[CommitKind] != 0;
    }

    /** `IsLibReleased` answers whether the plugin holds the handle. */
    method IsLibReleased(handle: Handle) returns (held: bool)
      requires forall k: Kind :: k in handles
      ensures held <==> Holds(handle)
    {
      forall k: Kind | handles[k] == handle ensures OneOfFour(k) {
      }
      held := handle == handles[Data] || handle == handles[Exec]
        || handle == handles[Constraint] || handle == handles[CommitKind];
    }
  }

  datatype Snapshot = Snapshot(handles: map<Kind, Handle>, functions: map<Kind, Function>, hasTree: bool,
                               lastAccessed: nat, idle: bool)

  /** The table `now` when the entries of `was` from index `i` on have been checked. */
  ghost predicate Swept(was: seq<Library>, now: seq<Library>, i: nat, held: set<Handle>) {
    && i <= |now| && i <= |was| && now[..i] == was[..i]
    && (forall l :: l in now[i..] <==> l in was[i..] && l.handle in held)
    && DistinctNames(now)
  }

  ghost predicate HeldMapped(held: set<Handle>, mapped: set<Handle>) {
    forall h | h in held && h != 0 :: h in mapped
  }

  lemma SweepStarts(was: seq<Library>, held: set<Handle>)
    requires DistinctNames(was)
    ensures Swept(was, was, |was|, held)
  {
  }

  lemma SweepKeeps(was: seq<Library>, now: seq<Library>, pos: nat, held: set<Handle>)
    requires pos < |now| && Swept(was, now, pos + 1, held) && now[pos].handle in held
    ensures Swept(was, now, pos, held)
  {
    assert now[..pos] == now[..pos + 1][..pos] && was[..pos] == was[..pos + 1][..pos];
    assert now[pos] == now[..pos + 1][pos] == was[pos];
    assert now[pos..] == [now[pos]] + now[pos + 1..] && was[pos..] == [was[pos]] + was[pos + 1..];
  }

  lemma SweepDrops(was: seq<Library>, now: seq<Library>, pos: nat, held: set<Handle>)
    requires pos < |now| && Swept(was, now, pos + 1, held) && now[pos].handle !in held
    ensures Swept(was, now[..pos] + now[pos + 1..], pos, held)
  {
    var next := now[..pos] + now[pos + 1..];
    assert now[..pos] == now[..pos + 1][..pos] && was[..pos] == was[..pos + 1][..pos];
    assert now[pos] == now[..pos + 1][pos] == was[pos];
    assert next[..pos] == now[..pos] && next[pos..] == now[pos + 1..];
    assert was[pos..] == [was[pos]] + was[pos + 1..];
  }

  /** Every handle is that of a library in `live`, and every function pointer points into the library whose
      handle is kept next to it. */
  ghost predicate SafeWith(handles: map<Kind, Handle>, functions: map<Kind, Function>, live: set<Handle>) {
    forall k: Kind ::
      && k in handles && (handles[k] != 0 ==> handles[k] in live)
      && k in functions && (functions[k].In? ==> functions[k].lib == handles[k] && handles[k] != 0)
  }

  class DMPluginManager {
    var libs: seq<Library>
    var plugins: map<Kind, seq<DMPlugin>>
    /** The libraries whose code is in memory. */
    ghost var mapped: set<Handle>

    ghost function Everyone(): set<DMPlugin>
      reads this`plugins
    {
      set k: Kind, p | k in plugins && p in plugins[k] :: p
    }

    lemma InEveryone(k: Kind, p: DMPlugin)
      requires k in plugins && p in plugins[k]
      ensures p in Everyone()
    {
    }

    lemma KindOf(p: DMPlugin) returns (j: nat)
      requires p in Everyone()
      ensures j < |KINDS| && KINDS[j] in plugins && p in plugins[KINDS[j]]
    {
      var k: Kind :| k in plugins && p in plugins[k];
      EveryKind(k);
      j :| 0 <= j < |KINDS| && KINDS[j] == k;
    }

    /** There is a list for every kind, and every registered plugin has its four handles. */
    ghost predicate Wired()
      reads this`plugins, Everyone()`handles
    {
      && (forall k: Kind :: k in plugins)
      && (forall p | p in Everyone() :: forall k: Kind :: k in p.handles)
    }

    /** The table lists each library once, all of its libraries are in memory, and so are the libraries whose
        handles registered plugins hold. */
    ghost predicate Valid()
      reads this, Everyone()
    {
      && (forall k: Kind :: k in plugins)
      && DistinctNames(libs)
      && (forall h | h in HandlesOf(libs) && h != 0 :: h in mapped)
      && (forall p | p in Everyone() :: p.Safe(mapped))
    }

    /** Every handle a plugin holds is in the table. That fails once the table could not grow. */
    ghost predicate AllRecorded()
      reads this, Everyone()`handles
    {
      forall h | h in Held() && h != 0 :: h in HandlesOf(libs)
    }

    constructor ()
      ensures Valid() && Everyone() == {} && libs == [] && mapped == {}
    {
      libs := [];
      plugins := ForEachKind([]);
      mapped := {};
    }

    /** What loading a symbol for this plugin may change. */
    ghost function SymbolsOf(p: DMPlugin): Symbols
      reads this`libs, this`mapped, p`handles, p`functions
    {
      Symbols(libs, mapped, p.handles, p.functions)
    }

    /** `LoadLib`: the handle on record, or that of a fresh `XPL_DL_Load`, which is put on record even when
        the load failed. `room` tells whether the table can grow; without it the handle is returned all
        the same. */
    method LoadLib(name: Text, loaded: Handle, room: bool) returns (handle: Handle)
      requires Valid()
      modifies this`libs, this`mapped
      ensures Valid() && (handle != 0 ==> handle in mapped)
      ensures handle == HandleFor(old(libs), name, loaded)
      ensures forall handles, functions ::
                Symbols(libs, mapped, handles, functions)
                == AfterLib(Symbols(old(libs), old(mapped), handles, functions), name, loaded, room)
    {
      for i := 0 to |libs|
        invariant forall j :: 0 <= j < i ==> libs[j].name != name
      {
        if libs[i].name == name {
          HandleForIs(libs, name, loaded, i);
          assert libs[i].handle in HandlesOf(libs);
          return libs[i].handle;
        }
      }
      HandleForIs(libs, name, loaded, |libs|);
      if loaded != 0 {
        mapped := mapped + {loaded};
      }
      if room {
        libs := libs + [Library(name, loaded)];
      }
      return loaded;
    }

    /** `LoadSymbol` of a plugin: `found` tells whether the library has the function. */
    method LoadSymbol(p: DMPlugin, kind: Kind, loaded: Handle, found: bool, room: bool)
      requires Valid() && p in Everyone()
      modifies this`libs, this`mapped, p`handles, p`functions
      ensures Valid() && kind in old(p.handles)
      ensures SymbolsOf(p) == AfterSymbol(old(SymbolsOf(p)), p.libraryNames, kind, loaded, found, room)
      ensures old(AllRecorded()) ==>
                (AllRecorded() <==> !LosesRecord(old(SymbolsOf(p)), p.libraryNames, kind, loaded, room))
    {
      hide HandlesOf, DistinctNames, Held, AllRecorded, LosesRecord, AfterLib, HandleFor;
      assert p.Safe(mapped);
      NothingLost(p, kind, loaded, room);
      if p.handles[kind] == 0 {
        if kind in p.libraryNames {
          LoadHandle(p, kind, loaded, room);
        }
      }
      if p.handles[kind] != 0 {
        SetFunction(p, kind, if found then In(p.handles[kind]) else NoFunction);
      }
    }

    lemma NothingLost(p: DMPlugin, kind: Kind, loaded: Handle, room: bool)
      requires kind in p.handles
      ensures p.handles[kind] != 0 || kind !in p.libraryNames ==>
                !LosesRecord(SymbolsOf(p), p.libraryNames, kind, loaded, room)
    {
    }

    method SetFunction(p: DMPlugin, kind: Kind, function': Function)
      requires Valid() && p in Everyone()
      requires function'.In? ==> kind in p.handles && p.handles[kind] != 0 && function'.lib == p.handles[kind]
      modifies p`functions
      ensures Valid() && p.functions == old(p.functions)[kind := function']
      ensures Held() == old(Held())
    {
      hide HandlesOf, DistinctNames;
      assert p.Safe(mapped);
      p.functions := p.functions[kind := function'];
    }

    method LoadHandle(p: DMPlugin, kind: Kind, loaded: Handle, room: bool)
      requires Valid() && p in Everyone() && kind in p.libraryNames && kind in p.handles && p.handles[kind] == 0
      modifies this`libs, this`mapped, p`handles
      ensures Valid()
      ensures SymbolsOf(p) == AfterHandle(old(SymbolsOf(p)), p.libraryNames, kind, loaded, room)
      ensures old(AllRecorded()) ==>
                (AllRecorded() <==> !LosesRecord(old(SymbolsOf(p)), p.libraryNames, kind, loaded, room))
    {
      hide DistinctNames, Held, DMPlugin.Safe;
      HandleForRecorded(libs, p.libraryNames[kind], loaded);
      var handle := LoadLib(p.libraryNames[kind], loaded, room);
      SetHandle(p, kind, handle);
    }

    method SetHandle(p: DMPlugin, kind: Kind, handle: Handle)
      requires Valid() && p in Everyone() && kind in p.handles && p.handles[kind] == 0
      requires handle != 0 ==> handle in mapped
      modifies p`handles
      ensures Valid() && p.handles == old(p.handles)[kind := handle]
      ensures forall h | h != 0 :: h in Held() <==> h == handle || h in old(Held())
    {
      hide HandlesOf, DistinctNames;
      assert p.Safe(mapped);
      p.handles := p.handles[kind := handle];
      forall h | h in Held() && h != 0 ensures h == handle || h in old(Held()) {
        var q, k: Kind :| q in Everyone() && k in q.handles && q.handles[k] == h;
        assert q != p ==> q.handles == old(q.handles);
      }
      forall h | h in old(Held()) && h != 0 ensures h in Held() {
        var q, k: Kind :| q in Everyone() && k in old(q.handles) && old(q.handles)[k] == h;
        assert k in q.handles && q.handles[k] == h;
      }
      assert p.handles[kind] == handle;
    }

    /** What a call through a function pointer needs: the code it points to is in memory. */
    ghost predicate Callable(f: Function)
      reads this`mapped
    {
      f.In? ==> f.lib != 0 && f.lib in mapped
    }

    /** The common part of `Execute`, `CheckConstraint` and `OnCommit`: load the symbol unless it is there,
        and call through the pointer unless it is null. */
    method Call(p: DMPlugin, kind: Kind, now: nat, loaded: Handle, found: bool, room: bool)
      returns (callee: Function)
      requires Valid() && p in Everyone()
      modifies this`libs, this`mapped, p`handles, p`functions, p`lastAccessed
      ensures Valid() && Callable(callee) && p.lastAccessed == now
      ensures kind in old(p.handles) && kind in old(p.functions)
      ensures SymbolsOf(p) == AfterCall(old(SymbolsOf(p)), p.libraryNames, kind, loaded, found, room)
      ensures kind in p.functions && callee == p.functions[kind]
      ensures old(AllRecorded()) ==>
                (AllRecorded() <==> !LosesRecord(old(SymbolsOf(p)), p.libraryNames, kind, loaded, room))
    {
      hide HandlesOf, DistinctNames, Held, AllRecorded, LosesRecord, AfterSymbol;
      assert p.Safe(mapped);
      NothingLost(p, kind, loaded, room);
      p.lastAccessed := now;
      if p.functions[kind] == NoFunction {
        LoadSymbol(p, kind, loaded, found, room);
      }
      assert p.Safe(mapped);
      callee := p.functions[kind];
    }

    /** `GetTree`: the tree on record, or the one the data library makes. */
    method GetTree(p: DMPlugin, now: nat, loaded: Handle, found: bool, made: bool, room: bool)
      returns (callee: Function)
      requires Valid() && p in Everyone()
      modifies this`libs, this`mapped, p
      ensures Valid() && Callable(callee) && p.lastAccessed == now
      ensures Data in old(p.handles) && Data in old(p.functions)
      ensures old(p.hasTree) ==> callee == NoFunction && p.hasTree && SymbolsOf(p) == old(SymbolsOf(p))
      ensures !old(p.hasTree) ==>
                && p.hasTree == made && Data in p.functions && callee == p.functions[Data]
                && SymbolsOf(p) == AfterCall(old(SymbolsOf(p)), p.libraryNames, Data, loaded, found, room)
      ensures old(AllRecorded()) ==>
                (AllRecorded() <==>
                 old(p.hasTree) || !LosesRecord(old(SymbolsOf(p)), p.libraryNames, Data, loaded, room))
    {
      hide HandlesOf, DistinctNames, Held, LosesRecord, AfterCall;
      assert p.Safe(mapped);
      p.lastAccessed := now;
      if p.hasTree {
        return NoFunction;
      }
      callee := Call(p, Data, now, loaded, found, room);
      p.hasTree := made;
      assert p.Safe(mapped);
    }

    /** Old enough to be unloaded; the clock is an unsigned 32-bit number. */
    ghost predicate Idle(p: DMPlugin, agingTime: nat, now: nat)
      reads p
    {
      && (now - p.lastAccessed) % 0x1_0000_0000 >= agingTime % 0x1_0000_0000
      && (p.hasTree || exists k: Kind :: k in p.handles && p.handles[k] != 0)
    }

    /** Idle for at least the aging time, also when the clock has wrapped around since, and with something to
        unload. */
    lemma IdleMeans(p: DMPlugin, agingTime: nat, now: nat)
      requires p.lastAccessed < 4294967296 && now < 4294967296 && agingTime < 4294967296
      ensures var elapsed := if now >= p.lastAccessed then now - p.lastAccessed
                             else now + 4294967296 - p.lastAccessed;
              Idle(p, agingTime, now)
              <==> elapsed >= agingTime && (p.hasTree || exists k: Kind :: k in p.handles && p.handles[k] != 0)
    {
    }

    /** The handles registered plugins hold, 0 among them when some plugin has an empty slot. */
    ghost function Held(): set<Handle>
      reads this`plugins, Everyone()`handles
    {
      set p, k: Kind | p in Everyone() && k in p.handles :: p.handles[k]
    }

    method UnloadIfIdle(p: DMPlugin, agingTime: nat, now: nat)
      requires forall k: Kind :: k in p.handles
      modifies p
      ensures if old(Idle(p, agingTime, now)) then p.Unloaded() && !p.hasTree
              else p.handles == old(p.handles) && p.functions == old(p.functions) && p.hasTree == old(p.hasTree)
                   && p.lastAccessed == old(p.lastAccessed)
    {
      var loaded := p.IsSymbolsLoaded();
      if (now - p.lastAccessed) % 0x1_0000_0000 >= agingTime % 0x1_0000_0000 && loaded {
        p.UnloadSymbols();
      }
    }

    /** The first loops of `CheckPluginAging`. A plugin of several kinds is looked at several times. */
    method UnloadIdle(agingTime: nat, now: nat)
      requires Valid()
      modifies Everyone()
      ensures Valid()
      ensures forall h | h in Held() && h != 0 :: h in old(Held())
      ensures forall p | p in Everyone() ::
                if old(Idle(p, agingTime, now)) then p.Unloaded() && !p.hasTree
                else p.handles == old(p.handles) && p.functions == old(p.functions) && p.hasTree == old(p.hasTree)
    {
      hide HandlesOf, DistinctNames, Everyone, Idle, Underway, DMPlugin.Safe, SafeWith;
      ghost var before := Snapshots(agingTime, now);
      StartAging(before, agingTime, now);
      ghost var done: set<DMPlugin> := {};
      for j := 0 to |KINDS|
        invariant Underway(before, done, agingTime, now)
        invariant forall m, p | 0 <= m < j && p in plugins[KINDS[m]] :: p in done
      {
        var ofKind := plugins[KINDS[j]];
        for i := 0 to |ofKind|
          invariant Underway(before, done, agingTime, now)
          invariant forall m, p | 0 <= m < j && p in plugins[KINDS[m]] :: p in done
          invariant forall m | 0 <= m < i :: ofKind[m] in done
        {
          RegisteredWired(KINDS[j], ofKind[i], before, done, agingTime, now);
          AgeOne(ofKind[i], before, done, agingTime, now);
          done := done + {ofKind[i]};
        }
      }
      forall p | p in Everyone() ensures p in done {
        var j := KindOf(p);
      }
      AgedIsSafe(before, done, agingTime, now);
    }

    lemma RegisteredWired(k: Kind, p: DMPlugin, before: map<DMPlugin, Snapshot>, done: set<DMPlugin>,
                          agingTime: nat, now: nat)
      requires k in plugins && p in plugins[k] && Underway(before, done, agingTime, now)
      ensures p in Everyone()
    {
    }

    /** One plugin's turn. */
    method AgeOne(p: DMPlugin, ghost before: map<DMPlugin, Snapshot>, ghost done: set<DMPlugin>,
                  agingTime: nat, now: nat)
      requires p in Everyone() && Underway(before, done, agingTime, now)
      modifies p
      ensures Underway(before, done + {p}, agingTime, now)
    {
      hide Everyone;
      UnloadIfIdle(p, agingTime, now);
      forall q | q in Everyone() && q != p ensures Idle(q, agingTime, now) == old(Idle(q, agingTime, now)) {
      }
    }

    ghost function SnapshotOf(p: DMPlugin, agingTime: nat, now: nat): Snapshot
      reads p
    {
      Snapshot(p.handles, p.functions, p.hasTree, p.lastAccessed, Idle(p, agingTime, now))
    }

    ghost predicate Aged(p: DMPlugin, before: Snapshot)
      reads p
    {
      if before.idle then p.Unloaded() && !p.hasTree
      else p.handles == before.handles && p.functions == before.functions && p.hasTree == before.hasTree
           && p.lastAccessed == before.lastAccessed
    }

    ghost function Snapshots(agingTime: nat, now: nat): (m: map<DMPlugin, Snapshot>)
      reads this`plugins, Everyone()
      ensures m.Keys == Everyone()
    {
      map p | p in Everyone() :: SnapshotOf(p, agingTime, now)
    }

    /** Every plugin is either as it was or has been dealt with; those in `done` have. */
    ghost predicate Underway(before: map<DMPlugin, Snapshot>, done: set<DMPlugin>, agingTime: nat, now: nat)
      reads this`plugins, Everyone()
    {
      && Wired() && before.Keys == Everyone() && done <= Everyone()
      && (forall p | p in Everyone() ::
                SnapshotOf(p, agingTime, now) == before[p] || (before[p].idle && Aged(p, before[p])))
      && (forall p | p in done :: Aged(p, before[p]))
    }

    lemma StartAging(before: map<DMPlugin, Snapshot>, agingTime: nat, now: nat)
      requires Valid() && before == Snapshots(agingTime, now)
      ensures Underway(before, {}, agingTime, now)
      ensures forall p | p in Everyone() :: before[p] == SnapshotOf(p, agingTime, now)
      ensures forall p | p in Everyone() :: SafeWith(before[p].handles, before[p].functions, mapped)
    {
      AllWired();
      forall p | p in Everyone() ensures SafeWith(before[p].handles, before[p].functions, mapped) {
        assert p.Safe(mapped);
      }
    }

    lemma AgedIsSafe(before: map<DMPlugin, Snapshot>, done: set<DMPlugin>, agingTime: nat, now: nat)
      requires Underway(before, done, agingTime, now) && Everyone() <= done
      requires DistinctNames(libs) && forall h | h in HandlesOf(libs) && h != 0 :: h in mapped
      requires forall p | p in Everyone() :: SafeWith(before[p].handles, before[p].functions, mapped)
      ensures Valid()
      ensures forall p | p in Everyone() :: Aged(p, before[p])
    {
      forall p | p in Everyone() ensures p.Safe(mapped) {
        assert Aged(p, before[p]) && SafeWith(before[p].handles, before[p].functions, mapped);
      }
    }

    method AnyoneHolds(handle: Handle) returns (found: bool)
      requires Wired()
      ensures found <==> handle in Held()
    {
      found := false;
      for j := 0 to |KINDS|
        invariant found ==> handle in Held()
        invariant !found ==> forall m, p | 0 <= m < j && p in plugins[KINDS[m]] :: !p.Holds(handle)
      {
        var ofKind := plugins[KINDS[j]];
        for i := 0 to |ofKind|
          invariant found ==> handle in Held()
          invariant !found ==> forall m, p | 0 <= m < j && p in plugins[KINDS[m]] :: !p.Holds(handle)
          invariant !found ==> forall m | 0 <= m < i :: !ofKind[m].Holds(handle)
        {
          InEveryone(KINDS[j], ofKind[i]);
          var held := ofKind[i].IsLibReleased(handle);
          if held {
            found := true;
          }
        }
      }
      if !found {
        forall p | p in Everyone() ensures !p.Holds(handle) {
          var j := KindOf(p);
        }
      }
    }

    /** The last loop of `CheckPluginAging`, from the end of the table to its front, removing while it goes:
        exactly the libraries that some plugin holds stay. */
    method DropUnheld()
      requires Valid()
      modifies this`libs, this`mapped
      ensures Valid() && Held() == old(Held())
      ensures forall l :: l in libs <==> l in old(libs) && l.handle in Held()
      ensures mapped <= old(mapped)
      ensures forall h | h in old(mapped) && h != 0 :: h in mapped <==> h in Held() || h !in HandlesOf(old(libs))
    {
      AllWired();
      ghost var was, held, before := libs, Held(), mapped;
      SweepStarts(was, held);
      HeldAreMapped();
      var pos := |libs| - 1;
      while pos >= 0
        invariant -1 <= pos < |libs| && Wired() && Held() == held
        invariant Swept(was, libs, pos + 1, held)
        invariant HeldMapped(held, mapped)
        invariant mapped <= before && forall h | h in before && h !in HandlesOf(was) :: h in mapped
        invariant forall j | pos < j < |was| && was[j].handle !in held :: was[j].handle !in mapped
        decreases pos
      {
        pos := CheckLibrary(pos, was);
      }
      StillSafe(was, before);
    }

    /** One turn of the loop: `XPL_DL_Unload` and removal, unless some plugin holds the handle. */
    method CheckLibrary(pos: nat, ghost was: seq<Library>) returns (next: int)
      requires Wired() && pos < |libs|
      requires Swept(was, libs, pos + 1, Held()) && HeldMapped(Held(), mapped)
      modifies this`libs, this`mapped
      ensures next == pos - 1 && next < |libs|
      ensures Wired() && Held() == old(Held())
      ensures Swept(was, libs, pos, Held()) && HeldMapped(Held(), mapped)
      ensures mapped == if libs == old(libs) then old(mapped) else old(mapped) - {was[pos].handle}
      ensures libs == old(libs) <==> was[pos].handle in Held()
      ensures pos < |was| && was[pos] == old(libs)[pos]
    {
      assert libs[pos] == libs[..pos + 1][pos] == was[..pos + 1][pos];
      var found := AnyoneHolds(libs[pos].handle);
      if found {
        SweepKeeps(was, libs, pos, Held());
      } else {
        SweepDrops(was, libs, pos, Held());
        mapped := mapped - {libs[pos].handle};
        libs := libs[..pos] + libs[pos + 1..];
      }
      next := pos - 1;
    }

    lemma HeldAreMapped()
      requires Valid()
      ensures HeldMapped(Held(), mapped)
    {
      forall h | h in Held() && h != 0 ensures h in mapped {
        var p, k: Kind :| p in Everyone() && k in p.handles && p.handles[k] == h;
        assert p.Safe(mapped);
      }
    }

    lemma AllWired()
      requires Valid()
      ensures Wired()
    {
      forall p | p in Everyone() ensures forall k: Kind :: k in p.handles {
        assert p.Safe(mapped);
      }
    }

    lemma StillSafe(was: seq<Library>, before: set<Handle>)
      requires (forall k: Kind :: k in plugins) && Swept(was, libs, 0, Held()) && HeldMapped(Held(), mapped)
      requires forall p | p in Everyone() :: p.Safe(before)
      ensures Valid()
      ensures forall l :: l in libs <==> l in was && l.handle in Held()
    {
      assert libs[0..] == libs && was[0..] == was;
      forall p | p in Everyone() ensures p.Safe(mapped) {
        assert p.Safe(before);
        forall k: Kind ensures p.handles[k] != 0 ==> p.handles[k] in mapped {
          assert p.handles[k] in Held();
        }
      }
    }

    /** `CheckPluginAging`: afterwards the libraries of the table are exactly those of its libraries that some
        registered plugin holds, apart from entries of failed loads, which every plugin with an empty handle
        keeps. A library leaves memory exactly if it was in the table and nobody holds it, so one that could
        not be recorded stays for good. */
    method CheckPluginAging(agingTime: nat, now: nat)
      requires Valid()
      modifies this`libs, this`mapped, Everyone()
      ensures Valid()
      ensures forall l :: l in libs <==> l in old(libs) && l.handle in Held()
      ensures old(AllRecorded()) ==> forall h: Handle :: h != 0 ==> (h in HandlesOf(libs) <==> h in Held())
      ensures mapped <= old(mapped)
      ensures forall h | h in old(mapped) && h != 0 :: h in mapped <==> h in Held() || h !in HandlesOf(old(libs))
      ensures forall p | p in Everyone() :: old(Idle(p, agingTime, now)) ==> p.Unloaded() && !p.hasTree
      ensures forall p | p in Everyone() :: !old(Idle(p, agingTime, now)) ==>
                p.handles == old(p.handles) && p.functions == old(p.functions) && p.hasTree == old(p.hasTree)
    {
      hide Idle, DMPlugin.Safe;
      UnloadIdle(agingTime, now);
      DropUnheld();
      if old(AllRecorded()) {
        forall h: Handle | h != 0 && h in Held() ensures h in HandlesOf(libs) {
          var l :| l in old(libs) && l.handle == h;
          assert l in libs;
        }
      }
    }

    /** `FindPlugin`: the first plugin of a kind that answers for a node path, if there is one. */
    method FindPlugin(kind: Kind, nodePath: Text) returns (p: DMPlugin?)
      requires kind in plugins
      ensures p == null <==> forall q | q in plugins[kind] :: !AnswersFor(q.path, nodePath)
      ensures p != null ==>
                exists at: nat ::
                  && at < |plugins[kind]| && p == plugins[kind][at] && AnswersFor(p.path, nodePath)
                  && forall j :: 0 <= j < at ==> !AnswersFor(plugins[kind][j].path, nodePath)
    {
      hide AnswersFor, Begins, HasParts, FirstStar;
      var ofKind := plugins[kind];
      for i := 0 to |ofKind|
        invariant forall j :: 0 <= j < i ==> !AnswersFor(ofKind[j].path, nodePath)
      {
        var matched := PathMatch(nodePath, ofKind[i].path);
        if matched {
          return ofKind[i];
        }
      }
      return null;
    }

    /** `AddPlugin`. `enabled` is the verdict of the feature-blocking rules; the parameters name a library for
        each kind the plugin is of. A plugin is either a data plugin or an overlay, not both. */
    method AddPlugin(path: Text, parameters: map<Text, Text>, enabled: bool, now: nat) returns (ok: bool, p: DMPlugin?)
      requires Valid()
      modifies this`plugins
      ensures Valid() && libs == old(libs)
      ensures ok <==> !enabled || !(Ascii("_data") in parameters && Ascii("_dataExt") in parameters)
      ensures p != null <==>
                && ok && enabled
                && (|| Ascii("_data") in parameters || Ascii("_dataExt") in parameters || Ascii("_exec") in parameters
                    || Ascii("_const") in parameters || Ascii("_commit") in parameters)
      ensures p == null ==> plugins == old(plugins)
      ensures p != null ==> fresh(p) && p.path == path && p.Unloaded() && p.lastAccessed == now && !p.hasTree
      ensures p != null ==> Provides(p, Exec, parameters, Ascii("_exec"), Ascii("_exec"))
      ensures p != null ==> Provides(p, Constraint, parameters, Ascii("_const"), Ascii("_const"))
      ensures p != null ==> Provides(p, CommitKind, parameters, Ascii("_commit"), Ascii("_commit"))
      ensures p != null ==> Provides(p, Data, parameters, Ascii("_dataExt"), Ascii("_data"))
      ensures p != null ==>
                (forall k: Kind :: k in plugins &&
                                   plugins[k] == (if k in p.kinds then old(plugins[k]) + [p] else old(plugins[k])))
    {
      if !enabled {
        return true, null;
      }
      if DATA_NAME in parameters && OVERLAY_NAME in parameters {
        return false, null;
      }
      var kinds := KindsIn(parameters);
      if kinds == {} {
        return true, null;
      }
      KindsAndNames(parameters);
      p := new DMPlugin(path, kinds, LibrariesIn(parameters), now);
      ok := true;
      Register(p);
    }

    /** The plugin is of a kind exactly if one of two parameters is there, and its library of that kind is
        what the parameter says. */
    ghost predicate Provides(p: DMPlugin, kind: Kind, parameters: map<Text, Text>, first: Text, second: Text) {
      && (kind in p.kinds <==> first in parameters || second in parameters)
      && (kind in p.libraryNames <==> kind in p.kinds)
      && (first in parameters ==> p.libraryNames[kind] == parameters[first])
      && (first !in parameters && second in parameters ==> p.libraryNames[kind] == parameters[second])
    }

    /** Adds a plugin to the list of each of its kinds. */
    method Register(p: DMPlugin)
      requires Valid() && p.Unloaded() && p !in Everyone()
      modifies this`plugins
      ensures Valid()
      ensures forall k: Kind :: k in plugins &&
                plugins[k] == (if k in p.kinds then old(plugins[k]) + [p] else old(plugins[k]))
    {
      ghost var was := plugins;
      for j := 0 to |KINDS|
        invariant forall k: Kind :: k in plugins && k in was
        invariant forall m | 0 <= m < j ::
                  plugins[KINDS[m]] == (if KINDS[m] in p.kinds then was[KINDS[m]] + [p] else was[KINDS[m]])
        invariant forall m | j <= m < |KINDS| :: plugins[KINDS[m]] == was[KINDS[m]]
      {
        if KINDS[j] in p.kinds {
          plugins := plugins[KINDS[j] := plugins[KINDS[j]] + [p]];
        }
      }
      forall k: Kind ensures plugins[k] == (if k in p.kinds then was[k] + [p] else was[k]) {
        EveryKind(k);
      }
      forall q | q in Everyone() ensures q.Safe(mapped) {
        var k: Kind :| k in plugins && q in plugins[k];
        if q != p {
          assert q in was[k];
          assert q in old(Everyone());
        }
      }
    }
  }

  const DATA_NAME := Ascii("_data")
  const OVERLAY_NAME := Ascii("_dataExt")
  const EXECUTE_NAME := Ascii("_exec")
  const CONSTRAINT_NAME := Ascii("_const")
  const COMMIT_NAME := Ascii("_commit")

  /** The kinds a plugin is of, by the parameters it comes with. */
  function KindsIn(parameters: map<Text, Text>): set<Kind> {
    (if DATA_NAME in parameters || OVERLAY_NAME in parameters then {Data} else {})
    + (if EXECUTE_NAME in parameters then {Exec} else {})
    + (if CONSTRAINT_NAME in parameters then {Constraint} else {})
    + (if COMMIT_NAME in parameters then {CommitKind} else {})
  }

  function LibrariesIn(parameters: map<Text, Text>): (names: map<Kind, Text>)
    ensures names.Keys == KindsIn(parameters)
  {
    (if OVERLAY_NAME in parameters then map[Data := parameters[OVERLAY_NAME]]
     else if DATA_NAME in parameters then map[Data := parameters[DATA_NAME]] else map[])
    + (if EXECUTE_NAME in parameters then map[Exec := parameters[EXECUTE_NAME]] else map[])
    + (if CONSTRAINT_NAME in parameters then map[Constraint := parameters[CONSTRAINT_NAME]] else map[])
    + (if COMMIT_NAME in parameters then map[CommitKind := parameters[COMMIT_NAME]] else map[])
  }

  lemma KindsAndNames(parameters: map<Text, Text>)
    ensures var kinds, names := KindsIn(parameters), LibrariesIn(parameters);
            && names.Keys == kinds
            && (Exec in kinds <==> EXECUTE_NAME in parameters)
            && (Constraint in kinds <==> CONSTRAINT_NAME in parameters)
            && (CommitKind in kinds <==> COMMIT_NAME in parameters)
            && (Data in kinds <==> OVERLAY_NAME in parameters || DATA_NAME in parameters)
            && (Exec in kinds ==> names[Exec] == parameters[EXECUTE_NAME])
            && (Constraint in kinds ==> names[Constraint] == parameters[CONSTRAINT_NAME])
            && (CommitKind in kinds ==> names[CommitKind] == parameters[COMMIT_NAME])
            && (OVERLAY_NAME in parameters ==> names[Data] == parameters[OVERLAY_NAME])
            && (OVERLAY_NAME !in parameters && DATA_NAME in parameters ==> names[Data] == parameters[DATA_NAME])
  {
  }
}
