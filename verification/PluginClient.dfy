/** A run of the plugin manager: one plugin, one call, and aging long after. */
module PluginClient {
  import opened DmText
  import opened PluginManager

  const ANY_PATH: Text := [42]

  lemma NamesDiffer()
    ensures Ascii("_exec") != Ascii("_data") && Ascii("_exec") != Ascii("_dataExt")
    ensures Ascii("_exec") != Ascii("_const") && Ascii("_exec") != Ascii("_commit")
  {
    assert |Ascii("_exec")| == 5 && Ascii("_exec")[1] == 'e' as CChar && Ascii("_data")[1] == 'd' as CChar;
    assert |Ascii("_dataExt")| == 8 && |Ascii("_const")| == 6 && |Ascii("_commit")| == 7;
  }

  /** A manager with one plugin that can be executed. */
  method OnePlugin(library: Text, now: nat) returns (manager: DMPluginManager, p: DMPlugin)
    ensures fresh(manager) && fresh(p) && manager.Valid() && manager.Everyone() == {p}
    ensures manager.libs == [] && manager.mapped == {} && p.Unloaded() && !p.hasTree
    ensures Exec in p.libraryNames && p.libraryNames[Exec] == library
  {
    NamesDiffer();
    manager := new DMPluginManager();
    var ok, added := manager.AddPlugin(ANY_PATH, map[Ascii("_exec") := library], true, now);
    p := added;
    manager.InEveryone(Exec, p);
  }

  /** ... and its first call, for which the library loads. */
  method CalledOnce(library: Text, loaded: Handle, room: bool, now: nat)
    returns (manager: DMPluginManager, p: DMPlugin)
    requires loaded != 0
    ensures fresh(manager) && fresh(p) && manager.Valid() && manager.Everyone() == {p} && p.lastAccessed == now
    ensures Exec in p.handles && p.handles[Exec] == loaded && manager.mapped == {loaded}
    ensures manager.libs == if room then [Library(library, loaded)] else []
  {
    manager, p := OnePlugin(library, now);
    var callee := manager.Call(p, Exec, now, loaded, true, room);
  }

  lemma NothingListed(libs: seq<Library>)
    ensures (forall l :: l !in libs) ==> libs == []
  {
    if libs != [] {
      assert libs[0] in libs;
    }
  }

  /** The plugin is called, its library loads, and it is called no more. Aging then unloads the library if
      the table had room for its record. Without room it stays in memory, although no plugin holds it and
      the table does not list it. */
  method CallThenAge(library: Text, loaded: Handle, room: bool, now: nat, agingTime: nat)
    returns (manager: DMPluginManager)
    requires loaded != 0
    ensures manager.Valid() && manager.libs == [] && loaded !in manager.Held()
    ensures loaded in manager.mapped <==> !room
  {
    var p;
    manager, p := CalledOnce(library, loaded, room, now);
    assert manager.Idle(p, agingTime, now + agingTime);
    manager.CheckPluginAging(agingTime, now + agingTime);
    assert manager.Held() <= {0};
    NothingListed(manager.libs);
  }
}
