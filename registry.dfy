/** The database object of the in-memory backend: it owns the raw store
    and keeps the registry of projects, whose records and contents share
    one keyspace under the database name. */
module Registry {
  import opened Wrappers
  import opened Layout
  import opened Seqs
  import opened Storage
  import opened Projects

  /** The project components of the keys of database `db`, each once, in
      order of first occurrence: the list `getProjectNames` builds. */
  function ProjectNames(ks: seq<Key>, db: string): seq<string> {
    if ks == [] then []
    else
      var names := ProjectNames(ks[..|ks| - 1], db);
      var k := ks[|ks| - 1];
      if k.db == db && k.project !in names then names + [k.project] else names
  }

  /** The keys of project `name` in database `db`, in key-list order: the
      list `deleteProject` collects before removing anything. */
  function ProjectKeys(ks: seq<Key>, db: string, name: string): seq<Key> {
    if ks == [] then []
    else
      var found := ProjectKeys(ks[..|ks| - 1], db, name);
      var k := ks[|ks| - 1];
      if OfProject(k, db, name) then found + [k] else found
  }

  /** Every project with a key in the database is listed, exactly once,
      and nothing else is. */
  lemma {:induction false} ProjectNamesSpec(ks: seq<Key>, db: string)
    ensures NoDup(ProjectNames(ks, db))
    ensures forall p :: p in ProjectNames(ks, db) <==> exists k :: k in ks && k.db == db && k.project == p
  {
    if ks != [] {
      var init := ks[..|ks| - 1];
      assert ks == init + [ks[|ks| - 1]];
      ProjectNamesSpec(init, db);
    }
  }

  /** The collected keys are exactly the project's keys. */
  lemma {:induction false} ProjectKeysSpec(ks: seq<Key>, db: string, name: string)
    ensures forall k :: k in ProjectKeys(ks, db, name) <==> k in ks && OfProject(k, db, name)
  {
    if ks != [] {
      var init := ks[..|ks| - 1];
      assert ks == init + [ks[|ks| - 1]];
      ProjectKeysSpec(init, db, name);
    }
  }

  lemma MapMinusTwice<K, V>(m: map<K, V>, a: set<K>, b: set<K>)
    ensures m - a - b == m - (a + b)
  {
  }

  class Memory {
    const store: Store
    const database: string

    /** `new Memory(...)`: an empty, closed store under the database name
        `webgme`. */
    constructor ()
      ensures fresh(store) && store.Valid()
      ensures store.keys == [] && store.data == map[] && !store.connected
      ensures database == DATABASE
    {
      store := new Store();
      database := DATABASE;
    }

    /** `openDatabase()`: connect unless already connected; the contents
        are untouched, so opening twice is opening once. */
    method OpenDatabase()
      modifies store`connected
      ensures store.connected
      ensures store.data == old(store.data) && store.keys == old(store.keys)
    {
      if !store.connected {
        store.Connect();
      }
    }

    /** `closeDatabase()`: disconnect unless already disconnected; the
        contents are untouched, so closing twice is closing once. */
    method CloseDatabase()
      modifies store`connected
      ensures !store.connected
      ensures store.data == old(store.data) && store.keys == old(store.keys)
    {
      if store.connected {
        store.Close();
      }
    }

    /** `getProjectNames()`: every project with a key (its record or any
        of its entries) in this database, each once, in key-list order. */
    method GetProjectNames() returns (r: Result<seq<string>, Error>)
      requires store.Valid()
      requires store.connected ==> forall k :: k in store.keys && k.db == database ==> IsProjectName(k.project)
      ensures r.Err? <==> !store.connected
      ensures r.Err? ==> r.error == NotConnected
      ensures r.Ok? ==> r.value == ProjectNames(store.keys, database)
      ensures r.Ok? ==> NoDup(r.value)
      ensures r.Ok? ==> forall p :: p in r.value <==> exists k :: k in store.keys && k.db == database && k.project == p
      ensures r.Ok? ==> forall p :: p in r.value ==> IsProjectName(p)
    {
      if !store.connected {
        return Err(NotConnected);
      }
      var names := [];
      var i := 0;
      while i < store.length
        invariant 0 <= i <= store.length
        invariant names == ProjectNames(store.keys[..i], database)
      {
        var key := store.KeyAt(i).value;
        assert store.keys[..i + 1] == store.keys[..i] + [key];
        if key.db == database {
          if IndexOf(names, key.project) == -1 {
            assert IsProjectName(key.project);
            names := names + [key.project];
          }
        }
        i := i + 1;
      }
      assert store.keys[..i] == store.keys;
      ProjectNamesSpec(store.keys, database);
      return Ok(names);
    }

    /** `createProject(name)`: refuse when closed or when the project's
        record exists; otherwise a new handle, which records the project. */
    method CreateProject(name: string) returns (r: Result<Project, Error>)
      requires store.Valid()
      modifies store`data, store`keys, store`length
      ensures store.Valid()
      ensures !store.connected ==> r == Err(NotConnected)
      ensures store.connected && Info(database, name) in old(store.data) ==> r == Err(ProjectExists(name))
      ensures r.Err? ==> store.data == old(store.data) && store.keys == old(store.keys)
      ensures store.connected && Info(database, name) !in old(store.data) ==>
                && r.Ok? && fresh(r.value)
                && r.value.store == store && r.value.database == database && r.value.name == name
                && store.data == old(store.data)[Info(database, name) := ProjectInfo(name)]
                && store.keys == old(store.keys) + [Info(database, name)]
    {
      if !store.connected {
        return Err(NotConnected);
      }
      if store.GetItem(Info(database, name)).Some? {
        return Err(ProjectExists(name));
      }
      var project := new Project(store, database, name);
      return Ok(project);
    }

    /** The first loop of `deleteProject(name)`: the project's keys, in
        key-list order. */
    method CollectProjectKeys(name: string) returns (namesToRemove: seq<Key>)
      requires store.Valid()
      ensures namesToRemove == ProjectKeys(store.keys, database, name)
      ensures forall k :: k in namesToRemove <==> k in store.keys && OfProject(k, database, name)
    {
      namesToRemove := [];
      var i := 0;
      while i < store.length
        invariant 0 <= i <= store.length
        invariant namesToRemove == ProjectKeys(store.keys[..i], database, name)
      {
        var key := store.KeyAt(i).value;
        assert store.keys[..i + 1] == store.keys[..i] + [key];
        if key.db == database {
          if key.project == name {
            namesToRemove := namesToRemove + [key];
          }
        }
        i := i + 1;
      }
      assert store.keys[..i] == store.keys;
      ProjectKeysSpec(store.keys, database, name);
    }

    /** The second loop of `deleteProject(name)`: `removeItem` on each
        collected key in turn. */
    method RemoveKeys(namesToRemove: seq<Key>)
      requires store.Valid()
      modifies store`data, store`keys, store`length
      ensures store.Valid()
      ensures store.keys == RemoveAll(old(store.keys), Elems(namesToRemove))
      ensures store.data == old(store.data) - Elems(namesToRemove)
    {
      ghost var keys0, data0 := store.keys, store.data;
      RemoveAllAbsent(keys0, {});
      assert Elems(namesToRemove[..0]) == {};
      var j := 0;
      while j < |namesToRemove|
        invariant 0 <= j <= |namesToRemove|
        invariant store.Valid()
        invariant store.keys == RemoveAll(keys0, Elems(namesToRemove[..j]))
        invariant store.data == data0 - Elems(namesToRemove[..j])
      {
        assert namesToRemove[..j + 1] == namesToRemove[..j] + [namesToRemove[j]];
        ElemsSnoc(namesToRemove[..j], namesToRemove[j]);
        RemoveAllTwice(keys0, Elems(namesToRemove[..j]), {namesToRemove[j]});
        store.RemoveItem(namesToRemove[j]);
        MapMinusTwice(data0, Elems(namesToRemove[..j]), {namesToRemove[j]});
        j := j + 1;
      }
      assert namesToRemove[..j] == namesToRemove;
    }

    /** `deleteProject(name)`: collect the keys of the project, then remove
        each; every other key keeps its value and its place. */
    method DeleteProject(name: string) returns (r: Result<(), Error>)
      requires store.Valid()
      modifies store`data, store`keys, store`length
      ensures store.Valid()
      ensures r.Err? <==> !store.connected
      ensures r.Err? ==> r.error == NotConnected && store.data == old(store.data) && store.keys == old(store.keys)
      ensures r.Ok? ==> store.keys == RemoveAll(old(store.keys), Elems(ProjectKeys(old(store.keys), database, name)))
      ensures r.Ok? ==> forall k :: k in store.data <==> k in old(store.data) && !OfProject(k, database, name)
      ensures r.Ok? ==> forall k :: k in store.data ==> store.data[k] == old(store.data)[k]
    {
      if !store.connected {
        return Err(NotConnected);
      }
      var namesToRemove := CollectProjectKeys(name);
      ghost var keys0 := store.keys;
      RemoveKeys(namesToRemove);
      RemoveAllElems(keys0, Elems(namesToRemove));
      return Ok(());
    }

    /** `openProject(name)`: refuse when closed or when the project has no
        record; otherwise a handle on the recorded project. */
    method OpenProject(name: string) returns (r: Result<Project, Error>)
      requires store.Valid()
      ensures !store.connected ==> r == Err(NotConnected)
      ensures store.connected && Info(database, name) !in store.data ==> r == Err(ProjectMissing(name))
      ensures store.connected && Info(database, name) in store.data ==>
                && r.Ok? && fresh(r.value)
                && r.value.store == store && r.value.database == database && r.value.name == name
    {
      if !store.connected {
        return Err(NotConnected);
      }
      if store.GetItem(Info(database, name)).None? {
        return Err(ProjectMissing(name));
      }
      var project := new Project.Stored(store, database, name);
      return Ok(project);
    }
  }
}
