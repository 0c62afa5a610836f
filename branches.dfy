/** What the branch operations of a project read from the store: the
    current hash of a branch and the branch listing. */
module Branches {
  import opened Wrappers
  import opened Layout

  /** The hash `getBranchHash` reports: the stored pointer's hash, or the
      empty hash when the branch has no pointer. */
  function CurrentHash(data: map<Key, Value>, db: string, project: string, b: string): (h: string)
    ensures BranchKey(db, project, b) !in data ==> h == ""
    ensures h != "" ==> BranchKey(db, project, b) in data &&
                        data[BranchKey(db, project, b)].BranchVal? &&
                        data[BranchKey(db, project, b)].hash == h
  {
    var k := BranchKey(db, project, b);
    StoredHash(if k in data then Some(data[k]) else None)
  }

  /** True of the keys that `getBranches` lists: branch pointers of this
      project. The project marker has no third component, so it is never
      a branch key. */
  predicate IsBranchEntry(k: Key, db: string, project: string) {
    k.Entry? && IsRawBranch(k.local) && k.db == db && k.project == project
  }

  /** The map `getBranches` builds from the keys `ks`, scanned in order:
      branch name (the local id without its `*`) to current hash. */
  function BranchesIn(ks: seq<Key>, data: map<Key, Value>, db: string, project: string): map<string, string>
  {
    if ks == [] then map[]
    else
      var m := BranchesIn(ks[..|ks| - 1], data, db, project);
      var k := ks[|ks| - 1];
      if IsBranchEntry(k, db, project)
      then m[k.local[1..] := CurrentHash(data, db, project, k.local[1..])]
      else m
  }

  /** A branch is listed exactly when its pointer key is among the scanned
      keys, and it is listed with its current hash. */
  lemma {:induction false} BranchesListed(ks: seq<Key>, data: map<Key, Value>, db: string, project: string, b: string)
    ensures b in BranchesIn(ks, data, db, project) <==> BranchKey(db, project, b) in ks
    ensures b in BranchesIn(ks, data, db, project) ==>
              BranchesIn(ks, data, db, project)[b] == CurrentHash(data, db, project, b)
  {
    if ks != [] {
      var init := ks[..|ks| - 1];
      var k := ks[|ks| - 1];
      assert ks == init + [k];
      BranchesListed(init, data, db, project, b);
      if IsBranchEntry(k, db, project) {
        RawBranchSplits(k.local);
        assert k == BranchKey(db, project, k.local[1..]);
        assert k.local[1..] == b <==> k == BranchKey(db, project, b);
      } else {
        assert k != BranchKey(db, project, b) by {
          assert ("*" + b)[0] == '*';
        }
      }
    }
  }
  /** `getBranches` as written: for each branch key of this project the
      scan calls a bare `getBranchHash`, a name that no enclosing scope
      declares (the method exists only as the property `this.getBranchHash`).
      So the first such key the scan reaches throws a ReferenceError. `None`
      stands for that throw. When the scan reaches no such key, the listing
      is empty. */
  function BranchesAsWritten(ks: seq<Key>, db: string, project: string): Option<map<string, string>>
  {
    if ks == [] then Some(map[])
    else if IsBranchEntry(ks[0], db, project) then None
    else BranchesAsWritten(ks[1..], db, project)
  }

  /** As written, `getBranches` throws exactly when this project has a
      branch pointer, and otherwise lists nothing: it never lists a branch. */
  lemma {:induction false} AsWrittenThrowsOnBranch(ks: seq<Key>, db: string, project: string)
    ensures BranchesAsWritten(ks, db, project).None? <==> exists k :: k in ks && IsBranchEntry(k, db, project)
    ensures BranchesAsWritten(ks, db, project).Some? ==> BranchesAsWritten(ks, db, project).value == map[]
  {
    if ks != [] {
      AsWrittenThrowsOnBranch(ks[1..], db, project);
      assert ks == [ks[0]] + ks[1..];
    }
  }

  /** A project whose one branch `master` points at `h`: as written the
      listing throws, while `BranchesIn` lists `master` with `h`. */
  lemma AsWrittenLosesMaster()
    ensures var k := BranchKey(DATABASE, "p", "master");
            && BranchesAsWritten([k], DATABASE, "p") == None
            && BranchesIn([k], map[k := BranchVal("master", "h")], DATABASE, "p") == map["master" := "h"]
  {
    var k := BranchKey(DATABASE, "p", "master");
    assert IsBranchEntry(k, DATABASE, "p");
    assert [k][..0] == [];
    assert k.local[1..] == "master";
  }
}
