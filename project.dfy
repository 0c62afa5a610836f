/** A project handle of the in-memory backend: its object layer, its branch
    pointers and its history queries, all reading and writing the one raw
    store it shares with the database and every other handle. */
module Projects {
  import opened Wrappers
  import opened Layout
  import opened Seqs
  import opened Storage
  import opened Branches
  import opened History

  /** `checkForCommon`: the first id of the new A-frontier that B has
      visited, else the first id of the new B-frontier that A has visited. */
  method CheckForCommon(newA: seq<string>, ancB: set<string>, newB: seq<string>, ancA: set<string>)
    returns (c: Option<string>)
    ensures c == if FirstIn(newA, ancB).Some? then FirstIn(newA, ancB) else FirstIn(newB, ancA)
    ensures c.Some? ==> (c.value in newA && c.value in ancB) || (c.value in newB && c.value in ancA)
    ensures c.None? <==> (forall x :: x in newA ==> x !in ancB) && (forall x :: x in newB ==> x !in ancA)
  {
    var i := 0;
    while i < |newA|
      invariant 0 <= i <= |newA|
      invariant FirstIn(newA, ancB) == FirstIn(newA[i..], ancB)
    {
      if newA[i] in ancB {
        return Some(newA[i]);
      }
      assert newA[i..][1..] == newA[i + 1..];
      i := i + 1;
    }
    i := 0;
    while i < |newB|
      invariant 0 <= i <= |newB|
      invariant FirstIn(newB, ancA) == FirstIn(newB[i..], ancA)
    {
      if newB[i] in ancA {
        return Some(newB[i]);
      }
      assert newB[i..][1..] == newB[i + 1..];
      i := i + 1;
    }
    return None;
  }

  /** The inner loop of `getAncestors()` (with the parent index corrected
      to `j`): push each parent not yet listed and mark it visited. */
  method PushParents(newCommits: seq<string>, ancestors: set<string>, parents: seq<string>)
    returns (pushed: seq<string>, visited: set<string>)
    ensures pushed == AddNew(newCommits, parents)
    ensures visited == ancestors + Elems(parents)
  {
    pushed, visited := newCommits, ancestors;
    var j := 0;
    while j < |parents|
      invariant 0 <= j <= |parents|
      invariant pushed == AddNew(newCommits, parents[..j])
      invariant visited == ancestors + Elems(parents[..j])
    {
      assert parents[..j + 1] == parents[..j] + [parents[j]];
      if IndexOf(pushed, parents[j]) == -1 {
        pushed := pushed + [parents[j]];
      }
      visited := visited + {parents[j]};
      j := j + 1;
    }
    assert parents[..j] == parents;
  }

  class Project {
    const store: Store
    const database: string
    const name: string

    /** `new Project(name)`: when the store is connected, the project marker
        is written under `database$name`; otherwise nothing is stored. */
    constructor (store: Store, database: string, name: string)
      requires store.Valid()
      modifies store`data, store`keys, store`length
      ensures this.store == store && this.database == database && this.name == name
      ensures store.Valid()
      ensures store.connected ==>
                && store.data == old(store.data)[Info(database, name) := ProjectInfo(name)]
                && store.keys == if Info(database, name) in old(store.keys) then old(store.keys)
                                 else old(store.keys) + [Info(database, name)]
      ensures !store.connected ==> store.data == old(store.data) && store.keys == old(store.keys)
    {
      this.store := store;
      this.database := database;
      this.name := name;
      new;
      if store.connected {
        store.SetItem(Info(database, name), ProjectInfo(name));
      }
    }

    /** The project object `openProject` finds under the marker key: a
        handle on the same store and name, with nothing written. */
    constructor Stored(store: Store, database: string, name: string)
      ensures this.store == store && this.database == database && this.name == name
    {
      this.store := store;
      this.database := database;
      this.name := name;
    }

    /** The commit graph of this project in the current store. */
    function ParentGraph(): Graph
      reads store
    {
      Graph(store.data, database, name)
    }

    /** `loadObject(hash)`: the document stored under the hash, or nothing
        when no object with that id was inserted in this project. */
    method LoadObject(hash: string) returns (o: Option<Value>)
      requires store.Valid()
      requires IsHash(hash)
      ensures o.Some? <==> ObjectKey(database, name, hash) in store.keys
      ensures o.Some? ==> o.value == store.data[ObjectKey(database, name, hash)]
    {
      o := store.GetItem(ObjectKey(database, name, hash));
    }

    /** `insertObject(object)`: store the document under its `_id`. A second
        insertion of the same id keeps the single key; no branch pointer
        changes. */
    method InsertObject(doc: Obj)
      requires store.Valid()
      requires IsHash(doc.id)
      modifies store`data, store`keys, store`length
      ensures store.Valid()
      ensures store.data == old(store.data)[ObjectKey(database, name, doc.id) := ObjectVal(doc)]
      ensures store.keys == if ObjectKey(database, name, doc.id) in old(store.keys) then old(store.keys)
                            else old(store.keys) + [ObjectKey(database, name, doc.id)]
      ensures store.GetItem(ObjectKey(database, name, doc.id)) == Some(ObjectVal(doc))
      ensures forall b :: CurrentHash(store.data, database, name, b) == old(CurrentHash(store.data, database, name, b))
    {
      store.SetItem(ObjectKey(database, name, doc.id), ObjectVal(doc));
      forall b ensures CurrentHash(store.data, database, name, b) == old(CurrentHash(store.data, database, name, b)) {
        ObjectAndBranchKeysDiffer(database, name, doc.id, b);
      }
    }

    /** `getBranchHash(branch, oldhash)`: the branch's current hash, the
        empty hash when it has no pointer; `oldhash` does not affect the
        answer, and nothing is written. */
    method GetBranchHash(branch: string, oldhash: string) returns (hash: string)
      requires store.Valid()
      requires IsBranchName(branch)
      requires oldhash == "" || IsHash(oldhash)
      ensures hash == CurrentHash(store.data, database, name, branch)
      ensures BranchKey(database, name, branch) !in store.keys ==> hash == ""
    {
      hash := StoredHash(store.GetItem(BranchKey(database, name, branch)));
      if hash != oldhash {
      } else {
        hash := StoredHash(store.GetItem(BranchKey(database, name, branch)));
      }
    }

    /** `setBranchHash(branch, oldhash, newhash)`: compare-and-swap on the
        branch pointer. With `oldhash == newhash` it only checks; otherwise
        it writes `newhash` (deleting the pointer for the empty hash) exactly
        when the current hash is `oldhash`. A mismatch writes nothing. */
    method SetBranchHash(branch: string, oldhash: string, newhash: string) returns (r: Result<(), Error>)
      requires store.Valid()
      requires IsBranchName(branch)
      requires oldhash == "" || IsHash(oldhash)
      requires newhash == "" || IsHash(newhash)
      modifies store`data, store`keys, store`length
      ensures store.Valid()
      ensures r.Ok? <==> old(CurrentHash(store.data, database, name, branch)) == oldhash
      ensures r.Err? ==> r.error == BranchMismatch
      ensures r.Err? || oldhash == newhash ==> store.data == old(store.data) && store.keys == old(store.keys)
      ensures r.Ok? && oldhash != newhash && newhash == "" ==>
                && store.data == old(store.data) - {BranchKey(database, name, branch)}
                && store.keys == Without(old(store.keys), BranchKey(database, name, branch))
      ensures r.Ok? && oldhash != newhash && newhash != "" ==>
                && store.data == old(store.data)[BranchKey(database, name, branch) := BranchVal(branch, newhash)]
                && store.keys == if BranchKey(database, name, branch) in old(store.keys) then old(store.keys)
                                 else old(store.keys) + [BranchKey(database, name, branch)]
      ensures r.Ok? ==> CurrentHash(store.data, database, name, branch) == newhash
      ensures r.Ok? && oldhash != newhash && newhash == "" ==>
                branch !in BranchesIn(store.keys, store.data, database, name)
    {
      var key := BranchKey(database, name, branch);
      var hash := StoredHash(store.GetItem(key));
      if oldhash == newhash {
        if oldhash == hash {
          r := Ok(());
        } else {
          r := Err(BranchMismatch);
        }
      } else {
        if oldhash == hash {
          if newhash == "" {
            store.RemoveItem(key);
            BranchesListed(store.keys, store.data, database, name, branch);
          } else {
            store.SetItem(key, BranchVal(branch, newhash));
          }
          r := Ok(());
        } else {
          r := Err(BranchMismatch);
        }
      }
    }

    /** `getBranches()`: every branch of this project with its current hash,
        found by scanning the key list. Each hash is read by `getBranchHash`,
        called as the method of this project; the code's bare call of that
        name throws instead (see `BranchesAsWritten`). */
    method GetBranches() returns (branchNames: map<string, string>)
      requires store.Valid()
      ensures branchNames == BranchesIn(store.keys, store.data, database, name)
      ensures forall b :: b in branchNames <==> BranchKey(database, name, b) in store.keys
      ensures forall b :: b in branchNames ==> branchNames[b] == CurrentHash(store.data, database, name, b)
    {
      branchNames := map[];
      var i := 0;
      while i < store.length
        invariant 0 <= i <= store.length
        invariant branchNames == BranchesIn(store.keys[..i], store.data, database, name)
      {
        var key := store.KeyAt(i).value;
        if key.Entry? && IsRawBranch(key.local) {
          if key.db == database && key.project == name {
            var branchName := key.local[1..];
            RawBranchSplits(key.local);
            var hash := GetBranchHash(branchName, "");
            branchNames := branchNames[branchName := hash];
          }
        }
        assert store.keys[..i + 1][..i] == store.keys[..i];
        i := i + 1;
      }
      assert store.keys[..i] == store.keys;
      forall b
        ensures b in branchNames <==> BranchKey(database, name, b) in store.keys
        ensures b in branchNames ==> branchNames[b] == CurrentHash(store.data, database, name, b)
      {
        BranchesListed(store.keys, store.data, database, name, b);
      }
    }

    /** `getCommits(before, number)`: the commits of this project older than
        `before`, in key order, stopping once `number` have been found. */
    method GetCommits(before: int, number: int) returns (finds: seq<Obj>)
      requires store.Valid()
      ensures finds == Take(CommitsIn(store.keys, store.data, database, name, before), number)
      ensures 1 <= number ==> |finds| <= number
      ensures forall c :: c in finds ==>
                && c.Commit? && c.time < before
                && exists k :: k in store.keys && IsCommitBefore(k, store.data, database, name, before) && store.data[k].obj == c
    {
      ghost var all := CommitsIn(store.keys, store.data, database, name, before);
      finds := [];
      var i := 0;
      while i < store.length
        invariant 0 <= i <= store.length
        invariant finds == CommitsIn(store.keys[..i], store.data, database, name, before)
        invariant 1 <= number ==> |finds| < number
      {
        var key := store.KeyAt(i).value;
        assert store.keys[..i + 1][..i] == store.keys[..i];
        if key.Entry? && key.db == database && key.project == name {
          var item := store.GetItem(key).value;
          if item.ObjectVal? && item.obj.Commit? && item.obj.time < before {
            finds := finds + [item.obj];
            if |finds| == number {
              CommitsInPrefix(store.keys, i + 1, store.data, database, name, before);
              assert finds == all[..number];
              break;
            }
          }
        }
        i := i + 1;
      }
      if i == store.length {
        assert store.keys[..i] == store.keys;
      }
      assert finds == Take(all, number);
      CommitsInSpec(store.keys, store.data, database, name, before);
      forall c | c in finds ensures c in all {
      }
    }

    /** `getAncestors(commits, ancestorsSoFar)`: the next frontier, every
        parent of every commit in `commits` once, and the visited set
        extended by it. Every parent of a merge commit is expanded. */
    method GetAncestors(commits: seq<string>, ancestorsSoFar: set<string>)
      returns (newCommits: seq<string>, ancestors: set<string>)
      requires store.Valid()
      ensures newCommits == Frontier(ParentGraph(), commits)
      ensures NoDup(newCommits)
      ensures ancestors == ancestorsSoFar + Elems(newCommits)
    {
      ghost var g := ParentGraph();
      newCommits := [];
      ancestors := ancestorsSoFar;
      var i := 0;
      while i < |commits|
        invariant 0 <= i <= |commits|
        invariant newCommits == Frontier(g, commits[..i])
        invariant ancestors == ancestorsSoFar + Elems(newCommits)
      {
        var commit := store.GetItem(ObjectKey(database, name, commits[i]));
        var parents := if commit.Some? && commit.value.ObjectVal? && commit.value.obj.Commit?
                       then commit.value.obj.parents else [];
        assert parents == g.Parents(commits[i]);
        AddNewElems(newCommits, parents);
        newCommits, ancestors := PushParents(newCommits, ancestors, parents);
        assert commits[..i + 1][..i] == commits[..i];
        i := i + 1;
      }
      assert commits[..i] == commits;
      FrontierElems(g, commits);
    }

    /** `getCommonAncestorCommit(commitA, commitB)`: expand both histories
        round by round until an id newly reached on one side has already
        been visited on the other. `depth` is a bound past which neither
        history goes: the search terminates only on histories without
        cycles, which the backend takes for granted.

        The answer is the match `checkForCommon` reports in the earliest
        round that has a non-empty one, so it is an ancestor of both (an id
        counts as its own ancestor), `commitA` itself when both are the
        same. The search fails exactly when no round has such a match. A rejection
        means the histories share nothing, provided the empty id, which
        the backend's truthiness test cannot report as a match, is
        reachable from neither side. */
    method GetCommonAncestorCommit(commitA: string, commitB: string, ghost depth: nat)
      returns (r: Result<string, Error>)
      requires store.Valid()
      requires Layer(ParentGraph(), commitA, depth) == [] && Layer(ParentGraph(), commitB, depth) == []
      ensures commitA == commitB && commitA != "" ==> r == Ok(commitA)
      ensures r.Ok? ==> r.value != ""
      ensures r.Ok? ==> Reachable(ParentGraph(), commitA, r.value) && Reachable(ParentGraph(), commitB, r.value)
      ensures r.Err? ==> r.error == NoCommonAncestor
      ensures r.Err? && !Reachable(ParentGraph(), commitA, "") && !Reachable(ParentGraph(), commitB, "") ==>
                !HaveCommonAncestor(ParentGraph(), commitA, commitB)
      ensures r.Ok? ==> exists t :: FirstHit(ParentGraph(), commitA, commitB, t, r.value)
      ensures r.Err? ==> forall t: nat :: !Hit(ParentGraph(), commitA, commitB, t)
    {
      var ancestorsA, newAncestorsA := {commitA}, [commitA];
      var ancestorsB, newAncestorsB := {commitB}, [commitB];
      ghost var g := ParentGraph();
      LayerBelowDepth(g, commitA, depth, 0);
      r := LoadStep(commitA, commitB, newAncestorsA, ancestorsA, newAncestorsB, ancestorsB, g, 0, depth);
      forall c ensures Reachable(g, commitA, c) <==> c in Ancestors(g, commitA, depth)
                ensures Reachable(g, commitB, c) <==> c in Ancestors(g, commitB, depth) {
        ReachableIffVisited(g, commitA, depth, c);
        ReachableIffVisited(g, commitB, depth, c);
      }
    }

    /** Both `getAncestors()` calls of a round, on one side: round `t`'s
        frontier and visited set become round `t + 1`'s. */
    method Expand(ghost x: string, layer: seq<string>, visited: set<string>, ghost t: nat)
      returns (next: seq<string>, visitedNext: set<string>)
      requires store.Valid()
      requires layer == Layer(ParentGraph(), x, t) && visited == Ancestors(ParentGraph(), x, t)
      ensures next == Layer(ParentGraph(), x, t + 1)
      ensures visitedNext == Ancestors(ParentGraph(), x, t + 1)
    {
      next, visitedNext := GetAncestors(layer, visited);
    }

    /** `checkForCommon()` on the frontiers and visited sets of round `t`:
        it reports that round's `Match`, and nothing exactly when no new id
        of either side was visited by the other. */
    method CheckRound(ghost commitA: string, ghost commitB: string,
                      newAncestorsA: seq<string>, ancestorsA: set<string>,
                      newAncestorsB: seq<string>, ancestorsB: set<string>,
                      ghost g: Graph, ghost t: nat)
      returns (candidate: Option<string>)
      requires newAncestorsA == Layer(g, commitA, t) && newAncestorsB == Layer(g, commitB, t)
      requires ancestorsA == Ancestors(g, commitA, t) && ancestorsB == Ancestors(g, commitB, t)
      ensures candidate == Match(g, commitA, commitB, t)
      ensures candidate.Some? ==> (candidate.value in Layer(g, commitA, t) && candidate.value in Ancestors(g, commitB, t)) ||
                                  (candidate.value in Layer(g, commitB, t) && candidate.value in Ancestors(g, commitA, t))
      ensures candidate.None? <==> (forall x :: x in Layer(g, commitA, t) ==> x !in Ancestors(g, commitB, t)) &&
                                   (forall x :: x in Layer(g, commitB, t) ==> x !in Ancestors(g, commitA, t))
    {
      candidate := CheckForCommon(newAncestorsA, ancestorsB, newAncestorsB, ancestorsA);
    }

    /** `loadStep()`: one round of the search. Report the first match
        `checkForCommon` finds; otherwise expand both frontiers and go on
        while either is non-empty. `t` is the round: the frontiers are the
        ids `t` parent links away, the visited sets those at most `t` away.
        Because nothing lies `depth` links away, the visited sets of round
        `depth` are everything reachable. */
    method LoadStep(ghost commitA: string, ghost commitB: string,
                    newAncestorsA: seq<string>, ancestorsA: set<string>,
                    newAncestorsB: seq<string>, ancestorsB: set<string>,
                    ghost g: Graph, ghost t: nat, ghost depth: nat)
      returns (r: Result<string, Error>)
      requires store.Valid() && g == ParentGraph()
      requires SearchRound(g, commitA, commitB, t, depth)
      requires newAncestorsA == Layer(g, commitA, t) && newAncestorsB == Layer(g, commitB, t)
      requires ancestorsA == Ancestors(g, commitA, t) && ancestorsB == Ancestors(g, commitB, t)
      requires forall s: nat :: s < t ==> !Hit(g, commitA, commitB, s)
      ensures commitA == commitB && commitA != "" ==> r == Ok(commitA)
      ensures r.Ok? ==> r.value != ""
      ensures r.Ok? ==> r.value in Ancestors(g, commitA, depth) && r.value in Ancestors(g, commitB, depth)
      ensures r.Err? ==> r.error == NoCommonAncestor
      ensures r.Err? && NoEmptyId(g, commitA, commitB, depth) ==>
                Ancestors(g, commitA, depth) !! Ancestors(g, commitB, depth)
      ensures r.Ok? ==> exists t' :: FirstHit(g, commitA, commitB, t', r.value)
      ensures r.Err? ==> forall s: nat :: !Hit(g, commitA, commitB, s)
      decreases depth - t
    {
      var candidate := CheckRound(commitA, commitB, newAncestorsA, ancestorsA, newAncestorsB, ancestorsB, g, t);
      if candidate.Some? {
        FoundIsVisited(g, commitA, commitB, t, depth, candidate.value);
        if candidate.value != "" {
          HitAnswers(g, commitA, commitB, t, candidate.value);
          return Ok(candidate.value);
        }
      }
      MissExtends(g, commitA, commitB, t);
      var nextA, visitedA := Expand(commitA, newAncestorsA, ancestorsA, t);
      var nextB, visitedB := Expand(commitB, newAncestorsB, ancestorsB, t);
      if nextA != [] || nextB != [] {
        NextRound(g, commitA, commitB, t, depth);
        r := LoadStep(commitA, commitB, nextA, visitedA, nextB, visitedB, g, t + 1, depth);
      } else {
        LastRound(g, commitA, commitB, t, depth);
        NoHitEver(g, commitA, commitB, t);
        r := Err(NoCommonAncestor);
      }
    }
  }
}
