# In-memory storage backend of webgme, modelled in Dafny

webgme keeps its models in a versioned object store. This project models
the store's in-memory backend, `src/server/storage/memory.js`, and proves
what its operations promise. The backend is built in three layers.

1. **A raw store.** This is the `storage` record: a dictionary `data`, the
   list `keys` of its keys in insertion order, a cached `length`, and a
   `connected` flag. It offers `setItem`, `getItem`, `removeItem`, `key`,
   `connect` and `close`.
2. **A project handle (`Project`).** It offers:
   - the object layer: `loadObject` and `insertObject`, keyed by the
     object's `_id` hash;
   - branch pointers: `getBranches` and `getBranchHash`, plus
     `setBranchHash`, a compare-and-swap that deletes the pointer when it
     stores the empty hash;
   - history queries: `getCommits`, and `getCommonAncestorCommit`, a
     two-sided frontier search over commit parents.
3. **The database object (`Memory`).** It offers `openDatabase`,
   `closeDatabase`, `getProjectNames`, `createProject`, `deleteProject` and
   `openProject`.

The model is imperative, like the code it models:

- The raw store is a class, `Storage.Store`. Its methods state the whole new
  state in their postconditions. `Store.Valid()` is the invariant they keep:
  `keys` has no duplicates, lists exactly the keys of `data`, and `length`
  caches its size.
- A project handle is a class, `Projects.Project`. It shares one `Store` with
  the database object, `Registry.Memory`.
- Each scan over `storage.keys` is a `while` loop. Its invariant ties what it
  has gathered so far to a function of the keys already scanned:
  - `BranchesIn` for `getBranches`;
  - `CommitsIn` for `getCommits`;
  - `ProjectNames` for `getProjectNames`;
  - `ProjectKeys` for the first loop of `deleteProject`.

  Lemmas about these functions state what the scans mean.
- The ancestor search is recursive, like the code's `loadStep`. Each round
  is specified by `History.Layer`, the ids exactly `t` parent links away, and
  `History.Ancestors`, the ids at most `t` links away. These two connect to
  reachability over parent links (`History.Reachable`).

Keys are structured values (`Layout.Key`) instead of `$`-joined strings:

- `Entry(db, project, local)` stands for `database$project$local`. The local
  id is an object hash, or `*` followed by a branch name.
- `Info(db, project)` stands for the project marker `database$project`.

Values are parsed documents (`Layout.Value`): `JSON.parse` and
`JSON.stringify` are treated as a lossless round trip. The code's `ASSERT`
checks become preconditions. The patterns `REGEXP.HASH`, `REGEXP.RAW_BRANCH`
and `REGEXP.PROJECT` whose definitions are not shown become predicates in
`Layout`.

Callers of a storage backend expect more than this code does. The model
follows the code in these places:

- Callers expect history sorted by time, newest first. `getCommits` returns
  commits in key-list order and does not sort them.
- Callers expect the ancestor search not to expand an id twice. The code
  removes duplicates only within one new frontier, so an id visited in an
  earlier round is expanded again. The visited sets are never used to
  filter.
- Callers expect every parent of a merge commit to be explored. The code
  explores only one; see the defects below.
- The listing of branches never shows a pointer with an empty head. A
  pointer set to the empty hash is removed rather than stored.

Four defects of the code are resolved as follows:

- `getBranches` calls a bare `getBranchHash` for each branch key of the
  project (memory.js:119). No enclosing scope declares that name: the method
  exists only as the property `this.getBranchHash` (memory.js:149). So as
  written, `getBranches` throws a ReferenceError as soon as the project has
  a branch, and it can only ever list nothing. The model lists each branch
  with its current hash, as the call was evidently meant to; see
  "Findings".
- The parent index is corrected in `getAncestors`, which reads
  `commit.parents[i]` where it means `commit.parents[j]`; see "Findings".
- `loadStep` goes on expanding after it has resolved a candidate
  (memory.js:286-289). The promise has settled by then, so the search is
  modelled as stopping at the first candidate. The caller sees the same
  result.
- The project marker is stored at a key with two components and with a
  non-string value (memory.js:72). That breaks `setItem`'s string check and
  the scans' three-component checks. Here the marker is the `Info` key
  variant, with value `ProjectInfo(name)`:
  - `getProjectNames` counts the project component of `Info` keys, as it does
    for every other key of the database;
  - `deleteProject` removes them too, since their project component matches;
  - `getBranches` and `getCommits` never reach one, because it carries no
    local id.

## Model

| member | source | states |
|---|---|---|
| Storage.Store.constructor | src/server/storage/memory.js:29-33 | the store starts empty and disconnected, and satisfies the store invariant |
| Storage.Store.Connect | src/server/storage/memory.js:34-36 | afterwards the store is connected; only the flag changes |
| Storage.Store.Close | src/server/storage/memory.js:37-39 | afterwards the store is disconnected; only the flag changes |
| Storage.Store.GetItem | src/server/storage/memory.js:40-43 | a value comes back exactly when the key is listed in `keys`, and it is the stored value |
| Storage.Store.SetItem | src/server/storage/memory.js:44-51 | the key now maps to the value; a new key is appended to `keys`, an existing key keeps its place; the store invariant (no duplicate keys, `length` equal to the number of keys) is preserved |
| Storage.Store.RemoveItem | src/server/storage/memory.js:52-60 | the key leaves `data`; `keys` loses exactly that key (the `splice` at `indexOf` equals removing it) and keeps the order of the rest; the invariant is preserved |
| Storage.Store.KeyAt | src/server/storage/memory.js:61-63 | a key comes back exactly for an index in `0..length-1`, and it is the key at that position, which is stored in `data` |
| Seqs.IndexOf | src/server/storage/memory.js:47 | models `indexOf`: -1 exactly when the element is absent; otherwise the index of its first occurrence |
| Seqs.WithoutIsRemoval | src/server/storage/memory.js:55-58 | on a duplicate-free list, `splice(indexOf(x), 1)` removes `x` and only `x`, keeps the order and leaves no duplicates |
| Seqs.RemoveAllTwice | src/server/storage/memory.js:418-420 | removing one set of keys and then another removes their union, which is why removing keys one by one removes them all |
| Layout.ObjectAndBranchKeysDiffer | src/server/storage/memory.js:100-105 | an object key, whose hash may not begin with `*`, is never a branch key, so objects cannot overwrite branch pointers |
| Layout.RawBranchSplits | src/server/storage/memory.js:134-137 | the local id of a branch key is `*` followed by a valid branch name, and `slice(1)` recovers that name |
| Branches.CurrentHash | src/server/storage/memory.js:153-160 | the empty hash when the branch has no pointer; a non-empty hash is the one recorded by the branch record stored at the pointer key |
| Branches.BranchesListed | src/server/storage/memory.js:131-141 | a branch appears in the listing exactly when its pointer key was scanned, and it appears with its current hash |
| History.Take | src/server/storage/memory.js:223-226 | the cut-off result is a prefix of what the scan finds, has at most `number` items when `number >= 1`, and is cut short only at exactly `number` |
| History.CommitsInSpec | src/server/storage/memory.js:219-231 | the scan yields only commits stored under this project that are older than `before`, and every such commit among the keys is yielded |
| History.FirstIn | src/server/storage/memory.js:262-267 | one loop of `checkForCommon` finds an id that is both in the frontier and in the other side's visited set; it finds nothing exactly when no such id exists; when it finds one, it is the element at the first position whose id the other side has visited |
| History.AddNewElems | src/server/storage/memory.js:250-254 | pushing parents not yet listed keeps the list duplicate-free, keeps what was there, and adds exactly the parents |
| History.FrontierElems | src/server/storage/memory.js:242-259 | the next frontier holds every parent of every id of the current frontier, nothing else, and each only once |
| History.AsWrittenDropsMergeParent | src/server/storage/memory.js:250-254 | as written, the expansion of a merge commit with parents `y`, `z` yields only `y`; the corrected expansion yields both |
| History.HitAnswers | src/server/storage/memory.js:286-287 | a round whose `checkForCommon` answer is a non-empty id, after rounds without an accepted answer, makes that id the answer of the search |
| History.MissExtends | src/server/storage/memory.js:276-282 | a round whose answer is nothing or the empty id, which `if (candidate)` rejects, leaves the search with no accepted answer so far |
| History.NoHitEver | src/server/storage/memory.js:280-284 | a round without an accepted answer whose frontiers both expand to nothing means that no round, earlier or later, has one |
| History.MergeRounds | src/server/storage/memory.js:242-259 | in a graph where `m` merges `y` and `z`, `y` descends from `x`, and `x` and `z` from `root`, the first expansion of `m` is `[y, z]`, of `x` is `[root]`, and `z` has visited `{z, root}` after one round |
| History.MergeAnswersParent | src/server/storage/memory.js:236-311 | in that graph the search from `m` and `z` answers `z`, the direct parent, and nothing else, although `root` is an ancestor of both |
| History.SiblingsAnswerRoot | src/server/storage/memory.js:236-311 | in that graph the search from `x` and `z` answers `root` and nothing else |
| History.AncestorsAreLayers | src/server/storage/memory.js:254 | the visited set after round `k` is exactly the union of the frontiers of rounds `0..k` |
| History.ReachableIffVisited | src/server/storage/memory.js:280-284 | once the frontiers are exhausted, the visited set is exactly the set of ids reachable by parent links |
| History.NoMatchKeepsDisjoint | src/server/storage/memory.js:262-274 | when no new id on either side was visited by the other, disjoint visited sets stay disjoint |
| History.FoundIsVisited | src/server/storage/memory.js:262-274 | an id `checkForCommon` reports is visited by both sides, so it is an ancestor of both |
| History.NextRound | src/server/storage/memory.js:280-282 | a round without a match that still has ids to expand leads to a round that satisfies every round's invariant |
| History.LastRound | src/server/storage/memory.js:283-284 | a round without a match and with both frontiers empty means the two histories share no id |
| Projects.CheckForCommon | src/server/storage/memory.js:260-275 | the first id of A's new frontier that B has visited, else the first id of B's new frontier that A has visited; nothing exactly when no such id exists |
| Projects.PushParents | src/server/storage/memory.js:250-255 | the inner loop of `getAncestors` appends exactly the parents not yet listed, and marks all of them visited |
| Projects.Project.constructor | src/server/storage/memory.js:67-75 | when connected, the project marker is written (appended to `keys` when new); when not connected, nothing is written |
| Projects.Project.Stored | src/server/storage/memory.js:437-440 | a handle on an existing project; nothing is written |
| Projects.Project.LoadObject | src/server/storage/memory.js:83-96 | the stored document, or nothing exactly when no object with that hash was inserted in this project |
| Projects.Project.InsertObject | src/server/storage/memory.js:98-112 | the document is stored under its `_id`, so loading that id returns it; a second insertion keeps the single key; no branch's hash changes |
| Projects.Project.GetBranchHash | src/server/storage/memory.js:149-174 | the branch's current hash, or the empty hash when it has no pointer, whatever `oldhash` is; nothing is written |
| Projects.Project.SetBranchHash | src/server/storage/memory.js:176-213 | succeeds exactly when the current hash equals `oldhash`, and otherwise fails with a mismatch and writes nothing; with `oldhash == newhash` it never writes; on success the current hash becomes `newhash`, and an empty `newhash` removes the pointer (and the branch from the listing) |
| Projects.Project.GetBranches | src/server/storage/memory.js:114-147 | with the call at line 119 read as `this.getBranchHash`: every branch whose pointer key is in the store, each with its current hash, and no other name |
| Branches.AsWrittenThrowsOnBranch | src/server/storage/memory.js:119 | as written, `getBranches` throws exactly when the scanned keys hold a branch pointer of this project, and otherwise lists nothing |
| Branches.AsWrittenLosesMaster | src/server/storage/memory.js:114-147 | with one branch `master` pointing at `h`, as written the listing throws, while the corrected listing is `{master: h}` |
| Projects.Project.GetCommits | src/server/storage/memory.js:215-234 | the commits of this project older than `before`, in key order, cut off once `number` are found; every item is such a commit |
| Projects.Project.GetAncestors | src/server/storage/memory.js:242-259 | the next frontier (with the parent index corrected), duplicate-free, and the visited set grown by exactly its ids |
| Projects.Project.Expand | src/server/storage/memory.js:289-300 | one side's `getAncestors` call takes round `t`'s frontier and visited set to round `t + 1`'s |
| Projects.Project.CheckRound | src/server/storage/memory.js:260-275 | `checkForCommon` on the frontiers and visited sets of round `t` reports that round's match, and nothing exactly when no new id of either side was visited by the other |
| Projects.Project.LoadStep | src/server/storage/memory.js:276-301 | a reported id is the match of the first round whose match is a non-empty id; a failure is `NoCommonAncestor`, and then no round has such a match; a reported id is visited by both sides; `A == B` gives `A`; when the empty id is unreachable, a failure means the visited sets stayed disjoint to exhaustion |
| Projects.Project.GetCommonAncestorCommit | src/server/storage/memory.js:236-311 | the answer is the first match in round order: the `checkForCommon` match of the earliest round whose match is a non-empty id; it fails with `NoCommonAncestor` exactly when no round has one; `A` when `A == B`; the answer is reachable from both `A` and `B` by parent links; when the empty id is unreachable, a failure means no id is reachable from both |
| Registry.ProjectNamesSpec | src/server/storage/memory.js:355-366 | the scan lists each project with a key in this database exactly once, and nothing else |
| Registry.ProjectKeysSpec | src/server/storage/memory.js:407-416 | the collected keys are exactly the keys whose database and project components match |
| Registry.Memory.constructor | src/server/storage/memory.js:26-33 | a fresh, empty and disconnected store under database name `webgme` |
| Registry.Memory.OpenDatabase | src/server/storage/memory.js:314-331 | afterwards connected, whatever the state before; the contents are unchanged, so a second call changes nothing |
| Registry.Memory.CloseDatabase | src/server/storage/memory.js:333-348 | afterwards disconnected, whatever the state before; the contents are unchanged, so a second call changes nothing |
| Registry.Memory.GetProjectNames | src/server/storage/memory.js:350-372 | fails with `NotConnected` exactly when not connected; otherwise each project with a key in this database, once, and all of them valid project names |
| Registry.Memory.CreateProject | src/server/storage/memory.js:374-396 | fails with `NotConnected` when not connected, or with `ProjectExists` when the marker exists, writing nothing; otherwise a fresh handle that has written the marker |
| Registry.Memory.CollectProjectKeys | src/server/storage/memory.js:407-416 | the first loop of `deleteProject` collects, in key order, exactly the keys of the project |
| Registry.Memory.RemoveKeys | src/server/storage/memory.js:418-420 | removing the collected keys one by one drops exactly those keys from `data` and from `keys`, keeping the order of the rest |
| Registry.Memory.DeleteProject | src/server/storage/memory.js:398-428 | fails with `NotConnected` exactly when not connected, writing nothing; otherwise exactly the keys whose project component is `name` are gone, every other key keeps its value and its place |
| Registry.Memory.OpenProject | src/server/storage/memory.js:430-452 | fails with `NotConnected` when not connected, or with `ProjectMissing` when the marker is absent; otherwise a handle on the project |

## Left out

- Q promises, `nodeify` and callbacks: every operation is synchronous and
  returns its result, an `Option` or a `Result`.
- In the `oldhash === newhash` path, `setBranchHash` calls the callback
  directly and leaves its promise unsettled (memory.js:190-195). This
  double report is collapsed into one result.
- `logger` calls are output only and are left out.
- `REGEXP`, `ASSERT` and `CANON` are modules whose code is not part of this
  model. `ASSERT`s become preconditions, and the patterns become the
  predicates `IsHash`, `IsRawBranch`, `IsBranchName` and `IsProjectName`.
- `JSON.parse` and `JSON.stringify` are treated as a lossless round trip. The
  typed-string checks of `setItem` and `getItem` have no counterpart.
- `closeProject` (memory.js:77-81) is a no-op.
- The client UI files and the add-on integration test are not part of this
  model.
- The `storage` literal lacks a comma after `close` (memory.js:39). It is
  read as intended.
- Projects.Project.GetCommonAncestorCommit: termination is not proved from
  the code. It rests on histories being acyclic, which the precondition
  supplies as a ghost `depth` at which both frontiers are empty.
- Projects.Project.GetCommonAncestorCommit: the code tests its candidate
  with `if (candidate)`, so an empty id is never reported. The promise
  "fails only when no common ancestor exists" is therefore stated for
  histories in which the empty id is unreachable.
- History.Graph.Parents: an id whose key holds something other than a commit
  counts as having no parents. The code would read `.parents` of it and
  throw.
- Projects.Project.Stored: `openProject` resolves with the object stored at
  the marker key. The model returns a new handle with the same store,
  database and name.
- Projects.Project.SetBranchHash: "no longer listed" is promised only for a
  successful removal with `oldhash != newhash`. With `oldhash == newhash ==
  ''` it only checks, and there is nothing to remove.
- Projects.Project.GetCommits: does not sort by time, as the code does not.
  So "the most recent first" is not promised.

## Findings

| source | as written | input that shows it | evidently intended | confidence | as-written member | corrected member |
|---|---|---|---|---|---|---|
| src/server/storage/memory.js:250-254 | the inner loop over a commit's parents pushes `commit.parents[i]`, indexed by the outer loop's `i`, once per parent | frontier `[m]` with `m`'s parents `[y, z]`: the next frontier is `[y]`, so `z` is never explored | push `commit.parents[j]`, so every parent of a merge commit is explored | high, not executed | History.FrontierAsWritten, History.AsWrittenDropsMergeParent | History.Frontier, History.FrontierElems, Projects.Project.GetAncestors |
| src/server/storage/memory.js:119 | `getBranches` calls a bare `getBranchHash`, which no enclosing scope declares (the method is only the property `this.getBranchHash`, line 149), so the call throws a ReferenceError | a project whose branch `master` was set by `setBranchHash('master', '', h)`: the scan reaches `webgme$p$*master` and throws instead of listing `{master: h}` | call `this.getBranchHash` (through a saved `this`), so every branch is listed with its current hash | high, not executed | Branches.BranchesAsWritten, Branches.AsWrittenThrowsOnBranch, Branches.AsWrittenLosesMaster | Branches.BranchesIn, Branches.BranchesListed, Projects.Project.GetBranches |
