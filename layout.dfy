/** The key layout and the stored values of the in-memory backend.

    The backend joins `database`, project name and local id with the
    separator `$` into one string key. Here a key is a structured value
    instead; the project marker, which the backend stores under the
    two-component key `database$project`, is its own variant. */
module Layout {
  import opened Wrappers

  /** The database component of every key. */
  const DATABASE: string := "webgme"

  datatype Key =
    /** `database$project`: the marker written when a project is created. */
    | Info(db: string, project: string)
    /** `database$project$local`: an object (local id = its hash) or a
        branch pointer (local id = `*` followed by the branch name). */
    | Entry(db: string, project: string, local: string)

  /** A stored document. A commit carries its parents and its time; any
      other document (a tree node, say) is `Plain`. */
  datatype Obj =
    | Commit(id: string, parents: seq<string>, time: int)
    | Plain(id: string)

  /** What a key maps to, after `JSON.parse` (treated as lossless). */
  datatype Value =
    | ObjectVal(obj: Obj)
    /** The record `{_id: branch, hash: hash}` of a branch pointer. */
    | BranchVal(id: string, hash: string)
    /** The marker of a project (the backend stores the project object). */
    | ProjectInfo(name: string)

  /** The rejections of the backend, with the messages it uses. */
  datatype Error =
    /** 'In-memory database has to be initialized. Call openDatabase first.' */
    | NotConnected
    /** 'Project already exists ' + name */
    | ProjectExists(name: string)
    /** 'Project does not exist ' + name */
    | ProjectMissing(name: string)
    /** 'branch has mismatch' */
    | BranchMismatch
    /** 'unable to find common ancestor commit' */
    | NoCommonAncestor

  /** Stand-in for the hash pattern: an object id is non-empty and does not
      begin with the branch marker `*`. */
  predicate IsHash(s: string) {
    |s| > 0 && s[0] != '*'
  }

  /** Stand-in for the raw-branch pattern: a branch local id begins with `*`. */
  predicate IsRawBranch(s: string) {
    |s| > 0 && s[0] == '*'
  }

  /** A branch name is acceptable when `*` + name is a raw branch id. With
      the stand-in above this holds of every name, so the preconditions
      built on it admit any branch name; the real pattern, which is not part
      of this model, may reject some. */
  predicate IsBranchName(b: string) {
    IsRawBranch("*" + b)
  }

  /** Stand-in for the project-name pattern: non-empty, without the separator. */
  predicate IsProjectName(s: string) {
    |s| > 0 && '$' !in s
  }

  /** `database$project$hash` */
  function ObjectKey(db: string, project: string, h: string): Key {
    Entry(db, project, h)
  }

  /** `database$project$*branch` */
  function BranchKey(db: string, project: string, b: string): Key {
    Entry(db, project, "*" + b)
  }

  /** True of the keys that `deleteProject(project)` removes and that
      `getProjectNames` attributes to `project`. */
  predicate OfProject(k: Key, db: string, project: string) {
    k.db == db && k.project == project
  }

  /** `(hash && hash.hash) || ''`: the hash a stored value records, or the
      empty hash when there is no branch record. */
  function StoredHash(v: Option<Value>): string {
    if v.Some? && v.value.BranchVal? then v.value.hash else ""
  }

  /** An object key is never a branch key, so objects and branch pointers
      of one project cannot overwrite each other. */
  lemma ObjectAndBranchKeysDiffer(db: string, project: string, h: string, b: string)
    requires IsHash(h)
    ensures ObjectKey(db, project, h) != BranchKey(db, project, b)
  {
    assert ("*" + b)[0] == '*';
  }

  /** A branch local id is `*` followed by the branch name it lists as. */
  lemma RawBranchSplits(local: string)
    requires IsRawBranch(local)
    ensures IsBranchName(local[1..]) && "*" + local[1..] == local
  {
    assert ("*" + local[1..])[0] == '*';
  }
}
