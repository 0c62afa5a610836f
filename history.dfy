/** What the history operations of a project read from the store: the
    commit scan of `getCommits` and the parent graph that
    `getCommonAncestorCommit` walks. */
module History {
  import opened Wrappers
  import opened Layout
  import opened Seqs

  // ---------------------------------------------------------------------
  // getCommits

  /** True of a key that `getCommits(before, _)` collects: it lies under
      the prefix `database$project$` and holds a commit older than
      `before`. */
  predicate IsCommitBefore(k: Key, data: map<Key, Value>, db: string, project: string, before: int) {
    && k.Entry? && k.db == db && k.project == project
    && k in data && data[k].ObjectVal? && data[k].obj.Commit?
    && data[k].obj.time < before
  }

  /** The commits the scan of `ks` finds, in key order, with no cut-off. */
  function CommitsIn(ks: seq<Key>, data: map<Key, Value>, db: string, project: string, before: int): seq<Obj>
  {
    if ks == [] then []
    else
      var found := CommitsIn(ks[..|ks| - 1], data, db, project, before);
      var k := ks[|ks| - 1];
      if IsCommitBefore(k, data, db, project, before) then found + [data[k].obj] else found
  }

  /** The scan stops once it has found `number` items; a `number` below 1
      is never reached, so it does not cut anything off. */
  function Take<T>(s: seq<T>, number: int): (r: seq<T>)
    ensures r <= s
    ensures 1 <= number ==> |r| <= number
    ensures |r| < |s| ==> |r| == number
  {
    if 1 <= number <= |s| then s[..number] else s
  }

  /** Everything the scan finds is a commit older than `before` stored under
      this project, and every such commit among the keys is found. */
  lemma {:induction false} CommitsInSpec(ks: seq<Key>, data: map<Key, Value>, db: string, project: string, before: int)
    ensures forall c :: c in CommitsIn(ks, data, db, project, before) ==>
              c.Commit? && c.time < before &&
              exists k :: k in ks && IsCommitBefore(k, data, db, project, before) && data[k].obj == c
    ensures forall k :: k in ks && IsCommitBefore(k, data, db, project, before) ==>
              data[k].obj in CommitsIn(ks, data, db, project, before)
  {
    if ks != [] {
      var init := ks[..|ks| - 1];
      assert ks == init + [ks[|ks| - 1]];
      CommitsInSpec(init, data, db, project, before);
    }
  }

  /** What the scan has found after the first `i` keys is a prefix of what
      it finds over all of them. */
  lemma {:induction false} CommitsInPrefix(ks: seq<Key>, i: nat, data: map<Key, Value>, db: string, project: string, before: int)
    requires i <= |ks|
    ensures CommitsIn(ks[..i], data, db, project, before) <= CommitsIn(ks, data, db, project, before)
    decreases |ks| - i
  {
    if i < |ks| {
      CommitsInPrefix(ks, i + 1, data, db, project, before);
      assert ks[..i + 1][..i] == ks[..i];
    } else {
      assert ks[..i] == ks;
    }
  }

  // ---------------------------------------------------------------------
  // The parent graph of one project

  /** The store as one project sees it. */
  datatype Graph = Graph(data: map<Key, Value>, db: string, project: string) {

    /** The parents the ancestor search reads for id `h`: those of the
        commit stored at `database$project$h`, none when nothing, or
        something other than a commit, is stored there. */
    function Parents(h: string): seq<string> {
      var k := ObjectKey(db, project, h);
      if k in data && data[k].ObjectVal? && data[k].obj.Commit? then data[k].obj.parents else []
    }
  }

  /** `newCommits` after the inner loop of `getAncestors`: each id of `ps`,
      in order, appended when not already present. */
  function AddNew(acc: seq<string>, ps: seq<string>): seq<string> {
    if ps == [] then acc
    else
      var r := AddNew(acc, ps[..|ps| - 1]);
      var p := ps[|ps| - 1];
      if p in r then r else r + [p]
  }

  /** The next frontier `getAncestors` computes from `commits`: every parent
      of every commit, each once, in order of discovery. */
  function Frontier(g: Graph, commits: seq<string>): seq<string> {
    if commits == [] then []
    else AddNew(Frontier(g, commits[..|commits| - 1]), g.Parents(commits[|commits| - 1]))
  }

  /** The parent `getAncestors` pushes, as written, for the commit at
      position `i` of the frontier: `commit.parents[i]`, indexed with the
      outer loop's variable; past the end JavaScript reads `undefined`,
      which the visited dictionary and the next key both spell "undefined". */
  function ParentAtOuterIndex(ps: seq<string>, i: nat): string {
    if i < |ps| then ps[i] else "undefined"
  }

  /** The frontier `getAncestors` computes as written: the inner loop runs
      once per parent but pushes `ParentAtOuterIndex` every time. */
  function FrontierAsWritten(g: Graph, commits: seq<string>): seq<string> {
    if commits == [] then []
    else
      var i := |commits| - 1;
      var ps := g.Parents(commits[i]);
      AddNew(FrontierAsWritten(g, commits[..i]), seq(|ps|, _ => ParentAtOuterIndex(ps, i)))
  }

  /** A merge commit `m` with parents `y` and `z`: as written, expanding
      the frontier `[m]` reaches only `y`, while `Frontier` reaches both. */
  lemma AsWrittenDropsMergeParent()
    ensures var g := Graph(map[ObjectKey(DATABASE, "p", "m") := ObjectVal(Commit("m", ["y", "z"], 0))], DATABASE, "p");
            && FrontierAsWritten(g, ["m"]) == ["y"]
            && Frontier(g, ["m"]) == ["y", "z"]
  {
    var g := Graph(map[ObjectKey(DATABASE, "p", "m") := ObjectVal(Commit("m", ["y", "z"], 0))], DATABASE, "p");
    assert g.Parents("m") == ["y", "z"];
    assert ["m"][..0] == [];
    assert seq(2, _ => ParentAtOuterIndex(["y", "z"], 0)) == ["y", "y"];
    assert ["y", "y"][..1] == ["y"];
    assert ["y", "z"][..1] == ["y"];
    assert AddNew([], ["y"]) == ["y"];
  }

  /** The ids reachable from `x` by exactly `k` parent links, as the
      frontier of round `k` lists them. */
  function Layer(g: Graph, x: string, k: nat): seq<string> {
    if k == 0 then [x] else Frontier(g, Layer(g, x, k - 1))
  }

  /** The ids reachable from `x` by at most `k` parent links: the visited
      set after round `k`. */
  function Ancestors(g: Graph, x: string, k: nat): set<string> {
    if k == 0 then {x} else Ancestors(g, x, k - 1) + Elems(Layer(g, x, k))
  }

  /** `c` is `x` or one of its ancestors. */
  ghost predicate Reachable(g: Graph, x: string, c: string) {
    exists k: nat :: c in Layer(g, x, k)
  }

  /** `a` and `b` share an ancestor (possibly one of themselves). */
  ghost predicate HaveCommonAncestor(g: Graph, a: string, b: string) {
    exists c :: Reachable(g, a, c) && Reachable(g, b, c)
  }

  /** The first element of `s` that is in `visited`, as one loop of
      `checkForCommon` finds it: the result is visited, and it is the
      element at the first visited position. */
  function FirstIn(s: seq<string>, visited: set<string>): (r: Option<string>)
    ensures r.Some? ==> r.value in s && r.value in visited
    ensures r.None? <==> forall x :: x in s ==> x !in visited
    ensures forall i :: 0 <= i < |s| && s[i] in visited && (forall j :: 0 <= j < i ==> s[j] !in visited) ==>
              r == Some(s[i])
  {
    if s == [] then None
    else if s[0] in visited then Some(s[0])
    else FirstIn(s[1..], visited)
  }

  /** What `checkForCommon` reports in round `t` of the search for a common
      ancestor of `a` and `b`: the first id of A's frontier that B has
      visited, else the first id of B's frontier that A has visited. */
  function Match(g: Graph, a: string, b: string, t: nat): Option<string> {
    var m := FirstIn(Layer(g, a, t), Ancestors(g, b, t));
    if m.Some? then m else FirstIn(Layer(g, b, t), Ancestors(g, a, t))
  }

  /** Round `t` ends the search: its match is an id that `if (candidate)`
      accepts, that is, a non-empty one. */
  predicate Hit(g: Graph, a: string, b: string, t: nat) {
    Match(g, a, b, t).Some? && Match(g, a, b, t).value != ""
  }

  /** `c` is the answer of the search: the match of the first round that
      has an accepted one. */
  predicate FirstHit(g: Graph, a: string, b: string, t: nat, c: string) {
    Hit(g, a, b, t) && Match(g, a, b, t).value == c && forall s: nat :: s < t ==> !Hit(g, a, b, s)
  }

  /** A round whose match is accepted, after rounds without one, gives the
      answer of the search. */
  lemma HitAnswers(g: Graph, a: string, b: string, t: nat, c: string)
    requires forall s: nat :: s < t ==> !Hit(g, a, b, s)
    requires Match(g, a, b, t) == Some(c) && c != ""
    ensures FirstHit(g, a, b, t, c)
  {
  }

  /** A round without an accepted match extends the run of such rounds. */
  lemma MissExtends(g: Graph, a: string, b: string, t: nat)
    requires forall s: nat :: s < t ==> !Hit(g, a, b, s)
    requires !Hit(g, a, b, t)
    ensures forall s: nat :: s < t + 1 ==> !Hit(g, a, b, s)
  {
  }

  /** A round without an accepted match whose frontiers both expand to
      nothing is the last: no round, earlier or later, has one. */
  lemma NoHitEver(g: Graph, a: string, b: string, t: nat)
    requires forall s: nat :: s < t + 1 ==> !Hit(g, a, b, s)
    requires Layer(g, a, t + 1) == [] && Layer(g, b, t + 1) == []
    ensures forall s: nat :: !Hit(g, a, b, s)
  {
    forall s: nat | t < s ensures !Hit(g, a, b, s) {
      LayerEmptyAfter(g, a, t + 1, s);
      LayerEmptyAfter(g, b, t + 1, s);
    }
  }

  /** The commit graph of a merge: `m` has parents `y` and `z`, `y` has
      parent `x`, and `x` and `z` have the root commit `root` as parent. */
  function MergeGraph(): Graph {
    Graph(map[ObjectKey(DATABASE, "p", "m") := ObjectVal(Commit("m", ["y", "z"], 4)),
              ObjectKey(DATABASE, "p", "y") := ObjectVal(Commit("y", ["x"], 3)),
              ObjectKey(DATABASE, "p", "x") := ObjectVal(Commit("x", ["root"], 2)),
              ObjectKey(DATABASE, "p", "z") := ObjectVal(Commit("z", ["root"], 1)),
              ObjectKey(DATABASE, "p", "root") := ObjectVal(Commit("root", [], 0))],
          DATABASE, "p")
  }

  /** The first two rounds from `m` and `z` in the merge graph. */
  lemma MergeRounds()
    ensures Layer(MergeGraph(), "m", 1) == ["y", "z"]
    ensures Ancestors(MergeGraph(), "z", 1) == {"z", "root"}
    ensures Layer(MergeGraph(), "x", 1) == ["root"]
  {
    var g := MergeGraph();
    assert g.Parents("m") == ["y", "z"] && g.Parents("z") == ["root"] && g.Parents("x") == ["root"];
    assert ["m"][..0] == [] && ["z"][..0] == [] && ["x"][..0] == [];
    assert ["y", "z"][..1] == ["y"] && ["root"][..0] == [];
    assert AddNew([], ["y"]) == ["y"];
    assert Frontier(g, ["m"]) == AddNew([], ["y", "z"]);
    assert Frontier(g, ["z"]) == AddNew([], ["root"]) == ["root"];
    assert Frontier(g, ["x"]) == AddNew([], ["root"]);
  }

  /** In the merge graph, the search from `m` and `z` answers `z` itself, an
      ancestor of `m`, and not `root`, though `root` is an ancestor of both. */
  lemma MergeAnswersParent(c: string)
    ensures (exists t :: FirstHit(MergeGraph(), "m", "z", t, c)) <==> c == "z"
  {
    var g := MergeGraph();
    MergeRounds();
    assert !Hit(g, "m", "z", 0);
    assert FirstIn(["y", "z"], {"z", "root"}) == Some("z");
    assert FirstHit(g, "m", "z", 1, "z");
  }

  /** In the merge graph, the search from `x` and `z` answers `root`. */
  lemma SiblingsAnswerRoot(c: string)
    ensures (exists t :: FirstHit(MergeGraph(), "x", "z", t, c)) <==> c == "root"
  {
    var g := MergeGraph();
    MergeRounds();
    assert !Hit(g, "x", "z", 0);
    assert FirstHit(g, "x", "z", 1, "root");
  }

  lemma {:induction false} AddNewElems(acc: seq<string>, ps: seq<string>)
    ensures Elems(AddNew(acc, ps)) == Elems(acc) + Elems(ps)
    ensures NoDup(acc) ==> NoDup(AddNew(acc, ps))
    ensures acc <= AddNew(acc, ps)
  {
    if ps != [] {
      var init := ps[..|ps| - 1];
      assert ps == init + [ps[|ps| - 1]];
      assert Elems(ps) == Elems(init) + {ps[|ps| - 1]};
      AddNewElems(acc, init);
      var r := AddNew(acc, init);
      var p := ps[|ps| - 1];
      assert Elems(r + [p]) == Elems(r) + {p};
    }
  }

  /** The frontier holds each parent of each id of the old frontier, and
      nothing else, exactly once. */
  lemma {:induction false} FrontierElems(g: Graph, commits: seq<string>)
    ensures forall y :: y in Frontier(g, commits) <==> exists z :: z in commits && y in g.Parents(z)
    ensures NoDup(Frontier(g, commits))
  {
    if commits != [] {
      var init := commits[..|commits| - 1];
      var last := commits[|commits| - 1];
      assert commits == init + [last];
      FrontierElems(g, init);
      AddNewElems(Frontier(g, init), g.Parents(last));
      forall y | y in Frontier(g, commits) ensures exists z :: z in commits && y in g.Parents(z) {
        if y in Frontier(g, init) {
          var z :| z in init && y in g.Parents(z);
          assert z in commits;
        } else {
          assert y in Elems(Frontier(g, commits));
          assert y in Elems(g.Parents(last));
          assert last in commits;
        }
      }
      forall y | exists z :: z in commits && y in g.Parents(z) ensures y in Frontier(g, commits) {
        var z :| z in commits && y in g.Parents(z);
        if z in init {
          assert y in Frontier(g, init);
          assert y in Elems(Frontier(g, commits));
        } else {
          assert z == last;
          assert y in Elems(g.Parents(last));
          assert y in Elems(Frontier(g, commits));
        }
      }
    }
  }

  /** Once a layer is empty every later one is. */
  lemma {:induction false} LayerEmptyAfter(g: Graph, x: string, k: nat, m: nat)
    requires Layer(g, x, k) == [] && k <= m
    ensures Layer(g, x, m) == []
    decreases m - k
  {
    if k < m {
      assert Layer(g, x, k + 1) == Frontier(g, []) == [];
      LayerEmptyAfter(g, x, k + 1, m);
    }
  }

  /** The ancestors within `k` links are the union of the first `k` layers. */
  lemma {:induction false} AncestorsAreLayers(g: Graph, x: string, k: nat, c: string)
    ensures c in Ancestors(g, x, k) <==> exists j: nat :: j <= k && c in Layer(g, x, j)
  {
    if k == 0 {
      assert Ancestors(g, x, 0) == {x} && Layer(g, x, 0) == [x];
      if c == x {
        assert c in Layer(g, x, k);
      } else {
        forall j: nat | j <= 0 ensures c !in Layer(g, x, j) {
          assert j == 0;
        }
      }
    } else {
      AncestorsAreLayers(g, x, k - 1, c);
      assert Ancestors(g, x, k) == Ancestors(g, x, k - 1) + Elems(Layer(g, x, k));
      if c in Ancestors(g, x, k - 1) {
        var j: nat :| j <= k - 1 && c in Layer(g, x, j);
        assert j <= k && c in Layer(g, x, j);
      } else if c in Layer(g, x, k) {
        assert c in Elems(Layer(g, x, k));
      } else {
        forall j: nat | j <= k ensures c !in Layer(g, x, j) {
          if j < k {
            assert !(j <= k - 1 && c in Layer(g, x, j));
          }
        }
      }
    }
  }

  /** When layer `k + 1` is empty, everything reachable from `x` is within
      `k` links. */
  lemma ReachableWithin(g: Graph, x: string, k: nat, c: string)
    requires Layer(g, x, k + 1) == []
    requires Reachable(g, x, c)
    ensures c in Ancestors(g, x, k)
  {
    var j: nat :| c in Layer(g, x, j);
    if j > k {
      LayerEmptyAfter(g, x, k + 1, j);
    }
    AncestorsAreLayers(g, x, k, c);
  }

  /** When no id newly reached on one side was already seen on the other,
      and the sides were disjoint one round earlier, they still are. */
  lemma NoMatchKeepsDisjoint(g: Graph, a: string, b: string, t: nat)
    requires t > 0 ==> Ancestors(g, a, t - 1) !! Ancestors(g, b, t - 1)
    requires forall x :: x in Layer(g, a, t) ==> x !in Ancestors(g, b, t)
    requires forall x :: x in Layer(g, b, t) ==> x !in Ancestors(g, a, t)
    ensures Ancestors(g, a, t) !! Ancestors(g, b, t)
  {
  }

  /** A non-empty layer lies below any depth at which the layers are empty. */
  lemma LayerBelowDepth(g: Graph, x: string, depth: nat, t: nat)
    requires Layer(g, x, depth) == [] && Layer(g, x, t) != []
    ensures t < depth
  {
    if t >= depth {
      LayerEmptyAfter(g, x, depth, t);
    }
  }

  /** Every layer up to `t` is part of the visited set of round `t`. */
  lemma {:induction false} LayerInAncestors(g: Graph, x: string, t: nat)
    ensures Elems(Layer(g, x, t)) <= Ancestors(g, x, t)
  {
    if t == 0 {
      assert Elems([x]) == {x};
    }
  }

  /** The visited sets only grow from round to round. */
  lemma {:induction false} AncestorsGrow(g: Graph, x: string, t: nat, m: nat)
    requires t <= m
    ensures Ancestors(g, x, t) <= Ancestors(g, x, m)
    decreases m - t
  {
    if t < m {
      AncestorsGrow(g, x, t + 1, m);
    }
  }

  /** Once a layer is empty the visited set stops growing. */
  lemma {:induction false} AncestorsSettle(g: Graph, x: string, t: nat, m: nat)
    requires Layer(g, x, t + 1) == [] && t <= m
    ensures Ancestors(g, x, m) == Ancestors(g, x, t)
    decreases m - t
  {
    if t < m {
      LayerEmptyAfter(g, x, t + 1, m);
      AncestorsSettle(g, x, t, m - 1);
      assert Elems(Layer(g, x, m)) == {};
    }
  }

  /** When the layers from `depth` on are empty, the visited set of round
      `depth` is exactly what is reachable. */
  lemma ReachableIffVisited(g: Graph, x: string, depth: nat, c: string)
    requires Layer(g, x, depth) == []
    ensures Reachable(g, x, c) <==> c in Ancestors(g, x, depth)
  {
    if depth > 0 {
      AncestorsAreLayers(g, x, depth, c);
      if Reachable(g, x, c) {
        ReachableWithin(g, x, depth - 1, c);
        AncestorsGrow(g, x, depth - 1, depth);
      }
    }
  }

  /** Neither side can reach the empty id, which the search never reports
      (`if (candidate)` treats it as "nothing found"). */
  ghost predicate NoEmptyId(g: Graph, a: string, b: string, depth: nat) {
    "" !in Ancestors(g, a, depth) && "" !in Ancestors(g, b, depth)
  }

  /** What holds at the start of round `t` of the search for a common
      ancestor of `a` and `b`: the round lies below the depth at which both
      histories are exhausted, a search of one id with itself is still in
      its first round, and (when no empty id is in the way) nothing was
      shared up to the round before. */
  ghost predicate SearchRound(g: Graph, a: string, b: string, t: nat, depth: nat) {
    && Layer(g, a, depth) == [] && Layer(g, b, depth) == []
    && t < depth
    && (a == b && a != "" ==> t == 0)
    && (NoEmptyId(g, a, b, depth) && t > 0 ==> Ancestors(g, a, t - 1) !! Ancestors(g, b, t - 1))
  }

  /** An id `checkForCommon` reports in round `t` is visited on both sides
      by round `depth`. */
  lemma FoundIsVisited(g: Graph, a: string, b: string, t: nat, depth: nat, c: string)
    requires t <= depth
    requires (c in Layer(g, a, t) && c in Ancestors(g, b, t)) || (c in Layer(g, b, t) && c in Ancestors(g, a, t))
    ensures c in Ancestors(g, a, depth) && c in Ancestors(g, b, depth)
  {
    LayerInAncestors(g, a, t);
    LayerInAncestors(g, b, t);
    AncestorsGrow(g, a, t, depth);
    AncestorsGrow(g, b, t, depth);
  }

  /** A round that found nothing and still has ids to expand leads to the
      next round. */
  lemma NextRound(g: Graph, a: string, b: string, t: nat, depth: nat)
    requires SearchRound(g, a, b, t, depth)
    requires !(a == b && a != "")
    requires NoEmptyId(g, a, b, depth) ==>
               (forall x :: x in Layer(g, a, t) ==> x !in Ancestors(g, b, t)) &&
               (forall x :: x in Layer(g, b, t) ==> x !in Ancestors(g, a, t))
    requires Layer(g, a, t + 1) != [] || Layer(g, b, t + 1) != []
    ensures SearchRound(g, a, b, t + 1, depth)
  {
    if NoEmptyId(g, a, b, depth) {
      NoMatchKeepsDisjoint(g, a, b, t);
    }
    if Layer(g, a, t + 1) != [] {
      LayerBelowDepth(g, a, depth, t + 1);
    } else {
      LayerBelowDepth(g, b, depth, t + 1);
    }
  }

  /** A round that found nothing and has no ids left to expand ends the
      search: (when no empty id is in the way) the histories share nothing. */
  lemma LastRound(g: Graph, a: string, b: string, t: nat, depth: nat)
    requires SearchRound(g, a, b, t, depth)
    requires NoEmptyId(g, a, b, depth) ==>
               (forall x :: x in Layer(g, a, t) ==> x !in Ancestors(g, b, t)) &&
               (forall x :: x in Layer(g, b, t) ==> x !in Ancestors(g, a, t))
    requires Layer(g, a, t + 1) == [] && Layer(g, b, t + 1) == []
    ensures NoEmptyId(g, a, b, depth) ==> Ancestors(g, a, depth) !! Ancestors(g, b, depth)
  {
    AncestorsSettle(g, a, t, depth);
    AncestorsSettle(g, b, t, depth);
    if NoEmptyId(g, a, b, depth) {
      NoMatchKeepsDisjoint(g, a, b, t);
    }
  }
}
