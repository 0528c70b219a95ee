/** The migration chain check: every parent must exist, and the heads are the revisions that are
    nobody's parent.  A migration has at most one parent, so accepted sets are parent maps. */
module MigrationChain {
  import opened Common

  /** A parsed file: the revision, if one was found, and its `down_revision`, where the word UNKNOWN
      stands for one that could not be parsed. */
  datatype Migration = Migration(revision: Option<string>, down: Option<string>)

  const UNKNOWN := "UNKNOWN"

  datatype Problem =
    | MissingRevision(file: nat)
    | DuplicateRevision(file: nat, revision: string)
    | Unparsable(revision: string)
    | ParentNotFound(revision: string, parent: string)

  datatype Report = Report(exitCode: int, downs: map<string, Option<string>>, heads: set<string>, warned: bool)

  // ----- The check

  class Checker {
    var downs: map<string, Option<string>>
    var errors: seq<Problem>

    constructor ()
      ensures downs == map[] && errors == []
    {
      downs, errors := map[], [];
    }

    /** First pass: the first file of each revision is kept; nameless and repeated ones are errors. */
    method Collect(files: seq<Migration>)
      modifies this
      requires downs == map[] && errors == []
      ensures downs == Collected(files)
      ensures errors == [] <==> AllNamedOnce(files)
    {
      var i := 0;
      while i < |files|
        invariant i <= |files|
        invariant downs == Collected(files[..i])
        invariant errors == [] <==> AllNamedOnce(files[..i])
      {
        assert files[..i + 1][..i] == files[..i];
        CollectedNames(files[..i]);
        var file := files[i];
        if file.revision.None? {
          errors := errors + [MissingRevision(i)];
        } else if file.revision.value in downs {
          errors := errors + [DuplicateRevision(i, file.revision.value)];
        } else {
          downs := downs[file.revision.value := file.down];
        }
        i := i + 1;
      }
      assert files[..|files|] == files;
    }

    /** Second pass: every parent named must be a revision. */
    method CheckParents()
      modifies this`errors
      ensures errors == [] <==> old(errors) == [] && ParentsExist(downs)
    {
      var todo := downs.Keys;
      ghost var checked: set<string> := {};
      while todo != {}
        invariant todo !! checked && todo + checked == downs.Keys
        invariant errors == [] <==> old(errors) == [] && forall r | r in checked :: ParentExists(downs, r)
        decreases todo
      {
        var r :| r in todo;
        todo, checked := todo - {r}, checked + {r};
        if downs[r].Some? {
          if downs[r].value == UNKNOWN {
            errors := errors + [Unparsable(r)];
          } else if downs[r].value !in downs {
            errors := errors + [ParentNotFound(r, downs[r].value)];
          }
        }
      }
    }

    /** `main`: a missing directory and an empty one are errors too. */
    method Run(files: Option<seq<Migration>>) returns (report: Report)
      modifies this
      requires downs == map[] && errors == []
      ensures report.exitCode == 0 <==> files.Some? && files.value != [] && Passes(files.value)
      ensures report.exitCode == 0 || report.exitCode == 1
      ensures report.exitCode == 0 ==>
                && report.downs == Collected(files.value) && IsParentMap(report.downs, files.value)
                && report.heads == Heads(report.downs) && (report.warned <==> |report.heads| > 1)
    {
      if files.Some? { PassesExactly(files.value); }
      if files.None? || files.value == [] {
        return Report(1, map[], {}, false);
      }
      Collect(files.value);
      CheckParents();
      var parents := set r | r in downs && downs[r].Some? :: downs[r].value;
      var heads := downs.Keys - parents;
      heads := set h | h in heads && downs[h] != Some(UNKNOWN);
      if errors != [] {
        return Report(1, downs, heads, false);
      }
      report := Report(0, downs, heads, |heads| > 1);
    }
  }

  // ----- What acceptance means

  function Collected(files: seq<Migration>): map<string, Option<string>> {
    if files == [] then map[]
    else
      var n := |files| - 1;
      var before := Collected(files[..n]);
      if files[n].revision.Some? && files[n].revision.value !in before
      then before[files[n].revision.value := files[n].down] else before
  }

  ghost predicate AllNamedOnce(files: seq<Migration>) {
    && (forall i | 0 <= i < |files| :: files[i].revision.Some?)
    && (forall i, j | 0 <= i < j < |files| :: files[i].revision != files[j].revision)
  }

  predicate ParentExists(downs: map<string, Option<string>>, r: string)
    requires r in downs
  {
    downs[r].Some? ==> downs[r].value != UNKNOWN && downs[r].value in downs
  }

  ghost predicate ParentsExist(downs: map<string, Option<string>>) {
    forall r | r in downs :: ParentExists(downs, r)
  }

  ghost predicate Accepted(files: seq<Migration>) {
    AllNamedOnce(files) && ParentsExist(Collected(files))
  }

  /** The files' own condition: each names a revision of its own, and a parent, if any, that was parsed and is
      the revision of some file. */
  ghost predicate Passes(files: seq<Migration>) {
    && AllNamedOnce(files)
    && forall i | 0 <= i < |files| && files[i].down.Some? ::
         files[i].down != Some("UNKNOWN") && exists j | 0 <= j < |files| :: files[j].revision == files[i].down
  }

  /** The map holds every file's revision with that file's parent, and nothing else. */
  ghost predicate IsParentMap(downs: map<string, Option<string>>, files: seq<Migration>) {
    && (forall r | r in downs :: exists i | 0 <= i < |files| :: files[i].revision == Some(r))
    && forall i | 0 <= i < |files| ::
         files[i].revision.Some? && files[i].revision.value in downs && downs[files[i].revision.value] == files[i].down
  }

  /** A revision keeps the parent of the first file that names it. */
  lemma {:induction false} FirstFileKept(files: seq<Migration>, i: nat)
    requires i < |files| && files[i].revision.Some? && forall j | 0 <= j < i :: files[j].revision != files[i].revision
    ensures files[i].revision.value in Collected(files) && Collected(files)[files[i].revision.value] == files[i].down
    decreases |files|
  {
    var n := |files| - 1;
    var front := files[..n];
    if i < n {
      assert front[i] == files[i] && forall j | 0 <= j < i :: front[j] == files[j];
      FirstFileKept(front, i);
    } else {
      CollectedNames(front);
      assert forall j | 0 <= j < n :: front[j].revision == files[j].revision;
    }
  }

  /** The check accepts exactly the files that meet their own condition, and then holds their parents. */
  lemma PassesExactly(files: seq<Migration>)
    ensures Accepted(files) <==> Passes(files)
    ensures AllNamedOnce(files) ==> IsParentMap(Collected(files), files)
  {
    CollectedNames(files);
    var downs := Collected(files);
    if AllNamedOnce(files) {
      forall i: nat | i < |files|
        ensures files[i].revision.value in downs && downs[files[i].revision.value] == files[i].down
      {
        FirstFileKept(files, i);
      }
      forall r | r in downs ensures exists i | 0 <= i < |files| :: files[i].revision == Some(r) && files[i].down == downs[r] {
        var i :| 0 <= i < |files| && files[i].revision == Some(r);
        assert downs[files[i].revision.value] == files[i].down;
      }
    }
  }

  ghost function Heads(downs: map<string, Option<string>>): set<string> {
    set h | h in downs && forall r | r in downs :: downs[r] != Some(h)
  }

  lemma {:induction false} CollectedNames(files: seq<Migration>)
    ensures forall r :: r in Collected(files) <==> exists i :: 0 <= i < |files| && files[i].revision == Some(r)
  {
    if files != [] {
      var n := |files| - 1;
      CollectedNames(files[..n]);
      forall r ensures r in Collected(files) <==> exists i :: 0 <= i < |files| && files[i].revision == Some(r) {
        if r in Collected(files[..n]) {
          var i :| 0 <= i < n && files[..n][i].revision == Some(r);
          assert files[i].revision == Some(r);
        }
        if i :| 0 <= i < |files| && files[i].revision == Some(r) {
          if i < n { assert files[..n][i].revision == Some(r); }
        }
      }
    }
  }

  // ----- Chains, cycles and heads

  /** `path` climbs from a revision to a child, and on. */
  ghost predicate Climbs(downs: map<string, Option<string>>, path: seq<string>) {
    && (forall i | 0 <= i < |path| :: path[i] in downs)
    && (forall i, j | 0 <= i && j == i + 1 && j < |path| :: downs[path[j]] == Some(path[i]))
  }

  /** Some revision is, over one or more links, its own ancestor. */
  ghost predicate HasCycle(downs: map<string, Option<string>>) {
    exists path :: Climbs(downs, path) && |path| >= 2 && path[0] == path[|path| - 1]
  }

  /** The revisions form one chain: a root, then each the child of the one before, all of them once. */
  ghost predicate IsChain(downs: map<string, Option<string>>, path: seq<string>) {
    && path != [] && Climbs(downs, path) && Distinct(path) && downs[path[0]].None?
    && Elements(path) == downs.Keys
  }

  /** From any revision, going up children ends in a head unless there is a cycle. */
  lemma {:induction false} ClimbToHead(downs: map<string, Option<string>>, path: seq<string>) returns (longer: seq<string>)
    requires path != [] && Climbs(downs, path) && Distinct(path)
    ensures HasCycle(downs) ||
            (longer != [] && Climbs(downs, longer) && path <= longer && longer[|longer| - 1] in Heads(downs))
    decreases |downs| - |path|
  {
    longer := path;
    var last := path[|path| - 1];
    if last !in Heads(downs) {
      var child :| child in downs && downs[child] == Some(last);
      longer := path + [child];
      assert Climbs(downs, longer);
      if child in path {
        var i :| 0 <= i < |path| && path[i] == child;
        assert Climbs(downs, longer[i..]);
      } else {
        PathFits(downs, longer);
        longer := ClimbToHead(downs, longer);
      }
    }
  }

  /** From any revision, going down parents ends in a root unless there is a cycle. */
  lemma {:induction false} DescendToRoot(downs: map<string, Option<string>>, path: seq<string>) returns (longer: seq<string>)
    requires ParentsExist(downs) && path != [] && Climbs(downs, path) && Distinct(path)
    ensures HasCycle(downs) ||
            (longer != [] && Climbs(downs, longer) && Distinct(longer)
             && longer[|longer| - 1] == path[|path| - 1] && downs[longer[0]].None?)
    decreases |downs| - |path|
  {
    longer := path;
    if downs[path[0]].Some? {
      var parent := downs[path[0]].value;
      assert ParentExists(downs, path[0]);
      longer := [parent] + path;
      assert Climbs(downs, longer);
      if parent in path {
        var i :| 0 <= i < |path| && path[i] == parent;
        assert Climbs(downs, longer[..i + 2]);
      } else {
        PathFits(downs, longer);
        longer := DescendToRoot(downs, longer);
      }
    }
  }

  lemma PathFits(downs: map<string, Option<string>>, path: seq<string>)
    requires Climbs(downs, path) && Distinct(path)
    ensures |path| <= |downs|
  {
    DistinctSize(path);
    SubsetSize(Elements(path), downs.Keys);
  }

  /** A non-empty accepted set with no head has a cycle. */
  lemma NoHeadMeansCycle(downs: map<string, Option<string>>)
    requires downs != map[] && Heads(downs) == {}
    ensures HasCycle(downs)
  {
    var r :| r in downs;
    var path := ClimbToHead(downs, [r]);
  }

  /** Two climbs to the same revision agree, counted back from it, as far as the shorter one goes. */
  lemma {:induction false} ClimbsAgree(downs: map<string, Option<string>>, a: seq<string>, b: seq<string>, k: nat)
    requires Climbs(downs, a) && Climbs(downs, b) && k < |a| && k < |b| && a[|a| - 1] == b[|b| - 1]
    ensures a[|a| - 1 - k] == b[|b| - 1 - k]
    decreases k
  {
    if k > 0 {
      ClimbsAgree(downs, a, b, k - 1);
      assert downs[a[|a| - k]] == Some(a[|a| - 1 - k]);
      assert downs[b[|b| - k]] == Some(b[|b| - 1 - k]);
    }
  }

  lemma HasParent(downs: map<string, Option<string>>, path: seq<string>, i: nat)
    requires Climbs(downs, path) && 0 < i < |path|
    ensures downs[path[i]] == Some(path[i - 1])
  {
  }

  /** Below a single head, with no cycle, lie all revisions. */
  lemma SingleHeadReachesAll(downs: map<string, Option<string>>, path: seq<string>, r: string)
    requires !HasCycle(downs) && r in downs && path != [] && Climbs(downs, path) && downs[path[0]].None?
    requires Heads(downs) == {path[|path| - 1]}
    ensures r in path
  {
    var up := ClimbToHead(downs, [r]);
    assert up[0] == r && up[|up| - 1] == path[|path| - 1];
    if |up| <= |path| {
      ClimbsAgree(downs, up, path, |up| - 1);
    } else {
      ClimbsAgree(downs, up, path, |path| - 1);
      HasParent(downs, up, |up| - |path|);
      assert false;
    }
  }

  lemma SingleHeadMeansChain(downs: map<string, Option<string>>) returns (path: seq<string>)
    requires ParentsExist(downs) && !HasCycle(downs) && |Heads(downs)| == 1
    ensures IsChain(downs, path)
  {
    var h :| h in Heads(downs);
    assert Heads(downs) == {h} by {
      assert |Heads(downs) - {h}| == 0;
    }
    path := DescendToRoot(downs, [h]);
    forall r | r in downs ensures r in Elements(path) {
      SingleHeadReachesAll(downs, path, r);
    }
  }

  lemma ChainHasSingleHead(downs: map<string, Option<string>>, path: seq<string>)
    requires IsChain(downs, path)
    ensures Heads(downs) == {path[|path| - 1]}
  {
    var last := |path| - 1;
    forall r | r in downs ensures downs[r] != Some(path[last]) {
      assert r in Elements(path);
      var i :| 0 <= i < |path| && path[i] == r;
      assert i > 0 ==> downs[path[i]] == Some(path[i - 1]);
    }
    forall h | h in downs && h != path[last] ensures h !in Heads(downs) {
      assert h in Elements(path);
      var i :| 0 <= i < |path| && path[i] == h;
      assert downs[path[i + 1]] == Some(path[i]);
    }
  }

  /** Along a cycle, positions in a chain would have to grow for ever. */
  lemma {:induction false} ChainPositions(downs: map<string, Option<string>>, path: seq<string>, climb: seq<string>, i: nat, j: nat)
    requires IsChain(downs, path) && Climbs(downs, climb) && j < |climb| && i < |path| && path[i] == climb[0]
    ensures i + j < |path| && path[i + j] == climb[j]
    decreases j
  {
    if j > 0 {
      ChainPositions(downs, path, climb, i, j - 1);
      assert downs[climb[j]] == Some(climb[j - 1]);
      assert climb[j] in Elements(path);
      var m :| 0 <= m < |path| && path[m] == climb[j];
      assert m > 0 ==> downs[path[m]] == Some(path[m - 1]);
      assert m - 1 == i + j - 1;
    }
  }

  lemma ChainHasNoCycle(downs: map<string, Option<string>>, path: seq<string>)
    requires IsChain(downs, path)
    ensures !HasCycle(downs)
  {
    forall climb | Climbs(downs, climb) && |climb| >= 2 ensures climb[0] != climb[|climb| - 1] {
      assert climb[0] in Elements(path);
      var i: nat :| i < |path| && path[i] == climb[0];
      ChainPositions(downs, path, climb, i, |climb| - 1);
    }
  }

  /** The main theorem: an accepted set of revisions is one linear chain exactly when it has a single
      head and no cycle. */
  lemma LinearExactly(files: seq<Migration>)
    requires Accepted(files)
    ensures var downs := Collected(files);
            (exists path :: IsChain(downs, path)) <==> |Heads(downs)| == 1 && !HasCycle(downs)
  {
    var downs := Collected(files);
    if path :| IsChain(downs, path) {
      ChainHasSingleHead(downs, path);
      ChainHasNoCycle(downs, path);
    }
    if |Heads(downs)| == 1 && !HasCycle(downs) {
      var path := SingleHeadMeansChain(downs);
    }
  }

  /** A chain has one root, and no revision has two children. */
  lemma ChainHasOneRootNoForks(downs: map<string, Option<string>>, path: seq<string>, a: string, b: string)
    requires IsChain(downs, path) && a in downs && b in downs && downs[a] == downs[b]
    ensures a == b
  {
    assert a in Elements(path) && b in Elements(path);
    var i :| 0 <= i < |path| && path[i] == a;
    var j :| 0 <= j < |path| && path[j] == b;
    assert i > 0 ==> downs[path[i]] == Some(path[i - 1]);
    assert j > 0 ==> downs[path[j]] == Some(path[j - 1]);
  }

  /** The check promises a single head but only warns about several, and a cycle passes without even a
      warning: two revisions that name each other are accepted. */
  lemma CyclePassesTheCheck()
    ensures var files := [Migration(Some("a"), Some("b")), Migration(Some("b"), Some("a"))];
            Accepted(files) && Heads(Collected(files)) == {} && HasCycle(Collected(files))
  {
    var files := [Migration(Some("a"), Some("b")), Migration(Some("b"), Some("a"))];
    assert files[..1] == [files[0]] && files[..1][..0] == [];
    assert Collected(files[..1]) == map["a" := Some("b")];
    var downs := Collected(files);
    assert downs == map["a" := Some("b"), "b" := Some("a")];
    assert downs["b"] == Some("a") && downs["a"] == Some("b");
    assert "a" !in Heads(downs) && "b" !in Heads(downs);
    assert Climbs(downs, ["a", "b", "a"]);
  }
}
