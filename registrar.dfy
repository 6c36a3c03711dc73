/**
 * The watch registrar: watchDir walks the directory tree depth-first, in pre-order, and
 * adds every directory it does not prune to the fsnotify watcher. A directory for which
 * skipDir holds is pruned with its whole subtree; the first directory the watcher
 * refuses aborts the walk, and its error is the walk's result.
 *
 * The file system is a tree of nodes whose children are listed in the order the walk
 * visits them (lexical order). Which paths the watcher refuses is an oracle: the set of
 * failing paths. A watcher error is identified by the path it was raised for.
 */
module Registrar {
  import opened Optional
  import opened GoStrings
  import opened Filter

  datatype Node = File(name: string) | Dir(name: string, children: seq<Node>)

  /** A directory entry name as a directory listing yields it. */
  predicate ValidName(n: string) {
    n != "" && '/' !in n && n != "." && n != ".."
  }

  /** Every entry below node has a valid name. */
  ghost predicate WellNamed(node: Node)
    decreases node
  {
    node.Dir? ==>
      forall i :: 0 <= i < |node.children| ==> ValidName(node.children[i].name) && WellNamed(node.children[i])
  }

  /**
   * filepath.Join(dir, name) for a directory path the walk from "." produces (one that
   * does not end in '/') and a valid name: below the walk root "." the path is the name
   * itself. (dir is "." exactly when it is one character long and that character is '.'.)
   */
  function ChildPath(dir: string, name: string): string {
    if |dir| == 1 && dir[0] == '.' then name else dir + "/" + name
  }

  /** The child's path is never the root, and its base name (what skipDir looks at) is the entry name. */
  lemma ChildPathBase(dir: string, name: string)
    requires ValidName(name)
    ensures ChildPath(dir, name) != "."
    ensures Base(ChildPath(dir, name)) == name
  {
    if |dir| == 1 && dir[0] == '.' {
      BaseOfName(name);
    } else {
      BaseOfChild(dir, name);
    }
  }

  /** What a walk did: the paths it added to the watcher, in order, and the error it ended with. */
  datatype Outcome = Outcome(added: seq<string>, err: Option<string>)

  /**
   * filepath.Walk(path, ...) with watchDir's callback. A file is passed over; a directory
   * for which skip holds makes the callback return filepath.SkipDir, which prunes it and
   * lets the walk go on; a directory the watcher refuses ends the walk with that error.
   * watchDir's own callback prunes with Pruner(excludeDirs).
   */
  function Walk(path: string, node: Node, skip: string -> bool, failing: set<string>): (o: Outcome)
    ensures o.err.Some? ==> o.err.value in failing
    decreases node
  {
    match node
    case File(_) => Outcome([], None)
    case Dir(_, children) =>
      if skip(path) then Outcome([], None)
      else if path in failing then Outcome([], Some(path))
      else
        var rest := WalkEntries(path, children, |children|, skip, failing);
        Outcome([path] + rest.added, rest.err)
  }

  /** watchDir's callback as far as pruning goes: skipDir for the path it is given. */
  function Pruner(excludeDirs: seq<string>): string -> bool
  {
    q => SkipDir(q, excludeDirs)
  }

  /** The walk over the first k entries of the directory at dir, stopping at the first error. */
  function WalkEntries(dir: string, children: seq<Node>, k: nat, skip: string -> bool, failing: set<string>): (o: Outcome)
    requires k <= |children|
    ensures o.err.Some? ==> o.err.value in failing
    decreases children, k
  {
    if k == 0 then Outcome([], None)
    else
      var before := WalkEntries(dir, children, k - 1, skip, failing);
      if before.err.Some? then before
      else
        var o := Walk(ChildPath(dir, children[k - 1].name), children[k - 1], skip, failing);
        Outcome(before.added + o.added, o.err)
  }

  /**
   * The directories a walk that never fails registers: the pre-order listing of the
   * directories, with every skipped directory's subtree left out.
   */
  function Candidates(path: string, node: Node, skip: string -> bool): seq<string>
    decreases node
  {
    match node
    case File(_) => []
    case Dir(_, children) =>
      if skip(path) then [] else [path] + CandidatesOf(path, children, |children|, skip)
  }

  function CandidatesOf(dir: string, children: seq<Node>, k: nat, skip: string -> bool): seq<string>
    requires k <= |children|
    decreases children, k
  {
    if k == 0 then []
    else
      CandidatesOf(dir, children, k - 1, skip)
        + Candidates(ChildPath(dir, children[k - 1].name), children[k - 1], skip)
  }

  /** Every directory path in the subtree, pruned or not, in pre-order. */
  function DirPaths(path: string, node: Node): seq<string>
    decreases node
  {
    match node
    case File(_) => []
    case Dir(_, children) => [path] + DirPathsOf(path, children, |children|)
  }

  function DirPathsOf(dir: string, children: seq<Node>, k: nat): seq<string>
    requires k <= |children|
    decreases children, k
  {
    if k == 0 then []
    else DirPathsOf(dir, children, k - 1) + DirPaths(ChildPath(dir, children[k - 1].name), children[k - 1])
  }

  /**
   * How a walk relates to the listing c of the directories it would add if nothing
   * failed: without an error it added all of c, none of which fails; with an error it
   * added a prefix of c, and the error is for the next entry of c, the first that fails.
   */
  predicate StopsAtFirstFailure(o: Outcome, c: seq<string>, failing: set<string>) {
    match o.err
    case None =>
      o.added == c && forall i :: 0 <= i < |c| ==> c[i] !in failing
    case Some(q) =>
      && |o.added| < |c| && o.added == c[..|o.added|] && c[|o.added|] == q
      && q in failing && forall i :: 0 <= i < |o.added| ==> c[i] !in failing
  }

  /** The walk adds the unpruned directories in pre-order and stops at the first refusal. */
  lemma {:induction false} WalkStopsAtFirstFailure(path: string, node: Node, skip: string -> bool, failing: set<string>)
    ensures StopsAtFirstFailure(Walk(path, node, skip, failing), Candidates(path, node, skip), failing)
    decreases node, 0
  {
    match node
    case File(_) =>
    case Dir(_, children) =>
      if !skip(path) && path !in failing {
        var k := |children|;
        EntriesStopAtFirstFailure(path, children, k, skip, failing);
        FirstFailureCons(path, WalkEntries(path, children, k, skip, failing), CandidatesOf(path, children, k, skip), failing);
      }
  }

  lemma {:induction false} EntriesStopAtFirstFailure(dir: string, children: seq<Node>, k: nat, skip: string -> bool, failing: set<string>)
    requires k <= |children|
    ensures StopsAtFirstFailure(WalkEntries(dir, children, k, skip, failing), CandidatesOf(dir, children, k, skip), failing)
    decreases children, k
  {
    if k > 0 {
      var child := children[k - 1];
      var p := ChildPath(dir, child.name);
      EntriesStopAtFirstFailure(dir, children, k - 1, skip, failing);
      WalkStopsAtFirstFailure(p, child, skip, failing);
      FirstFailureConcat(WalkEntries(dir, children, k - 1, skip, failing), CandidatesOf(dir, children, k - 1, skip),
                         Walk(p, child, skip, failing), Candidates(p, child, skip), failing);
    }
  }

  /** Adding a directory that does not fail in front of a walk. */
  lemma FirstFailureCons(path: string, o: Outcome, c: seq<string>, failing: set<string>)
    requires path !in failing && StopsAtFirstFailure(o, c, failing)
    ensures StopsAtFirstFailure(Outcome([path] + o.added, o.err), [path] + c, failing)
  {
    var c' := [path] + c;
    var added := [path] + o.added;
    forall i | 0 <= i < |added| ensures c'[i] !in failing {
      if i > 0 { assert c'[i] == c[i - 1]; }
    }
    if o.err.Some? {
      assert added == c'[..|added|];
    }
  }

  /** Sequencing two walks: the second runs only when the first ended without an error. */
  lemma FirstFailureConcat(o1: Outcome, c1: seq<string>, o2: Outcome, c2: seq<string>, failing: set<string>)
    requires StopsAtFirstFailure(o1, c1, failing) && StopsAtFirstFailure(o2, c2, failing)
    ensures StopsAtFirstFailure(if o1.err.Some? then o1 else Outcome(o1.added + o2.added, o2.err), c1 + c2, failing)
  {
    var c := c1 + c2;
    if o1.err.Some? {
      assert o1.added == c[..|o1.added|];
      assert c[|o1.added|] == c1[|o1.added|];
    } else {
      var added := o1.added + o2.added;
      forall i | 0 <= i < |added| ensures c[i] !in failing {
        if i >= |c1| { assert c[i] == c2[i - |c1|]; }
      }
      if o2.err.Some? {
        assert added == c[..|added|];
        assert c[|added|] == c2[|o2.added|];
      } else {
        forall i | 0 <= i < |c| ensures c[i] !in failing {
          if i >= |c1| { assert c[i] == c2[i - |c1|]; }
        }
      }
    }
  }

  /** The walk from "." registers "." first, unless the watcher refuses it, which aborts everything. */
  lemma RootRegisteredFirst(root: Node, excludeDirs: seq<string>, failing: set<string>)
    requires root.Dir?
    ensures var o := Walk(".", root, Pruner(excludeDirs), failing);
            if "." in failing then o == Outcome([], Some("."))
            else |o.added| >= 1 && o.added[0] == "."
  {
  }

  /** A path component that survives skipDir: not hidden and not an excluded directory name. */
  predicate Visible(component: string, excludeDirs: seq<string>) {
    !HasPrefix(component, ".") && component !in excludeDirs
  }

  /** Every '/'-separated component of the path survives skipDir. */
  ghost predicate AllVisible(path: string, excludeDirs: seq<string>) {
    forall c :: c in Split(path, '/') ==> Visible(c, excludeDirs)
  }

  /**
   * Pruning: apart from the root ".", every directory the walk would register has a
   * path none of whose components is hidden or an excluded directory name; so nothing
   * below a hidden or excluded directory is ever registered.
   */
  lemma {:induction false} CandidatesPruned(path: string, node: Node, excludeDirs: seq<string>)
    requires WellNamed(node)
    requires path == "." || AllVisible(path, excludeDirs)
    ensures forall q :: q in Candidates(path, node, Pruner(excludeDirs)) ==> q == "." || AllVisible(q, excludeDirs)
    decreases node, 0
  {
    match node
    case File(_) =>
    case Dir(_, children) =>
      if !SkipDir(path, excludeDirs) {
        CandidatesOfPruned(path, children, |children|, excludeDirs);
      }
  }

  lemma {:induction false} CandidatesOfPruned(dir: string, children: seq<Node>, k: nat, excludeDirs: seq<string>)
    requires k <= |children|
    requires forall i :: 0 <= i < |children| ==> ValidName(children[i].name) && WellNamed(children[i])
    requires dir == "." || AllVisible(dir, excludeDirs)
    ensures forall q :: q in CandidatesOf(dir, children, k, Pruner(excludeDirs)) ==> q == "." || AllVisible(q, excludeDirs)
    decreases children, k
  {
    if k > 0 {
      var child := children[k - 1];
      var p := ChildPath(dir, child.name);
      CandidatesOfPruned(dir, children, k - 1, excludeDirs);
      if !SkipDir(p, excludeDirs) && child.Dir? {
        ChildVisible(dir, child.name, excludeDirs);
        CandidatesPruned(p, child, excludeDirs);
      }
    }
  }

  /** A child that skipDir keeps, below "." or below a visible path, has a visible path. */
  lemma ChildVisible(dir: string, n: string, excludeDirs: seq<string>)
    requires ValidName(n)
    requires dir == "." || AllVisible(dir, excludeDirs)
    requires !SkipDir(ChildPath(dir, n), excludeDirs)
    ensures AllVisible(ChildPath(dir, n), excludeDirs)
  {
    ChildComponents(dir, n);
    ChildPathBase(dir, n);
  }

  /** The components of a child's path: those of its directory, then its name. */
  lemma ChildComponents(dir: string, n: string)
    requires ValidName(n)
    ensures ChildPath(dir, n) != "."
    ensures Split(ChildPath(dir, n), '/') == if dir == "." then [n] else Split(dir, '/') + [n]
  {
    SplitWithoutSeparator(n, '/');
    if dir != "." {
      assert dir + "/" + n == dir + ['/'] + n;
      SplitAtSeparator(dir, n, '/');
    }
  }

  /** Every directory path below a path other than "." extends that path's components. */
  lemma {:induction false} DirPathsExtend(path: string, node: Node)
    requires WellNamed(node) && path != "."
    ensures forall q :: q in DirPaths(path, node) ==> q != "." && Split(path, '/') <= Split(q, '/')
    decreases node, 0
  {
    match node
    case File(_) =>
    case Dir(_, children) =>
      DirPathsOfExtend(path, children, |children|);
  }

  lemma {:induction false} DirPathsOfExtend(dir: string, children: seq<Node>, k: nat)
    requires k <= |children|
    requires forall i :: 0 <= i < |children| ==> ValidName(children[i].name) && WellNamed(children[i])
    requires dir != "."
    ensures forall q :: q in DirPathsOf(dir, children, k) ==> q != "." && Split(dir, '/') <= Split(q, '/')
    decreases children, k
  {
    if k > 0 {
      var child := children[k - 1];
      DirPathsOfExtend(dir, children, k - 1);
      ChildComponents(dir, child.name);
      DirPathsExtend(ChildPath(dir, child.name), child);
    }
  }

  /**
   * A skipped directory's whole subtree is pruned: no directory in the subtree of a
   * child n of dir that skipDir rejects is ever registered by a walk from ".", whatever
   * the tree and whichever paths the watcher refuses.
   */
  lemma {:induction false} SkippedSubtreeNeverRegistered(
    dir: string, sub: Node, root: Node, excludeDirs: seq<string>, failing: set<string>)
    requires WellNamed(root) && WellNamed(sub) && ValidName(sub.name)
    requires SkipDir(ChildPath(dir, sub.name), excludeDirs)
    ensures forall q :: q in DirPaths(ChildPath(dir, sub.name), sub) ==> q !in Walk(".", root, Pruner(excludeDirs), failing).added
  {
    RegisteredPruned(root, excludeDirs, failing);
    SkippedSubtreeHidden(dir, sub, excludeDirs);
  }

  /** Apart from ".", every path a walk from "." registers has only visible components. */
  lemma {:induction false} RegisteredPruned(root: Node, excludeDirs: seq<string>, failing: set<string>)
    requires WellNamed(root)
    ensures forall q :: q in Walk(".", root, Pruner(excludeDirs), failing).added ==> q == "." || AllVisible(q, excludeDirs)
  {
    CandidatesPruned(".", root, excludeDirs);
    WalkStopsAtFirstFailure(".", root, Pruner(excludeDirs), failing);
    var o := Walk(".", root, Pruner(excludeDirs), failing);
    var c := Candidates(".", root, Pruner(excludeDirs));
    forall q | q in o.added ensures q in c {
      var i :| 0 <= i < |o.added| && o.added[i] == q;
      assert c[i] == q;
    }
  }

  /** Every directory path in the subtree of a skipped child has a hidden or excluded component. */
  lemma {:induction false} SkippedSubtreeHidden(dir: string, sub: Node, excludeDirs: seq<string>)
    requires WellNamed(sub) && ValidName(sub.name)
    requires SkipDir(ChildPath(dir, sub.name), excludeDirs)
    ensures forall q :: q in DirPaths(ChildPath(dir, sub.name), sub) ==> q != "." && !AllVisible(q, excludeDirs)
  {
    var p := ChildPath(dir, sub.name);
    var comps := SkippedChildComponents(dir, sub.name, excludeDirs);
    DirPathsExtend(p, sub);
    forall q | q in DirPaths(p, sub) ensures !AllVisible(q, excludeDirs) {
      HiddenComponentInherited(comps, Split(q, '/'), excludeDirs);
    }
  }

  /** The last component of a skipped child's path is its name, which is hidden or excluded. */
  lemma SkippedChildComponents(dir: string, n: string, excludeDirs: seq<string>) returns (comps: seq<string>)
    requires ValidName(n) && SkipDir(ChildPath(dir, n), excludeDirs)
    ensures comps == Split(ChildPath(dir, n), '/')
    ensures |comps| >= 1 && !Visible(comps[|comps| - 1], excludeDirs)
  {
    ChildComponents(dir, n);
    ChildPathBase(dir, n);
    comps := Split(ChildPath(dir, n), '/');
  }

  lemma HiddenComponentInherited(comps: seq<string>, qs: seq<string>, excludeDirs: seq<string>)
    requires |comps| >= 1 && !Visible(comps[|comps| - 1], excludeDirs) && comps <= qs
    ensures exists c :: c in qs && !Visible(c, excludeDirs)
  {
    assert qs[|comps| - 1] == comps[|comps| - 1];
  }

  /**
   * Completeness of pruning: every directory of the tree whose path has only visible
   * components (or is ".") is one the walk would register, below a directory that is
   * not itself pruned.
   */
  lemma {:induction false} CandidatesComplete(path: string, node: Node, excludeDirs: seq<string>)
    requires WellNamed(node)
    requires path == "." || !SkipDir(path, excludeDirs)
    ensures forall q :: q in DirPaths(path, node) && (q == "." || AllVisible(q, excludeDirs)) ==>
              q in Candidates(path, node, Pruner(excludeDirs))
    decreases node, 0
  {
    match node
    case File(_) =>
    case Dir(_, children) =>
      assert !Pruner(excludeDirs)(path);
      CandidatesOfComplete(path, children, |children|, excludeDirs);
  }

  lemma {:induction false} CandidatesOfComplete(dir: string, children: seq<Node>, k: nat, excludeDirs: seq<string>)
    requires k <= |children|
    requires forall i :: 0 <= i < |children| ==> ValidName(children[i].name) && WellNamed(children[i])
    ensures forall q :: q in DirPathsOf(dir, children, k) && (q == "." || AllVisible(q, excludeDirs)) ==>
              q in CandidatesOf(dir, children, k, Pruner(excludeDirs))
    decreases children, k
  {
    if k > 0 {
      var child := children[k - 1];
      var p := ChildPath(dir, child.name);
      CandidatesOfComplete(dir, children, k - 1, excludeDirs);
      if SkipDir(p, excludeDirs) {
        SkippedSubtreeHidden(dir, child, excludeDirs);
      } else {
        ChildComponents(dir, child.name);
        CandidatesComplete(p, child, excludeDirs);
      }
    }
  }

  /** Whatever the prune test, the walk would register only directories of the tree. */
  lemma {:induction false} CandidatesAreDirectories(path: string, node: Node, skip: string -> bool)
    ensures forall q :: q in Candidates(path, node, skip) ==> q in DirPaths(path, node)
    decreases node, 0
  {
    match node
    case File(_) =>
    case Dir(_, children) =>
      CandidatesOfAreDirectories(path, children, |children|, skip);
  }

  lemma {:induction false} CandidatesOfAreDirectories(dir: string, children: seq<Node>, k: nat, skip: string -> bool)
    requires k <= |children|
    ensures forall q :: q in CandidatesOf(dir, children, k, skip) ==> q in DirPathsOf(dir, children, k)
    decreases children, k
  {
    if k > 0 {
      CandidatesOfAreDirectories(dir, children, k - 1, skip);
      CandidatesAreDirectories(ChildPath(dir, children[k - 1].name), children[k - 1], skip);
    }
  }

  /**
   * A walk from "." that the watcher never refuses registers exactly the directories of
   * the tree outside pruned subtrees: "." and every directory whose path has only
   * visible components.
   */
  lemma {:induction false} RegistersExactlyVisible(root: Node, excludeDirs: seq<string>, failing: set<string>)
    requires WellNamed(root)
    ensures var o := Walk(".", root, Pruner(excludeDirs), failing);
            o.err == None ==>
              forall q :: q in o.added <==> q in DirPaths(".", root) && (q == "." || AllVisible(q, excludeDirs))
  {
    WalkStopsAtFirstFailure(".", root, Pruner(excludeDirs), failing);
    CandidatesPruned(".", root, excludeDirs);
    CandidatesComplete(".", root, excludeDirs);
    CandidatesAreDirectories(".", root, Pruner(excludeDirs));
  }

  /** The fsnotify watcher as far as the walk uses it: the paths it watches, and which it refuses. */
  class Watcher {
    const failing: set<string>
    var watched: seq<string>

    constructor (failing: set<string>)
      ensures this.failing == failing && watched == []
    {
      this.failing := failing;
      watched := [];
    }

    /** watcher.Add: start watching path, or fail for it. */
    method Add(path: string) returns (err: Option<string>)
      modifies this
      ensures err == if path in failing then Some(path) else None
      ensures watched == if path in failing then old(watched) else old(watched) + [path]
    {
      if path in failing {
        err := Some(path);
      } else {
        err := None;
        watched := watched + [path];
      }
    }
  }

  /**
   * watchDir(watcher, path) over the tree node at path: filepath.Walk with the callback
   * inlined and skipDir as its prune test. The watcher ends up watching what Walk says,
   * and the error is Walk's.
   */
  method WatchDir(w: Watcher, path: string, node: Node, excludeDirs: seq<string>) returns (err: Option<string>)
    modifies w
    ensures w.watched == old(w.watched) + Walk(path, node, Pruner(excludeDirs), w.failing).added
    ensures err == Walk(path, node, Pruner(excludeDirs), w.failing).err
  {
    err := Visit(w, path, node, excludeDirs, Pruner(excludeDirs));
  }

  /**
   * The walk's visit of the node at path. The ghost skip is the prune test the callback
   * computes with skipDir; the quantifier fires only where the code calls SkipDir.
   */
  method Visit(w: Watcher, path: string, node: Node, excludeDirs: seq<string>, ghost skip: string -> bool)
    returns (err: Option<string>)
    requires forall q {:trigger SkipDir(q, excludeDirs)} :: skip(q) == SkipDir(q, excludeDirs)
    modifies w
    ensures w.watched == old(w.watched) + Walk(path, node, skip, w.failing).added
    ensures err == Walk(path, node, skip, w.failing).err
    decreases node, 0
  {
    if node.File? {
      return None;
    }
    if SkipDir(path, excludeDirs) {
      return None;
    }
    err := w.Add(path);
    if err.Some? {
      return;
    }
    err := VisitEntries(w, path, node.children, |node.children|, excludeDirs, skip);
  }

  /**
   * The walk's visit of the first k entries of the directory at dir, in order, giving up
   * at the first error.
   */
  method VisitEntries(w: Watcher, dir: string, children: seq<Node>, k: nat, excludeDirs: seq<string>, ghost skip: string -> bool)
    returns (err: Option<string>)
    requires k <= |children|
    requires forall q {:trigger SkipDir(q, excludeDirs)} :: skip(q) == SkipDir(q, excludeDirs)
    modifies w
    ensures w.watched == old(w.watched) + WalkEntries(dir, children, k, skip, w.failing).added
    ensures err == WalkEntries(dir, children, k, skip, w.failing).err
    decreases children, k
  {
    if k == 0 {
      err := None;
    } else {
      err := VisitEntries(w, dir, children, k - 1, excludeDirs, skip);
      ghost var before := WalkEntries(dir, children, k - 1, skip, w.failing);
      if err.Some? {
        AbortedWalkStops(dir, children, k - 1, k, skip, w.failing);
      } else {
        var child := children[k - 1];
        err := Visit(w, ChildPath(dir, child.name), child, excludeDirs, skip);
        EntryAppended(dir, children, k - 1, skip, w.failing);
        AppendAssoc(old(w.watched), before.added, Walk(ChildPath(dir, child.name), child, skip, w.failing).added);
      }
    }
  }

  lemma AppendAssoc(a: seq<string>, b: seq<string>, c: seq<string>)
    ensures (a + b) + c == a + (b + c)
  {
  }

  /** The walk over one more entry, after the earlier ones succeeded, appends that entry's walk. */
  lemma EntryAppended(dir: string, children: seq<Node>, i: nat, skip: string -> bool, failing: set<string>)
    requires i < |children|
    requires WalkEntries(dir, children, i, skip, failing).err == None
    ensures var o := Walk(ChildPath(dir, children[i].name), children[i], skip, failing);
            WalkEntries(dir, children, i + 1, skip, failing)
              == Outcome(WalkEntries(dir, children, i, skip, failing).added + o.added, o.err)
  {
  }

  /** Once the walk over the first k entries has failed, the later entries are not visited. */
  lemma {:induction false} AbortedWalkStops(dir: string, children: seq<Node>, k: nat, m: nat, skip: string -> bool, failing: set<string>)
    requires k <= m <= |children|
    requires WalkEntries(dir, children, k, skip, failing).err.Some?
    ensures WalkEntries(dir, children, m, skip, failing) == WalkEntries(dir, children, k, skip, failing)
    decreases m
  {
    if k < m {
      AbortedWalkStops(dir, children, k, m - 1, skip, failing);
      var before := WalkEntries(dir, children, m - 1, skip, failing);
      assert before.err.Some?;
      assert WalkEntries(dir, children, m, skip, failing) == before;
    } else {
      assert k == m;
    }
  }
}
